/** The client's class list: which slots are shown, and for each one whether it can be booked
    or cancelled and why not. `now` stands for the page's `new Date()`. */
module ClientClases {
  import opened Wrappers
  import opened Domain
  import Seqs
  import Sorting

  /* ---------- Cutoff ---------- */

  /** `slot.cutoff_minutes ?? slot.cutoff ?? 0` */
  function CutoffMinutes(s: Slot): int {
    s.cutoffMinutes.OrElse(s.cutoff).GetOr(0)
  }

  /** `beforeCutoff`: booking and cancelling stay open strictly before the start minus the
      cutoff window; `cutoff_minutes` wins over `cutoff`, and no window means the start itself. */
  function BeforeCutoff(s: Slot, now: int): (open: bool)
    ensures s.cutoffMinutes.Some? ==> (open <==> now < s.inicio - s.cutoffMinutes.value * MsPerMinute)
    ensures s.cutoffMinutes.None? && s.cutoff.Some? ==> (open <==> now < s.inicio - s.cutoff.value * MsPerMinute)
    ensures s.cutoffMinutes.None? && s.cutoff.None? ==> (open <==> now < s.inicio)
  {
    now < s.inicio - CutoffMinutes(s) * MsPerMinute
  }

  /** Once the cutoff has passed it stays passed. */
  lemma CutoffClosedStaysClosed(s: Slot, now: int, later: int)
    requires now <= later
    ensures !BeforeCutoff(s, now) ==> !BeforeCutoff(s, later)
  {
  }

  /** `isStarted`: the start has been reached. */
  predicate IsStarted(s: Slot, now: int) {
    s.inicio <= now
  }

  /** With a non-negative window, a slot open for booking has not started yet. */
  lemma OpenSlotNotStarted(s: Slot, now: int)
    requires CutoffMinutes(s) >= 0
    ensures BeforeCutoff(s, now) ==> !IsStarted(s, now)
  {
  }

  /* ---------- Overlap ---------- */

  predicate Within(t: int, lo: int, hi: int) {
    lo <= t < hi
  }

  /** `overlaps` on half-open ranges [aStart, aEnd) and [bStart, bEnd): for non-empty ranges
      it holds exactly when some instant lies in both; ranges that only touch never overlap. */
  function Overlaps(aStart: int, aEnd: int, bStart: int, bEnd: int): (r: bool)
    ensures aStart < aEnd && bStart < bEnd ==>
      (r <==> exists t :: Within(t, aStart, aEnd) && Within(t, bStart, bEnd))
    ensures aEnd == bStart || bEnd == aStart ==> !r
  {
    var r := aStart < bEnd && bStart < aEnd;
    var t := if aStart < bStart then bStart else aStart;
    assert aStart < aEnd && bStart < bEnd && r ==> Within(t, aStart, aEnd) && Within(t, bStart, bEnd);
    r
  }

  lemma OverlapsSymmetric(aStart: int, aEnd: int, bStart: int, bEnd: int)
    ensures Overlaps(aStart, aEnd, bStart, bEnd) == Overlaps(bStart, bEnd, aStart, aEnd)
  {
  }

  /** Booking `b` of mine clashes with slot `s`: it has a snapshot whose start is strictly after
      `now`, and the two ranges overlap; either end defaults to start + (duracion ?? 60) min. */
  predicate Conflicts(s: Slot, b: Booking, now: int) {
    match b.slotInfo
    case None => false
    case Some(info) =>
      match info.inicio
      case None => false
      case Some(bStart) =>
        bStart > now && Overlaps(s.inicio, SlotEnd(s), bStart, info.fin.GetOr(DefaultEnd(bStart, info.duracion)))
  }

  /** `tengoSolape = misBookings.some(...)` */
  function TengoSolape(s: Slot, mine: seq<Booking>, now: int): (r: bool)
    ensures r <==> exists b :: b in mine && Conflicts(s, b, now)
    ensures r ==> exists b :: b in mine && Start(b).Some? && Start(b).value > now
  {
    if mine == [] then false
    else
      assert forall b :: b in mine <==> b == mine[0] || b in mine[1..];
      Conflicts(s, mine[0], now) || TengoSolape(s, mine[1..], now)
  }

  /** Bookings without a snapshot, without a start, or starting at or before `now` never
      cause an overlap. */
  lemma {:induction false} PastBookingsIgnored(s: Slot, mine: seq<Booking>, extra: Booking, now: int)
    requires Start(extra).None? || Start(extra).value <= now
    ensures TengoSolape(s, mine + [extra], now) == TengoSolape(s, mine, now)
  {
    assert !Conflicts(s, extra, now);
    assert forall b :: b in mine + [extra] <==> b in mine || b == extra;
  }

  /* ---------- Occupancy ---------- */

  /** `s.reservas_count ?? s.ocupados ?? 0` */
  function Ocupados(s: Slot): int {
    s.reservasCount.OrElse(s.ocupados).GetOr(0)
  }

  /** `s.capacidad ?? s.capacidad_maxima ?? 0` */
  function Capacidad(s: Slot): int {
    s.capacidad.OrElse(s.capacidadMaxima).GetOr(0)
  }

  /** `Math.max(capacidad - ocupados, 0)`: never negative, positive exactly when a seat is left,
      and then it is the number of seats left. */
  function Disponibles(s: Slot): (n: int)
    ensures n >= 0
    ensures n > 0 <==> Ocupados(s) < Capacidad(s)
    ensures n > 0 ==> Ocupados(s) + n == Capacidad(s)
  {
    if Capacidad(s) - Ocupados(s) > 0 then Capacidad(s) - Ocupados(s) else 0
  }

  /* ---------- My bookings ---------- */

  /** `me?.id ?? -1` */
  function MeId(me: Option<Profile>): int {
    match me
    case Some(p) => p.id.GetOr(-1)
    case None => -1
  }

  /** The bookings the page treats as mine: `(r.user_info?.id ?? r.user) === (me?.id ?? -1)`. */
  function MyBookings(bookings: seq<Booking>, me: Option<Profile>): (mine: seq<Booking>)
    ensures forall b :: b in mine <==> b in bookings && Owner(b) == Some(MeId(me))
    ensures Seqs.SubsequenceOf(mine, bookings)
  {
    Seqs.Filter(bookings, (b: Booking) => Owner(b) == Some(MeId(me)))
  }

  /** `b.slot ?? b.slot_info?.id` */
  function BookedSlotId(b: Booking): Option<int> {
    b.slot.OrElse(if b.slotInfo.Some? then b.slotInfo.value.id else None)
  }

  /** `mine[i]` is the last of my bookings that names slot `k`. */
  predicate LastBookingFor(mine: seq<Booking>, k: int, i: int) {
    && 0 <= i < |mine|
    && BookedSlotId(mine[i]) == Some(k)
    && forall j :: i < j < |mine| ==> BookedSlotId(mine[j]) != Some(k)
  }

  /** What `bookedBySlot` holds for the bookings `mine`: the keys are the non-zero slot ids
      some booking names, and each maps to the id of the last booking naming it. */
  ghost predicate BookedMapOf(mine: seq<Booking>, m: map<int, int>) {
    && (forall k :: k in m <==> k != 0 && exists b :: b in mine && BookedSlotId(b) == Some(k))
    && (forall k :: k in m ==> exists i :: LastBookingFor(mine, k, i) && m[k] == mine[i].id)
  }

  /** `bookedBySlot`: slot id -> id of my booking on it. Slot ids that are 0 or missing are
      skipped, and when several bookings name the same slot the last one wins. */
  function BookedBySlot(mine: seq<Booking>): (m: map<int, int>)
    ensures forall k :: k in m <==> k != 0 && exists b :: b in mine && BookedSlotId(b) == Some(k)
    ensures forall k :: k in m ==> exists i :: LastBookingFor(mine, k, i) && m[k] == mine[i].id
  {
    if mine == [] then map[]
    else
      var init := mine[..|mine| - 1];
      var last := mine[|mine| - 1];
      var m := BookedBySlot(init);
      var m' := match BookedSlotId(last)
        case Some(k) => if k != 0 then m[k := last.id] else m
        case None => m;
      BookedStep(init, last, m, m');
      assert init + [last] == mine;
      m'
  }

  lemma BookedStep(init: seq<Booking>, last: Booking, m: map<int, int>, m': map<int, int>)
    requires BookedMapOf(init, m)
    requires m' == match BookedSlotId(last)
      case Some(k) => if k != 0 then m[k := last.id] else m
      case None => m
    ensures BookedMapOf(init + [last], m')
  {
    var mine := init + [last];
    assert forall b :: b in mine <==> b in init || b == last;
    forall k | k in m' ensures exists i :: LastBookingFor(mine, k, i) && m'[k] == mine[i].id {
      if BookedSlotId(last) == Some(k) {
        assert LastBookingFor(mine, k, |init|);
      } else {
        var i :| LastBookingFor(init, k, i) && m[k] == init[i].id;
        assert mine[i] == init[i];
        assert LastBookingFor(mine, k, i);
      }
    }
  }

  /* ---------- Per-slot decision ---------- */

  /** Why the Reserve button is disabled. */
  datatype Reason = AlreadyBooked | Overlap | CutoffClosed | NoCredits | NoCapacity

  /** The facts the page derives for one slot before rendering it. */
  datatype SlotState = SlotState(
    tengoReserva: bool,
    tengoSolape: bool,
    cutoffOk: bool,
    creditos: int,
    disponibles: int)

  /** `me?.creditos ?? 0` */
  function Creditos(me: Option<Profile>): int {
    match me
    case Some(p) => p.creditos.GetOr(0)
    case None => 0
  }

  /** `Boolean(bookedBySlot[s.id])` */
  predicate TengoReserva(s: Slot, booked: map<int, int>) {
    s.id in booked && booked[s.id] != 0
  }

  function StateOf(s: Slot, mine: seq<Booking>, me: Option<Profile>, now: int): SlotState {
    SlotState(
      TengoReserva(s, BookedBySlot(mine)),
      TengoSolape(s, mine, now),
      BeforeCutoff(s, now),
      Creditos(me),
      Disponibles(s))
  }

  /** The checks in the order the page tries them; each pairs a reason with whether it passes. */
  function Checks(st: SlotState): seq<(Reason, bool)> {
    [ (AlreadyBooked, !st.tengoReserva),
      (Overlap, !st.tengoSolape),
      (CutoffClosed, st.cutoffOk),
      (NoCredits, st.creditos > 0),
      (NoCapacity, st.disponibles > 0) ]
  }

  /** `motivoDisabled`: none when every check passes, otherwise the first failing check. */
  function Motivo(st: SlotState): (r: Option<Reason>)
    ensures r.None? <==> forall i :: 0 <= i < |Checks(st)| ==> Checks(st)[i].1
    ensures r.Some? ==>
      exists i :: 0 <= i < |Checks(st)| && Checks(st)[i] == (r.value, false) &&
                  (forall j :: 0 <= j < i ==> Checks(st)[j].1)
  {
    var cs := Checks(st);
    if st.tengoReserva then assert cs[0] == (AlreadyBooked, false); Some(AlreadyBooked)
    else if st.tengoSolape then assert cs[1] == (Overlap, false); Some(Overlap)
    else if !st.cutoffOk then assert cs[2] == (CutoffClosed, false); Some(CutoffClosed)
    else if st.creditos <= 0 then assert cs[3] == (NoCredits, false); Some(NoCredits)
    else if st.disponibles <= 0 then assert cs[4] == (NoCapacity, false); Some(NoCapacity)
    else None
  }

  /** `puedeReservar`: exactly when no disabling reason is given, i.e. not booked, no overlap,
      before the cutoff, credits left and a seat left. */
  function PuedeReservar(st: SlotState): (ok: bool)
    ensures ok <==> Motivo(st).None?
    ensures ok <==> !st.tengoReserva && !st.tengoSolape && st.cutoffOk && st.creditos > 0 && st.disponibles > 0
  {
    var ok := !st.tengoReserva && !st.tengoSolape && st.cutoffOk && st.creditos > 0 && st.disponibles > 0;
    assert ok <==> forall i :: 0 <= i < |Checks(st)| ==> Checks(st)[i].1 by {
      var cs := Checks(st);
      assert cs[0].1 == !st.tengoReserva && cs[1].1 == !st.tengoSolape && cs[2].1 == st.cutoffOk;
      assert cs[3].1 == (st.creditos > 0) && cs[4].1 == (st.disponibles > 0);
    }
    ok
  }

  /** The tooltip text for a disabling reason (empty when there is none). */
  function MotivoText(r: Option<Reason>): string {
    match r
    case None => ""
    case Some(AlreadyBooked) => "Ya reservaste este horario."
    case Some(Overlap) => "Se solapa con otra reserva tuya."
    case Some(CutoffClosed) => "Cerrado por cutoff."
    case Some(NoCredits) => "Sin créditos."
    case Some(NoCapacity) => "Sin cupos disponibles."
  }

  /** The one button a slot row shows. */
  datatype Button = CancelButton(enabled: bool) | ReserveButton(enabled: bool, title: string)

  /** A booked slot shows Cancel, enabled only before the cutoff; any other slot shows Reserve,
      enabled exactly when `puedeReservar`, titled with the reason otherwise. */
  function ButtonFor(st: SlotState): (b: Button)
    ensures b.CancelButton? <==> st.tengoReserva
    ensures b.CancelButton? ==> (b.enabled <==> st.cutoffOk)
    ensures b.ReserveButton? ==> (b.enabled <==> Motivo(st).None?)
    ensures b.ReserveButton? && !b.enabled ==> b.title == MotivoText(Motivo(st)) && b.title != ""
  {
    if st.tengoReserva then CancelButton(st.cutoffOk)
    else
      var ok := PuedeReservar(st);
      ReserveButton(ok, if ok then "Reservar" else MotivoText(Motivo(st)))
  }

  /* ---------- Cancel ---------- */

  datatype CancelAction = NoBooking | TooLate | Remove(bookingId: int)

  /** `cancelar`: nothing to do without a booking on the slot, a warning once the cutoff has
      passed, otherwise delete exactly the booking recorded for the slot. */
  function Cancelar(s: Slot, mine: seq<Booking>, now: int): (a: CancelAction)
    ensures a == NoBooking <==> !TengoReserva(s, BookedBySlot(mine))
    ensures a == TooLate <==> TengoReserva(s, BookedBySlot(mine)) && !BeforeCutoff(s, now)
    ensures a.Remove? ==> a.bookingId == BookedBySlot(mine)[s.id] && a.bookingId != 0
    ensures a.Remove? ==> exists b :: b in mine && b.id == a.bookingId && BookedSlotId(b) == Some(s.id)
  {
    var booked := BookedBySlot(mine);
    if !(s.id in booked) || booked[s.id] == 0 then NoBooking
    else if !BeforeCutoff(s, now) then TooLate
    else Remove(booked[s.id])
  }

  /** The Cancel button is enabled exactly when pressing it deletes a booking. */
  lemma CancelButtonMatchesAction(s: Slot, mine: seq<Booking>, me: Option<Profile>, now: int)
    ensures ButtonFor(StateOf(s, mine, me, now)) == CancelButton(true) <==> Cancelar(s, mine, now).Remove?
  {
  }

  /* ---------- Listing ---------- */

  /** The page's filters: the local day's inclusive bounds (from `dayBoundsLocal`) and the
      optional branch and activity ids ("" in the select is `None`). */
  datatype ListFilter = ListFilter(dayStart: int, dayEnd: int, sucursal: Option<int>, actividad: Option<int>)

  /** The filter `loadSlots` applies to the fetched slots. */
  function VisibleSlots(cls: seq<Slot>, f: ListFilter, now: int): (rows: seq<Slot>)
    ensures forall s :: s in rows <==>
      && s in cls
      && f.dayStart <= s.inicio <= f.dayEnd
      && (f.sucursal.Some? ==> s.sucursal == f.sucursal.value)
      && (f.actividad.Some? ==> s.actividad == f.actividad.value)
      && s.inicio > now
    ensures forall s :: s in rows ==> !IsStarted(s, now)
    ensures Seqs.SubsequenceOf(rows, cls)
  {
    Seqs.Filter(cls, (s: Slot) =>
      && f.dayStart <= s.inicio && s.inicio <= f.dayEnd
      && (f.sucursal.None? || s.sucursal == f.sucursal.value)
      && (f.actividad.None? || s.actividad == f.actividad.value)
      && s.inicio > now)
  }

  /** Within the day and the chosen filters, a fetched slot is listed exactly while it has not
      started: `isStarted` and the listing's own `ini > now` test agree. */
  lemma ListedIffNotStarted(cls: seq<Slot>, f: ListFilter, s: Slot, now: int)
    requires s in cls && f.dayStart <= s.inicio <= f.dayEnd
    requires f.sucursal.Some? ==> s.sucursal == f.sucursal.value
    requires f.actividad.Some? ==> s.actividad == f.actividad.value
    ensures s in VisibleSlots(cls, f, now) <==> !IsStarted(s, now)
  {
  }

  /** The fetch is ordered by start, so the visible list is too. */
  lemma VisibleSlotsKeepOrder(cls: seq<Slot>, f: ListFilter, now: int)
    requires Sorting.SortedBy(StartLe, cls)
    ensures Sorting.SortedBy(StartLe, VisibleSlots(cls, f, now))
  {
    Seqs.SubsequencePairs(VisibleSlots(cls, f, now), cls, StartLe);
  }

  /* ---------- Grouping by day ---------- */

  /** One day's heading and its slots. */
  datatype Group = Group(day: int, slots: seq<Slot>)

  /** The smallest day key among the rows. */
  function MinDay(rows: seq<Slot>, dayKey: int -> int): (d: int)
    requires rows != []
    ensures exists s :: s in rows && dayKey(s.inicio) == d
    ensures forall s :: s in rows ==> d <= dayKey(s.inicio)
  {
    if |rows| == 1 then dayKey(rows[0].inicio)
    else
      var d := MinDay(rows[1..], dayKey);
      assert forall s :: s in rows <==> s == rows[0] || s in rows[1..];
      if dayKey(rows[0].inicio) < d then dayKey(rows[0].inicio) else d
  }

  /** Group days strictly increase. */
  ghost predicate DaysAscending(gs: seq<Group>) {
    forall i, j :: 0 <= i < j < |gs| ==> gs[i].day < gs[j].day
  }

  /** The local days the rows fall on. */
  function Days(rows: seq<Slot>, dayKey: int -> int): set<int> {
    set s | s in rows :: dayKey(s.inicio)
  }

  /** The days the groups are headed by. */
  function GroupDays(gs: seq<Group>): set<int> {
    set i | 0 <= i < |gs| :: gs[i].day
  }

  /** The test "this slot falls on day `d`", and its negation. */
  function OnDay(dayKey: int -> int, d: int): Slot -> bool {
    (s: Slot) => dayKey(s.inicio) == d
  }

  function OffDay(dayKey: int -> int, d: int): Slot -> bool {
    (s: Slot) => dayKey(s.inicio) != d
  }

  /** Each group is the rows of its day, sorted by start. */
  ghost predicate GroupsAreDays(rows: seq<Slot>, gs: seq<Group>, dayKey: int -> int) {
    forall i :: 0 <= i < |gs| ==> gs[i].slots == SortByStart(Seqs.Filter(rows, OnDay(dayKey, gs[i].day)))
  }

  /** `groupByDate`: rows grouped under their local day (`dayKey` stands for `ymdLocal`): one
      group per day that occurs, days ascending, and each group holding exactly that day's
      rows in start order. */
  function GroupByDate(rows: seq<Slot>, dayKey: int -> int): (gs: seq<Group>)
    ensures DaysAscending(gs)
    ensures GroupDays(gs) == Days(rows, dayKey)
    ensures GroupsAreDays(rows, gs, dayKey)
    decreases |rows|
  {
    if rows == [] then []
    else
      var d := MinDay(rows, dayKey);
      var later := Seqs.Filter(rows, OffDay(dayKey, d));
      var w :| w in rows && dayKey(w.inicio) == d;
      Seqs.FilterShrinks(rows, OffDay(dayKey, d), w);
      var rest := GroupByDate(later, dayKey);
      var g := Group(d, SortByStart(Seqs.Filter(rows, OnDay(dayKey, d))));
      LaterDaysAfter(rows, dayKey, d, later, rest, g);
      StepDays(rows, dayKey, d, later, rest, g);
      StepGroups(rows, dayKey, d, later, rest, g);
      [g] + rest
  }

  /** Every remaining group comes after the day just split off. */
  lemma LaterDaysAfter(rows: seq<Slot>, dayKey: int -> int, d: int, later: seq<Slot>, rest: seq<Group>, g: Group)
    requires rows != [] && d == MinDay(rows, dayKey) && g.day == d
    requires later == Seqs.Filter(rows, OffDay(dayKey, d))
    requires GroupDays(rest) == Days(later, dayKey) && DaysAscending(rest)
    ensures forall i :: 0 <= i < |rest| ==> d < rest[i].day
    ensures DaysAscending([g] + rest)
  {
    forall i | 0 <= i < |rest| ensures d < rest[i].day {
      assert rest[i].day in GroupDays(rest);
      var s :| s in later && dayKey(s.inicio) == rest[i].day;
    }
    var gs := [g] + rest;
    forall i, j | 0 <= i < j < |gs| ensures gs[i].day < gs[j].day {
      assert gs[j] == rest[j - 1];
      if i > 0 { assert gs[i] == rest[i - 1]; }
    }
  }

  lemma StepDays(rows: seq<Slot>, dayKey: int -> int, d: int, later: seq<Slot>, rest: seq<Group>, g: Group)
    requires rows != [] && d == MinDay(rows, dayKey)
    requires later == Seqs.Filter(rows, OffDay(dayKey, d))
    requires g.day == d
    requires GroupDays(rest) == Days(later, dayKey)
    ensures GroupDays([g] + rest) == Days(rows, dayKey)
  {
    var gs := [g] + rest;
    assert forall i :: 1 <= i < |gs| ==> gs[i] == rest[i - 1];
    assert GroupDays(gs) == {d} + GroupDays(rest) by {
      forall x | x in GroupDays(gs) ensures x in {d} + GroupDays(rest) {
        var i :| 0 <= i < |gs| && gs[i].day == x;
        if i > 0 { assert rest[i - 1].day == x; }
      }
      forall x | x in GroupDays(rest) ensures x in GroupDays(gs) {
        var i :| 0 <= i < |rest| && rest[i].day == x;
        assert gs[i + 1].day == x;
      }
      assert gs[0].day == d;
    }
    assert Days(rows, dayKey) == {d} + Days(later, dayKey) by {
      forall x | x in Days(rows, dayKey) ensures x in {d} + Days(later, dayKey) {
        var s :| s in rows && dayKey(s.inicio) == x;
        if x != d { assert s in later; }
      }
    }
  }

  lemma StepGroups(rows: seq<Slot>, dayKey: int -> int, d: int, later: seq<Slot>, rest: seq<Group>, g: Group)
    requires later == Seqs.Filter(rows, OffDay(dayKey, d))
    requires g == Group(d, SortByStart(Seqs.Filter(rows, OnDay(dayKey, d))))
    requires GroupsAreDays(later, rest, dayKey)
    requires forall i :: 0 <= i < |rest| ==> d < rest[i].day
    ensures GroupsAreDays(rows, [g] + rest, dayKey)
  {
    forall i | 0 <= i < |rest|
      ensures rest[i].slots == SortByStart(Seqs.Filter(rows, OnDay(dayKey, rest[i].day)))
    {
      LaterGroup(rows, dayKey, d, rest[i]);
    }
    GroupsConsDay(rows, dayKey, g, rest);
  }

  lemma GroupsConsDay(rows: seq<Slot>, dayKey: int -> int, g: Group, rest: seq<Group>)
    requires g.slots == SortByStart(Seqs.Filter(rows, OnDay(dayKey, g.day)))
    requires GroupsAreDays(rows, rest, dayKey)
    ensures GroupsAreDays(rows, [g] + rest, dayKey)
  {
    var gs := [g] + rest;
    forall i | 0 <= i < |gs|
      ensures gs[i].slots == SortByStart(Seqs.Filter(rows, OnDay(dayKey, gs[i].day)))
    {
      if i > 0 { assert gs[i] == rest[i - 1]; }
    }
  }

  lemma LaterGroup(rows: seq<Slot>, dayKey: int -> int, d: int, h: Group)
    requires d < h.day
    requires h.slots == SortByStart(Seqs.Filter(Seqs.Filter(rows, OffDay(dayKey, d)), OnDay(dayKey, h.day)))
    ensures h.slots == SortByStart(Seqs.Filter(rows, OnDay(dayKey, h.day)))
  {
    Seqs.FilterFilter(rows, OffDay(dayKey, d), OnDay(dayKey, h.day));
  }

  /** What each day's group holds: at least one slot, only slots of that day, in start order,
      and every row of that day as often as it occurs in the fetch. */
  lemma GroupByDateGroups(rows: seq<Slot>, dayKey: int -> int, i: int)
    requires 0 <= i < |GroupByDate(rows, dayKey)|
    ensures GroupByDate(rows, dayKey)[i].slots != []
    ensures forall s :: s in GroupByDate(rows, dayKey)[i].slots ==> dayKey(s.inicio) == GroupByDate(rows, dayKey)[i].day
    ensures Sorting.SortedBy(StartLe, GroupByDate(rows, dayKey)[i].slots)
    ensures forall s ::
              multiset(GroupByDate(rows, dayKey)[i].slots)[s] ==
              if dayKey(s.inicio) == GroupByDate(rows, dayKey)[i].day then multiset(rows)[s] else 0
  {
    var gs := GroupByDate(rows, dayKey);
    assert gs[i].day in GroupDays(gs);
    DayGroup(rows, dayKey, gs[i].day, gs[i].slots);
  }

  /** The group of a day that occurs: that day's rows, sorted, and at least one of them. */
  lemma DayGroup(rows: seq<Slot>, dayKey: int -> int, d: int, slots: seq<Slot>)
    requires slots == SortByStart(Seqs.Filter(rows, OnDay(dayKey, d)))
    requires d in Days(rows, dayKey)
    ensures slots != []
    ensures forall s :: s in slots ==> dayKey(s.inicio) == d
    ensures Sorting.SortedBy(StartLe, slots)
    ensures forall s :: multiset(slots)[s] == if dayKey(s.inicio) == d then multiset(rows)[s] else 0
  {
    var today := Seqs.Filter(rows, OnDay(dayKey, d));
    var w :| w in rows && dayKey(w.inicio) == d;
    assert w in today;
    assert w in slots;
    forall s | s in slots ensures dayKey(s.inicio) == d {
      assert s in today;
    }
    forall s ensures multiset(slots)[s] == if dayKey(s.inicio) == d then multiset(rows)[s] else 0 {
      assert multiset(today)[s] == if OnDay(dayKey, d)(s) then multiset(rows)[s] else 0;
    }
  }

  /** Every row shows up under exactly one heading: the group of its own day. */
  lemma GroupByDateRowPlaced(rows: seq<Slot>, dayKey: int -> int, s: Slot)
    requires s in rows
    ensures exists i :: 0 <= i < |GroupByDate(rows, dayKey)| && s in GroupByDate(rows, dayKey)[i].slots
    ensures forall i :: 0 <= i < |GroupByDate(rows, dayKey)| && s in GroupByDate(rows, dayKey)[i].slots ==>
      GroupByDate(rows, dayKey)[i].day == dayKey(s.inicio)
  {
    var gs := GroupByDate(rows, dayKey);
    var d := dayKey(s.inicio);
    assert d in GroupDays(gs) by {
      assert d in Days(rows, dayKey);
    }
    var i :| 0 <= i < |gs| && gs[i].day == d;
    DayGroup(rows, dayKey, d, gs[i].slots);
    assert multiset(gs[i].slots)[s] == multiset(rows)[s];
    forall j | 0 <= j < |gs| && s in gs[j].slots ensures gs[j].day == d {
      assert gs[j].day in GroupDays(gs);
      DayGroup(rows, dayKey, gs[j].day, gs[j].slots);
    }
  }

  /** When the day key follows the clock, earlier groups hold strictly earlier slots, so the
      page reads chronologically from top to bottom. */
  lemma GroupsChronological(rows: seq<Slot>, dayKey: int -> int)
    requires forall t, u :: t <= u ==> dayKey(t) <= dayKey(u)
    ensures var gs := GroupByDate(rows, dayKey);
      forall i, j, a, b :: 0 <= i < j < |gs| && a in gs[i].slots && b in gs[j].slots ==> a.inicio < b.inicio
  {
    var gs := GroupByDate(rows, dayKey);
    forall i, j, a, b | 0 <= i < j < |gs| && a in gs[i].slots && b in gs[j].slots
      ensures a.inicio < b.inicio
    {
      GroupByDateGroups(rows, dayKey, i);
      GroupByDateGroups(rows, dayKey, j);
      assert dayKey(a.inicio) == gs[i].day && dayKey(b.inicio) == gs[j].day;
      assert gs[i].day < gs[j].day;
    }
  }
}
