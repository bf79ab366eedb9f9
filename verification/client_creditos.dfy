/** The client's credit summary: the validity period, which bookings count as used, the
    available balance and the expiry flag. `addDays` stands for the page's local-calendar day
    shift. */
module ClientCreditos {
  import opened Wrappers
  import opened Domain
  import Seqs

  /** The validity period, both ends inclusive. */
  datatype Period = Period(desde: int, hasta: int)

  /** How far back the period starts when the profile has no activation date. */
  const FallbackDays: int := 30

  /** `periodo`: none without an expiry date; otherwise it ends at the expiry and starts at the
      activation date, or 30 days before the expiry when there is none. */
  function PeriodOf(me: Option<Profile>, addDays: (int, int) -> int): (p: Option<Period>)
    ensures p.None? <==> me.None? || me.value.fechaVencimiento.None?
    ensures p.Some? ==> p.value.hasta == me.value.fechaVencimiento.value
    ensures p.Some? && me.value.fechaActivacion.Some? ==> p.value.desde == me.value.fechaActivacion.value
    ensures p.Some? && me.value.fechaActivacion.None? ==> p.value.desde == addDays(p.value.hasta, -FallbackDays)
  {
    match me
    case None => None
    case Some(m) =>
      match m.fechaVencimiento
      case None => None
      case Some(hasta) =>
        Some(Period(m.fechaActivacion.GetOr(addDays(hasta, -FallbackDays)), hasta))
  }

  /** `estaDentroDelPeriodo`: never without a period, otherwise between both ends inclusive. */
  function InPeriod(p: Option<Period>, t: int): (r: bool)
    ensures p.None? ==> !r
    ensures p.Some? ==> (r <==> p.value.desde <= t <= p.value.hasta)
  {
    p.Some? && p.value.desde <= t && t <= p.value.hasta
  }

  /** When the fallback shift really moves back in time, a profile without an activation date
      still has a non-empty period that contains its expiry instant. */
  lemma FallbackPeriodContainsExpiry(me: Profile, addDays: (int, int) -> int)
    requires me.fechaVencimiento.Some? && me.fechaActivacion.None?
    requires addDays(me.fechaVencimiento.value, -FallbackDays) <= me.fechaVencimiento.value
    ensures InPeriod(PeriodOf(Some(me), addDays), me.fechaVencimiento.value)
  {
  }

  /** A booking used one of my credits: it is mine, it has a start, the start is not in the
      future, and it lies in the period. */
  predicate Used(b: Booking, id: int, p: Option<Period>, now: int) {
    && Owner(b) == Some(id)
    && Start(b).Some?
    && Start(b).value <= now
    && InPeriod(p, Start(b).value)
  }

  function UsedBy(id: int, p: Option<Period>, now: int): Booking -> bool {
    (b: Booking) => Used(b, id, p, now)
  }

  /** `contarUsados(perfil)` with the period `p` it sees: nothing without a (truthy) profile id
      or without a period; otherwise the number of bookings that used a credit. */
  function Usados(perfil: Option<Profile>, p: Option<Period>, all: seq<Booking>, now: int): (n: nat)
    ensures perfil.None? || perfil.value.id.None? || perfil.value.id.value == 0 || p.None? ==> n == 0
    ensures n <= |all|
    ensures n > 0 ==> exists b :: b in all && Used(b, perfil.value.id.value, p, now)
  {
    if perfil.None? || perfil.value.id.None? || perfil.value.id.value == 0 || p.None? then 0
    else
      var used := Seqs.Filter(all, UsedBy(perfil.value.id.value, p, now));
      assert used != [] ==> used[0] in used;
      |used|
  }

  /** The count is the number of used bookings, tallied one by one. */
  lemma UsadosCounts(perfil: Profile, p: Period, all: seq<Booking>, now: int)
    requires perfil.id.Some? && perfil.id.value != 0
    ensures Usados(Some(perfil), Some(p), all, now) == Seqs.Count(all, UsedBy(perfil.id.value, Some(p), now))
  {
    Seqs.FilterCount(all, UsedBy(perfil.id.value, Some(p), now));
  }

  /** As time passes the used count can only grow. */
  lemma UsadosGrowsWithTime(perfil: Option<Profile>, p: Option<Period>, all: seq<Booking>, now: int, later: int)
    requires now <= later
    ensures Usados(perfil, p, all, now) <= Usados(perfil, p, all, later)
  {
    if !(perfil.None? || perfil.value.id.None? || perfil.value.id.value == 0 || p.None?) {
      var id := perfil.value.id.value;
      Seqs.FilterMonotone(all, UsedBy(id, p, now), UsedBy(id, p, later));
    }
  }

  /** `clamp(x, lo, hi)`: `max(lo, min(x, hi))`. */
  function Clamp(x: int, lo: int, hi: int): (r: int)
    requires lo <= hi
    ensures lo <= r <= hi
    ensures lo <= x <= hi ==> r == x
    ensures x < lo ==> r == lo
    ensures x > hi ==> r == hi
  {
    var m := if x < hi then x else hi;
    if lo > m then lo else m
  }

  /** The upper bound the page puts on the balance it shows. */
  const MaxShown: int := 9999

  /** `me?.creditos ?? 0` */
  function Creditos(me: Option<Profile>): int {
    match me
    case Some(m) => m.creditos.GetOr(0)
    case None => 0
  }

  /** `disponibles`: credits minus used, kept within [0, 9999]. */
  function Disponibles(me: Option<Profile>, usados: int): (d: int)
    ensures 0 <= d <= MaxShown
    ensures 0 <= Creditos(me) - usados <= MaxShown ==> d == Creditos(me) - usados
    ensures Creditos(me) - usados < 0 ==> d == 0
    ensures Creditos(me) - usados > MaxShown ==> d == MaxShown
  {
    Clamp(Creditos(me) - usados, 0, MaxShown)
  }

  /** `vencido`: there is an expiry date and it lies strictly before `now`. */
  function Vencido(me: Option<Profile>, now: int): (v: bool)
    ensures v <==> me.Some? && me.value.fechaVencimiento.Some? && me.value.fechaVencimiento.value < now
  {
    match me
    case Some(m) => m.fechaVencimiento.Some? && m.fechaVencimiento.value < now
    case None => false
  }

  /** An expired profile's period has ended: every instant from `now` on lies after it. */
  lemma ExpiredPeriodOver(me: Profile, addDays: (int, int) -> int, now: int, t: int)
    requires Vencido(Some(me), now) && t >= now
    ensures !InPeriod(PeriodOf(Some(me), addDays), t)
  {
  }

  /* ---------- Loading ---------- */

  /** What the page shows after loading. */
  datatype Summary = Summary(total: int, usados: nat, disponibles: int, vencido: bool)

  /** `cargar` as written: the count runs inside the closure of the render that started the
      load, so it sees the period of the profile shown before (`prevMe`), not of the profile
      just fetched (`yo`). */
  function UsadosAfterLoadAsWritten(prevMe: Option<Profile>, yo: Profile, all: seq<Booking>, now: int,
                                    addDays: (int, int) -> int): (n: nat)
    ensures PeriodOf(prevMe, addDays).None? ==> n == 0
  {
    Usados(Some(yo), PeriodOf(prevMe, addDays), all, now)
  }

  /** On the first load nothing was shown before, so as written the page always reports zero
      credits used. */
  lemma FirstLoadCountsNothing(yo: Profile, all: seq<Booking>, now: int, addDays: (int, int) -> int)
    ensures UsadosAfterLoadAsWritten(None, yo, all, now, addDays) == 0
  {
  }

  /** `cargar` as intended: the count uses the period of the profile just fetched. */
  function UsadosAfterLoad(yo: Profile, all: seq<Booking>, now: int, addDays: (int, int) -> int): (n: nat)
    ensures yo.id.Some? && yo.id.value != 0 && yo.fechaVencimiento.Some? ==>
      n == Seqs.Count(all, UsedBy(yo.id.value, PeriodOf(Some(yo), addDays), now))
    ensures yo.fechaVencimiento.None? ==> n == 0
  {
    var p := PeriodOf(Some(yo), addDays);
    assert p.Some? && yo.id.Some? && yo.id.value != 0 ==>
      Usados(Some(yo), p, all, now) == Seqs.Count(all, UsedBy(yo.id.value, p, now)) by {
      if p.Some? && yo.id.Some? && yo.id.value != 0 { UsadosCounts(yo, p.value, all, now); }
    }
    Usados(Some(yo), p, all, now)
  }

  /** The two readings differ: a client with one finished class inside a valid period sees
      zero used on first load, where one is meant. */
  lemma StaleClosureExample()
    ensures exists yo: Profile, all: seq<Booking>, now: int, addDays: (int, int) -> int ::
      UsadosAfterLoadAsWritten(None, yo, all, now, addDays) == 0 && UsadosAfterLoad(yo, all, now, addDays) == 1
  {
    var yo := Profile(Some(7), Some(10), Some(1000), Some(0));
    var b := Booking(1, Some(7), None, Some(3), Some(SlotInfo(Some(3), Some(500), None, None, None, None)));
    var addDays := (t: int, d: int) => t + d * 86400000;
    var used := Seqs.Filter([b], UsedBy(7, Some(Period(0, 1000)), 600));
    assert b in used;
    assert UsadosAfterLoad(yo, [b], 600, addDays) == 1;
  }

  /** Once a profile is on screen, reloading the same profile counts as intended. */
  lemma ReloadCountsAsIntended(yo: Profile, all: seq<Booking>, now: int, addDays: (int, int) -> int)
    ensures UsadosAfterLoadAsWritten(Some(yo), yo, all, now, addDays) == UsadosAfterLoad(yo, all, now, addDays)
  {
  }

  /** The summary after loading `yo`, with the intended count. */
  function Load(yo: Profile, all: seq<Booking>, now: int, addDays: (int, int) -> int): (s: Summary)
    ensures s.usados == UsadosAfterLoad(yo, all, now, addDays)
    ensures 0 <= s.disponibles <= MaxShown
    ensures s.total == yo.creditos.GetOr(0)
    ensures 0 <= s.total - s.usados <= MaxShown ==> s.disponibles == s.total - s.usados
    ensures s.total - s.usados < 0 ==> s.disponibles == 0
    ensures s.total - s.usados > MaxShown ==> s.disponibles == MaxShown
    ensures s.vencido <==> yo.fechaVencimiento.Some? && yo.fechaVencimiento.value < now
  {
    var u := UsadosAfterLoad(yo, all, now, addDays);
    Summary(Creditos(Some(yo)), u, Disponibles(Some(yo), u), Vencido(Some(yo), now))
  }
}
