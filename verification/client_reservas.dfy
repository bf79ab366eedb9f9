/** The client's own reservations: which bookings are theirs, the split into upcoming and
    history with their orders, and the cancel guard. This page has its own cutoff test, which
    reads only the snapshot's `cutoff` and ignores `cutoff_minutes`. */
module ClientReservas {
  import opened Wrappers
  import opened Domain
  import Seqs
  import Sorting
  import ClientClases

  /** This page's `beforeCutoff` on the snapshot `{inicio, cutoff}`: open strictly before the
      start minus `cutoff ?? 0` minutes. A missing snapshot or start is an invalid date, against
      which the comparison is false. */
  function BeforeCutoff(info: Option<SlotInfo>, now: int): (open: bool)
    ensures info.None? ==> !open
    ensures info.Some? && info.value.inicio.None? ==> !open
    ensures info.Some? && info.value.inicio.Some? ==>
      (open <==> now < info.value.inicio.value - info.value.cutoff.GetOr(0) * MsPerMinute)
  {
    match info
    case None => false
    case Some(i) =>
      match i.inicio
      case None => false
      case Some(t) => now < t - i.cutoff.GetOr(0) * MsPerMinute
  }

  /** The snapshot a reservation carries of the slot it books, which lets the lemmas below put a
      class-page slot and a bookings-page item side by side. */
  function Snapshot(s: Slot): (info: SlotInfo)
    ensures info.id == Some(s.id) && info.inicio == Some(s.inicio)
    ensures info.cutoff == s.cutoff && info.cutoffMinutes == s.cutoffMinutes
  {
    SlotInfo(Some(s.id), Some(s.inicio), s.fin, s.duracion, s.cutoff, s.cutoffMinutes)
  }

  /** The two pages agree on a slot that has no `cutoff_minutes`. */
  lemma CutoffAgreesWithoutMinutes(s: Slot, now: int)
    requires s.cutoffMinutes.None?
    ensures BeforeCutoff(Some(Snapshot(s)), now) == ClientClases.BeforeCutoff(s, now)
  {
  }

  /** With only `cutoff_minutes` set, the class page already refuses to cancel while this page
      still offers it: the two cutoff tests disagree. */
  lemma CutoffVariantsDisagree()
    ensures exists s: Slot, now: int ::
      BeforeCutoff(Some(Snapshot(s)), now) && !ClientClases.BeforeCutoff(s, now)
  {
    var s := Slot(1, 3600000, None, None, Some(30), None, None, None, None, None, 1, 1);
    assert BeforeCutoff(Some(Snapshot(s)), 3000000) && !ClientClases.BeforeCutoff(s, 3000000);
  }

  /** `mias`: the bookings whose `user_info?.id ?? user` is exactly the `id` of `/me`. When
      both are missing they are equal too (`undefined === undefined`). */
  function Mine(all: seq<Booking>, yoId: Option<int>): (mias: seq<Booking>)
    ensures forall b :: b in mias <==> b in all && Owner(b) == yoId
    ensures Seqs.SubsequenceOf(mias, all)
  {
    Seqs.Filter(all, (b: Booking) => Owner(b) == yoId)
  }

  /** `start >= ahora`: a booking is upcoming when its snapshot's start is now or later; a
      missing start is NaN and never upcoming. */
  predicate Upcoming(b: Booking, now: int) {
    Start(b).Some? && Start(b).value >= now
  }

  /** The upcoming order: by start ascending (bookings without a start, which never reach this
      list, go last). */
  function UpcomingLe(a: Booking, b: Booking): bool {
    match (Start(a), Start(b))
    case (Some(x), Some(y)) => x <= y
    case (Some(_), None) => true
    case (None, Some(_)) => false
    case (None, None) => true
  }

  /** The history order: by start descending, bookings without a start last. */
  function HistoryLe(a: Booking, b: Booking): bool {
    match (Start(a), Start(b))
    case (Some(x), Some(y)) => x >= y
    case (Some(_), None) => true
    case (None, Some(_)) => false
    case (None, None) => true
  }

  lemma OrdersAreTotalPreorders()
    ensures Sorting.TotalPreorder(UpcomingLe)
    ensures Sorting.TotalPreorder(HistoryLe)
  {
  }

  function IsUpcoming(now: int): Booking -> bool {
    (b: Booking) => Upcoming(b, now)
  }

  function IsHistory(now: int): Booking -> bool {
    (b: Booking) => !Upcoming(b, now)
  }

  /** The two lists the page shows. */
  datatype Lists = Lists(futuras: seq<Booking>, pasadas: seq<Booking>)

  /** The `futuras`/`pasadas` split: every item lands in exactly one list, upcoming ones in
      `futuras` ordered by start ascending, the rest in `pasadas` ordered by start descending. */
  function Split(items: seq<Booking>, now: int): (l: Lists)
    ensures forall b :: b in l.futuras <==> b in items && Upcoming(b, now)
    ensures forall b :: b in l.pasadas <==> b in items && !Upcoming(b, now)
    ensures multiset(l.futuras) + multiset(l.pasadas) == multiset(items)
    ensures Sorting.SortedBy(UpcomingLe, l.futuras)
    ensures Sorting.SortedBy(HistoryLe, l.pasadas)
  {
    OrdersAreTotalPreorders();
    var fut := Seqs.Filter(items, IsUpcoming(now));
    var past := Seqs.Filter(items, IsHistory(now));
    var l := Lists(Sorting.Sort(UpcomingLe, fut), Sorting.Sort(HistoryLe, past));
    Sorting.SortSameElements(UpcomingLe, fut);
    Sorting.SortSameElements(HistoryLe, past);
    assert multiset(fut) + multiset(past) == multiset(items) by {
      forall b ensures (multiset(fut) + multiset(past))[b] == multiset(items)[b] {
        assert multiset(fut)[b] == if IsUpcoming(now)(b) then multiset(items)[b] else 0;
        assert multiset(past)[b] == if IsHistory(now)(b) then multiset(items)[b] else 0;
      }
    }
    l
  }

  /** Every item has a start, and starts never decrease. */
  predicate StartsAscending(f: seq<Booking>) {
    forall i, j :: 0 <= i < j < |f| ==>
      Start(f[i]).Some? && Start(f[j]).Some? && Start(f[i]).value <= Start(f[j]).value
  }

  /** Starts never increase, and items without a start come after all the others. */
  predicate StartsDescending(p: seq<Booking>) {
    forall i, j :: 0 <= i < j < |p| && Start(p[j]).Some? ==>
      Start(p[i]).Some? && Start(p[i]).value >= Start(p[j]).value
  }

  /** The upcoming list is in ascending start order. */
  lemma FuturasAscending(items: seq<Booking>, now: int)
    ensures StartsAscending(Split(items, now).futuras)
  {
    var f := Split(items, now).futuras;
    forall k | 0 <= k < |f| ensures Upcoming(f[k], now) {
      assert f[k] in f;
    }
    UpcomingStarts(f, now);
  }

  /** A list of upcoming bookings in the upcoming order has ascending starts. */
  lemma UpcomingStarts(f: seq<Booking>, now: int)
    requires forall k :: 0 <= k < |f| ==> Upcoming(f[k], now)
    requires Sorting.SortedBy(UpcomingLe, f)
    ensures StartsAscending(f)
  {
    forall i, j | 0 <= i < j < |f|
      ensures Start(f[i]).Some? && Start(f[j]).Some? && Start(f[i]).value <= Start(f[j]).value
    {
      UpcomingPair(f[i], f[j], now);
    }
  }

  lemma UpcomingPair(a: Booking, b: Booking, now: int)
    requires Upcoming(a, now) && Upcoming(b, now) && UpcomingLe(a, b)
    ensures Start(a).Some? && Start(b).Some? && Start(a).value <= Start(b).value
  {
  }

  /** The history is in descending start order. */
  lemma PasadasDescending(items: seq<Booking>, now: int)
    ensures StartsDescending(Split(items, now).pasadas)
  {
    HistoryStarts(Split(items, now).pasadas);
  }

  /** A list in the history order has descending starts. */
  lemma HistoryStarts(p: seq<Booking>)
    requires Sorting.SortedBy(HistoryLe, p)
    ensures StartsDescending(p)
  {
    forall i, j | 0 <= i < j < |p| && Start(p[j]).Some?
      ensures Start(p[i]).Some? && Start(p[i]).value >= Start(p[j]).value
    {
      assert HistoryLe(p[i], p[j]);
    }
  }

  datatype CancelOutcome = TooLate | Removed(items: seq<Booking>)

  /** `cancelar(r)`: refused once this page's cutoff has passed; otherwise the booking is
      deleted and every item with its id leaves the list. */
  function Cancel(items: seq<Booking>, r: Booking, now: int): (o: CancelOutcome)
    ensures o == TooLate <==> !BeforeCutoff(r.slotInfo, now)
    ensures o.Removed? ==> forall b :: b in o.items <==> b in items && b.id != r.id
    ensures o.Removed? ==> forall b :: multiset(o.items)[b] == if b.id != r.id then multiset(items)[b] else 0
    ensures o.Removed? ==> Seqs.SubsequenceOf(o.items, items)
  {
    if !BeforeCutoff(r.slotInfo, now) then TooLate
    else Removed(Seqs.Filter(items, (b: Booking) => b.id != r.id))
  }

  /** The alert after a cancel attempt that reached a decision. */
  function CancelAlert(o: CancelOutcome): (msg: string)
    ensures o.TooLate? <==> msg == "Ya no se puede cancelar (cutoff)."
  {
    match o
    case TooLate => "Ya no se puede cancelar (cutoff)."
    case Removed(_) => "Reserva cancelada."
  }

  /** A rendered button: whether it can be pressed, and its tooltip. */
  datatype ButtonView = ButtonView(enabled: bool, title: string)

  /** The Cancel button of an upcoming booking: enabled while this page's cutoff is open, and
      titled "Cancelar", or "No se puede cancelar (cutoff)" once it is disabled. */
  function CancelButton(r: Booking, now: int): (b: ButtonView)
    ensures b.enabled <==> BeforeCutoff(r.slotInfo, now)
    ensures b.title == "No se puede cancelar (cutoff)" <==> !BeforeCutoff(r.slotInfo, now)
    ensures b.title == "Cancelar" <==> BeforeCutoff(r.slotInfo, now)
  {
    var open := BeforeCutoff(r.slotInfo, now);
    ButtonView(open, if open then "Cancelar" else "No se puede cancelar (cutoff)")
  }

  /** A disabled Cancel button's title and the alert of a refused cancel speak of the same
      case: the button is disabled exactly when pressing it would end in the cutoff warning. */
  lemma DisabledButtonMatchesAlert(items: seq<Booking>, r: Booking, now: int)
    ensures !CancelButton(r, now).enabled <==> CancelAlert(Cancel(items, r, now)) == "Ya no se puede cancelar (cutoff)."
  {
  }

  /** The Cancel button of an upcoming booking is enabled exactly when cancelling removes it,
      and then the booking is gone from both lists. */
  lemma CancelButtonMatchesCancel(items: seq<Booking>, r: Booking, now: int)
    ensures BeforeCutoff(r.slotInfo, now) <==> Cancel(items, r, now).Removed?
    ensures Cancel(items, r, now).Removed? ==>
      r !in Split(Cancel(items, r, now).items, now).futuras &&
      r !in Split(Cancel(items, r, now).items, now).pasadas
  {
  }

  /** A booking that can still be cancelled here lies in the future, so it is listed among the
      upcoming ones whenever it is one of the items. */
  lemma CancellableIsUpcoming(items: seq<Booking>, r: Booking, now: int)
    requires r in items
    requires r.slotInfo.Some? && r.slotInfo.value.cutoff.GetOr(0) >= 0
    requires BeforeCutoff(r.slotInfo, now)
    ensures r in Split(items, now).futuras
  {
  }
}
