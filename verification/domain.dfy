/** The records the booking pages receive from the REST backend, as plain immutable values.
    Timestamps are integer milliseconds; optional fields are the ones the pages read with `??`
    or `?.`. */
module Domain {
  import opened Wrappers
  import Sorting

  const MsPerMinute: int := 60000

  /** Class length assumed when a slot carries no `duracion`. */
  const DefaultDurationMinutes: int := 60

  /** A scheduled class instance (the API's class slot). */
  datatype Slot = Slot(
    id: int,
    inicio: int,
    fin: Option<int>,
    duracion: Option<int>,
    cutoffMinutes: Option<int>,
    cutoff: Option<int>,
    reservasCount: Option<int>,
    ocupados: Option<int>,
    capacidad: Option<int>,
    capacidadMaxima: Option<int>,
    sucursal: int,
    actividad: int)

  /** The slot snapshot embedded in a reservation (`slot_info`). */
  datatype SlotInfo = SlotInfo(
    id: Option<int>,
    inicio: Option<int>,
    fin: Option<int>,
    duracion: Option<int>,
    cutoff: Option<int>,
    cutoffMinutes: Option<int>)

  /** A reservation: `user` and `user_info.id` name its owner, `slot` and `slot_info` its class. */
  datatype Booking = Booking(
    id: int,
    user: Option<int>,
    userInfoId: Option<int>,
    slot: Option<int>,
    slotInfo: Option<SlotInfo>)

  /** The signed-in user's profile as `/me` returns it. */
  datatype Profile = Profile(
    id: Option<int>,
    creditos: Option<int>,
    fechaVencimiento: Option<int>,
    fechaActivacion: Option<int>)

  /** `b.user_info?.id ?? b.user` */
  function Owner(b: Booking): Option<int> {
    b.userInfoId.OrElse(b.user)
  }

  /** `b.slot_info?.inicio` */
  function Start(b: Booking): Option<int> {
    match b.slotInfo
    case Some(info) => info.inicio
    case None => None
  }

  /** End of a class with no explicit end: `inicio + (duracion ?? 60)` minutes. */
  function DefaultEnd(inicio: int, duracion: Option<int>): int {
    inicio + duracion.GetOr(DefaultDurationMinutes) * MsPerMinute
  }

  /** `s.fin ?? inicio + (duracion ?? 60) min` */
  function SlotEnd(s: Slot): int {
    s.fin.GetOr(DefaultEnd(s.inicio, s.duracion))
  }

  /** The comparator `(a, b) => new Date(a.inicio) - new Date(b.inicio)`: earlier start first. */
  function StartLe(a: Slot, b: Slot): bool {
    a.inicio <= b.inicio
  }

  lemma StartLeTotalPreorder()
    ensures Sorting.TotalPreorder(StartLe)
  {
  }

  /** `rows.sort((a, b) => new Date(a.inicio) - new Date(b.inicio))` */
  function SortByStart(rows: seq<Slot>): (r: seq<Slot>)
    ensures multiset(r) == multiset(rows)
    ensures Sorting.SortedBy(StartLe, r)
    ensures forall s :: s in r <==> s in rows
  {
    StartLeTotalPreorder();
    Sorting.SortSameElements(StartLe, rows);
    Sorting.Sort(StartLe, rows)
  }
}
