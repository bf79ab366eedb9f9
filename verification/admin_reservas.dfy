/** The administrator's booking list: the client and class filters over loosely typed booking
    records, and the guard of a manual booking. */
module AdminReservas {
  import opened Wrappers
  import Js
  import Seqs

  /** A booking row as the API returns it: the user and the class may each be named by one of
      several fields, any of which may be missing. */
  datatype Row = Row(
    userId: Js.Value,
    user: Js.Value,
    userUsername: Js.Value,
    slot: Js.Value,
    slotId: Js.Value,
    claseId: Js.Value)

  /** `r.user_id || r.user || r.user_username` */
  function Uid(r: Row): (v: Js.Value)
    ensures Js.Truthy(r.userId) ==> v == r.userId
    ensures !Js.Truthy(r.userId) && Js.Truthy(r.user) ==> v == r.user
    ensures !Js.Truthy(r.userId) && !Js.Truthy(r.user) ==> v == r.userUsername
  {
    Js.Or(Js.Or(r.userId, r.user), r.userUsername)
  }

  /** `r.slot || r.slot_id || r.clase_id` */
  function Sid(r: Row): (v: Js.Value)
    ensures Js.Truthy(r.slot) ==> v == r.slot
    ensures !Js.Truthy(r.slot) && Js.Truthy(r.slotId) ==> v == r.slotId
    ensures !Js.Truthy(r.slot) && !Js.Truthy(r.slotId) ==> v == r.claseId
  {
    Js.Or(Js.Or(r.slot, r.slotId), r.claseId)
  }

  /** The client filter, compared as text: an empty selection accepts every row; otherwise the
      resolved user or the username must print as the selection. */
  predicate UserOk(r: Row, fUser: string) {
    fUser == [] || Js.ToStr(Uid(r)) == fUser || Js.ToStr(r.userUsername) == fUser
  }

  /** The class filter, compared as text on the resolved class. */
  predicate SlotOk(r: Row, fSlot: string) {
    fSlot == [] || Js.ToStr(Sid(r)) == fSlot
  }

  function Keep(fUser: string, fSlot: string): Row -> bool {
    (r: Row) => UserOk(r, fUser) && SlotOk(r, fSlot)
  }

  /** `rowsFiltered`: the rows passing both filters, in their original order. */
  function RowsFiltered(rows: seq<Row>, fUser: string, fSlot: string): (r: seq<Row>)
    ensures forall x :: x in r <==> x in rows && UserOk(x, fUser) && SlotOk(x, fSlot)
    ensures Seqs.SubsequenceOf(r, rows)
  {
    Seqs.Filter(rows, Keep(fUser, fSlot))
  }

  /** With neither filter chosen every row is listed. */
  lemma NoFilterKeepsAll(rows: seq<Row>)
    ensures RowsFiltered(rows, "", "") == rows
  {
    Seqs.FilterAll(rows, Keep("", ""));
  }

  /** The two filters are independent: applying them one after the other gives the same list
      as applying them together. */
  lemma FiltersCompose(rows: seq<Row>, fUser: string, fSlot: string)
    ensures RowsFiltered(RowsFiltered(rows, fUser, ""), "", fSlot) == RowsFiltered(rows, fUser, fSlot)
  {
    Seqs.FilterAnd(rows, Keep(fUser, ""), Keep("", fSlot), Keep(fUser, fSlot));
  }

  /** A row whose `user_id` is the selected client's number is kept by the client filter. */
  lemma NumericUserIdMatches(r: Row, id: int)
    requires r.userId == Js.Num(id) && id != 0
    ensures UserOk(r, Js.IntToString(id))
  {
  }

  /** The manual-booking guard: without both a client and a class nothing is sent; otherwise
      the selections are sent as numbers. */
  datatype Manual = ChooseBoth | Create(slot: Js.Number, user: Js.Number)

  function CrearManual(fUser: string, fSlot: string): (m: Manual)
    ensures m == ChooseBoth <==> fUser == [] || fSlot == []
    ensures m.Create? ==> m.slot == Js.NumberOf(fSlot) && m.user == Js.NumberOf(fUser)
  {
    if fUser == [] || fSlot == [] then ChooseBoth
    else Create(Js.NumberOf(fSlot), Js.NumberOf(fUser))
  }

  /** A manual booking for a client and class chosen from the lists sends their ids back. */
  lemma ChosenIdsRoundTrip(user: int, slot: int)
    ensures CrearManual(Js.IntToString(user), Js.IntToString(slot)) == Create(Some(slot), Some(user))
  {
    Js.NumberOfIntToString(user);
    Js.NumberOfIntToString(slot);
  }

  function ManualAlert(m: Manual): string {
    match m
    case ChooseBoth => "Elegí cliente y clase"
    case Create(_, _) => ""
  }
}
