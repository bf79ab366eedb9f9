/** The administrator's class list: which slots count as past, the guards and payload of the
    create form, and how the row list is kept future-only and ordered by start across load,
    create, edit and delete. */
module AdminClases {
  import opened Wrappers
  import opened Domain
  import Js
  import Seqs
  import Sorting

  /** `isPast`: the class has ended. Its end is `fin` when present, otherwise the start plus
      `duracion ?? 60` minutes; an end at exactly `now` is already past. */
  function IsPast(s: Slot, now: int): (past: bool)
    ensures s.fin.Some? ==> (past <==> s.fin.value <= now)
    ensures s.fin.None? && s.duracion.Some? ==> (past <==> s.inicio + s.duracion.value * 60000 <= now)
    ensures s.fin.None? && s.duracion.None? ==> (past <==> s.inicio + 3600000 <= now)
  {
    SlotEnd(s) <= now
  }

  /** A class that has ended has also started, as long as it does not end before it starts. */
  lemma PastImpliesStarted(s: Slot, now: int)
    requires s.inicio <= SlotEnd(s)
    ensures IsPast(s, now) ==> s.inicio <= now
  {
  }

  /** The administrator's list keeps a class that is under way, whereas the client's list hides
      it as soon as it starts: the two pages disagree on such a slot. */
  lemma RunningClassShownOnlyToAdmin()
    ensures exists s: Slot, now: int :: !IsPast(s, now) && s.inicio <= now
  {
    var s := Slot(1, 0, None, None, None, None, None, None, None, None, 1, 1);
    assert !IsPast(s, 0) && s.inicio <= 0;
  }

  function NotPast(now: int): Slot -> bool {
    (s: Slot) => !IsPast(s, now)
  }

  /** The list's invariant: ordered by start and holding no past class. */
  ghost predicate ValidRows(rows: seq<Slot>, now: int) {
    && Sorting.SortedBy(StartLe, rows)
    && forall s :: s in rows ==> !IsPast(s, now)
  }

  /** The initial load: the fetched slots that are not past, ordered by start. */
  function LoadRows(cls: seq<Slot>, now: int): (rows: seq<Slot>)
    ensures ValidRows(rows, now)
    ensures forall s :: s in rows <==> s in cls && !IsPast(s, now)
    ensures forall s :: multiset(rows)[s] == if IsPast(s, now) then 0 else multiset(cls)[s]
  {
    SortByStart(Seqs.Filter(cls, NotPast(now)))
  }

  /** After a successful create: the new class is added only if it is not past, and the list is
      re-sorted. */
  function AddCreated(rows: seq<Slot>, created: Slot, now: int): (r: seq<Slot>)
    ensures Sorting.SortedBy(StartLe, rows) ==> Sorting.SortedBy(StartLe, r)
    ensures !IsPast(created, now) ==> multiset(r) == multiset(rows) + multiset{created}
    ensures IsPast(created, now) ==> r == rows
    ensures forall s :: s in r <==> s in rows || (s == created && !IsPast(created, now))
  {
    if IsPast(created, now) then rows
    else
      var r := SortByStart(rows + [created]);
      assert forall s :: s in rows + [created] <==> s in rows || s == created;
      r
  }

  function HasId(id: int): Slot -> bool {
    (s: Slot) => s.id == id
  }

  function LacksId(id: int): Slot -> bool {
    (s: Slot) => s.id != id
  }

  /** After a successful edit: the row with the edited id becomes the server's copy, past rows
      are dropped and the list is re-sorted. Every other row that is not past stays. */
  function SaveEdit(rows: seq<Slot>, id: int, updated: Slot, now: int): (r: seq<Slot>)
    ensures ValidRows(r, now)
    ensures forall s :: multiset(r)[s] ==
                        (if IsPast(s, now) then 0 else multiset(Seqs.ReplaceWhere(rows, HasId(id), updated))[s])
    ensures forall s :: s in r <==>
      || (s in rows && s.id != id && !IsPast(s, now))
      || (s == updated && !IsPast(updated, now) && exists x :: x in rows && x.id == id)
  {
    var replaced := Seqs.ReplaceWhere(rows, HasId(id), updated);
    assert forall s :: s in replaced <==>
      (s in rows && s.id != id) || (s == updated && exists x :: x in rows && x.id == id) by {
      forall s ensures s in replaced <==>
        (s in rows && s.id != id) || (s == updated && exists x :: x in rows && x.id == id) {
        if s in rows && s.id != id {
          var i :| 0 <= i < |rows| && rows[i] == s;
          assert replaced[i] == s;
        }
        if s == updated && exists x :: x in rows && x.id == id {
          var x :| x in rows && x.id == id;
          var i :| 0 <= i < |rows| && rows[i] == x;
          assert replaced[i] == updated;
        }
      }
    }
    LoadRows(replaced, now)
  }

  /** After a confirmed delete: exactly the rows with that id go, the rest keep their order. */
  function Delete(rows: seq<Slot>, id: int): (r: seq<Slot>)
    ensures forall s :: s in r <==> s in rows && s.id != id
    ensures forall s :: multiset(r)[s] == if s.id != id then multiset(rows)[s] else 0
    ensures Seqs.SubsequenceOf(r, rows)
  {
    Seqs.Filter(rows, LacksId(id))
  }

  /** Create, edit and delete all keep the list's invariant. */
  lemma RowsStayValid(rows: seq<Slot>, now: int, created: Slot, id: int, updated: Slot)
    requires ValidRows(rows, now)
    ensures ValidRows(AddCreated(rows, created, now), now)
    ensures ValidRows(SaveEdit(rows, id, updated, now), now)
    ensures ValidRows(Delete(rows, id), now)
  {
    Seqs.SubsequencePairs(Delete(rows, id), rows, StartLe);
  }

  /** Loading an already valid list changes nothing. */
  lemma LoadValidRows(rows: seq<Slot>, now: int)
    requires ValidRows(rows, now)
    ensures LoadRows(rows, now) == rows
  {
    Seqs.FilterAll(rows, NotPast(now));
    Sorting.SortSorted(StartLe, rows);
  }

  /* ---------- Create form ---------- */

  /** The create form's text inputs (select values are ids as text; "" is unselected). */
  datatype Form = Form(
    actividadId: string,
    sucursalId: string,
    fecha: string,
    hora: string,
    capacidad: string,
    cutoff: string)

  /** The request body. An absent optional field is `None`; a present one carries what
      `Number(...)` made of the input, which may be NaN. */
  datatype Payload = Payload(
    actividad: Js.Number,
    sucursal: Js.Number,
    inicio: string,
    capacidad: Option<Js.Number>,
    cutoffMinutes: Option<Js.Number>)

  datatype CreateOutcome = MissingFields | InPast | Submit(payload: Payload)

  /** The local date-time text built from the date and time inputs. */
  function StartText(fecha: string, hora: string): string {
    fecha + "T" + hora + ":00"
  }

  /** `...(v && { key: Number(v) })`: the key is present exactly when the input is truthy. */
  function OptionalField(v: Js.Value): (r: Option<Js.Number>)
    ensures r.Some? <==> Js.Truthy(v)
    ensures r.Some? ==> r.value == Js.ToNumber(v)
  {
    if Js.Truthy(v) then Some(Js.ToNumber(v)) else None
  }

  /** `onCreate`'s decision. `parseLocal` stands for `new Date(text)` read in local time, with
      `None` for an invalid date; a date that does not parse compares false with `now`, so it
      passes the past-date guard. */
  function OnCreate(f: Form, parseLocal: string -> Option<int>, now: int): (o: CreateOutcome)
    ensures o == MissingFields <==> f.actividadId == [] || f.sucursalId == [] || f.fecha == [] || f.hora == []
    ensures o == InPast <==>
      && f.actividadId != [] && f.sucursalId != [] && f.fecha != [] && f.hora != []
      && parseLocal(StartText(f.fecha, f.hora)).Some?
      && parseLocal(StartText(f.fecha, f.hora)).value <= now
    ensures o.Submit? ==>
      && o.payload.actividad == Js.NumberOf(f.actividadId)
      && o.payload.sucursal == Js.NumberOf(f.sucursalId)
      && o.payload.inicio == StartText(f.fecha, f.hora)
      && (o.payload.capacidad.Some? <==> f.capacidad != [])
      && (o.payload.capacidad.Some? ==> o.payload.capacidad.value == Js.NumberOf(f.capacidad))
      && (o.payload.cutoffMinutes.Some? <==> f.cutoff != [])
      && (o.payload.cutoffMinutes.Some? ==> o.payload.cutoffMinutes.value == Js.NumberOf(f.cutoff))
  {
    if f.actividadId == [] || f.sucursalId == [] || f.fecha == [] || f.hora == [] then MissingFields
    else
      var text := StartText(f.fecha, f.hora);
      match parseLocal(text)
      case Some(t) =>
        if t <= now then InPast
        else Submit(Payload(Js.NumberOf(f.actividadId), Js.NumberOf(f.sucursalId), text,
                            OptionalField(Js.Str(f.capacidad)), OptionalField(Js.Str(f.cutoff))))
      case None =>
        Submit(Payload(Js.NumberOf(f.actividadId), Js.NumberOf(f.sucursalId), text,
                       OptionalField(Js.Str(f.capacidad)), OptionalField(Js.Str(f.cutoff))))
  }

  /** A class whose start parses to a future time is always sent. */
  lemma FutureStartSubmits(f: Form, parseLocal: string -> Option<int>, now: int)
    requires f.actividadId != [] && f.sucursalId != [] && f.fecha != [] && f.hora != []
    requires parseLocal(StartText(f.fecha, f.hora)).Some? && parseLocal(StartText(f.fecha, f.hora)).value > now
    ensures OnCreate(f, parseLocal, now).Submit?
  {
  }

  /** The alert shown for a refused create. */
  function CreateAlert(o: CreateOutcome): (msg: string)
    ensures msg == "" <==> o.Submit?
  {
    match o
    case MissingFields => "⚠️ Completá Actividad, Sucursal, Fecha y Hora."
    case InPast => "❌ No podés programar clases en el pasado."
    case Submit(_) => ""
  }

  /* ---------- Edit form ---------- */

  /** The inline edit draft. Capacity and cutoff start as the row's numbers (or "") and become
      text once typed in, so they are loosely typed. */
  datatype Draft = Draft(fecha: string, hora: string, capacidad: Js.Value, cutoff: Js.Value)

  /** `saveEdit`'s request body: the row's activity and branch, the draft's start, and the
      optional fields only when the draft's value is truthy (a numeric 0 is left out). */
  function EditPayload(r: Slot, d: Draft): (p: Payload)
    ensures p.actividad == Some(r.actividad) && p.sucursal == Some(r.sucursal)
    ensures p.inicio == StartText(d.fecha, d.hora)
    ensures p.capacidad.Some? <==> Js.Truthy(d.capacidad)
    ensures p.cutoffMinutes.Some? <==> Js.Truthy(d.cutoff)
    ensures p.capacidad.Some? ==> p.capacidad.value == Js.ToNumber(d.capacidad)
    ensures p.cutoffMinutes.Some? ==> p.cutoffMinutes.value == Js.ToNumber(d.cutoff)
  {
    Payload(Some(r.actividad), Some(r.sucursal), StartText(d.fecha, d.hora),
            OptionalField(d.capacidad), OptionalField(d.cutoff))
  }

  /** A draft capacity of numeric zero is silently dropped from the edit request. */
  lemma ZeroCapacityDropped(r: Slot, d: Draft)
    requires d.capacidad == Js.Num(0)
    ensures EditPayload(r, d).capacidad.None?
  {
  }
}
