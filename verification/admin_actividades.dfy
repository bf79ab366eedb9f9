/** The administrator's activity catalogue: the form's payload shaping and validation, and the
    row list kept in name order. `lc(a, b)` stands for `a.localeCompare(b, "es") <= 0`. */
module AdminActividades {
  import opened Wrappers
  import Js
  import Text
  import Seqs
  import Sorting

  /** An activity row as listed. */
  datatype Activity = Activity(id: int, nombre: string)

  /** The form or edit-draft inputs, loosely typed: a draft starts from the row's numbers. */
  datatype Inputs = Inputs(nombre: Js.Value, duracion: Js.Value, capacidad: Js.Value, cutoff: Js.Value)

  /** The request body; an optional limit of `None` is sent as `null`. */
  datatype Payload = Payload(
    nombre: string,
    duracion: Js.Number,
    capacidadMaxima: Option<Js.Number>,
    cutoffMinutes: Option<Js.Number>)

  /** `parseOrNull`: "", null and undefined become null, anything else its `Number(...)`. */
  function ParseOrNull(v: Js.Value): (r: Option<Js.Number>)
    ensures r.None? <==> v == Js.Str("") || v == Js.Null || v == Js.Undefined
    ensures r.Some? ==> r.value == Js.ToNumber(v)
  {
    if v == Js.Str("") || v == Js.Null || v == Js.Undefined then None else Some(Js.ToNumber(v))
  }

  /** Text with surrounding white space still parses as a number; only the exact empty string
      means "no limit". */
  lemma BlankIsZeroNotNull()
    ensures ParseOrNull(Js.Str(" ")) == Some(Some(0))
  {
    assert Text.Blank(" ");
  }

  /** The payload both `onCreate` and `saveEdit` build. */
  function BuildPayload(i: Inputs): (p: Payload)
    ensures p.nombre == Text.Trim(Js.ToStr(Js.Or(i.nombre, Js.Str(""))))
    ensures p.duracion == Js.ToNumber(i.duracion)
    ensures p.capacidadMaxima == ParseOrNull(i.capacidad) && p.cutoffMinutes == ParseOrNull(i.cutoff)
    ensures Text.Trim(p.nombre) == p.nombre
    ensures p.nombre == [] <==> !Js.Truthy(i.nombre) || (i.nombre.Str? && Text.Blank(i.nombre.s))
  {
    Text.TrimIdempotent(Js.ToStr(Js.Or(i.nombre, Js.Str(""))));
    Payload(Text.Trim(Js.ToStr(Js.Or(i.nombre, Js.Str("")))), Js.ToNumber(i.duracion),
            ParseOrNull(i.capacidad), ParseOrNull(i.cutoff))
  }

  datatype ActivityError = NameMissing | BadDuration | BadCapacity | BadCutoff

  /** A finite number of at least `lo` (NaN fails). */
  predicate AtLeast(n: Js.Number, lo: int) {
    n.Some? && n.value >= lo
  }

  predicate NameOk(p: Payload) { Text.Trim(p.nombre) != [] }
  predicate DurationOk(p: Payload) { AtLeast(p.duracion, 1) }
  predicate CapacityOk(p: Payload) { p.capacidadMaxima.None? || AtLeast(p.capacidadMaxima.value, 1) }
  predicate CutoffOk(p: Payload) { p.cutoffMinutes.None? || AtLeast(p.cutoffMinutes.value, 0) }

  /** `validateActivity`: the checks in order (name, duration, capacity, cutoff), reporting the
      first that fails; none when all pass. */
  function Validate(p: Payload): (e: Option<ActivityError>)
    ensures e.None? <==> NameOk(p) && DurationOk(p) && CapacityOk(p) && CutoffOk(p)
    ensures e == Some(NameMissing) <==> !NameOk(p)
    ensures e == Some(BadDuration) <==> NameOk(p) && !DurationOk(p)
    ensures e == Some(BadCapacity) <==> NameOk(p) && DurationOk(p) && !CapacityOk(p)
    ensures e == Some(BadCutoff) <==> NameOk(p) && DurationOk(p) && CapacityOk(p) && !CutoffOk(p)
  {
    if Text.Trim(p.nombre) == [] then Some(NameMissing)
    else if !(p.duracion.Some? && p.duracion.value >= 1) then Some(BadDuration)
    else if p.capacidadMaxima.Some? && !(p.capacidadMaxima.value.Some? && p.capacidadMaxima.value.value >= 1) then Some(BadCapacity)
    else if p.cutoffMinutes.Some? && !(p.cutoffMinutes.value.Some? && p.cutoffMinutes.value.value >= 0) then Some(BadCutoff)
    else None
  }

  /** The alert text for a validation error. */
  function ErrorText(e: ActivityError): string {
    match e
    case NameMissing => "Ingresá un nombre."
    case BadDuration => "La duración debe ser un número mayor o igual a 1."
    case BadCapacity => "La capacidad máxima debe ser un número mayor o igual a 1 (o dejá vacío)."
    case BadCutoff => "El cutoff (min) debe ser un número mayor o igual a 0 (o dejá vacío)."
  }

  datatype Submission = Rejected(error: ActivityError) | Send(payload: Payload)

  /** `onCreate` and `saveEdit` up to the request: the payload goes out only when it validates,
      and then it has a name, a duration of at least 1 and limits in range. */
  function Submit(i: Inputs): (s: Submission)
    ensures s.Rejected? <==> Validate(BuildPayload(i)).Some?
    ensures s.Rejected? ==> s.error == Validate(BuildPayload(i)).value
    ensures s.Send? ==>
      && s.payload == BuildPayload(i)
      && s.payload.nombre != []
      && s.payload.duracion.Some? && s.payload.duracion.value >= 1
      && (s.payload.capacidadMaxima.Some? ==> s.payload.capacidadMaxima.value.Some? && s.payload.capacidadMaxima.value.value >= 1)
      && (s.payload.cutoffMinutes.Some? ==> s.payload.cutoffMinutes.value.Some? && s.payload.cutoffMinutes.value.value >= 0)
  {
    var p := BuildPayload(i);
    match Validate(p)
    case Some(e) => Rejected(e)
    case None => Text.TrimIdempotent(Js.ToStr(Js.Or(i.nombre, Js.Str("")))); Send(p)
  }

  /** The values the create form is reset to after a create. */
  const ResetInputs: Inputs := Inputs(Js.Str(""), Js.Str("60"), Js.Str("12"), Js.Str("10"))

  /** The reset form only lacks a name ... */
  lemma ResetFormLacksName()
    ensures Submit(ResetInputs) == Rejected(NameMissing)
  {
    assert Text.Trim("") == "";
  }

  /** ... since with any name 60 minutes, 12 places and a 10-minute cutoff are valid. */
  lemma ResetFormWithName(n: string)
    requires !Text.Blank(n)
    ensures Submit(ResetInputs.(nombre := Js.Str(n))).Send?
  {
    var i := ResetInputs.(nombre := Js.Str(n));
    var p := BuildPayload(i);
    ResetPayload(n);
    Text.TrimIdempotent(n);
    assert NameOk(p) && DurationOk(p) && CapacityOk(p) && CutoffOk(p);
  }

  /** The payload of the reset form once a name is typed. */
  lemma ResetPayload(n: string)
    requires n != []
    ensures var p := BuildPayload(ResetInputs.(nombre := Js.Str(n)));
      p.nombre == Text.Trim(n) && p.duracion == Some(60) && p.capacidadMaxima == Some(Some(12)) && p.cutoffMinutes == Some(Some(10))
  {
    var i := ResetInputs.(nombre := Js.Str(n));
    assert Js.Or(i.nombre, Js.Str("")) == Js.Str(n);
    ResetNumbers();
  }

  /** The reset texts "60", "12" and "10" read back as those numbers. */
  lemma ResetNumbers()
    ensures Js.ToNumber(Js.Str("60")) == Some(60)
    ensures Js.ToNumber(Js.Str("12")) == Some(12)
    ensures Js.ToNumber(Js.Str("10")) == Some(10)
  {
    assert Js.IntToString(60) == "60" by { assert Js.NatToString(6) == "6"; }
    assert Js.IntToString(12) == "12" && Js.IntToString(10) == "10" by { assert Js.NatToString(1) == "1"; }
    Js.NumberOfIntToString(60);
    Js.NumberOfIntToString(12);
    Js.NumberOfIntToString(10);
  }

  /* ---------- Row list ---------- */

  /** The name order under the comparator. */
  function NameLe(lc: (string, string) -> bool): (Activity, Activity) -> bool {
    (a: Activity, b: Activity) => lc(a.nombre, b.nombre)
  }

  /** A collation that is a total preorder on names orders activities the same way. */
  lemma NameLeTotal(lc: (string, string) -> bool)
    requires Sorting.TotalPreorder(lc)
    ensures Sorting.TotalPreorder(NameLe(lc))
  {
    var le := NameLe(lc);
    forall x: Activity, y: Activity ensures le(x, y) || le(y, x) {
      assert lc(x.nombre, y.nombre) || lc(y.nombre, x.nombre);
    }
    forall x: Activity, y: Activity, z: Activity | le(x, y) && le(y, z) ensures le(x, z) {
      assert lc(x.nombre, y.nombre) && lc(y.nombre, z.nombre);
    }
  }

  /** `load`: the fetched list in name order. */
  function LoadRows(list: seq<Activity>, lc: (string, string) -> bool): (rows: seq<Activity>)
    ensures multiset(rows) == multiset(list)
    ensures Sorting.TotalPreorder(lc) ==> Sorting.SortedBy(NameLe(lc), rows)
  {
    assert Sorting.TotalPreorder(lc) ==> Sorting.TotalPreorder(NameLe(lc)) by {
      if Sorting.TotalPreorder(lc) { NameLeTotal(lc); }
    }
    Sorting.Sort(NameLe(lc), list)
  }

  /** After a create: the new activity joins the list, which is put back in name order. */
  function AddCreated(rows: seq<Activity>, created: Activity, lc: (string, string) -> bool): (r: seq<Activity>)
    ensures multiset(r) == multiset(rows) + multiset{created}
    ensures Sorting.TotalPreorder(lc) ==> Sorting.SortedBy(NameLe(lc), r)
  {
    LoadRows([created] + rows, lc)
  }

  function HasId(id: int): Activity -> bool {
    (a: Activity) => a.id == id
  }

  /** After an edit: the rows with the edited id become the server's copy, every other row is
      untouched, and the list is not re-sorted. */
  function Update(rows: seq<Activity>, id: int, updated: Activity): (r: seq<Activity>)
    ensures |r| == |rows|
    ensures forall k :: 0 <= k < |rows| && rows[k].id == id ==> r[k] == updated
    ensures forall k :: 0 <= k < |rows| && rows[k].id != id ==> r[k] == rows[k]
  {
    Seqs.ReplaceWhere(rows, HasId(id), updated)
  }

  /** An edit that keeps the name keeps the list in name order; a rename may break it, since the
      list is not re-sorted. */
  lemma UpdateKeepsOrderWhenNameKept(rows: seq<Activity>, id: int, updated: Activity, lc: (string, string) -> bool)
    requires Sorting.SortedBy(NameLe(lc), rows)
    requires forall k :: 0 <= k < |rows| && rows[k].id == id ==> rows[k].nombre == updated.nombre
    ensures Sorting.SortedBy(NameLe(lc), Update(rows, id, updated))
  {
    var r := Update(rows, id, updated);
    forall i, j | 0 <= i < j < |r| ensures NameLe(lc)(r[i], r[j]) {
      assert r[i].nombre == rows[i].nombre && r[j].nombre == rows[j].nombre;
      assert NameLe(lc)(rows[i], rows[j]);
    }
  }

  /** After a delete: exactly the rows with that id go, the rest keep their order. */
  function Remove(rows: seq<Activity>, id: int): (r: seq<Activity>)
    ensures forall a :: a in r <==> a in rows && a.id != id
    ensures forall a :: multiset(r)[a] == if a.id != id then multiset(rows)[a] else 0
    ensures Seqs.SubsequenceOf(r, rows)
  {
    Seqs.Filter(rows, (a: Activity) => a.id != id)
  }

  /** Removing keeps the list in name order. */
  lemma RemoveKeepsOrder(rows: seq<Activity>, id: int, lc: (string, string) -> bool)
    requires Sorting.SortedBy(NameLe(lc), rows)
    ensures Sorting.SortedBy(NameLe(lc), Remove(rows, id))
  {
    Seqs.SubsequencePairs(Remove(rows, id), rows, NameLe(lc));
  }
}
