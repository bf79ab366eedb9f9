/** The administrator's branch list: ordering by name then address, the empty-field and
    duplicate checks of create and edit, and row maintenance. `lc(a, b)` stands for
    `a.localeCompare(b, "es") <= 0`; two strings compare equal when each is `lc` of the other. */
module AdminSucursales {
  import opened Wrappers
  import Text
  import Seqs
  import Sorting

  datatype Branch = Branch(id: int, nombre: string, direccion: string)

  /** Strings the collation ranks as equal. */
  predicate Same(lc: (string, string) -> bool, a: string, b: string) {
    lc(a, b) && lc(b, a)
  }

  /** `ordenar`'s comparator: by name, and by address between equal names. */
  function BranchLe(lc: (string, string) -> bool): (Branch, Branch) -> bool {
    (a: Branch, b: Branch) =>
      if Same(lc, a.nombre, b.nombre) then lc(a.direccion, b.direccion) else lc(a.nombre, b.nombre)
  }

  /** The name-then-address order is a total preorder whenever the collation is. */
  lemma BranchLeTotal(lc: (string, string) -> bool)
    requires Sorting.TotalPreorder(lc)
    ensures Sorting.TotalPreorder(BranchLe(lc))
  {
    var le := BranchLe(lc);
    forall x: Branch, y: Branch ensures le(x, y) || le(y, x) {
      assert lc(x.nombre, y.nombre) || lc(y.nombre, x.nombre);
      assert lc(x.direccion, y.direccion) || lc(y.direccion, x.direccion);
    }
    forall x: Branch, y: Branch, z: Branch | le(x, y) && le(y, z) ensures le(x, z) {
      BranchLeTrans(lc, x, y, z);
    }
  }

  lemma BranchLeTrans(lc: (string, string) -> bool, x: Branch, y: Branch, z: Branch)
    requires Sorting.TotalPreorder(lc)
    requires BranchLe(lc)(x, y) && BranchLe(lc)(y, z)
    ensures BranchLe(lc)(x, z)
  {
    assert lc(x.nombre, y.nombre) && lc(y.nombre, z.nombre);
    if Same(lc, x.nombre, z.nombre) {
      // x ~ z with x <= y <= z: all three names rank equal, so the addresses decide
      assert lc(y.nombre, x.nombre) && lc(z.nombre, y.nombre);
      assert Same(lc, x.nombre, y.nombre) && Same(lc, y.nombre, z.nombre);
      assert lc(x.direccion, y.direccion) && lc(y.direccion, z.direccion);
    }
  }

  /** `ordenar`: a sorted copy (the input array is left as it was). */
  function Ordenar(arr: seq<Branch>, lc: (string, string) -> bool): (r: seq<Branch>)
    ensures multiset(r) == multiset(arr)
    ensures Sorting.TotalPreorder(lc) ==> Sorting.SortedBy(BranchLe(lc), r)
  {
    assert Sorting.TotalPreorder(lc) ==> Sorting.TotalPreorder(BranchLe(lc)) by {
      if Sorting.TotalPreorder(lc) { BranchLeTotal(lc); }
    }
    Sorting.Sort(BranchLe(lc), arr)
  }

  /** Some row other than the one with id `skip` (if any) has the same `norm` keys: trimmed,
      white-space runs collapsed to one space, lower-cased. */
  predicate Clash(rows: seq<Branch>, nombre: string, direccion: string, skip: Option<int>) {
    exists x :: x in rows && (skip.None? || x.id != skip.value) &&
      Text.Norm(x.nombre) == Text.Norm(nombre) && Text.Norm(x.direccion) == Text.Norm(direccion)
  }

  /** The check compares the trimmed inputs, which have the same keys as the raw ones. */
  lemma ClashTrim(rows: seq<Branch>, nombre: string, direccion: string, skip: Option<int>)
    ensures Clash(rows, Text.Trim(nombre), Text.Trim(direccion), skip) == Clash(rows, nombre, direccion, skip)
  {
    Text.NormTrim(nombre);
    Text.NormTrim(direccion);
  }

  datatype Outcome = EmptyField | Duplicate | Send(nombre: string, direccion: string)

  /** The common shape of `onCreate` and `saveEdit` up to the request: both fields must be
      non-blank, no other row may share both normalised keys, and the trimmed values are sent. */
  function Check(rows: seq<Branch>, nombre: string, direccion: string, skip: Option<int>): (o: Outcome)
    ensures o == EmptyField <==> Text.Blank(nombre) || Text.Blank(direccion)
    ensures o == Duplicate <==> !Text.Blank(nombre) && !Text.Blank(direccion) && Clash(rows, nombre, direccion, skip)
    ensures o.Send? ==> o.nombre == Text.Trim(nombre) && o.direccion == Text.Trim(direccion)
    ensures o.Send? ==> o.nombre != [] && o.direccion != []
  {
    var nt := Text.Trim(nombre);
    var dt := Text.Trim(direccion);
    if nt == [] || dt == [] then EmptyField
    else
      ClashTrim(rows, nombre, direccion, skip);
      if Clash(rows, nt, dt, skip) then Duplicate else Send(nt, dt)
  }

  /** `onCreate` checks against every row. */
  function Create(rows: seq<Branch>, nombre: string, direccion: string): (o: Outcome)
    ensures o == Duplicate <==> !Text.Blank(nombre) && !Text.Blank(direccion) && Clash(rows, nombre, direccion, None)
  {
    Check(rows, nombre, direccion, None)
  }

  /** `saveEdit` checks against every row except the one being edited. */
  function Save(rows: seq<Branch>, r: Branch, nombre: string, direccion: string): (o: Outcome)
    ensures o == Duplicate <==> !Text.Blank(nombre) && !Text.Blank(direccion) && Clash(rows, nombre, direccion, Some(r.id))
  {
    Check(rows, nombre, direccion, Some(r.id))
  }

  /** The alert for a refused create or edit. */
  function CreateAlert(o: Outcome): string {
    match o
    case EmptyField => "Completá nombre y dirección."
    case Duplicate => "Ya existe una sucursal con ese nombre y dirección."
    case Send(_, _) => ""
  }

  function EditAlert(o: Outcome): string {
    match o
    case EmptyField => "Nombre y dirección no pueden estar vacíos."
    case Duplicate => "Ya existe una sucursal con ese nombre y dirección."
    case Send(_, _) => ""
  }

  /** The check only sees the keys: inputs that differ in case or spacing alone get the same
      verdict. */
  lemma CheckSeesOnlyKeys(rows: seq<Branch>, n1: string, d1: string, n2: string, d2: string, skip: Option<int>)
    requires Text.Norm(n1) == Text.Norm(n2) && Text.Norm(d1) == Text.Norm(d2)
    ensures Check(rows, n1, d1, skip).Send? == Check(rows, n2, d2, skip).Send?
    ensures Check(rows, n1, d1, skip) == Duplicate <==> Check(rows, n2, d2, skip) == Duplicate
  {
  }

  /** Saving a row with its own unchanged values never clashes with itself: only another row
      with the same keys makes it a duplicate. */
  lemma SaveIgnoresItself(rows: seq<Branch>, r: Branch)
    requires !Text.Blank(r.nombre) && !Text.Blank(r.direccion)
    requires forall x :: x in rows && x.id != r.id ==>
      Text.Norm(x.nombre) != Text.Norm(r.nombre) || Text.Norm(x.direccion) != Text.Norm(r.direccion)
    ensures Save(rows, r, r.nombre, r.direccion).Send?
  {
  }

  /** After `onCreate` adds what it sent, the same input is refused as a duplicate. */
  lemma CreateTwiceIsDuplicate(rows: seq<Branch>, nombre: string, direccion: string, id: int, lc: (string, string) -> bool)
    requires Create(rows, nombre, direccion).Send?
    ensures Create(AddCreated(rows, Branch(id, Text.Trim(nombre), Text.Trim(direccion)), lc), nombre, direccion) == Duplicate
  {
    var c := Branch(id, Text.Trim(nombre), Text.Trim(direccion));
    var rs := AddCreated(rows, c, lc);
    assert c in rs by {
      assert c in multiset(rs);
    }
    ClashWith(rs, c, nombre, direccion);
  }

  /** A row with the input's keys makes the input clash. */
  lemma ClashWith(rows: seq<Branch>, x: Branch, nombre: string, direccion: string)
    requires x in rows && x.nombre == Text.Trim(nombre) && x.direccion == Text.Trim(direccion)
    ensures Clash(rows, nombre, direccion, None)
  {
    Text.NormTrim(nombre);
    Text.NormTrim(direccion);
  }

  /** After a create: the new row joins the list, which is re-ordered. */
  function AddCreated(rows: seq<Branch>, created: Branch, lc: (string, string) -> bool): (r: seq<Branch>)
    ensures multiset(r) == multiset(rows) + multiset{created}
    ensures Sorting.TotalPreorder(lc) ==> Sorting.SortedBy(BranchLe(lc), r)
  {
    Ordenar([created] + rows, lc)
  }

  function HasId(id: int): Branch -> bool {
    (b: Branch) => b.id == id
  }

  /** After an edit: rows with the edited id become the server's copy, then the list is
      re-ordered; no other row changes. */
  function AfterSave(rows: seq<Branch>, id: int, updated: Branch, lc: (string, string) -> bool): (r: seq<Branch>)
    ensures multiset(r) == multiset(Seqs.ReplaceWhere(rows, HasId(id), updated))
    ensures forall x :: x in r && x != updated ==> x in rows && x.id != id
    ensures forall x :: x in rows && x.id != id ==> x in r
    ensures Sorting.TotalPreorder(lc) ==> Sorting.SortedBy(BranchLe(lc), r)
  {
    var m := Seqs.ReplaceWhere(rows, HasId(id), updated);
    var r := Ordenar(m, lc);
    assert forall x :: x in r <==> x in m by {
      forall x ensures x in r <==> x in m {
        assert x in r <==> x in multiset(r);
        assert x in m <==> x in multiset(m);
      }
    }
    forall x | x in rows && x.id != id ensures x in m {
      var i :| 0 <= i < |rows| && rows[i] == x;
      assert m[i] == x;
    }
    r
  }

  /** After a confirmed delete: exactly the rows with that id go, the rest keep their order. */
  function Delete(rows: seq<Branch>, id: int): (r: seq<Branch>)
    ensures forall x :: x in r <==> x in rows && x.id != id
    ensures forall x :: multiset(r)[x] == if x.id != id then multiset(rows)[x] else 0
    ensures Seqs.SubsequenceOf(r, rows)
  {
    Seqs.Filter(rows, (b: Branch) => b.id != id)
  }
}
