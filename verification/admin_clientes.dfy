/** The administrator's client list: the search box and status filter, and the requests for
    toggling a client's state and saving an edit. */
module AdminClientes {
  import opened Wrappers
  import Text
  import Seqs

  /** A client row; a missing username or email is `None`, a missing `is_active` is false. */
  datatype User = User(id: int, username: Option<string>, email: Option<string>, isActive: bool)

  /** The search needle: the query trimmed and lower-cased. */
  function Needle(q: string): (n: string)
    ensures n == [] <==> Text.Blank(q)
  {
    Text.Lower(Text.Trim(q))
  }

  /** `(v || "").toLowerCase().includes(needle)` */
  predicate FieldMatches(v: Option<string>, needle: string) {
    Text.Includes(Text.Lower(v.GetOr("")), needle)
  }

  /** The text filter: an empty needle accepts every row, otherwise the lower-cased username or
      email must contain it. */
  predicate TextMatch(u: User, needle: string) {
    needle == [] || FieldMatches(u.username, needle) || FieldMatches(u.email, needle)
  }

  /** The status filter: "all" keeps every row, "active" the active ones, "inactive" the rest;
      any other value keeps none. */
  predicate StatusMatch(u: User, status: string) {
    status == "all" || (status == "active" && u.isActive) || (status == "inactive" && !u.isActive)
  }

  function Keep(q: string, status: string): User -> bool {
    (u: User) => TextMatch(u, Needle(q)) && StatusMatch(u, status)
  }

  /** `filtered`: the rows passing both filters, in their original order. */
  function Filtered(rows: seq<User>, q: string, status: string): (r: seq<User>)
    ensures forall u :: u in r <==> u in rows && TextMatch(u, Needle(q)) && StatusMatch(u, status)
    ensures Seqs.SubsequenceOf(r, rows)
  {
    Seqs.Filter(rows, Keep(q, status))
  }

  /** With a blank query and status "all", every row is listed. */
  lemma BlankQueryKeepsAll(rows: seq<User>, q: string)
    requires Text.Blank(q)
    ensures Filtered(rows, q, "all") == rows
  {
    Seqs.FilterAll(rows, Keep(q, "all"));
  }

  /** The search ignores case: a query and its lower-cased form list the same rows. */
  lemma SearchIgnoresCase(rows: seq<User>, q: string, status: string)
    ensures Filtered(rows, Text.Lower(q), status) == Filtered(rows, q, status)
  {
    Text.TrimLower(q);
    Text.LowerIdempotent(Text.Trim(q));
    assert Needle(Text.Lower(q)) == Needle(q);
    Seqs.FilterCongruent(rows, Keep(Text.Lower(q), status), Keep(q, status));
  }

  /** A row whose username contains the query (ignoring case) is found. */
  lemma UsernameFound(u: User, name: string, q: string)
    requires u.username == Some(name)
    requires Text.Includes(Text.Lower(name), Needle(q))
    ensures TextMatch(u, Needle(q))
  {
  }

  /** A status value other than the three known ones lists nothing. */
  lemma UnknownStatusKeepsNone(rows: seq<User>, q: string, status: string)
    requires status != "all" && status != "active" && status != "inactive"
    ensures Filtered(rows, q, status) == []
  {
    Seqs.FilterNone(rows, Keep(q, status));
  }

  /** "active" and "inactive" split the rows matching the query between them. */
  lemma StatusesPartition(rows: seq<User>, q: string)
    ensures multiset(Filtered(rows, q, "active")) + multiset(Filtered(rows, q, "inactive"))
         == multiset(Filtered(rows, q, "all"))
  {
    var a := Filtered(rows, q, "active");
    var i := Filtered(rows, q, "inactive");
    var all := Filtered(rows, q, "all");
    forall u ensures (multiset(a) + multiset(i))[u] == multiset(all)[u] {
      assert multiset(a)[u] == if Keep(q, "active")(u) then multiset(rows)[u] else 0;
      assert multiset(i)[u] == if Keep(q, "inactive")(u) then multiset(rows)[u] else 0;
      assert multiset(all)[u] == if Keep(q, "all")(u) then multiset(rows)[u] else 0;
    }
  }

  /** `onToggle`'s request: the client's id and the opposite of its current state. */
  datatype Toggle = Toggle(id: int, active: bool)

  function ToggleRequest(u: User): (t: Toggle)
    ensures t.id == u.id && t.active != u.isActive
  {
    Toggle(u.id, !u.isActive)
  }

  /** Applying the requested state and toggling again asks for the original state back. */
  lemma ToggleTwice(u: User)
    ensures ToggleRequest(u.(isActive := ToggleRequest(u).active)).active == u.isActive
  {
  }

  /** The edit dialog's draft. */
  datatype EditUser = EditUser(id: int, username: Option<string>, email: Option<string>)

  datatype Update = Update(id: int, username: string, email: string)

  /** `saveEdit`: nothing is sent for a falsy id (0); otherwise the trimmed username and email,
      a missing one as "". */
  function EditRequest(e: EditUser): (r: Option<Update>)
    ensures r.None? <==> e.id == 0
    ensures r.Some? ==> r.value.id == e.id
    ensures r.Some? ==> r.value.username == Text.Trim(e.username.GetOr(""))
    ensures r.Some? ==> r.value.email == Text.Trim(e.email.GetOr(""))
    ensures r.Some? ==> Text.Trim(r.value.username) == r.value.username && Text.Trim(r.value.email) == r.value.email
  {
    if e.id == 0 then None
    else
      Text.TrimIdempotent(e.username.GetOr(""));
      Text.TrimIdempotent(e.email.GetOr(""));
      Some(Update(e.id, Text.Trim(e.username.GetOr("")), Text.Trim(e.email.GetOr(""))))
  }
}
