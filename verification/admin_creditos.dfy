/** The administrator's credit page: the per-client text inputs, the guard and defaults of a
    credit assignment, and the expiry date's day/month/year rendering. */
module AdminCreditos {
  import opened Wrappers
  import Js

  /** The per-client inputs (`creditosById`, `diasById`): a client with no entry reads as
      undefined. */
  type Inputs = map<int, string>

  function Lookup(m: Inputs, id: int): (v: Js.Value)
    ensures id in m ==> v == Js.Str(m[id])
    ensures id !in m ==> v == Js.Undefined
  {
    if id in m then Js.Str(m[id]) else Js.Undefined
  }

  /** The default number of days of an assignment. */
  const DefaultDias := 30

  datatype Assign = InvalidCredits | Send(creditos: int, dias: Js.Number)

  /** `asignarCreditos(id)`: credits that are missing, blank, zero, negative or not a number
      are refused; otherwise the credits go out with the client's days, 30 when that input is
      empty or missing. The days are not checked. */
  function Asignar(creditosById: Inputs, diasById: Inputs, id: int): (a: Assign)
    ensures var c := Js.ToNumber(Lookup(creditosById, id));
      a == InvalidCredits <==> c.None? || c.value <= 0
    ensures a.Send? ==> a.creditos > 0 && Js.ToNumber(Lookup(creditosById, id)) == Some(a.creditos)
    ensures a.Send? && (id !in diasById || diasById[id] == []) ==> a.dias == Some(DefaultDias)
    ensures a.Send? && id in diasById && diasById[id] != [] ==> a.dias == Js.NumberOf(diasById[id])
  {
    var c := Js.ToNumber(Lookup(creditosById, id));
    var d := Js.ToNumber(Js.Or(Lookup(diasById, id), Js.Num(DefaultDias)));
    match c
    case None => InvalidCredits
    case Some(n) => if n <= 0 then InvalidCredits else Send(n, d)
  }

  function AsignarAlert(a: Assign): string {
    match a
    case InvalidCredits => "Ingresá una cantidad de créditos válida (> 0)."
    case Send(_, _) => ""
  }

  /** `setX(prev => ({ ...prev, [id]: val }))`: only that client's entry changes. */
  function SetEntry(m: Inputs, id: int, val: string): (r: Inputs)
    ensures id in r && r[id] == val
    ensures forall k :: k != id ==> (k in r <==> k in m)
    ensures forall k :: k != id && k in m ==> r[k] == m[k]
  {
    m[id := val]
  }

  /** After a successful assignment or reset the client's credit input is emptied. */
  function Clear(creditosById: Inputs, id: int): (r: Inputs)
    ensures id in r && r[id] == ""
    ensures forall k :: k != id ==> (k in r <==> k in creditosById)
    ensures forall k :: k != id && k in creditosById ==> r[k] == creditosById[k]
  {
    SetEntry(creditosById, id, "")
  }

  /** A cleared input reads as zero credits, so assigning again straight away is refused, while
      every other client's assignment is decided as before. */
  lemma ClearedInputRefused(creditosById: Inputs, diasById: Inputs, id: int, other: int)
    requires other != id
    ensures Asignar(Clear(creditosById, id), diasById, id) == InvalidCredits
    ensures Asignar(Clear(creditosById, id), diasById, other) == Asignar(creditosById, diasById, other)
  {
    var r := Clear(creditosById, id);
    assert Lookup(r, other) == Lookup(creditosById, other);
  }

  /** A typed positive whole number is assigned as typed. */
  lemma TypedCreditsAssigned(creditosById: Inputs, diasById: Inputs, id: int, n: int)
    requires n > 0
    ensures Asignar(SetEntry(creditosById, id, Js.IntToString(n)), diasById, id).Send?
    ensures Asignar(SetEntry(creditosById, id, Js.IntToString(n)), diasById, id).creditos == n
  {
    Js.NumberOfIntToString(n);
  }

  /** The calendar reading of a date text in local time: day of month, month index from 0, and
      full year; `None` for an invalid date. */
  datatype DateParts = DateParts(day: int, month0: int, year: int)

  /** `fmtDDMMYYYY(iso)`: "—" for an empty or missing value; otherwise `dd/mm/yyyy` with the
      day and month padded to two digits ("NaN/NaN/NaN" for an invalid date). */
  function FmtDDMMYYYY(iso: Option<string>, parts: string -> Option<DateParts>): (r: string)
    ensures r == "—" <==> iso.None? || iso.value == []
    ensures iso.Some? && iso.value != [] && parts(iso.value).Some? ==>
      var p := parts(iso.value).value;
      r == Js.Pad(p.day) + "/" + Js.Pad(p.month0 + 1) + "/" + Js.IntToString(p.year)
  {
    if iso.None? || iso.value == [] then "—"
    else
      match parts(iso.value)
      case None => "NaN/NaN/NaN"
      case Some(p) => Js.Pad(p.day) + "/" + Js.Pad(p.month0 + 1) + "/" + Js.IntToString(p.year)
  }

  /** A calendar date in range renders with two-digit day and month fields that read back as
      the day, the month (counted from 1) and the year. */
  lemma FmtReadsBack(iso: string, parts: string -> Option<DateParts>)
    requires iso != [] && parts(iso).Some?
    requires 1 <= parts(iso).value.day <= 31 && 0 <= parts(iso).value.month0 <= 11
    ensures var r := FmtDDMMYYYY(Some(iso), parts);
      var p := parts(iso).value;
      && |r| >= 6 && r[2] == '/' && r[5] == '/'
      && Js.NumberOf(r[..2]) == Some(p.day)
      && Js.NumberOf(r[3..5]) == Some(p.month0 + 1)
      && Js.NumberOf(r[6..]) == Some(p.year)
  {
    var p := parts(iso).value;
    var d := Js.Pad(p.day);
    var m := Js.Pad(p.month0 + 1);
    var y := Js.IntToString(p.year);
    PadTwoDigits(p.day);
    PadTwoDigits(p.month0 + 1);
    Js.NumberOfIntToString(p.year);
    assert Js.NumberOf(d) == Some(p.day) && Js.NumberOf(m) == Some(p.month0 + 1);
    assert FmtDDMMYYYY(Some(iso), parts) == d + "/" + m + "/" + y;
    Fields(d, m, y);
  }

  /** Where the three fields sit in `dd/mm/yyyy`. */
  lemma Fields(d: string, m: string, y: string)
    requires |d| == 2 && |m| == 2
    ensures var r := d + "/" + m + "/" + y;
      |r| >= 6 && r[2] == '/' && r[5] == '/' && r[..2] == d && r[3..5] == m && r[6..] == y
  {
  }

  /** A number below 100 pads to exactly two characters. */
  lemma PadTwoDigits(n: int)
    requires 0 <= n < 100
    ensures |Js.Pad(n)| == 2
  {
    if n >= 10 {
      assert Js.NatToString(n) == Js.NatToString(n / 10) + [Js.DigitChar(n % 10)];
    }
  }
}
