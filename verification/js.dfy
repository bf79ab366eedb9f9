/** The JavaScript value semantics the pages lean on: truthiness, `a || b`, `String(v)`,
    `Number(v)` on form text, and `String(n).padStart(2, "0")`. Numbers are integers here;
    NaN is `None`. */
module Js {
  import opened Wrappers
  import Text

  /** The result of `Number(...)`: `None` is NaN. */
  type Number = Option<int>

  /** The loosely typed values that reach the pages from forms and API records. */
  datatype Value = Undefined | Null | Num(n: int) | Str(s: string)

  /** JavaScript truthiness: undefined, null, 0 and "" are falsy. */
  predicate Truthy(v: Value) {
    match v
    case Undefined => false
    case Null => false
    case Num(n) => n != 0
    case Str(s) => s != []
  }

  /** `a || b` */
  function Or(a: Value, b: Value): (r: Value)
    ensures Truthy(a) ==> r == a
    ensures !Truthy(a) ==> r == b
  {
    if Truthy(a) then a else b
  }

  predicate IsDigit(c: char) {
    '0' <= c <= '9'
  }

  predicate AllDigits(s: string) {
    forall i :: 0 <= i < |s| ==> IsDigit(s[i])
  }

  /** The value of a decimal digit string (the empty string is 0). */
  function DigitsValue(s: string): nat
    requires AllDigits(s)
  {
    if s == [] then 0
    else DigitsValue(s[..|s| - 1]) * 10 + (s[|s| - 1] as int - '0' as int)
  }

  function DigitChar(d: int): (c: char)
    requires 0 <= d < 10
    ensures IsDigit(c) && c as int - '0' as int == d
  {
    ('0' as int + d) as char
  }

  /** `String(n)` for a natural number: the shortest decimal digit string. */
  function NatToString(n: nat): (s: string)
    ensures |s| >= 1 && AllDigits(s)
    ensures DigitsValue(s) == n
    ensures |s| > 1 ==> s[0] != '0'
    ensures n < 10 <==> |s| == 1
  {
    if n < 10 then [DigitChar(n)]
    else
      var s := NatToString(n / 10) + [DigitChar(n % 10)];
      assert s[..|s| - 1] == NatToString(n / 10);
      s
  }

  /** `String(n)` for an integer. */
  function IntToString(n: int): (s: string)
    ensures |s| >= 1
    ensures n >= 0 ==> s == NatToString(n)
    ensures n < 0 ==> s == "-" + NatToString(-n)
  {
    if n < 0 then "-" + NatToString(-n) else NatToString(n)
  }

  /** `Number(s)` for form text: surrounding white space is ignored, blank text is 0, an
      optionally signed decimal integer is its value, anything else is NaN. */
  function NumberOf(s: string): (r: Number)
    ensures Text.Blank(s) ==> r == Some(0)
    ensures AllDigits(s) && s != [] ==> r == Some(DigitsValue(s))
    ensures var t := Text.Trim(s);
      r.None? <==> t != [] && !AllDigits(t) && !(|t| > 1 && (t[0] == '-' || t[0] == '+') && AllDigits(t[1..]))
    ensures var t := Text.Trim(s);
      AllDigits(t) && t != [] ==> r == Some(DigitsValue(t))
    ensures var t := Text.Trim(s);
      |t| > 1 && t[0] == '-' && AllDigits(t[1..]) ==> r == Some(0 - DigitsValue(t[1..]))
    ensures var t := Text.Trim(s);
      |t| > 1 && t[0] == '+' && AllDigits(t[1..]) ==> r == Some(DigitsValue(t[1..]))
  {
    DigitsTrimmed(s);
    var t := Text.Trim(s);
    if t == [] then Some(0)
    else if t[0] == '-' && |t| > 1 && AllDigits(t[1..]) then Some(0 - DigitsValue(t[1..]))
    else if t[0] == '+' && |t| > 1 && AllDigits(t[1..]) then Some(DigitsValue(t[1..]))
    else if AllDigits(t) then Some(DigitsValue(t))
    else None
  }

  /** A digit string has no white space to trim and no sign. */
  lemma DigitsTrimmed(s: string)
    ensures AllDigits(s) && s != [] ==> Text.Trim(s) == s && s[0] != '-' && s[0] != '+'
  {
    if AllDigits(s) && s != [] {
      assert IsDigit(s[0]) && IsDigit(s[|s| - 1]);
      Text.TrimFixed(s);
    }
  }

  /** `Number(String(n)) === n`: the two conversions are inverse on integers. */
  lemma {:induction false} NumberOfIntToString(n: int)
    ensures NumberOf(IntToString(n)) == Some(n)
  {
    var d := NatToString(if n < 0 then -n else n);
    if n >= 0 {
      assert IsDigit(d[0]) && IsDigit(d[|d| - 1]);
      Text.TrimFixed(d);
    } else {
      var s := IntToString(n);
      assert s[0] == '-' && s[1..] == d;
      NumberOfNegative(s);
    }
  }

  /** A minus sign followed by digits reads as the negated digit value. */
  lemma NumberOfNegative(s: string)
    requires |s| > 1 && s[0] == '-' && AllDigits(s[1..])
    ensures NumberOf(s) == Some(0 - DigitsValue(s[1..]))
  {
    assert IsDigit(s[1..][|s| - 2]);
    Text.TrimFixed(s);
  }

  /** `Number(v)` for a loosely typed value: undefined is NaN, null is 0. */
  function ToNumber(v: Value): (r: Number)
    ensures v.Undefined? ==> r.None?
    ensures v.Null? ==> r == Some(0)
    ensures v.Num? ==> r == Some(v.n)
  {
    match v
    case Undefined => None
    case Null => Some(0)
    case Num(n) => Some(n)
    case Str(s) => NumberOf(s)
  }

  /** `String(v)` */
  function ToStr(v: Value): (s: string)
    ensures v.Undefined? ==> s == "undefined"
    ensures v.Null? ==> s == "null"
    ensures v.Str? ==> s == v.s
    ensures v.Num? ==> NumberOf(s) == Some(v.n)
  {
    match v
    case Undefined => "undefined"
    case Null => "null"
    case Num(n) => NumberOfIntToString(n); IntToString(n)
    case Str(s) => s
  }

  /** `String(n).padStart(2, "0")`: at least two characters, ending in `String(n)`, preceded
      only by zeros; for a natural number it still reads back as `n`. */
  function Pad(n: int): (r: string)
    ensures |r| >= 2
    ensures |r| >= |IntToString(n)| && r[|r| - |IntToString(n)|..] == IntToString(n)
    ensures forall i :: 0 <= i < |r| - |IntToString(n)| ==> r[i] == '0'
    ensures |IntToString(n)| >= 2 ==> r == IntToString(n)
    ensures |IntToString(n)| < 2 ==> |r| == 2
    ensures n >= 0 ==> NumberOf(r) == Some(n)
  {
    var s := IntToString(n);
    if |s| >= 2 then
      NumberOfIntToString(n);
      s
    else
      var r := "0" + s;
      PadSmall(n, s, r);
      r
  }

  lemma PadSmall(n: int, s: string, r: string)
    requires s == IntToString(n) && |s| < 2 && r == "0" + s
    ensures n >= 0 ==> NumberOf(r) == Some(n)
  {
    if n >= 0 {
      assert s == [DigitChar(n)];
      assert r[..|r| - 1] == "0";
      assert AllDigits(r) && DigitsValue(r) == n;
      assert !Text.IsSpace(r[0]) && !Text.IsSpace(r[|r| - 1]);
      assert Text.Trim(r) == r;
    }
  }
}
