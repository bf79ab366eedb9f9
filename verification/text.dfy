/** The string operations the pages apply to user input: `trim`, `replace(/\s+/g, " ")`,
    `toLowerCase` and `includes`, over `string = seq<char>`. */
module Text {

  /** White space as `\s` and `String.prototype.trim` see it: the ECMAScript WhiteSpace and
      LineTerminator code points. */
  predicate IsSpace(c: char) {
    || c == '\t' || c == '\n' || c == '\U{000B}' || c == '\U{000C}' || c == '\r' || c == ' '
    || c == '\U{00A0}' || c == '\U{1680}' || ('\U{2000}' <= c <= '\U{200A}')
    || c == '\U{2028}' || c == '\U{2029}' || c == '\U{202F}' || c == '\U{205F}'
    || c == '\U{3000}' || c == '\U{FEFF}'
  }

  /** Every character is white space (this includes the empty string). */
  predicate Blank(s: string) {
    forall i :: 0 <= i < |s| ==> IsSpace(s[i])
  }

  /** Upper-case letters whose lower-case form the model knows: ASCII and Latin-1. */
  predicate IsUpper(c: char) {
    ('A' <= c <= 'Z') || ('\U{00C0}' <= c <= '\U{00DE}' && c != '\U{00D7}')
  }

  /** `toLowerCase` on one character: an upper-case letter becomes the letter 32 code points
      further on, its lower-case form in ASCII and Latin-1; anything else is kept. */
  function LowerChar(c: char): (d: char)
    ensures !IsUpper(d)
    ensures IsUpper(c) ==> d as int == c as int + 32
    ensures !IsUpper(c) ==> d == c
    ensures IsSpace(d) <==> IsSpace(c)
    ensures d == ' ' <==> c == ' '
  {
    if IsUpper(c) then (c as int + 32) as char else c
  }

  /** `s.toLowerCase()` */
  function Lower(s: string): (r: string)
    ensures |r| == |s|
    ensures forall i :: 0 <= i < |s| ==> r[i] == LowerChar(s[i])
  {
    seq(|s|, i requires 0 <= i < |s| => LowerChar(s[i]))
  }

  /** Lower-casing twice is lower-casing once. */
  lemma LowerIdempotent(s: string)
    ensures Lower(Lower(s)) == Lower(s)
  {
  }

  /** Drops leading white space. */
  function TrimStart(s: string): (r: string)
    ensures |r| <= |s|
    ensures s != [] && IsSpace(s[0]) ==> |r| < |s|
    ensures r == [] || !IsSpace(r[0])
  {
    if s != [] && IsSpace(s[0]) then TrimStart(s[1..]) else s
  }

  /** What TrimStart drops is a white-space prefix. */
  lemma {:induction false} TrimStartSuffix(s: string)
    ensures var r := TrimStart(s);
      && r == s[|s| - |r|..]
      && forall i :: 0 <= i < |s| - |r| ==> IsSpace(s[i])
  {
    if s != [] && IsSpace(s[0]) {
      TrimStartSuffix(s[1..]);
      var r := TrimStart(s);
      assert forall i :: 1 <= i < |s| - |r| ==> s[i] == s[1..][i - 1];
    }
  }

  /** The first index at or after `k` that does not hold white space (`|s|` if none). */
  function SkipSpaces(s: string, k: nat): (b: nat)
    requires k <= |s|
    ensures k <= b <= |s|
    ensures forall i :: k <= i < b ==> IsSpace(s[i])
    ensures b < |s| ==> !IsSpace(s[b])
    decreases |s| - k
  {
    if k == |s| || !IsSpace(s[k]) then k else SkipSpaces(s, k + 1)
  }

  /** The end of `s[..k]` once its trailing white space is dropped. */
  function BackSpaces(s: string, k: nat): (e: nat)
    requires k <= |s|
    ensures e <= k
    ensures forall i :: e <= i < k ==> IsSpace(s[i])
    ensures e > 0 ==> !IsSpace(s[e - 1])
    decreases k
  {
    if k == 0 || !IsSpace(s[k - 1]) then k else BackSpaces(s, k - 1)
  }

  /** `s.trim()`: what is left has no white space at either end, and it is empty exactly when
      the input was blank. */
  function Trim(s: string): (r: string)
    ensures exists b, e :: 0 <= b <= e <= |s| && r == s[b..e] && Blank(s[..b]) && Blank(s[e..])
    ensures |r| <= |s|
    ensures r == [] || (!IsSpace(r[0]) && !IsSpace(r[|r| - 1]))
    ensures r == [] <==> Blank(s)
    ensures s == [] || (!IsSpace(s[0]) && !IsSpace(s[|s| - 1])) ==> r == s
  {
    var b := SkipSpaces(s, 0);
    var e := BackSpaces(s, |s|);
    if b < e then
      BlankAround(s, b, e);
      s[b..e]
    else
      BlankAround(s, 0, 0);
      []
  }

  /** The slices around `s[b..e]` are blank when the characters there are white space. */
  lemma BlankAround(s: string, b: nat, e: nat)
    requires b <= e <= |s|
    requires forall i :: 0 <= i < b ==> IsSpace(s[i])
    requires forall i :: e <= i < |s| ==> IsSpace(s[i])
    ensures Blank(s[..b]) && Blank(s[e..])
  {
    assert forall i :: 0 <= i < b ==> s[..b][i] == s[i];
    assert forall i :: 0 <= i < |s| - e ==> s[e..][i] == s[e + i];
  }

  /** Trimming is idempotent. */
  lemma TrimIdempotent(s: string)
    ensures Trim(Trim(s)) == Trim(s)
  {
  }

  /** `s.replace(/\s+/g, " ")`: each maximal run of white space becomes one space. */
  function Collapse(s: string): (r: string)
    ensures |r| <= |s|
    ensures s == [] <==> r == []
    decreases |s|
  {
    if s == [] then []
    else if IsSpace(s[0]) then " " + Collapse(TrimStart(s))
    else [s[0]] + Collapse(s[1..])
  }

  /** A leading character that is not white space is kept as the first character. */
  lemma CollapseKeepsHead(s: string)
    requires s != [] && !IsSpace(s[0])
    ensures Collapse(s) != [] && Collapse(s)[0] == s[0]
  {
  }

  /** No white space follows white space at index `i`. */
  predicate SingleSpaceAt(r: string, i: int)
    requires 0 <= i < |r| - 1
  {
    !IsSpace(r[i]) || !IsSpace(r[i + 1])
  }

  /** White space only as single ' ' separators between other characters. */
  ghost predicate Collapsed(r: string) {
    && (r == [] || (!IsSpace(r[0]) && !IsSpace(r[|r| - 1])))
    && (forall i :: 0 <= i < |r| && IsSpace(r[i]) ==> r[i] == ' ')
    && (forall i :: 0 <= i < |r| - 1 ==> SingleSpaceAt(r, i))
  }

  /** A normalised string: collapsed, and nothing upper-case. */
  ghost predicate IsNormal(r: string) {
    Collapsed(r) && forall i :: 0 <= i < |r| ==> !IsUpper(r[i])
  }

  /** The branch-name key: trim, collapse white space, lower-case. It is empty exactly for blank
      text. */
  function Norm(s: string): (r: string)
    ensures r == [] <==> Blank(s)
  {
    Lower(Collapse(Trim(s)))
  }

  /** Every key is normalised. */
  lemma NormIsNormal(s: string)
    ensures IsNormal(Norm(s))
  {
    var t := Trim(s);
    CollapseShape(t);
    LowerCollapsed(Collapse(t));
  }

  /** Lower-casing keeps white space where it was. */
  lemma LowerCollapsed(c: string)
    requires Collapsed(c)
    ensures Collapsed(Lower(c))
  {
    var r := Lower(c);
    forall i | 0 <= i < |r| - 1 ensures SingleSpaceAt(r, i) {
      assert SingleSpaceAt(c, i);
    }
  }

  /** What Collapse makes of trimmed text. */
  lemma CollapseShape(s: string)
    requires s == [] || (!IsSpace(s[0]) && !IsSpace(s[|s| - 1]))
    ensures Collapsed(Collapse(s))
  {
    CollapseSpaces(s);
    CollapseLast(s);
    var r := Collapse(s);
    forall i | 0 <= i < |r| - 1 ensures SingleSpaceAt(r, i) {
    }
  }

  lemma {:induction false} CollapseSpaces(s: string)
    ensures forall i :: 0 <= i < |Collapse(s)| && IsSpace(Collapse(s)[i]) ==> Collapse(s)[i] == ' '
    ensures forall i :: 0 <= i < |Collapse(s)| - 1 ==> !IsSpace(Collapse(s)[i]) || !IsSpace(Collapse(s)[i + 1])
    decreases |s|
  {
    if s != [] {
      var r := Collapse(s);
      var u := if IsSpace(s[0]) then TrimStart(s) else s[1..];
      CollapseSpaces(u);
      var cu := Collapse(u);
      assert r == [r[0]] + cu;
      assert IsSpace(s[0]) ==> r[0] == ' ' && (cu == [] || !IsSpace(cu[0]));
      forall i | 0 <= i < |r| - 1 ensures !IsSpace(r[i]) || !IsSpace(r[i + 1]) {
        if i > 0 { assert r[i] == cu[i - 1] && r[i + 1] == cu[i]; }
      }
      forall i | 0 <= i < |r| && IsSpace(r[i]) ensures r[i] == ' ' {
        if i > 0 { assert r[i] == cu[i - 1]; }
      }
    }
  }

  lemma {:induction false} CollapseLast(s: string)
    ensures s != [] && !IsSpace(s[|s| - 1]) ==> !IsSpace(Collapse(s)[|Collapse(s)| - 1])
    decreases |s|
  {
    if s != [] && !IsSpace(s[|s| - 1]) {
      if IsSpace(s[0]) {
        var u := TrimStart(s);
        TrimStartShorter(s);
        CollapseLast(u);
        assert Collapse(s) == " " + Collapse(u);
      } else if |s| == 1 {
        assert Collapse(s) == [s[0]] + Collapse([]);
      } else {
        var u := s[1..];
        assert u[|u| - 1] == s[|s| - 1];
        CollapseLast(u);
        assert Collapse(s) == [s[0]] + Collapse(u);
      }
    }
  }

  /** Collapse leaves a string alone when its only white space is isolated single spaces. */
  lemma {:induction false} CollapseFixed(s: string)
    requires forall i :: 0 <= i < |s| && IsSpace(s[i]) ==> s[i] == ' '
    requires forall i :: 0 <= i < |s| - 1 ==> !IsSpace(s[i]) || !IsSpace(s[i + 1])
    ensures Collapse(s) == s
    decreases |s|
  {
    if s != [] {
      var u := s[1..];
      assert forall i :: 0 <= i < |u| ==> u[i] == s[i + 1];
      if IsSpace(s[0]) {
        assert u == [] || !IsSpace(u[0]);
        assert TrimStart(s) == u;
      }
      CollapseFixed(u);
    }
  }

  /** Collapse keeps a word, text without white space, as it is. */
  lemma CollapseWord(s: string)
    requires forall i :: 0 <= i < |s| ==> !IsSpace(s[i])
    ensures Collapse(s) == s
  {
    CollapseFixed(s);
  }

  /** Collapse works piece by piece across a boundary that does not split a white-space run. */
  lemma {:induction false} CollapseAppend(a: string, t: string)
    requires a == [] || !IsSpace(a[|a| - 1])
    ensures Collapse(a + t) == Collapse(a) + Collapse(t)
    decreases |a|
  {
    if a == [] {
      assert a + t == t;
    } else if IsSpace(a[0]) {
      var u := TrimStart(a);
      TrimStartAppend(a, t);
      TrimStartShorter(a);
      CollapseAppend(u, t);
      CollapseAppendSpace(a, t, u);
    } else {
      assert (a + t)[1..] == a[1..] + t;
      CollapseAppend(a[1..], t);
      CollapseAppendWord(a, t);
    }
  }

  lemma {:induction false} CollapseAppendWord(a: string, t: string)
    requires a != [] && !IsSpace(a[0])
    requires Collapse(a[1..] + t) == Collapse(a[1..]) + Collapse(t)
    ensures Collapse(a + t) == Collapse(a) + Collapse(t)
  {
    var at := a + t;
    assert at[0] == a[0] && at[1..] == a[1..] + t;
    CollapseWordHead(a);
    CollapseWordHead(at);
    AppendAssoc([a[0]], Collapse(a[1..]), Collapse(t));
  }

  lemma {:induction false} CollapseWordHead(s: string)
    requires s != [] && !IsSpace(s[0])
    ensures Collapse(s) == [s[0]] + Collapse(s[1..])
  {
  }

  lemma {:induction false} CollapseAppendSpace(a: string, t: string, u: string)
    requires a != [] && IsSpace(a[0])
    requires u == TrimStart(a) && TrimStart(a + t) == u + t
    requires Collapse(u + t) == Collapse(u) + Collapse(t)
    ensures Collapse(a + t) == Collapse(a) + Collapse(t)
  {
    CollapseSpaceHead(a);
    assert (a + t)[0] == a[0];
    CollapseSpaceHead(a + t);
    AppendAssoc(" ", Collapse(u), Collapse(t));
  }

  lemma AppendAssoc(x: string, y: string, z: string)
    ensures x + (y + z) == (x + y) + z
  {
  }

  /** A leading white-space run collapses to one space. */
  lemma {:induction false} CollapseSpaceHead(s: string)
    requires s != [] && IsSpace(s[0])
    ensures Collapse(s) == " " + Collapse(TrimStart(s))
  {
  }

  /** Dropping a leading white-space run of text that ends in another character leaves a shorter
      non-empty text with the same last character. */
  lemma {:induction false} TrimStartShorter(a: string)
    requires a != [] && IsSpace(a[0]) && !IsSpace(a[|a| - 1])
    ensures var u := TrimStart(a); 0 < |u| < |a| && u[|u| - 1] == a[|a| - 1]
  {
    TrimStartSuffix(a);
  }

  lemma {:induction false} TrimStartAppend(a: string, t: string)
    requires a != [] && !IsSpace(a[|a| - 1])
    ensures TrimStart(a + t) == TrimStart(a) + t
    decreases |a|
  {
    if IsSpace(a[0]) {
      assert (a + t)[1..] == a[1..] + t;
      TrimStartAppend(a[1..], t);
    }
  }

  lemma {:induction false} TrimStartBlank(w: string, b: string)
    requires Blank(w) && (b == [] || !IsSpace(b[0]))
    ensures TrimStart(w + b) == b
    decreases |w|
  {
    if w != [] {
      assert (w + b)[1..] == w[1..] + b;
      TrimStartBlank(w[1..], b);
    } else {
      assert w + b == b;
    }
  }

  /** A white-space run between two pieces becomes exactly one space, and nothing else
      changes: `Collapse(a + w + b) == Collapse(a) + " " + Collapse(b)`. */
  lemma {:induction false} CollapseJoin(a: string, w: string, b: string)
    requires a == [] || !IsSpace(a[|a| - 1])
    requires w != [] && Blank(w)
    requires b == [] || !IsSpace(b[0])
    ensures Collapse(a + w + b) == Collapse(a) + " " + Collapse(b)
  {
    var wb := w + b;
    assert a + w + b == a + wb;
    calc {
      Collapse(a + w + b);
      Collapse(a + wb);
      { CollapseAppend(a, wb); }
      Collapse(a) + Collapse(wb);
      { CollapseBlank(w, b); }
      Collapse(a) + (" " + Collapse(b));
      Collapse(a) + " " + Collapse(b);
    }
  }

  lemma {:induction false} CollapseBlank(w: string, b: string)
    requires w != [] && Blank(w) && (b == [] || !IsSpace(b[0]))
    ensures Collapse(w + b) == " " + Collapse(b)
  {
    var wb := w + b;
    assert wb[0] == w[0];
    TrimStartBlank(w, b);
  }

  /** Lower-casing works piece by piece. */
  lemma LowerAppend(x: string, y: string)
    ensures Lower(x + y) == Lower(x) + Lower(y)
  {
  }

  /** A normalised string is its own key. */
  lemma NormFixed(r: string)
    requires IsNormal(r)
    ensures Norm(r) == r
  {
    assert Trim(r) == r;
    forall i | 0 <= i < |r| - 1 ensures !IsSpace(r[i]) || !IsSpace(r[i + 1]) {
      assert SingleSpaceAt(r, i);
    }
    CollapseFixed(r);
  }

  /** Normalising twice is normalising once. */
  lemma NormIdempotent(s: string)
    ensures Norm(Norm(s)) == Norm(s)
  {
    NormIsNormal(s);
    NormFixed(Norm(s));
  }

  /** Trimming first does not change the key. */
  lemma NormTrim(s: string)
    ensures Norm(Trim(s)) == Norm(s)
  {
    TrimIdempotent(s);
  }

  /** The key of a word is the word lower-cased. */
  lemma NormWord(s: string)
    requires forall i :: 0 <= i < |s| ==> !IsSpace(s[i])
    ensures Norm(s) == Lower(s)
  {
    assert Trim(s) == s;
    CollapseWord(s);
  }

  /** The key of two trimmed pieces joined by white space is their keys joined by one space. */
  lemma {:induction false} NormJoin(a: string, w: string, b: string)
    requires a != [] && !IsSpace(a[0]) && !IsSpace(a[|a| - 1])
    requires w != [] && Blank(w)
    requires b != [] && !IsSpace(b[0]) && !IsSpace(b[|b| - 1])
    ensures Norm(a + w + b) == Norm(a) + " " + Norm(b)
  {
    var s := a + w + b;
    assert s[0] == a[0] && s[|s| - 1] == b[|b| - 1];
    TrimFixed(s);
    TrimFixed(a);
    TrimFixed(b);
    CollapseJoin(a, w, b);
    LowerJoin(Collapse(a), Collapse(b));
  }

  /** Text with no white space at either end is its own trim. */
  lemma TrimFixed(x: string)
    requires x != [] && !IsSpace(x[0]) && !IsSpace(x[|x| - 1])
    ensures Trim(x) == x
  {
  }

  lemma {:induction false} LowerJoin(x: string, y: string)
    ensures Lower(x + " " + y) == Lower(x) + " " + Lower(y)
  {
    LowerAppend(x + " ", y);
    LowerAppend(x, " ");
    assert Lower(" ") == " ";
  }

  /** Lower-casing commutes with trimming (case mapping never creates or removes white space). */
  lemma TrimLower(s: string)
    ensures Trim(Lower(s)) == Lower(Trim(s))
  {
    var b := SkipSpaces(s, 0);
    var e := BackSpaces(s, |s|);
    SkipLower(s, 0);
    BackLower(s, |s|);
    assert Trim(Lower(s)) == if b < e then Lower(s)[b..e] else [];
    assert Trim(s) == if b < e then s[b..e] else [];
    if b < e {
      LowerSlice(s, b, e);
    }
  }

  lemma LowerSlice(s: string, b: nat, e: nat)
    requires b <= e <= |s|
    ensures Lower(s)[b..e] == Lower(s[b..e])
  {
    forall i | 0 <= i < e - b ensures Lower(s)[b..e][i] == Lower(s[b..e])[i] {
      assert s[b..e][i] == s[b + i];
    }
  }

  lemma {:induction false} SkipLower(s: string, k: nat)
    requires k <= |s|
    ensures SkipSpaces(Lower(s), k) == SkipSpaces(s, k)
    decreases |s| - k
  {
    if k < |s| && IsSpace(s[k]) {
      SkipLower(s, k + 1);
    }
  }

  lemma {:induction false} BackLower(s: string, k: nat)
    requires k <= |s|
    ensures BackSpaces(Lower(s), k) == BackSpaces(s, k)
    decreases k
  {
    if k > 0 && IsSpace(s[k - 1]) {
      BackLower(s, k - 1);
    }
  }

  /** `needle` occurs in `hay` starting at index `i`. */
  predicate OccursAt(needle: string, hay: string, i: int) {
    0 <= i && i + |needle| <= |hay| && hay[i..i + |needle|] == needle
  }

  /** `hay.includes(needle)` */
  function Includes(hay: string, needle: string): (b: bool)
    ensures b <==> exists i :: OccursAt(needle, hay, i)
    decreases |hay|
  {
    if needle <= hay then
      assert OccursAt(needle, hay, 0);
      true
    else if hay == [] then
      assert forall i :: !OccursAt(needle, hay, i);
      false
    else
      var b := Includes(hay[1..], needle);
      assert b ==> exists i :: OccursAt(needle, hay, i) by {
        if b {
          var i :| OccursAt(needle, hay[1..], i);
          assert hay[1..][i..i + |needle|] == hay[i + 1..i + 1 + |needle|];
          assert OccursAt(needle, hay, i + 1);
        }
      }
      assert (exists i :: OccursAt(needle, hay, i)) ==> b by {
        if exists i :: OccursAt(needle, hay, i) {
          var i :| OccursAt(needle, hay, i);
          assert i != 0;
          assert hay[1..][i - 1..i - 1 + |needle|] == hay[i..i + |needle|];
          assert OccursAt(needle, hay[1..], i - 1);
        }
      }
      b
  }
}
