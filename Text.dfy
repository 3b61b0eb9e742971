/**
  The JavaScript string primitives the ingestion pipeline and the CSV
  serialiser are built from: `trim`, `toLowerCase` (ASCII only), `includes`,
  `split` on one character, `join`, `padStart`, and the insertion-ordered
  de-duplication that a `Set` performs. Strings are sequences of code points.
*/
module Text {

  /** The code points JavaScript counts as white space or line terminators:
      what `String.prototype.trim` removes and what `\s` matches. U+FEFF, the
      byte-order mark, is one of them. */
  predicate IsSpace(c: char) {
    c == '\t' || c == '\n' || c == '\U{000B}' || c == '\U{000C}' || c == '\r' || c == ' '
    || c == '\U{00A0}' || c == '\U{1680}'
    || c == '\U{2000}' || c == '\U{2001}' || c == '\U{2002}' || c == '\U{2003}' || c == '\U{2004}'
    || c == '\U{2005}' || c == '\U{2006}' || c == '\U{2007}' || c == '\U{2008}' || c == '\U{2009}'
    || c == '\U{200A}' || c == '\U{2028}' || c == '\U{2029}' || c == '\U{202F}' || c == '\U{205F}'
    || c == '\U{3000}' || c == '\U{FEFF}'
  }

  /** The code points a regular-expression `.` does not match. */
  predicate IsLineTerminator(c: char) {
    c == '\n' || c == '\r' || c == '\U{2028}' || c == '\U{2029}'
  }

  /** What `\d` matches. */
  predicate IsDigit(c: char) {
    '0' <= c <= '9'
  }

  predicate AllSpace(s: string) {
    forall i :: 0 <= i < |s| ==> IsSpace(s[i])
  }

  predicate AllDigits(s: string) {
    forall i :: 0 <= i < |s| ==> IsDigit(s[i])
  }

  predicate NoLineTerminator(s: string) {
    forall i :: 0 <= i < |s| ==> !IsLineTerminator(s[i])
  }

  /** `s` holds only white space from index `b` on. */
  predicate SpaceFrom(s: string, b: nat) {
    forall j :: b <= j < |s| ==> IsSpace(s[j])
  }

  /** The first index at or after `i` that does not hold white space, or
      `|s|`: where a scan for `\s*` starting at `i` stops. */
  function SpaceEnd(s: string, i: nat): (j: nat)
    requires i <= |s|
    ensures i <= j <= |s|
    ensures j < |s| ==> !IsSpace(s[j])
    decreases |s| - i
  {
    if i == |s| || !IsSpace(s[i]) then i else SpaceEnd(s, i + 1)
  }

  /** Everything the scan passes over is white space. */
  lemma {:induction false} SpaceEndAll(s: string, i: nat)
    requires i <= |s|
    ensures forall k :: i <= k < SpaceEnd(s, i) ==> IsSpace(s[k])
    decreases |s| - i
  {
    if i < |s| && IsSpace(s[i]) {
      SpaceEndAll(s, i + 1);
    }
  }

  /** A run of white space from `i` up to a non-space (or the end) at `j` is
      exactly what the scan passes over. */
  lemma {:induction false} SpaceEndOfRun(s: string, i: nat, j: nat)
    requires i <= j <= |s|
    requires forall k :: i <= k < j ==> IsSpace(s[k])
    requires j == |s| || !IsSpace(s[j])
    ensures SpaceEnd(s, i) == j
    decreases j - i
  {
    if i < j {
      SpaceEndOfRun(s, i + 1, j);
    }
  }

  /** Scanning backwards from `j`, not below `a`: the index just after the
      last non-space of `s[a..j]`, or `a`. */
  function SpaceBack(s: string, a: nat, j: nat): (b: nat)
    requires a <= j <= |s|
    ensures a <= b <= j
    ensures b > a ==> !IsSpace(s[b - 1])
    decreases j - a
  {
    if j == a || !IsSpace(s[j - 1]) then j else SpaceBack(s, a, j - 1)
  }

  /** Everything the backward scan passes over is white space. */
  lemma {:induction false} SpaceBackAll(s: string, a: nat, j: nat)
    requires a <= j <= |s|
    ensures forall k :: SpaceBack(s, a, j) <= k < j ==> IsSpace(s[k])
    decreases j - a
  {
    if j > a && IsSpace(s[j - 1]) {
      SpaceBackAll(s, a, j - 1);
    }
  }

  /** Two cut points at or above `a`, each just after a non-space (or at
      `a`) and followed only by white space, coincide. */
  lemma CutUnique(s: string, a: nat, i: nat, j: nat)
    requires a <= i <= |s| && a <= j <= |s|
    requires i == a || !IsSpace(s[i - 1])
    requires j == a || !IsSpace(s[j - 1])
    requires SpaceFrom(s, i) && SpaceFrom(s, j)
    ensures i == j
  {
    assert i > a ==> IsSpace(s[i - 1]) || i <= j;
    assert j > a ==> IsSpace(s[j - 1]) || j <= i;
  }

  /** `String.prototype.trim`: white space cut from both ends. What is left
      neither starts nor ends with white space, and it is empty exactly when
      `s` is all white space. */
  function Trim(s: string): (r: string)
    ensures r == [] || (!IsSpace(r[0]) && !IsSpace(r[|r| - 1]))
    ensures r == [] <==> AllSpace(s)
    ensures |r| <= |s|
  {
    var a := SpaceEnd(s, 0);
    var b := SpaceBack(s, a, |s|);
    TrimEmpty(s, a, b);
    s[a..b]
  }

  /** The trimmed slice is empty exactly when `s` is all white space. */
  lemma TrimEmpty(s: string, a: nat, b: nat)
    requires a == SpaceEnd(s, 0) && b == SpaceBack(s, a, |s|)
    ensures a == b <==> AllSpace(s)
  {
    SpaceEndAll(s, 0);
    SpaceBackAll(s, a, |s|);
    assert a < |s| ==> !IsSpace(s[a]);
  }

  /** The trim is the slice of `s` that starts where the leading white space
      ends and is followed only by white space. */
  lemma TrimSlice(s: string)
    ensures SpaceEnd(s, 0) + |Trim(s)| <= |s|
    ensures Trim(s) == s[SpaceEnd(s, 0)..SpaceEnd(s, 0) + |Trim(s)|]
    ensures SpaceFrom(s, SpaceEnd(s, 0) + |Trim(s)|)
  {
    SpaceBackAll(s, SpaceEnd(s, 0), |s|);
  }

  /** The trim is the one slice that starts where the leading white space
      ends, ends on a non-space (or is empty) and is followed only by white
      space. */
  lemma TrimUnique(s: string, b: nat)
    requires SpaceEnd(s, 0) <= b <= |s|
    requires b == SpaceEnd(s, 0) || !IsSpace(s[b - 1])
    requires SpaceFrom(s, b)
    ensures Trim(s) == s[SpaceEnd(s, 0)..b]
  {
    var a := SpaceEnd(s, 0);
    SpaceBackAll(s, a, |s|);
    CutUnique(s, a, SpaceBack(s, a, |s|), b);
  }

  /** Whitespace around a text without whitespace at either end is exactly
      what trimming removes. */
  lemma TrimPadded(w1: string, core: string, w2: string)
    requires AllSpace(w1) && AllSpace(w2)
    requires core != [] && !IsSpace(core[0]) && !IsSpace(core[|core| - 1])
    ensures Trim(w1 + core + w2) == core
  {
    var s := w1 + core + w2;
    var a, b := |w1|, |w1| + |core|;
    assert forall k :: 0 <= k < a ==> s[k] == w1[k];
    assert s[a] == core[0] && s[b - 1] == core[|core| - 1];
    SpaceEndOfRun(s, 0, a);
    forall j | b <= j < |s| ensures IsSpace(s[j]) {
      assert s[j] == w2[j - b];
    }
    TrimUnique(s, b);
    assert s[a..b] == core;
  }

  /** A string without white space at either end is its own trim. */
  lemma TrimOfTrimmed(s: string)
    requires s == [] || (!IsSpace(s[0]) && !IsSpace(s[|s| - 1]))
    ensures Trim(s) == s
  {
    assert SpaceEnd(s, 0) == 0;
    TrimUnique(s, |s|);
    assert s[0..|s|] == s;
  }

  /** ASCII-only `toLowerCase` of one character. */
  function LowerChar(c: char): (d: char)
    ensures 'A' <= c <= 'Z' ==> d as int == c as int + 32
    ensures !('A' <= c <= 'Z') ==> d == c
  {
    if 'A' <= c <= 'Z' then (c as int + 32) as char else c
  }

  /** `toLowerCase`, ASCII letters only: same length, each character lowered. */
  function ToLower(s: string): (r: string)
    ensures |r| == |s|
    ensures forall i :: 0 <= i < |s| ==> r[i] == LowerChar(s[i])
  {
    seq(|s|, i requires 0 <= i < |s| => LowerChar(s[i]))
  }

  /** Lowering distributes over slices. */
  lemma ToLowerSlice(s: string, i: nat, j: nat)
    requires i <= j <= |s|
    ensures ToLower(s[i..j]) == ToLower(s)[i..j]
  {
  }

  /** `t` occurs in `s` at offset `i`. */
  predicate OccursAt(s: string, t: string, i: int) {
    0 <= i && i + |t| <= |s| && s[i..i + |t|] == t
  }

  /** `String.prototype.includes`: plain substring search. */
  predicate Contains(s: string, t: string)
    ensures Contains(s, t) ==> |t| <= |s|
  {
    exists i | 0 <= i <= |s| - |t| :: OccursAt(s, t, i)
  }

  /** Substring search is transitive: whatever occurs in a substring of `s`
      occurs in `s`. */
  lemma ContainsTransitive(s: string, t: string, u: string)
    requires Contains(s, t) && Contains(t, u)
    ensures Contains(s, u)
  {
    var i :| 0 <= i <= |s| - |t| && OccursAt(s, t, i);
    var j :| 0 <= j <= |t| - |u| && OccursAt(t, u, j);
    assert s[i..i + |t|] == t && t[j..j + |u|] == u;
    forall k | 0 <= k < |u| ensures s[i + j + k] == u[k] {
      assert t[j..j + |u|][k] == t[j + k];
      assert s[i..i + |t|][j + k] == s[i + j + k];
    }
    assert OccursAt(s, u, i + j);
  }

  /** Every slice of `s` is contained in `s`. */
  lemma ContainsSlice(s: string, i: nat, j: nat)
    requires i <= j <= |s|
    ensures Contains(s, s[i..j])
  {
    assert OccursAt(s, s[i..j], i);
  }

  /** Number of occurrences of `c` in `s`. */
  function Count(s: string, c: char): nat {
    if s == [] then 0 else (if s[0] == c then 1 else 0) + Count(s[1..], c)
  }

  /** Appending one character adds one to its own count and nothing to any
      other. */
  lemma {:induction false} CountAppend(s: string, x: char, c: char)
    ensures Count(s + [x], c) == Count(s, c) + (if x == c then 1 else 0)
  {
    if s != [] {
      assert (s + [x])[1..] == s[1..] + [x];
      CountAppend(s[1..], x, c);
    }
  }

  /** A character that does not occur is counted zero times. */
  lemma CountAbsent(s: string, c: char)
    requires c !in s
    ensures Count(s, c) == 0
  {
  }

  /** `parts` joined with `sep` between consecutive elements (`Array.prototype.join`). */
  function Join(parts: seq<string>, sep: string): string {
    if |parts| == 0 then ""
    else if |parts| == 1 then parts[0]
    else parts[0] + sep + Join(parts[1..], sep)
  }

  /** `String.prototype.split` on one character: never empty, no piece holds
      the separator, there is one more piece than separators, and joining the
      pieces back gives the input. */
  function Split(s: string, d: char): (parts: seq<string>)
    ensures |parts| == 1 + Count(s, d)
    ensures forall i :: 0 <= i < |parts| ==> d !in parts[i]
    ensures Join(parts, [d]) == s
    decreases |s|
  {
    if s == [] then [""]
    else
      var rest := Split(s[1..], d);
      if s[0] == d then
        assert [s[0]] + s[1..] == s;
        [""] + rest
      else
        var parts := [[s[0]] + rest[0]] + rest[1..];
        assert parts[1..] == rest[1..];
        parts
  }

  /** Splitting a join of separator-free pieces gives the pieces back. */
  lemma {:induction false} SplitJoin(parts: seq<string>, d: char)
    requires |parts| >= 1
    requires forall i :: 0 <= i < |parts| ==> d !in parts[i]
    ensures Split(Join(parts, [d]), d) == parts
    decreases |parts|, |parts[0]|
  {
    if parts[0] == [] {
      if |parts| > 1 {
        SplitJoin(parts[1..], d);
        assert Join(parts, [d]) == [d] + Join(parts[1..], [d]);
        SplitSeparator(Join(parts[1..], [d]), d);
      }
    } else {
      var p0 := parts[0];
      var tail := [p0[1..]] + parts[1..];
      SplitJoin(tail, d);
      JoinCons(parts, d);
      SplitOther(p0[0], Join(tail, [d]), d);
      assert [p0[0]] + p0[1..] == p0;
    }
  }

  /** Joining after moving the first character of the first piece out. */
  lemma JoinCons(parts: seq<string>, d: char)
    requires |parts| >= 1 && parts[0] != []
    ensures var tail := [parts[0][1..]] + parts[1..];
      Join(parts, [d]) == [parts[0][0]] + Join(tail, [d])
  {
    var p0 := parts[0];
    var tail := [p0[1..]] + parts[1..];
    assert tail[0] == p0[1..] && tail[1..] == parts[1..];
    assert [p0[0]] + p0[1..] == p0;
    if |parts| == 1 {
      assert Join(tail, [d]) == p0[1..];
    } else {
      var rest := Join(parts[1..], [d]);
      assert Join(parts, [d]) == p0 + [d] + rest;
      assert Join(tail, [d]) == p0[1..] + [d] + rest;
      HeadOfConcat(p0, [d], rest);
    }
  }

  /** Regrouping a concatenation of four strings. */
  lemma ConcatAssoc(a: string, b: string, c: string, d: string)
    ensures a + b + c + d == a + (b + c + d)
  {
  }

  /** Taking the first character off the front of `x + y + z`. */
  lemma HeadOfConcat(x: string, y: string, z: string)
    requires x != []
    ensures x + y + z == [x[0]] + (x[1..] + y + z)
  {
    assert [x[0]] + x[1..] == x;
  }

  /** A leading separator splits off an empty first piece. */
  lemma SplitSeparator(s: string, d: char)
    ensures Split([d] + s, d) == [""] + Split(s, d)
  {
    assert ([d] + s)[1..] == s;
  }

  /** Any other leading character joins the first piece. */
  lemma SplitOther(c: char, s: string, d: char)
    requires c != d
    ensures Split([c] + s, d) == [[c] + Split(s, d)[0]] + Split(s, d)[1..]
  {
    assert ([c] + s)[1..] == s;
  }

  /** `padStart(n, c)`: at least `n` long, `s` at the end, `c` in front. */
  function PadStart(s: string, n: nat, c: char): (r: string)
    ensures |r| == if |s| >= n then |s| else n
    ensures r[|r| - |s|..] == s
    ensures forall i :: 0 <= i < |r| - |s| ==> r[i] == c
  {
    if |s| >= n then s else seq(n - |s|, _ => c) + s
  }

  /** The insertion-ordered set a JavaScript `Set` keeps: the first occurrence
      of each element, in order of first appearance. */
  function Distinct<T(==,!new)>(s: seq<T>): (r: seq<T>)
    ensures forall x :: x in r <==> x in s
    ensures forall i, j :: 0 <= i < j < |r| ==> r[i] != r[j]
  {
    if s == [] then []
    else
      var d := Distinct(s[..|s| - 1]);
      assert forall x :: x in s <==> x in s[..|s| - 1] || x == s[|s| - 1];
      if s[|s| - 1] in d then d else d + [s[|s| - 1]]
  }

  /** Index of the first occurrence of `x` in `s`. */
  function FirstIndex<T(==)>(s: seq<T>, x: T): (k: nat)
    requires x in s
    ensures k < |s| && s[k] == x && x !in s[..k]
  {
    if s[0] == x then 0 else 1 + FirstIndex(s[1..], x)
  }

  /** The first index is the one position holding `x` with no `x` before it. */
  lemma {:induction false} FirstIndexUnique<T>(s: seq<T>, x: T, k: nat)
    requires k < |s| && s[k] == x && x !in s[..k]
    ensures FirstIndex(s, x) == k
  {
    if k > 0 {
      assert s[..k][0] == s[0];
      assert s[1..][k - 1] == x;
      assert s[1..][..k - 1] == s[1..k];
      FirstIndexUnique(s[1..], x, k - 1);
    }
  }

  /** The first index of an element of a prefix is the same in every extension. */
  lemma FirstIndexPrefix<T(!new)>(s: seq<T>, n: nat, x: T)
    requires n <= |s| && x in s[..n]
    ensures x in s && FirstIndex(s, x) == FirstIndex(s[..n], x)
  {
    var k := FirstIndex(s[..n], x);
    assert s[..k] == s[..n][..k];
    FirstIndexUnique(s, x, k);
  }

  /** Distinct keeps elements in order of their first appearance. */
  lemma {:induction false} DistinctFirstAppearance<T(!new)>(s: seq<T>)
    ensures forall i, j :: 0 <= i < j < |Distinct(s)| ==>
      FirstIndex(s, Distinct(s)[i]) < FirstIndex(s, Distinct(s)[j])
  {
    if s != [] {
      var n := |s| - 1;
      var p := s[..n];
      DistinctFirstAppearance(p);
      var d := Distinct(p);
      forall x | x in d ensures FirstIndex(s, x) == FirstIndex(p, x) && FirstIndex(s, x) < n {
        FirstIndexPrefix(s, n, x);
      }
      var r := Distinct(s);
      forall i, j | 0 <= i < j < |r| ensures FirstIndex(s, r[i]) < FirstIndex(s, r[j]) {
        if j < |d| {
          assert r[i] == d[i] && r[j] == d[j];
        } else {
          assert r[j] == s[n] && r[j] !in p;
          assert FirstIndex(s, r[j]) == n;
          assert r[i] == d[i];
        }
      }
    }
  }

  function DigitChar(n: nat): (c: char)
    requires n < 10
    ensures IsDigit(c)
  {
    ('0' as int + n) as char
  }

  /** The value of a string of decimal digits. */
  function DigitsValue(s: string): nat
    requires AllDigits(s)
  {
    if s == [] then 0 else 10 * DigitsValue(s[..|s| - 1]) + (s[|s| - 1] as int - '0' as int)
  }

  /** Decimal rendering of a natural number, as a template literal prints it:
      non-empty digits, no leading zero, and reading it back gives `n`. */
  function NatToString(n: nat): (r: string)
    ensures |r| >= 1 && AllDigits(r)
    ensures r[0] == '0' ==> n == 0
    ensures DigitsValue(r) == n
  {
    if n < 10 then [DigitChar(n)]
    else
      var r := NatToString(n / 10) + [DigitChar(n % 10)];
      assert r[..|r| - 1] == NatToString(n / 10);
      r
  }
}
