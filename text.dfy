/**
 * String operations that the inspector borrows from Python's `str` and Rust's
 * `str`: substring search (`in`, `find`, `split_once`), `split`, `strip`,
 * `startswith`, lexicographic order and decimal rendering of integers.
 */
module Text {
  import opened Wrappers

  /** `sep` occurs in `s` starting at index `j`. */
  predicate OccursAt(s: string, sep: string, j: nat) {
    j + |sep| <= |s| && s[j..j + |sep|] == sep
  }

  /** Index of the leftmost occurrence of `sep` in `s` (Python's `s.find(sep)`). */
  function FindFirst(s: string, sep: string): (r: Option<nat>)
    requires sep != []
    ensures r.Some? ==> OccursAt(s, sep, r.value)
    ensures forall j: nat :: OccursAt(s, sep, j) ==> r.Some? && r.value <= j
    decreases |s|
  {
    if |s| < |sep| then None
    else if s[..|sep|] == sep then Some(0)
    else
      var rest := FindFirst(s[1..], sep);
      forall j: nat | 1 <= j ensures OccursAt(s, sep, j) <==> OccursAt(s[1..], sep, j - 1) {
        OccursShift(s, sep, j);
      }
      match rest
      case None => None
      case Some(i) =>
        OccursShift(s, sep, i + 1);
        Some(i + 1)
  }

  /** An occurrence after the first character is an occurrence in the rest. */
  lemma OccursShift(s: string, sep: string, j: nat)
    requires s != [] && 1 <= j
    ensures OccursAt(s, sep, j) <==> OccursAt(s[1..], sep, j - 1)
  {
    if j + |sep| <= |s| {
      var a, b := s[1..][j - 1..j - 1 + |sep|], s[j..j + |sep|];
      assert |a| == |b| && forall k :: 0 <= k < |a| ==> a[k] == b[k];
      assert a == b;
    }
  }

  /** Python's `sep in s`. */
  predicate Contains(s: string, sep: string)
    requires sep != []
  {
    FindFirst(s, sep).Some?
  }

  /** `needle in s` for any needle, the empty one included: some position holds it. */
  predicate Infix(needle: string, s: string) {
    exists i: nat | i <= |s| :: OccursAt(s, needle, i)
  }

  /** The leftmost-occurrence search and the declarative substring test agree. */
  lemma ContainsIsInfix(s: string, sep: string)
    requires sep != []
    ensures Contains(s, sep) <==> Infix(sep, s)
  {
    if Infix(sep, s) {
      var i: nat :| i <= |s| && OccursAt(s, sep, i);
    }
  }

  lemma ContainsAt(s: string, sep: string, j: nat)
    requires sep != [] && OccursAt(s, sep, j)
    ensures Contains(s, sep)
  {
  }

  /** A part of a slice of `t` is a part of `t`. */
  lemma InfixWithin(needle: string, s: string, t: string, off: nat)
    requires Infix(needle, s) && off + |s| <= |t| && t[off..off + |s|] == s
    ensures Infix(needle, t)
  {
    var i: nat :| i <= |s| && OccursAt(s, needle, i);
    forall k | 0 <= k < |needle|
      ensures t[off + i + k] == needle[k]
    {
      assert t[off + i + k] == t[off..off + |s|][i + k];
      assert s[i..i + |needle|][k] == s[i + k];
    }
    assert t[off + i..off + i + |needle|] == needle;
    assert OccursAt(t, needle, off + i);
  }

  /** Both sides of `a + sep + b` are slices of it. */
  lemma SidesAreSlices(t: string, a: string, sep: string, b: string)
    requires t == a + sep + b
    ensures |t| == |a| + |sep| + |b|
    ensures t[0..|a|] == a
    ensures t[|a| + |sep|..|a| + |sep| + |b|] == b
  {
  }

  /** A part of either side of `a + sep + b` is a part of the whole. */
  lemma InfixOfSides(needle: string, t: string, a: string, sep: string, b: string)
    requires t == a + sep + b
    ensures Infix(needle, a) ==> Infix(needle, t)
    ensures Infix(needle, b) ==> Infix(needle, t)
  {
    SidesAreSlices(t, a, sep, b);
    if Infix(needle, a) {
      InfixWithin(needle, a, t, 0);
    }
    if Infix(needle, b) {
      InfixWithin(needle, b, t, |a| + |sep|);
    }
  }

  /** Inverse of `Split`: Python's `sep.join(parts)`. */
  function Join(parts: seq<string>, sep: string): string {
    if |parts| == 0 then []
    else if |parts| == 1 then parts[0]
    else parts[0] + sep + Join(parts[1..], sep)
  }

  /**
   * Python's `s.split(sep)`: cut at every occurrence of `sep`, scanning from the
   * left and resuming after each occurrence, so occurrences never overlap.
   */
  function Split(s: string, sep: string): (parts: seq<string>)
    requires sep != []
    ensures |parts| >= 1
    ensures Join(parts, sep) == s
    ensures forall k :: 0 <= k < |parts| ==> !Contains(parts[k], sep)
    ensures |parts| == 1 <==> !Contains(s, sep)
    ensures CutsLeftmost(parts, sep)
    decreases |s|
  {
    match FindFirst(s, sep)
    case None => [s]
    case Some(i) =>
      NothingBeforeFirst(s, sep, i);
      var tail := Split(s[i + |sep|..], sep);
      var parts := [s[..i]] + tail;
      Around(s, sep, i);
      assert parts[1..] == tail;
      CutsLeftmostCons(s[..i], tail, sep);
      parts
  }

  /**
   * Every piece but the last ends where the leftmost occurrence of `sep` in
   * the text still to be split begins.
   */
  predicate CutsLeftmost(parts: seq<string>, sep: string)
    requires sep != []
  {
    forall k :: 0 <= k < |parts| - 1 ==> FindFirst(Join(parts[k..], sep), sep) == Some(|parts[k]|)
  }

  /** A piece cut at the leftmost occurrence, followed by leftmost cuts, is a leftmost cut. */
  lemma CutsLeftmostCons(head: string, tail: seq<string>, sep: string)
    requires sep != [] && |tail| >= 1 && CutsLeftmost(tail, sep)
    requires FindFirst(Join([head] + tail, sep), sep) == Some(|head|)
    ensures CutsLeftmost([head] + tail, sep)
  {
    var parts := [head] + tail;
    forall k | 0 <= k < |parts| - 1
      ensures FindFirst(Join(parts[k..], sep), sep) == Some(|parts[k]|)
    {
      if k == 0 {
        assert parts[0..] == parts;
      } else {
        assert parts[k..] == tail[k - 1..];
      }
    }
  }

  /** An occurrence at `i` splits `s` into the text before it, `sep` and the text after it. */
  lemma Around(s: string, sep: string, i: nat)
    requires OccursAt(s, sep, i)
    ensures s == s[..i] + sep + s[i + |sep|..]
  {
    assert s == s[..i] + s[i..i + |sep|] + s[i + |sep|..];
  }

  /** The text before the leftmost occurrence holds no occurrence. */
  lemma NothingBeforeFirst(s: string, sep: string, i: nat)
    requires sep != [] && FindFirst(s, sep) == Some(i)
    ensures !Contains(s[..i], sep)
  {
    if Contains(s[..i], sep) {
      var j := FindFirst(s[..i], sep).value;
      assert s[..i][j..j + |sep|] == s[j..j + |sep|];
      assert OccursAt(s, sep, j);
    }
  }

  /**
   * Tuple unpacking `a, b = s.split(sep)`: defined only when the split yields
   * exactly two parts; `None` is the `ValueError` of the unpacking.
   */
  function SplitPair(s: string, sep: string): (r: Option<(string, string)>)
    requires sep != []
    ensures r.Some? <==> |Split(s, sep)| == 2
    ensures r.Some? ==> s == r.value.0 + sep + r.value.1
    ensures r.Some? ==> !Contains(r.value.0, sep) && !Contains(r.value.1, sep)
    ensures r.Some? ==> FindFirst(s, sep) == Some(|r.value.0|)
  {
    var parts := Split(s, sep);
    if |parts| == 2 then Some((parts[0], parts[1])) else None
  }

  /** A separator whose first character is absent does not occur. */
  lemma AbsentFirstChar(s: string, sep: string)
    requires sep != [] && sep[0] !in s
    ensures !Contains(s, sep)
  {
  }

  lemma OccursAtStart(s: string, sep: string, j: nat)
    requires |sep| >= 2 && OccursAt(s, sep, j)
    ensures j + 1 < |s| && s[j] == sep[0] && s[j + 1] == sep[1]
  {
    assert s[j..j + |sep|][0] == s[j] && s[j..j + |sep|][1] == s[j + 1];
  }

  /** A separator whose first two characters are never adjacent in `s` does not occur in it. */
  lemma AbsentFirstPair(s: string, sep: string)
    requires |sep| >= 2
    requires forall j :: 0 <= j < |s| - 1 && s[j] == sep[0] ==> s[j + 1] != sep[1]
    ensures !Contains(s, sep)
  {
    if Contains(s, sep) {
      var j := FindFirst(s, sep).value;
      OccursAtStart(s, sep, j);
    }
  }

  /** An occurrence with no earlier copy of the separator's first character is the leftmost one. */
  lemma FirstOccurrence(s: string, sep: string, j: nat)
    requires sep != [] && OccursAt(s, sep, j) && sep[0] !in s[..j]
    ensures FindFirst(s, sep) == Some(j)
  {
  }

  /** A text with one occurrence, located as in `FirstOccurrence`, splits into the two sides. */
  lemma SplitsInTwo(s: string, sep: string, j: nat)
    requires sep != [] && OccursAt(s, sep, j) && sep[0] !in s[..j]
    requires !Contains(s[j + |sep|..], sep)
    ensures SplitPair(s, sep) == Some((s[..j], s[j + |sep|..]))
  {
    FirstOccurrence(s, sep, j);
    assert Split(s[j + |sep|..], sep) == [s[j + |sep|..]];
    assert Split(s, sep) == [s[..j]] + [s[j + |sep|..]];
  }

  /** A text in which the separator occurs again after the first cut splits into more than two parts. */
  lemma SplitsInMore(s: string, sep: string, j: nat)
    requires sep != [] && OccursAt(s, sep, j) && sep[0] !in s[..j]
    requires Contains(s[j + |sep|..], sep)
    ensures SplitPair(s, sep).None?
  {
    FirstOccurrence(s, sep, j);
    var rest := s[j + |sep|..];
    assert |Split(rest, sep)| >= 2;
  }

  /** Python's whitespace for `str.strip()` (`str.isspace`). */
  predicate IsSpace(c: char) {
    ('\t' <= c <= '\U{0D}') || ('\U{1C}' <= c <= '\U{1F}') || c == ' ' || c == '\U{85}' ||
    c == '\U{A0}' || c == '\U{1680}' || ('\U{2000}' <= c <= '\U{200A}') ||
    c == '\U{2028}' || c == '\U{2029}' || c == '\U{202F}' || c == '\U{205F}' || c == '\U{3000}'
  }

  function StripLeft(s: string): (r: string)
    ensures |r| <= |s| && r == s[|s| - |r|..]
    ensures r == [] || !IsSpace(r[0])
    ensures forall k :: 0 <= k < |s| - |r| ==> IsSpace(s[k])
  {
    if s != [] && IsSpace(s[0]) then StripLeft(s[1..]) else s
  }

  function StripRight(s: string): (r: string)
    ensures |r| <= |s| && r == s[..|r|]
    ensures r == [] || !IsSpace(r[|r| - 1])
    ensures forall k :: |r| <= k < |s| ==> IsSpace(s[k])
  {
    if s != [] && IsSpace(s[|s| - 1]) then StripRight(s[..|s| - 1]) else s
  }

  /** `r` is `s` with only whitespace removed before index `i` and after `i + |r|`. */
  predicate StrippedAt(s: string, r: string, i: nat) {
    && i + |r| <= |s| && s[i..i + |r|] == r
    && (forall k :: 0 <= k < i ==> IsSpace(s[k]))
    && (forall k :: i + |r| <= k < |s| ==> IsSpace(s[k]))
  }

  /** Python's `s.strip()`: drop leading and trailing whitespace. */
  function Strip(s: string): (r: string)
    ensures r == [] || (!IsSpace(r[0]) && !IsSpace(r[|r| - 1]))
    ensures exists i: nat :: StrippedAt(s, r, i)
  {
    var l := StripLeft(s);
    var r := StripRight(l);
    assert StrippedAt(s, r, |s| - |l|);
    r
  }

  /** Text with no whitespace at either end is left as it is. */
  lemma StripKeeps(s: string)
    requires s == [] || (!IsSpace(s[0]) && !IsSpace(s[|s| - 1]))
    ensures Strip(s) == s
  {
    assert StripLeft(s) == s;
  }

  /** `s.startswith(p)`. */
  predicate StartsWith(s: string, p: string) {
    |p| <= |s| && s[..|p|] == p
  }

  /** Python's `a < b` on `str`: lexicographic by code point. */
  predicate LexLess(a: string, b: string) {
    if a == [] then b != []
    else if b == [] then false
    else if a[0] != b[0] then a[0] < b[0]
    else LexLess(a[1..], b[1..])
  }

  lemma {:induction false} LexIrreflexive(a: string)
    ensures !LexLess(a, a)
  {
    if a != [] { LexIrreflexive(a[1..]); }
  }

  lemma {:induction false} LexTransitive(a: string, b: string, c: string)
    requires LexLess(a, b) && LexLess(b, c)
    ensures LexLess(a, c)
  {
    if a != [] && b != [] && c != [] && a[0] == b[0] == c[0] {
      LexTransitive(a[1..], b[1..], c[1..]);
    }
  }

  lemma {:induction false} LexTotal(a: string, b: string)
    ensures LexLess(a, b) || a == b || LexLess(b, a)
  {
    if a != [] && b != [] && a[0] == b[0] {
      LexTotal(a[1..], b[1..]);
      if a[1..] == b[1..] {
        assert a == [a[0]] + a[1..] && b == [b[0]] + b[1..];
      }
    }
  }

  function DigitChar(d: nat): (c: char)
    requires d < 10
    ensures '0' <= c <= '9' && c as int - '0' as int == d
  {
    ('0' as int + d) as char
  }

  predicate IsDigits(s: string) {
    forall k :: 0 <= k < |s| ==> '0' <= s[k] <= '9'
  }

  /** Reference reading of a decimal numeral: the number its digits denote. */
  function DigitsValue(s: string): nat
    requires IsDigits(s)
  {
    if s == [] then 0 else DigitsValue(s[..|s| - 1]) * 10 + (s[|s| - 1] as int - '0' as int)
  }

  /**
   * Decimal rendering of a natural number, as Python's `str(n)`: the numeral
   * that denotes `n`, with no leading zero.
   */
  function NatToString(n: nat): (r: string)
    ensures |r| >= 1 && IsDigits(r)
    ensures DigitsValue(r) == n
    ensures |r| == 1 || r[0] != '0'
  {
    if n < 10 then [DigitChar(n)]
    else
      var r := NatToString(n / 10) + [DigitChar(n % 10)];
      assert r[..|r| - 1] == NatToString(n / 10);
      r
  }

  /** Decimal rendering of an integer, with a leading `-` when negative. */
  function IntToString(i: int): string {
    if i < 0 then "-" + NatToString(-i) else NatToString(i)
  }
}
