/** An optional value, for results that Python writes as `None` or a value. */
module Optional {
  datatype Option<T> = None | Some(value: T)
}

/**
 * The Python string built-ins that the SQL scanners are written with:
 * `isspace`, `upper`, `isalnum`, `startswith`, `endswith`, `in`, `index`,
 * `strip`, `split`, `splitlines`, `join` and slicing.
 */
module Text {

  /** `str.isspace` on one character: the characters CPython counts as whitespace. */
  predicate IsSpace(c: char) {
    c == ' ' || '\t' <= c <= '\r' || '\U{1c}' <= c <= '\U{1f}' || c == '\U{85}' || c == '\U{a0}'
    || c == '\U{1680}' || '\U{2000}' <= c <= '\U{200a}' || c == '\U{2028}' || c == '\U{2029}'
    || c == '\U{202f}' || c == '\U{205f}' || c == '\U{3000}'
  }

  /** The line boundaries at which `str.splitlines` breaks (a "\r\n" pair counts once). */
  predicate IsLineBreak(c: char) {
    '\n' <= c <= '\r' || '\U{1c}' <= c <= '\U{1e}' || c == '\U{85}' || c == '\U{2028}' || c == '\U{2029}'
  }

  /** `str.upper` on one character, restricted to the ASCII letters. */
  function UpperChar(c: char): (u: char)
    ensures 'a' <= c <= 'z' ==> u as int == c as int - 32
    ensures !('a' <= c <= 'z') ==> u == c
  {
    if 'a' <= c <= 'z' then (c as int - 32) as char else c
  }

  /** `str.upper`, character by character. */
  function Upper(s: string): (u: string)
    ensures |u| == |s|
  {
    seq(|s|, i requires 0 <= i < |s| => UpperChar(s[i]))
  }

  /** `str.isalnum` on one character, restricted to ASCII letters and digits. */
  predicate IsAlnumChar(c: char) {
    'a' <= c <= 'z' || 'A' <= c <= 'Z' || '0' <= c <= '9'
  }

  /** `str.isalnum`: non-empty and every character alphanumeric. */
  predicate IsAlnum(s: string) {
    |s| > 0 && forall i :: 0 <= i < |s| ==> IsAlnumChar(s[i])
  }

  predicate StartsWith(s: string, p: string) {
    |p| <= |s| && s[..|p|] == p
  }

  predicate EndsWith(s: string, p: string) {
    |p| <= |s| && s[|s| - |p|..] == p
  }

  /** w occurs in s starting at position k. */
  predicate OccursAt(s: string, w: string, k: int) {
    0 <= k <= |s| - |w| && s[k..k + |w|] == w
  }

  /** Python's `w in s` for strings: w occurs in s at some position. */
  predicate Contains(s: string, w: string) {
    exists k | 0 <= k <= |s| - |w| :: OccursAt(s, w, k)
  }

  /** `str.find`: the first position of w in s, or -1 (`str.index` raises instead of -1). */
  function IndexOf(s: string, w: string): (k: int)
    ensures k == -1 || 0 <= k <= |s| - |w|
    ensures k >= 0 <==> Contains(s, w)
    ensures k >= 0 ==> OccursAt(s, w, k)
    ensures forall j :: 0 <= j < k ==> !OccursAt(s, w, j)
  {
    if |s| < |w| then -1
    else if s[..|w|] == w then
      assert OccursAt(s, w, 0);
      0
    else
      var r := IndexOf(s[1..], w);
      OccursAtTail(s, w);
      assert !OccursAt(s, w, 0);
      if r < 0 then
        -1
      else
        assert OccursAt(s, w, r + 1);
        r + 1
  }

  lemma OccursAtTail(s: string, w: string)
    requires s != []
    ensures forall j :: 1 <= j ==> (OccursAt(s, w, j) <==> OccursAt(s[1..], w, j - 1))
  {
    forall j | 1 <= j
      ensures OccursAt(s, w, j) <==> OccursAt(s[1..], w, j - 1)
    {
      if j <= |s| - |w| {
        var t := s[1..];
        forall k | j <= k < j + |w| ensures s[k] == t[k - 1] {
        }
        assert s[j..j + |w|] == t[j - 1..j - 1 + |w|];
      }
    }
  }

  /**
   * `u.split(w, maxsplit=1)` when w occurs in u: the text before the first
   * occurrence of w and the text after it.
   */
  function SplitOnce(u: string, w: string): (r: (string, string))
    requires Contains(u, w)
    ensures r.0 + w + r.1 == u
    ensures |r.0| == IndexOf(u, w)
  {
    var k := IndexOf(u, w);
    assert u[k..k + |w|] == w;
    assert u == u[..k] + u[k..k + |w|] + u[k + |w|..];
    (u[..k], u[k + |w|..])
  }

  /** Python slicing `s[a:b]` for non-negative bounds: clamped, and empty when b <= a. */
  function Slice(s: string, a: nat, b: nat): (r: string)
    ensures a <= b <= |s| ==> r == s[a..b]
    ensures b <= a ==> r == []
    ensures |r| <= |s|
  {
    var lo := if a < |s| then a else |s|;
    var hi := if b < |s| then b else |s|;
    if lo <= hi then s[lo..hi] else []
  }

  /** `str.lstrip()`: the longest suffix of s that does not start with whitespace. */
  function LStrip(s: string): (r: string)
    ensures |r| <= |s| && r == s[|s| - |r|..]
    ensures r == [] || !IsSpace(r[0])
    ensures forall i :: 0 <= i < |s| - |r| ==> IsSpace(s[i])
  {
    if s != [] && IsSpace(s[0]) then LStrip(s[1..]) else s
  }

  /** `str.rstrip()`: the longest prefix of s that does not end with whitespace. */
  function RStrip(s: string): (r: string)
    ensures |r| <= |s| && r == s[..|r|]
    ensures r == [] || !IsSpace(r[|r| - 1])
    ensures forall i :: |r| <= i < |s| ==> IsSpace(s[i])
  {
    if s != [] && IsSpace(s[|s| - 1]) then RStrip(s[..|s| - 1]) else s
  }

  /** `str.strip()`. */
  function Strip(s: string): (r: string)
    ensures |r| <= |s|
    ensures r == [] || (!IsSpace(r[0]) && !IsSpace(r[|r| - 1]))
  {
    RStrip(LStrip(s))
  }

  /** No leading and no trailing whitespace. */
  predicate IsStripped(s: string) {
    s == [] || (!IsSpace(s[0]) && !IsSpace(s[|s| - 1]))
  }

  /** `sep.join(parts)`. */
  function JoinWith(sep: string, parts: seq<string>): string {
    if parts == [] then []
    else if |parts| == 1 then parts[0]
    else parts[0] + sep + JoinWith(sep, parts[1..])
  }

  /** `s.split(c)` for a one-character separator c. */
  function SplitChar(s: string, c: char): (parts: seq<string>)
    ensures |parts| >= 1
    ensures forall i :: 0 <= i < |parts| ==> c !in parts[i]
    ensures JoinWith([c], parts) == s
  {
    if s == [] then [[]]
    else
      var rest := SplitChar(s[1..], c);
      if s[0] == c then
        assert [[]] + rest == [[]] + rest[..1] + rest[1..];
        [[]] + rest
      else
        JoinConsFirst([c], s[0], rest);
        [[s[0]] + rest[0]] + rest[1..]
  }

  /** A text without the separator is one part. */
  lemma {:induction false} SplitCharNone(s: string, c: char)
    requires c !in s
    ensures SplitChar(s, c) == [s]
    decreases |s|
  {
    if s != [] {
      assert c !in s[1..];
      SplitCharNone(s[1..], c);
    }
  }

  /** The last part is what follows the last separator (`s.split(c)[-1]`). */
  lemma {:induction false} SplitCharLast(t: string, c: char, x: string)
    requires c !in x
    ensures var ps := SplitChar(t + [c] + x, c); |ps| >= 2 && ps[|ps| - 1] == x
    decreases |t|
  {
    var s := t + [c] + x;
    if t == [] {
      assert s[1..] == x;
      SplitCharNone(x, c);
    } else {
      assert s[1..] == t[1..] + [c] + x;
      SplitCharLast(t[1..], c, x);
    }
  }

  /** The first part is what precedes the first separator (`s.split(c)[0]`). */
  lemma {:induction false} SplitCharFirst(t: string, c: char, x: string)
    requires c !in t
    ensures SplitChar(t + [c] + x, c)[0] == t
    decreases |t|
  {
    var s := t + [c] + x;
    if t == [] {
      assert s[0] == c;
    } else {
      assert s[1..] == t[1..] + [c] + x;
      SplitCharFirst(t[1..], c, x);
    }
  }

  /** Index of the first line break in s, or |s|. */
  function LineEnd(s: string): (k: nat)
    ensures k <= |s|
    ensures k < |s| ==> IsLineBreak(s[k])
    ensures forall j :: 0 <= j < k ==> !IsLineBreak(s[j])
  {
    if s == [] || IsLineBreak(s[0]) then 0 else 1 + LineEnd(s[1..])
  }

  /** `str.splitlines()`: no trailing empty line, "\r\n" is one boundary. */
  function SplitLines(s: string): (lines: seq<string>)
    ensures forall i, j :: 0 <= i < |lines| && 0 <= j < |lines[i]| ==> !IsLineBreak(lines[i][j])
    decreases |s|
  {
    if s == [] then []
    else
      var k := LineEnd(s);
      var next :=
        if k < |s| && s[k] == '\r' && k + 1 < |s| && s[k + 1] == '\n' then k + 2
        else if k < |s| then k + 1
        else k;
      [s[..k]] + SplitLines(s[next..])
  }

  /** Index of the first whitespace character in s, or |s|. */
  function WordEnd(s: string): (k: nat)
    ensures k <= |s|
    ensures k < |s| ==> IsSpace(s[k])
    ensures s != [] && !IsSpace(s[0]) ==> k > 0
  {
    if s == [] || IsSpace(s[0]) then 0 else 1 + WordEnd(s[1..])
  }

  /** `str.split()` with no argument: the maximal runs of non-whitespace. */
  function Words(s: string): (ws: seq<string>)
    decreases |s|
  {
    var t := LStrip(s);
    if t == [] then []
    else
      var k := WordEnd(t);
      [t[..k]] + Words(t[k..])
  }

  /** The stripped, non-blank members of parts, in order (`[p.strip() for p in parts if p.strip()]`). */
  function NonBlank(parts: seq<string>): (r: seq<string>)
    ensures |r| <= |parts|
    ensures forall i :: 0 <= i < |r| ==> r[i] != [] && IsStripped(r[i])
  {
    if parts == [] then []
    else
      var s := Strip(parts[|parts| - 1]);
      var init := NonBlank(parts[..|parts| - 1]);
      var r := init + (if s == [] then [] else [s]);
      assert forall i :: 0 <= i < |init| ==> r[i] == init[i];
      r
  }

  // ---------------------------------------------------------------------
  // Lemmas about the built-ins

  lemma JoinConsFirst(sep: string, c: char, parts: seq<string>)
    requires |parts| >= 1
    ensures JoinWith(sep, [[c] + parts[0]] + parts[1..]) == [c] + JoinWith(sep, parts)
  {
    var ps := [[c] + parts[0]] + parts[1..];
    if |parts| > 1 {
      assert ps[1..] == parts[1..];
    }
  }

  lemma JoinPrefixFirst(sep: string, x: string, parts: seq<string>)
    requires |parts| >= 1
    ensures JoinWith(sep, [x + parts[0]] + parts[1..]) == x + JoinWith(sep, parts)
  {
    var ps := [x + parts[0]] + parts[1..];
    if |parts| > 1 {
      assert ps[1..] == parts[1..];
    }
  }

  lemma UpperConcat(a: string, b: string)
    ensures Upper(a + b) == Upper(a) + Upper(b)
  {
  }

  lemma ContainsExtend(a: string, s: string, b: string, w: string)
    requires Contains(s, w)
    ensures Contains(a + s + b, w)
  {
    var k: int :| OccursAt(s, w, k); assert OccursAt(s, w, k);
    assert (a + s + b)[|a| + k..|a| + k + |w|] == w;
    assert OccursAt(a + s + b, w, |a| + k);
  }

  /** Leading whitespace cannot take part in an occurrence of a word that starts with a non-space. */
  lemma ContainsAfterSpaces(a: string, s: string, w: string)
    requires forall i :: 0 <= i < |a| ==> IsSpace(a[i])
    requires w != [] && !IsSpace(w[0])
    ensures Contains(a + s, w) <==> Contains(s, w)
  {
    if Contains(a + s, w) {
      var k: int :| OccursAt(a + s, w, k); assert OccursAt(a + s, w, k);
      assert (a + s)[k] == w[0];
      assert k >= |a|;
      assert s[k - |a|..k - |a| + |w|] == w;
      assert OccursAt(s, w, k - |a|);
    }
    if Contains(s, w) {
      ContainsExtend(a, s, [], w);
      assert a + s + [] == a + s;
    }
  }

  lemma LStripIdempotent(s: string)
    ensures LStrip(LStrip(s)) == LStrip(s)
  {
  }

  lemma StripLStrip(s: string)
    ensures Strip(LStrip(s)) == Strip(s)
  {
    LStripIdempotent(s);
  }

  lemma {:induction false} LStripSnoc(s: string, c: char)
    ensures LStrip(s + [c]) == if LStrip(s) == [] && IsSpace(c) then [] else LStrip(s) + [c]
  {
    if s == [] {
    } else if IsSpace(s[0]) {
      assert (s + [c])[1..] == s[1..] + [c];
      LStripSnoc(s[1..], c);
    } else {
    }
  }

  /** Whether a word occurs in the upper-cased text does not depend on leading whitespace. */
  lemma ContainsUpperLStrip(s: string, w: string)
    requires w != [] && !IsSpace(w[0])
    ensures Contains(Upper(LStrip(s)), w) <==> Contains(Upper(s), w)
  {
    var r := LStrip(s);
    var n := |s| - |r|;
    var a := s[..n];
    assert s == a + r;
    UpperConcat(a, r);
    var ua := Upper(a);
    assert forall i :: 0 <= i < |ua| ==> IsSpace(ua[i]) by {
      forall i | 0 <= i < |ua| ensures IsSpace(ua[i]) {
        assert ua[i] == UpperChar(a[i]) && a[i] == s[i];
        UpperSpace(a[i]);
      }
    }
    ContainsAfterSpaces(ua, Upper(r), w);
  }

  /** Upper-casing leaves whitespace alone. */
  lemma UpperSpace(c: char)
    requires IsSpace(c)
    ensures UpperChar(c) == c
  {
  }

  /** Text that upper-casing leaves unchanged. */
  predicate IsUpperCase(s: string) {
    Upper(s) == s
  }

  /** Text without lower-case ASCII letters is upper-case. */
  lemma NoLowerIsUpperCase(s: string)
    requires forall i :: 0 <= i < |s| ==> !('a' <= s[i] <= 'z')
    ensures IsUpperCase(s)
  {
    assert forall i :: 0 <= i < |s| ==> Upper(s)[i] == s[i];
  }

  /** Upper-casing twice is upper-casing once. */
  lemma UpperIsUpperCase(s: string)
    ensures IsUpperCase(Upper(s))
  {
    var u := Upper(s);
    forall i | 0 <= i < |u| ensures Upper(u)[i] == u[i] {
    }
  }

  lemma UpperCaseSlice(s: string, a: nat, b: nat)
    requires IsUpperCase(s) && a <= b <= |s|
    ensures IsUpperCase(s[a..b])
  {
    var t := s[a..b];
    forall i | 0 <= i < |t| ensures Upper(t)[i] == t[i] {
      assert t[i] == s[a + i] && Upper(s)[a + i] == s[a + i];
    }
  }

  /** Upper-casing neither creates nor removes whitespace. */
  lemma UpperCharSpace(c: char)
    ensures IsSpace(UpperChar(c)) <==> IsSpace(c)
  {
    if IsSpace(c) {
      UpperSpace(c);
    }
  }

  lemma {:induction false} LStripUpper(s: string)
    ensures LStrip(Upper(s)) == Upper(LStrip(s))
    decreases |s|
  {
    if s != [] {
      UpperCharSpace(s[0]);
      if IsSpace(s[0]) {
        assert Upper(s)[1..] == Upper(s[1..]);
        LStripUpper(s[1..]);
      }
    }
  }

  lemma {:induction false} RStripUpper(s: string)
    ensures RStrip(Upper(s)) == Upper(RStrip(s))
    decreases |s|
  {
    if s != [] {
      UpperCharSpace(s[|s| - 1]);
      if IsSpace(s[|s| - 1]) {
        assert Upper(s)[..|s| - 1] == Upper(s[..|s| - 1]);
        RStripUpper(s[..|s| - 1]);
      }
    }
  }

  /** `s.upper().strip() == s.strip().upper()`. */
  lemma StripUpper(s: string)
    ensures Strip(Upper(s)) == Upper(Strip(s))
  {
    LStripUpper(s);
    RStripUpper(LStrip(s));
  }

  /** Stripping text without leading or trailing whitespace changes nothing. */
  lemma StrippedFixed(s: string)
    requires IsStripped(s)
    ensures Strip(s) == s
  {
  }

  /** Stripping only removes characters. */
  lemma StripKeeps(s: string, c: char)
    requires c !in s
    ensures c !in Strip(s)
  {
    var l := LStrip(s);
    assert l == s[|s| - |l|..];
    assert Strip(s) == l[..|RStrip(l)|];
  }

  /** Every character of the stripped text is a character of the text. */
  lemma StripAt(s: string, j: nat)
    requires j < |Strip(s)|
    ensures exists i :: 0 <= i < |s| && s[i] == Strip(s)[j]
  {
    var l := LStrip(s);
    assert l == s[|s| - |l|..];
    assert Strip(s) == l[..|RStrip(l)|];
    assert s[|s| - |l| + j] == Strip(s)[j];
  }

  /** A non-empty text without a line break is a single line. */
  lemma SplitLinesNone(s: string)
    requires s != [] && forall j :: 0 <= j < |s| ==> !IsLineBreak(s[j])
    ensures SplitLines(s) == [s]
  {
    var k := LineEnd(s);
    assert !(k < |s|);
    SplitLinesWhole(s);
  }

  lemma SplitLinesWhole(s: string)
    requires s != [] && LineEnd(s) == |s|
    ensures SplitLines(s) == [s]
  {
    assert s[..|s|] == s;
    assert s[|s|..] == [];
  }

  /** Stripping upper-case text leaves upper-case text. */
  lemma StripUpperCase(s: string)
    requires IsUpperCase(s)
    ensures IsUpperCase(Strip(s))
  {
    var l := LStrip(s);
    UpperCaseSlice(s, |s| - |l|, |s|);
    var r := RStrip(l);
    UpperCaseSlice(l, 0, |r|);
  }

  /** A word found in a part of s is found in s. */
  lemma ContainsSlice(s: string, a: nat, b: nat, w: string)
    requires a <= b <= |s| && Contains(s[a..b], w)
    ensures Contains(s, w)
  {
    ContainsExtend(s[..a], s[a..b], s[b..], w);
    assert s[..a] + s[a..b] + s[b..] == s;
  }

  /** Containment is transitive. */
  lemma ContainsTrans(s: string, v: string, w: string)
    requires Contains(s, v) && Contains(v, w)
    ensures Contains(s, w)
  {
    var k: int :| OccursAt(s, v, k); assert OccursAt(s, v, k);
    ContainsSlice(s, k, k + |v|, w);
  }

  lemma ContainsSnoc(s: string, c: char, w: string)
    requires Contains(s, w)
    ensures Contains(s + [c], w)
  {
    ContainsExtend([], s, [c], w);
    assert [] + s + [c] == s + [c];
  }

  lemma {:induction false} NonBlankConcat(a: seq<string>, b: seq<string>)
    ensures NonBlank(a + b) == NonBlank(a) + NonBlank(b)
    decreases |b|
  {
    if b == [] {
      assert a + b == a;
    } else {
      var b', x := b[..|b| - 1], b[|b| - 1];
      NonBlankConcat(a, b');
      NonBlankSnoc(a + b', x);
      NonBlankSnoc(b', x);
      SnocAssoc(a, b);
      var t := if Strip(x) == [] then [] else [Strip(x)];
      ConcatAssoc(NonBlank(a), NonBlank(b'), t);
    }
  }

  lemma ConcatAssoc<T>(x: seq<T>, y: seq<T>, z: seq<T>)
    ensures (x + y) + z == x + (y + z)
  {
  }

  /** A non-empty b is b' + [x], and a + b is (a + b') + [x]. */
  lemma SnocAssoc<T>(a: seq<T>, b: seq<T>)
    requires b != []
    ensures b == b[..|b| - 1] + [b[|b| - 1]]
    ensures a + b == (a + b[..|b| - 1]) + [b[|b| - 1]]
  {
  }

  /** One more part: its stripped text, unless that is blank. */
  lemma NonBlankSnoc(ps: seq<string>, x: string)
    ensures NonBlank(ps + [x]) == NonBlank(ps) + (if Strip(x) == [] then [] else [Strip(x)])
  {
    assert (ps + [x])[..|ps|] == ps;
  }

  lemma NonBlankSingle(x: string)
    ensures NonBlank([x]) == if Strip(x) == [] then [] else [Strip(x)]
  {
    assert [x][..0] == [];
  }

  /** Every member of NonBlank(ps) is one of the parts, stripped. */
  lemma {:induction false} NonBlankFrom(ps: seq<string>, k: nat) returns (i: nat)
    requires k < |NonBlank(ps)|
    ensures i < |ps| && NonBlank(ps)[k] == Strip(ps[i])
    decreases |ps|
  {
    var init, last := ps[..|ps| - 1], ps[|ps| - 1];
    if k < |NonBlank(init)| {
      i := NonBlankFrom(init, k);
      NonBlankKeepsFront(init, last, k);
      SnocAssoc([], ps);
    } else {
      i := |ps| - 1;
      NonBlankLast(init, last, k);
      SnocAssoc([], ps);
    }
  }

  lemma NonBlankKeepsFront(init: seq<string>, last: string, k: nat)
    requires k < |NonBlank(init)|
    ensures NonBlank(init + [last])[k] == NonBlank(init)[k]
  {
    NonBlankSnoc(init, last);
  }

  lemma NonBlankLast(init: seq<string>, last: string, k: nat)
    requires |NonBlank(init)| <= k < |NonBlank(init + [last])|
    ensures NonBlank(init + [last])[k] == Strip(last)
  {
    NonBlankSnoc(init, last);
  }

  /** A text is its stripped form with whitespace before it and after it. */
  lemma StripDecompose(s: string) returns (a: string, b: string)
    ensures s == a + Strip(s) + b
    ensures forall i :: 0 <= i < |a| ==> IsSpace(a[i])
    ensures forall i :: 0 <= i < |b| ==> IsSpace(b[i])
  {
    var l := LStrip(s);
    a := LStripDecompose(s);
    b := RStripDecompose(l);
    ConcatAssoc(a, RStrip(l), b);
  }

  lemma LStripDecompose(s: string) returns (a: string)
    ensures s == a + LStrip(s)
    ensures forall i :: 0 <= i < |a| ==> IsSpace(a[i])
  {
    var n := |s| - |LStrip(s)|;
    a := s[..n];
    SplitAt(s, n);
  }

  lemma RStripDecompose(s: string) returns (b: string)
    ensures s == RStrip(s) + b
    ensures forall i :: 0 <= i < |b| ==> IsSpace(b[i])
  {
    var n := |RStrip(s)|;
    b := s[n..];
    SplitAt(s, n);
  }

  /** Stripping twice is stripping once. */
  lemma StripIdempotent(s: string)
    ensures Strip(Strip(s)) == Strip(s)
  {
    StrippedFixed(Strip(s));
  }

  /** Whitespace around a text takes no part in an occurrence of a word with no whitespace at its ends. */
  lemma ContainsBetweenSpaces(a: string, m: string, b: string, w: string)
    requires forall i :: 0 <= i < |a| ==> IsSpace(a[i])
    requires forall i :: 0 <= i < |b| ==> IsSpace(b[i])
    requires w != [] && !IsSpace(w[0]) && !IsSpace(w[|w| - 1])
    ensures Contains(a + m + b, w) <==> Contains(m, w)
  {
    var s := a + m + b;
    if Contains(s, w) {
      var k: int :| OccursAt(s, w, k); assert OccursAt(s, w, k);
      assert s[k] == w[0];
      assert s[k + |w| - 1] == w[|w| - 1];
      assert |a| <= k && k + |w| <= |a| + |m|;
      assert m[k - |a|..k - |a| + |w|] == s[k..k + |w|];
      assert OccursAt(m, w, k - |a|);
    }
    if Contains(m, w) {
      ContainsExtend(a, m, b, w);
    }
  }

  /** Whether a word with no whitespace at its ends occurs in the upper-cased text does not depend on stripping. */
  lemma ContainsUpperStrip(s: string, w: string)
    requires w != [] && !IsSpace(w[0]) && !IsSpace(w[|w| - 1])
    ensures Contains(Upper(Strip(s)), w) <==> Contains(Upper(s), w)
  {
    var a, b := StripDecompose(s);
    UpperConcat(a, Strip(s));
    UpperConcat(a + Strip(s), b);
    forall i | 0 <= i < |a| ensures IsSpace(Upper(a)[i]) {
      UpperSpace(a[i]);
    }
    forall i | 0 <= i < |b| ensures IsSpace(Upper(b)[i]) {
      UpperSpace(b[i]);
    }
    ContainsBetweenSpaces(Upper(a), Upper(Strip(s)), Upper(b), w);
  }

  /** A character that is not whitespace is in the stripped text exactly when it is in the text. */
  lemma CharInStrip(s: string, c: char)
    requires !IsSpace(c)
    ensures c in Strip(s) <==> c in s
  {
    var a, b := StripDecompose(s);
    assert c !in a && c !in b;
  }

  /** `sep.join(parts)` starts with the first part, followed by sep when there is a second. */
  lemma JoinHead(sep: string, parts: seq<string>)
    requires |parts| >= 1
    ensures |parts| == 1 ==> JoinWith(sep, parts) == parts[0]
    ensures |parts| >= 2 ==> StartsWith(JoinWith(sep, parts), parts[0] + sep)
  {
  }

  /** No two consecutive '-' characters in s. */
  predicate NoDoubleDash(s: string) {
    forall j :: 0 <= j < |s| - 1 ==> !(s[j] == '-' && s[j + 1] == '-')
  }

  lemma NoDoubleDashContains(s: string)
    ensures NoDoubleDash(s) <==> !Contains(s, "--")
  {
    if !NoDoubleDash(s) {
      var j :| 0 <= j < |s| - 1 && s[j] == '-' && s[j + 1] == '-';
      assert s[j..j + 2] == "--";
      assert OccursAt(s, "--", j);
    }
    if Contains(s, "--") {
      var k: int :| OccursAt(s, "--", k); assert OccursAt(s, "--", k);
      assert s[k] == s[k..k + 2][0] && s[k + 1] == s[k..k + 2][1];
    }
  }

  lemma NoDoubleDashInfix(s: string, a: nat, b: nat)
    requires a <= b <= |s| && NoDoubleDash(s)
    ensures NoDoubleDash(s[a..b])
  {
    forall j | 0 <= j < b - a - 1 ensures !(s[a..b][j] == '-' && s[a..b][j + 1] == '-') {
      assert s[a..b][j] == s[a + j] && s[a..b][j + 1] == s[a + j + 1];
    }
  }

  lemma StripNoDoubleDash(s: string)
    requires NoDoubleDash(s)
    ensures NoDoubleDash(Strip(s))
  {
    var l := LStrip(s);
    NoDoubleDashInfix(s, |s| - |l|, |s|);
    NoDoubleDashInfix(l, 0, |RStrip(l)|);
  }

  /** Putting a space between two texts cannot create a "--". */
  lemma ConcatSpaceNoDoubleDash(a: string, b: string)
    requires NoDoubleDash(a) && NoDoubleDash(b)
    ensures NoDoubleDash(a + " " + b)
  {
    var s := a + " " + b;
    forall j | 0 <= j < |s| - 1 ensures !(s[j] == '-' && s[j + 1] == '-') {
      if j < |a| - 1 {
        assert s[j] == a[j] && s[j + 1] == a[j + 1];
      } else if j == |a| - 1 {
        assert s[j + 1] == ' ';
      } else if j == |a| {
        assert s[j] == ' ';
      } else {
        assert s[j] == b[j - |a| - 1] && s[j + 1] == b[j - |a|];
      }
    }
  }

  /** Joining with a space cannot create a "--". */
  lemma {:induction false} JoinNoDoubleDash(ls: seq<string>)
    requires forall i :: 0 <= i < |ls| ==> NoDoubleDash(ls[i])
    ensures NoDoubleDash(JoinWith(" ", ls))
  {
    if |ls| > 1 {
      JoinNoDoubleDash(ls[1..]);
      ConcatSpaceNoDoubleDash(ls[0], JoinWith(" ", ls[1..]));
    }
  }

  /** An occurrence of w starts with w's first character. */
  lemma OccursAtHead(s: string, w: string, k: int)
    requires w != [] && OccursAt(s, w, k)
    ensures s[k] == w[0]
  {
    assert s[k..k + |w|][0] == s[k];
  }

  /** A position holding another character than w's first is no occurrence of w. */
  lemma NotOccursAtHead(s: string, w: string, k: int)
    requires w != [] && 0 <= k < |s| && s[k] != w[0]
    ensures !OccursAt(s, w, k)
  {
    if k + |w| <= |s| {
      assert s[k..k + |w|][0] == s[k];
    }
  }

  /** `s[i:].startswith(w)` is an occurrence of w at i. */
  lemma StartsWithAt(s: string, i: nat, w: string)
    requires i <= |s|
    ensures StartsWith(s[i..], w) <==> OccursAt(s, w, i)
  {
    if i + |w| <= |s| {
      assert s[i..][..|w|] == s[i..i + |w|];
    }
  }

  /** All characters of s are whitespace. */
  predicate IsBlank(s: string) {
    forall i :: 0 <= i < |s| ==> IsSpace(s[i])
  }

  /** Stripping leaves nothing exactly when the text is blank. */
  lemma StripBlank(s: string)
    ensures Strip(s) == [] <==> IsBlank(s)
  {
  }

  /** A prefix of a blank text is blank. */
  lemma BlankPrefix(s: string, p: string)
    requires StartsWith(s, p) && Strip(s) == []
    ensures Strip(p) == []
  {
    StripBlank(s);
    forall i | 0 <= i < |p| ensures IsSpace(p[i]) {
      assert p[i] == s[..|p|][i];
    }
    StripBlank(p);
  }

  /** A leading space is stripped off text that is stripped already. */
  lemma StripSpaceBefore(x: string)
    requires IsStripped(x)
    ensures Strip(" " + x) == x
  {
    assert (" " + x)[1..] == x;
    assert LStrip(" " + x) == LStrip(x);
    StrippedFixed(x);
  }

  /** A word whose first letter is not in the prefix p of s does not start inside p. */
  lemma NotInPrefix(s: string, p: string, w: string)
    requires StartsWith(s, p) && w != [] && w[0] !in p
    ensures forall j :: 0 <= j < |p| ==> !OccursAt(s, w, j)
  {
    forall j | 0 <= j < |p| ensures !OccursAt(s, w, j) {
      assert s[j] == s[..|p|][j] == p[j];
      assert p[j] != w[0];
      if j + |w| <= |s| {
        assert s[j..j + |w|][0] == s[j];
      }
    }
  }

  /** The text before the first occurrence of w does not contain w. */
  lemma BeforeFirst(s: string, w: string, k: nat)
    requires w != [] && k <= |s| && forall j :: 0 <= j < k ==> !OccursAt(s, w, j)
    ensures !Contains(s[..k], w)
  {
    if Contains(s[..k], w) {
      var j: int :| OccursAt(s[..k], w, j); assert OccursAt(s[..k], w, j);
      assert s[..k][j..j + |w|] == s[j..j + |w|];
      assert OccursAt(s, w, j);
    }
  }

  lemma UpperSnocContains(s: string, c: char, w: string)
    requires Contains(Upper(s), w)
    ensures Contains(Upper(s + [c]), w)
  {
    UpperConcat(s, [c]);
    ContainsSnoc(Upper(s), UpperChar(c), w);
    assert Upper([c]) == [UpperChar(c)];
  }

  lemma {:induction false} JoinSnoc(sep: string, ps: seq<string>, x: string)
    requires ps != []
    ensures JoinWith(sep, ps + [x]) == JoinWith(sep, ps) + sep + x
  {
    if |ps| == 1 {
      assert (ps + [x])[1..] == [x];
    } else {
      assert (ps + [x])[1..] == ps[1..] + [x];
      JoinSnoc(sep, ps[1..], x);
    }
  }

  lemma JoinExtendLast(sep: string, ps: seq<string>, c: char)
    requires ps != []
    ensures JoinWith(sep, ps[..|ps| - 1] + [ps[|ps| - 1] + [c]]) == JoinWith(sep, ps) + [c]
  {
    var init, last := ps[..|ps| - 1], ps[|ps| - 1];
    if init != [] {
      JoinSnoc(sep, init, last + [c]);
      JoinSnoc(sep, init, last);
      assert init + [last] == ps;
    }
  }

  // ---------------------------------------------------------------------
  // Sequences

  /** A sequence that agrees with x and then with y is x + y. */
  lemma SplitEqual<T>(l: seq<T>, x: seq<T>, y: seq<T>)
    requires |l| == |x| + |y|
    requires forall i :: 0 <= i < |x| ==> l[i] == x[i]
    requires forall i :: 0 <= i < |y| ==> l[|x| + i] == y[i]
    ensures l == x + y
  {
    forall i | 0 <= i < |l| ensures l[i] == (x + y)[i] {
      if i >= |x| {
        assert l[|x| + (i - |x|)] == y[i - |x|];
      }
    }
  }

  lemma SnocParts<T>(s: seq<T>, x: T)
    ensures (s + [x])[..|s|] == s && (s + [x])[|s|] == x
  {
  }

  /** Mapping f over a + b maps it over a, then over b. */
  lemma MapConcat<T, U>(f: T -> U, a: seq<T>, b: seq<T>, l: seq<U>, x: seq<U>, y: seq<U>)
    requires |l| == |a| + |b| && |x| == |a| && |y| == |b|
    requires forall i :: 0 <= i < |l| ==> l[i] == f((a + b)[i])
    requires forall i :: 0 <= i < |x| ==> x[i] == f(a[i])
    requires forall i :: 0 <= i < |y| ==> y[i] == f(b[i])
    ensures l == x + y
  {
    forall i | 0 <= i < |a| ensures l[i] == x[i] {
      assert (a + b)[i] == a[i];
    }
    forall i | 0 <= i < |b| ensures l[|a| + i] == y[i] {
      assert (a + b)[|a| + i] == b[i];
    }
    SplitEqual(l, x, y);
  }

  /** A sequence is its prefix followed by its suffix. */
  lemma SplitAt<T>(s: seq<T>, n: nat)
    requires n <= |s|
    ensures s == s[..n] + s[n..]
  {
  }

  lemma Regroup<T>(a: seq<T>, s: seq<T>, l: seq<T>, b: seq<T>)
    ensures a + s + l + s + b == a + s + (l + s + b)
  {
  }
}
