/**
 * The parenthesis-depth splitter that every scanner of the SQL code is built
 * on: walk the text once, count '(' up and ')' down, and cut at a separator
 * only where the count is zero.  `Pieces` is the reference definition of the
 * result, written character by character from the end so that a scanner that
 * has read t[..i] holds exactly Pieces(t[..i], sep); the scanners in SqlSource
 * and Validators are loops proved to compute it, and the lemmas here say what
 * it means.
 */
module Splitting {
  import opened Text

  /** How one character changes the parenthesis count. */
  function Delta(c: char): int {
    if c == '(' then 1 else if c == ')' then -1 else 0
  }

  /** The parenthesis count after reading s from count zero (it may go negative). */
  function Depth(s: string): int
    decreases |s|
  {
    if s == [] then 0 else Depth(s[..|s| - 1]) + Delta(s[|s| - 1])
  }

  /**
   * The pieces of t between the occurrences of sep met while the count is
   * zero.  Every other character, parentheses included, stays in its piece.
   */
  function Pieces(t: string, sep: char): (ps: seq<string>)
    ensures |ps| >= 1
    decreases |t|
  {
    if t == [] then [[]]
    else
      var init, c := t[..|t| - 1], t[|t| - 1];
      var ps := Pieces(init, sep);
      if c == sep && Depth(init) == 0 then ps + [[]]
      else ps[..|ps| - 1] + [ps[|ps| - 1] + [c]]
  }

  // ---------------------------------------------------------------------
  // One step of a scanner that has read t[..i]

  lemma ScanStart(t: string, sep: char)
    ensures Pieces(t[..0], sep) == [] + [[]] && Depth(t[..0]) == 0
  {
    assert t[..0] == [];
  }

  lemma DepthStep(t: string, i: nat)
    requires i < |t|
    ensures Depth(t[..i + 1]) == Depth(t[..i]) + Delta(t[i])
  {
    assert t[..i + 1][..i] == t[..i];
  }

  /** A separator read at count zero closes the piece being read and starts an empty one. */
  lemma ScanSep(t: string, sep: char, i: nat, closed: seq<string>, cur: string)
    requires i < |t| && t[i] == sep && Depth(t[..i]) == 0
    requires Pieces(t[..i], sep) == closed + [cur]
    ensures Pieces(t[..i + 1], sep) == (closed + [cur]) + [[]]
  {
    assert t[..i + 1][..i] == t[..i];
  }

  /** Any other character is appended to the piece being read. */
  lemma ScanChar(t: string, sep: char, i: nat, closed: seq<string>, cur: string)
    requires i < |t| && !(t[i] == sep && Depth(t[..i]) == 0)
    requires Pieces(t[..i], sep) == closed + [cur]
    ensures Pieces(t[..i + 1], sep) == closed + [cur + [t[i]]]
  {
    assert t[..i + 1][..i] == t[..i];
    var ps := closed + [cur];
    assert ps[..|ps| - 1] == closed;
  }

  lemma ScanEnd(t: string)
    ensures t[..|t|] == t
  {
  }

  // ---------------------------------------------------------------------
  // What the pieces are

  /** Joining the pieces back with the separator gives the text: nothing is lost or reordered. */
  lemma {:induction false} PiecesJoin(t: string, sep: char)
    ensures JoinWith([sep], Pieces(t, sep)) == t
    decreases |t|
  {
    if t != [] {
      var init, c := t[..|t| - 1], t[|t| - 1];
      var ps := Pieces(init, sep);
      PiecesJoin(init, sep);
      assert t == init + [c];
      if c == sep && Depth(init) == 0 {
        JoinSnoc([sep], ps, []);
      } else {
        JoinExtendLast([sep], ps, c);
      }
    }
  }

  /** The count at the end of the text is the count inside its last piece. */
  lemma {:induction false} PiecesLastDepth(t: string, sep: char)
    requires sep != '(' && sep != ')'
    ensures var ps := Pieces(t, sep); Depth(ps[|ps| - 1]) == Depth(t)
    decreases |t|
  {
    if t != [] {
      var init, c := t[..|t| - 1], t[|t| - 1];
      var ps := Pieces(init, sep);
      PiecesLastDepth(init, sep);
      var last := ps[|ps| - 1];
      if !(c == sep && Depth(init) == 0) {
        assert (last + [c])[..|last|] == last;
      }
    }
  }

  /** No separator in p stands at count zero, counting from the start of p. */
  predicate NoTopSep(p: string, sep: char) {
    forall j :: 0 <= j < |p| && p[j] == sep ==> Depth(p[..j]) != 0
  }

  /** No piece has a separator at count zero. */
  predicate PiecesSplitAtZero(ps: seq<string>, sep: char) {
    forall k :: 0 <= k < |ps| ==> NoTopSep(ps[k], sep)
  }

  /** Inside a piece no separator stands at count zero: every such separator was cut at. */
  lemma {:induction false} PiecesNoTopSep(t: string, sep: char)
    requires sep != '(' && sep != ')'
    ensures PiecesSplitAtZero(Pieces(t, sep), sep)
    decreases |t|
  {
    if t != [] {
      var init, c := t[..|t| - 1], t[|t| - 1];
      var ps := Pieces(init, sep);
      var ps' := Pieces(t, sep);
      PiecesNoTopSep(init, sep);
      assert PiecesSplitAtZero(ps, sep);
      if c == sep && Depth(init) == 0 {
        assert ps' == ps + [[]];
        forall k | 0 <= k < |ps'| ensures NoTopSep(ps'[k], sep) {
          if k < |ps| {
            assert ps'[k] == ps[k];
          }
        }
      } else {
        var last := ps[|ps| - 1];
        PiecesLastDepth(init, sep);
        forall k | 0 <= k < |ps'| ensures NoTopSep(ps'[k], sep) {
          if k < |ps| - 1 {
            assert ps'[k] == ps[k];
          } else {
            var p := last + [c];
            assert ps'[k] == p;
            assert NoTopSep(last, sep);
            forall j | 0 <= j < |p| && p[j] == sep ensures Depth(p[..j]) != 0 {
              if j < |last| {
                assert p[..j] == last[..j];
              } else {
                assert p[..j] == last;
              }
            }
          }
        }
      }
    }
  }

  /** The text before the k-th separator (k >= 1) ends at count zero. */
  predicate SeparatorsAtZero(ps: seq<string>, sep: char) {
    forall k :: 1 <= k < |ps| ==> Depth(JoinWith([sep], ps[..k])) == 0
  }

  /** Every separator between two pieces stands at count zero. */
  lemma {:induction false} PiecesSepAtZero(t: string, sep: char)
    ensures SeparatorsAtZero(Pieces(t, sep), sep)
    decreases |t|
  {
    if t != [] {
      var init, c := t[..|t| - 1], t[|t| - 1];
      var ps := Pieces(init, sep);
      var ps' := Pieces(t, sep);
      PiecesSepAtZero(init, sep);
      assert SeparatorsAtZero(ps, sep);
      if c == sep && Depth(init) == 0 {
        assert ps' == ps + [[]];
        forall k | 1 <= k < |ps'| ensures Depth(JoinWith([sep], ps'[..k])) == 0 {
          if k < |ps| {
            assert ps'[..k] == ps[..k];
          } else {
            assert ps'[..k] == ps;
            PiecesJoin(init, sep);
          }
        }
      } else {
        forall k | 1 <= k < |ps'| ensures Depth(JoinWith([sep], ps'[..k])) == 0 {
          assert ps'[..k] == ps[..k];
        }
      }
    }
  }

  /** A text with no separator at all is a single piece. */
  lemma {:induction false} PiecesNoSep(t: string, sep: char)
    requires sep !in t
    ensures Pieces(t, sep) == [t]
    decreases |t|
  {
    if t != [] {
      var init := t[..|t| - 1];
      assert sep !in init;
      PiecesNoSep(init, sep);
      assert t == init + [t[|t| - 1]];
    }
  }

  /** The count over a concatenation is the sum of the counts. */
  lemma {:induction false} DepthConcat(a: string, b: string)
    ensures Depth(a + b) == Depth(a) + Depth(b)
    decreases |b|
  {
    if b != [] {
      var b' := b[..|b| - 1];
      assert (a + b)[..|a + b| - 1] == a + b';
      DepthConcat(a, b');
    } else {
      assert a + b == a;
    }
  }

  /** Text without parentheses leaves the count at zero. */
  lemma {:induction false} DepthNoParens(s: string)
    requires '(' !in s && ')' !in s
    ensures Depth(s) == 0
    decreases |s|
  {
    if s != [] {
      DepthNoParens(s[..|s| - 1]);
    }
  }

  /** A text with no separator at count zero is a single piece, however many separators it holds inside parentheses. */
  lemma {:induction false} PiecesSingle(t: string, sep: char)
    requires NoTopSep(t, sep)
    ensures Pieces(t, sep) == [t]
    decreases |t|
  {
    if t != [] {
      var init, c := t[..|t| - 1], t[|t| - 1];
      forall j | 0 <= j < |init| && init[j] == sep ensures Depth(init[..j]) != 0 {
        assert t[j] == init[j] && t[..j] == init[..j];
      }
      PiecesSingle(init, sep);
      assert t[..|t| - 1] == init;
      assert t == init + [c];
    }
  }

  /** Reading one more character: the definition of Pieces, for a text written as t + [c]. */
  lemma PiecesSnoc(t: string, c: char, sep: char)
    ensures Pieces(t + [c], sep) == Step(Pieces(t, sep), c, c == sep && Depth(t) == 0)
  {
    assert (t + [c])[..|t|] == t;
  }

  /** The next piece list after reading c: a new empty piece, or c added to the last piece. */
  function Step(ps: seq<string>, c: char, cut: bool): seq<string>
    requires ps != []
  {
    if cut then ps + [[]] else ps[..|ps| - 1] + [ps[|ps| - 1] + [c]]
  }

  /** The step touches only the last piece, so pieces in front stay in front. */
  lemma StepAfter(pa: seq<string>, pb: seq<string>, c: char, cut: bool)
    requires pb != []
    ensures Step(pa + pb, c, cut) == pa + Step(pb, c, cut)
  {
    var ps := pa + pb;
    if !cut {
      assert ps[..|ps| - 1] == pa + pb[..|pb| - 1];
    }
  }

  /**
   * Cutting at a separator that stands at count zero: the pieces of the
   * whole are the pieces before it followed by the pieces after it, so the
   * order of the pieces is the order of the text.
   */
  lemma {:induction false} PiecesAtTopSep(a: string, sep: char, b: string)
    requires sep != '(' && sep != ')' && Depth(a) == 0
    ensures Pieces(a + [sep] + b, sep) == Pieces(a, sep) + Pieces(b, sep)
    decreases |b|
  {
    if b == [] {
      PiecesSnoc(a, sep, sep);
      assert a + [sep] + b == a + [sep];
    } else {
      var b', c := b[..|b| - 1], b[|b| - 1];
      var init := a + [sep] + b';
      PiecesAtTopSep(a, sep, b');
      DepthConcat(a, [sep]);
      DepthConcat(a + [sep], b');
      assert Depth([sep]) == Depth([sep][..0]) + Delta(sep);
      PiecesSameStep(init, Pieces(a, sep), b', c, sep);
      assert a + [sep] + b == init + [c];
      assert b == b' + [c];
    }
  }

  /** Two texts whose pieces end alike and whose counts agree take the next character alike. */
  lemma PiecesSameStep(t: string, pa: seq<string>, u: string, c: char, sep: char)
    requires Pieces(t, sep) == pa + Pieces(u, sep) && Depth(t) == Depth(u)
    ensures Pieces(t + [c], sep) == pa + Pieces(u + [c], sep)
  {
    PiecesSnoc(t, c, sep);
    PiecesSnoc(u, c, sep);
    StepAfter(pa, Pieces(u, sep), c, c == sep && Depth(u) == 0);
  }

  /** A stretch of p that starts at count zero has no separator at count zero when p has none. */
  /** Stripping and dropping blank pieces keeps every piece free of a separator at count zero. */
  lemma NonBlankNoTopSep(ps: seq<string>, sep: char)
    requires forall k :: 0 <= k < |ps| ==> NoTopSep(ps[k], sep)
    requires !IsSpace(sep)
    ensures forall k :: 0 <= k < |NonBlank(ps)| ==> NoTopSep(NonBlank(ps)[k], sep)
  {
    forall k | 0 <= k < |NonBlank(ps)| ensures NoTopSep(NonBlank(ps)[k], sep) {
      var i := NonBlankFrom(ps, k);
      StripNoTopSep(ps[i], sep);
    }
  }

  lemma InfixNoTopSep(p: string, a: nat, r: string, sep: char)
    requires NoTopSep(p, sep) && a + |r| <= |p| && r == p[a..a + |r|] && Depth(p[..a]) == 0
    ensures NoTopSep(r, sep)
  {
    forall j | 0 <= j < |r| && r[j] == sep ensures Depth(r[..j]) != 0 {
      assert r[j] == p[a + j];
      assert p[..a + j] == p[..a] + r[..j];
      DepthConcat(p[..a], r[..j]);
    }
  }

  /** Stripping keeps a piece free of separators at count zero. */
  lemma StripNoTopSep(p: string, sep: char)
    requires NoTopSep(p, sep) && !IsSpace(sep)
    ensures NoTopSep(Strip(p), sep)
  {
    var l := LStrip(p);
    var r := Strip(p);
    var a := |p| - |l|;
    assert r == l[..|r|];
    assert r == p[a..a + |r|];
    var front := p[..a];
    forall i | 0 <= i < |front| ensures front[i] != '(' && front[i] != ')' {
      assert IsSpace(p[i]);
    }
    DepthNoParens(front);
    InfixNoTopSep(p, a, r, sep);
  }
}
