/** The duplicate filter (`filter_lines`): thins clusters of parallel segments one
    pixel apart, comparing each segment with the one seen just before it. */
module Thinning {
  import opened Seqs
  import opened Lines

  /** The loop of `filter_lines`, with `last` the fixed coordinate of the previously seen
      segment: a segment exactly one past a truthy `last` is dropped, and `last` moves on
      whether or not the segment was kept. */
  function FilterFrom(last: Option<int>, ls: seq<Line>): (r: seq<Line>)
    ensures |r| <= |ls|
    decreases |ls|
  {
    if |ls| == 0 then []
    else
      var f := Fixed(ls[0]);
      var rest := FilterFrom(Some(f), ls[1..]);
      if Truthy(last) && f - last.value == 1 then rest else [ls[0]] + rest
  }

  /** `filter_lines`. The first segment is always kept. */
  function FilterLines(ls: seq<Line>): (r: seq<Line>)
    ensures |r| <= |ls|
    ensures |ls| > 0 ==> |r| > 0 && r[0] == ls[0]
  {
    FilterFrom(None, ls)
  }

  /** Segment k is dropped: its predecessor in the input has a nonzero fixed coordinate
      exactly one below its own. */
  predicate Dropped(ls: seq<Line>, k: int)
  {
    1 <= k < |ls| && Fixed(ls[k - 1]) != 0 && Fixed(ls[k]) - Fixed(ls[k - 1]) == 1
  }

  /** Some segment of `ls` is drawn at coordinate `x`. */
  predicate DrawnAt(ls: seq<Line>, x: int)
  {
    exists l :: l in ls && Fixed(l) == x
  }

  /** Which input positions survive the filter. */
  function ThinMask(ls: seq<Line>): (m: seq<bool>)
    ensures |m| == |ls|
    ensures forall k :: 0 <= k < |ls| ==> (m[k] <==> !Dropped(ls, k))
  {
    seq(|ls|, k requires 0 <= k < |ls| => !Dropped(ls, k))
  }

  /** After the first segment, the loop keeps exactly the positions the mask keeps. */
  lemma {:induction false} FilterFromIsKeep(ls: seq<Line>)
    requires |ls| > 0
    ensures FilterFrom(Some(Fixed(ls[0])), ls[1..]) == Keep(ls[1..], ThinMask(ls)[1..])
    decreases |ls|
  {
    var s := ls[1..];
    if |s| == 0 {
      assert ThinMask(ls)[1..] == [];
    } else {
      var m := ThinMask(ls);
      FilterFromIsKeep(s);
      assert s[1..] == ls[2..];
      assert ThinMask(s)[1..] == m[2..] by {
        forall k | 1 <= k < |s|
          ensures ThinMask(s)[k] == m[k + 1]
        {
          assert Dropped(s, k) <==> Dropped(ls, k + 1);
        }
      }
      assert m[1..] == [m[1]] + m[2..];
      assert s == [s[0]] + s[1..];
      KeepCons(s[0], m[1], s[1..], m[2..]);
      assert m[1] <==> !(Fixed(ls[0]) != 0 && Fixed(s[0]) - Fixed(ls[0]) == 1);
    }
  }

  /** `filter_lines` keeps exactly the segments that are not `Dropped`. */
  lemma FilterLinesIsKeep(ls: seq<Line>)
    ensures FilterLines(ls) == Keep(ls, ThinMask(ls))
  {
    if |ls| > 0 {
      var m := ThinMask(ls);
      FilterFromIsKeep(ls);
      assert ls == [ls[0]] + ls[1..];
      assert m == [m[0]] + m[1..];
      KeepCons(ls[0], m[0], ls[1..], m[1..]);
    }
  }

  /** The filter returns an order-preserving subsequence of its input in which position k
      of the input survives exactly when it is not `Dropped`. */
  lemma FilterLinesSubsequence(ls: seq<Line>)
    ensures SubseqAt(FilterLines(ls), ls, Positions(ThinMask(ls)))
    ensures forall k :: 0 <= k < |ls| ==> (k in Positions(ThinMask(ls)) <==> !Dropped(ls, k))
  {
    FilterLinesIsKeep(ls);
    KeepAtPositions(ls, ThinMask(ls));
  }

  /** Thinning segments whose fixed coordinates strictly increase keeps them increasing. */
  lemma FilterLinesIncreasing(ls: seq<Line>)
    requires StrictlyIncreasing(Limits(ls))
    ensures StrictlyIncreasing(Limits(FilterLines(ls)))
  {
    var r, p := FilterLines(ls), Positions(ThinMask(ls));
    FilterLinesSubsequence(ls);
    forall i, j | 0 <= i < j < |r|
      ensures Fixed(r[i]) < Fixed(r[j])
    {
      assert Limits(ls)[p[i]] < Limits(ls)[p[j]];
    }
  }

  /** On strictly increasing fixed coordinates the filter's output has no segment left to
      drop. */
  lemma ThinnedKeepsAll(ls: seq<Line>)
    requires StrictlyIncreasing(Limits(ls))
    ensures forall k :: 0 <= k < |FilterLines(ls)| ==> !Dropped(FilterLines(ls), k)
  {
    var r, p := FilterLines(ls), Positions(ThinMask(ls));
    FilterLinesSubsequence(ls);
    forall k | 1 <= k < |r|
      ensures !Dropped(r, k)
    {
      var a, b := p[k - 1], p[k];
      assert r[k - 1] == ls[a] && r[k] == ls[b];
      if b == a + 1 {
        assert ThinMask(ls)[b];
      } else {
        assert Limits(ls)[a] < Limits(ls)[a + 1] < Limits(ls)[b];
      }
    }
  }

  /** A segment drawn at `x` that survives the filter was drawn at `x` in the input, with
      no segment at a nonzero `x - 1` before it. */
  lemma ThinnedFrom(ls: seq<Line>, x: int)
    requires StrictlyIncreasing(Limits(ls))
    requires DrawnAt(FilterLines(ls), x)
    ensures DrawnAt(ls, x) && !(x - 1 != 0 && DrawnAt(ls, x - 1))
  {
    var m := ThinMask(ls);
    var l :| l in FilterLines(ls) && Fixed(l) == x;
    FilterLinesIsKeep(ls);
    KeepMembers(ls, m, l);
    var k :| 0 <= k < |ls| && m[k] && ls[k] == l;
    assert ls[k] in ls;
    if DrawnAt(ls, x - 1) {
      var l' :| l' in ls && Fixed(l') == x - 1;
      var j: nat :| j < |ls| && ls[j] == l';
      PredecessorAt(Limits(ls), j, k);
      assert ls[k - 1] == l';
    }
  }

  /** A segment drawn at `x`, with no segment at a nonzero `x - 1`, survives the filter. */
  lemma ThinnedKeeps(ls: seq<Line>, x: int)
    requires DrawnAt(ls, x) && !(x - 1 != 0 && DrawnAt(ls, x - 1))
    ensures DrawnAt(FilterLines(ls), x)
  {
    var m := ThinMask(ls);
    var l :| l in ls && Fixed(l) == x;
    var k :| 0 <= k < |ls| && ls[k] == l;
    assert m[k] by {
      if k >= 1 {
        assert ls[k - 1] in ls;
      }
    }
    FilterLinesIsKeep(ls);
    KeepMembers(ls, m, l);
  }

  /** On strictly increasing fixed coordinates, a segment is drawn at `x` after the filter
      exactly when one is drawn at `x` before it and none at a nonzero `x - 1`. */
  lemma ThinnedAt(ls: seq<Line>, x: int)
    requires StrictlyIncreasing(Limits(ls))
    ensures DrawnAt(FilterLines(ls), x) <==> DrawnAt(ls, x) && !(x - 1 != 0 && DrawnAt(ls, x - 1))
  {
    if DrawnAt(FilterLines(ls), x) {
      ThinnedFrom(ls, x);
    }
    if DrawnAt(ls, x) && !(x - 1 != 0 && DrawnAt(ls, x - 1)) {
      ThinnedKeeps(ls, x);
    }
  }

  /** On strictly increasing fixed coordinates the filter is idempotent. */
  lemma FilterLinesIdempotent(ls: seq<Line>)
    requires StrictlyIncreasing(Limits(ls))
    ensures FilterLines(FilterLines(ls)) == FilterLines(ls)
  {
    var r := FilterLines(ls);
    ThinnedKeepsAll(ls);
    FilterLinesIsKeep(r);
    KeepAll(r, ThinMask(r));
  }

  /** Without increasing coordinates idempotence fails: at 5, 6, 6 the first pass drops
      only the middle segment, and the second pass then drops the last one. */
  lemma IdempotenceNeedsIncreasing()
    ensures var ls := [Vertical(5, 0, 9), Vertical(6, 0, 9), Vertical(6, 0, 9)];
      FilterLines(ls) == [Vertical(5, 0, 9), Vertical(6, 0, 9)]
      && FilterLines(FilterLines(ls)) == [Vertical(5, 0, 9)]
  {
    var ls := [Vertical(5, 0, 9), Vertical(6, 0, 9), Vertical(6, 0, 9)];
    assert ls[1..] == [Vertical(6, 0, 9), Vertical(6, 0, 9)];
    assert ls[1..][1..] == [Vertical(6, 0, 9)];
    var once := [Vertical(5, 0, 9), Vertical(6, 0, 9)];
    assert once[1..] == [Vertical(6, 0, 9)];
  }

  /** A run of strokes at 1, 2, 3 collapses to its first segment, because each is compared
      with the segment seen just before it, not with the last one kept. */
  lemma ComparesWithLastSeen()
    ensures var ls := [Horizontal(0, 9, 1), Horizontal(0, 9, 2), Horizontal(0, 9, 3)];
      FilterLines(ls) == [Horizontal(0, 9, 1)]
  {
    var ls := [Horizontal(0, 9, 1), Horizontal(0, 9, 2), Horizontal(0, 9, 3)];
    assert ls[1..] == [Horizontal(0, 9, 2), Horizontal(0, 9, 3)];
    assert ls[1..][1..] == [Horizontal(0, 9, 3)];
  }

  /** A stroke following one at coordinate 0 is never dropped. */
  lemma ZeroPredecessorKeeps()
    ensures var ls := [Vertical(0, 0, 9), Vertical(1, 0, 9)];
      FilterLines(ls) == ls
  {
    var ls := [Vertical(0, 0, 9), Vertical(1, 0, 9)];
    assert ls[1..] == [Vertical(1, 0, 9)];
  }
}
