/** The segment assembler (`v_lines` / `h_lines`): each scanned group becomes at most
    one line segment, spanning from the start of the group's last continuous run to
    the group's last coordinate. */
module Lines {
  import opened Seqs
  import opened Raster

  /** A detected segment: `Vertical(x, y1, y2)` or `Horizontal(x1, x2, y)`. */
  datatype Line = Vertical(x: int, y1: int, y2: int) | Horizontal(x1: int, x2: int, y: int)

  /** The coordinate a segment is drawn at: x for vertical, y for horizontal. */
  function Fixed(l: Line): int
  {
    match l
    case Vertical(x, _, _) => x
    case Horizontal(_, _, y) => y
  }

  /** Where the segment begins along its own direction. */
  function Start(l: Line): int
  {
    match l
    case Vertical(_, y1, _) => y1
    case Horizontal(x1, _, _) => x1
  }

  /** Where the segment ends along its own direction. */
  function Finish(l: Line): int
  {
    match l
    case Vertical(_, _, y2) => y2
    case Horizontal(_, x2, _) => x2
  }

  /** The fixed coordinates of a list of segments (`v_limits` / `h_limits` in `__main__`). */
  function Limits(ls: seq<Line>): (r: seq<int>)
    ensures |r| == |ls|
    ensures forall i :: 0 <= i < |ls| ==> r[i] == Fixed(ls[i])
  {
    seq(|ls|, i requires 0 <= i < |ls| => Fixed(ls[i]))
  }

  /** The widest discontinuity absorbed into a run, in pixels. */
  const MergeGap: int := 5

  /** Python truthiness of the previous coordinate: absent and 0 are both false. */
  predicate Truthy(last: Option<int>)
  {
    last.Some? && last.value != 0
  }

  /** The gap loop of `v_lines` / `h_lines`: `start` is reset to a coordinate lying more
      than `MergeGap` past a truthy previous coordinate `last`. */
  function RunFrom(start: int, last: Option<int>, ys: seq<int>): (r: int)
    ensures r == start || r in ys
    decreases |ys|
  {
    if |ys| == 0 then start
    else
      var y := ys[0];
      var start' := if Truthy(last) && y - last.value > MergeGap then y else start;
      RunFrom(start', Some(y), ys[1..])
  }

  /** The start of the retained run of a non-empty coordinate list. */
  function RunStart(ys: seq<int>): (r: int)
    requires |ys| > 0
    ensures r in ys
    ensures StrictlyIncreasing(ys) ==> r <= ys[|ys| - 1]
  {
    RunFrom(ys[0], None, ys)
  }

  /** Position k starts a new run: its predecessor is nonzero and more than `MergeGap` below it. */
  predicate BreakAt(ys: seq<int>, k: int)
  {
    1 <= k < |ys| && ys[k - 1] != 0 && ys[k] - ys[k - 1] > MergeGap
  }

  /** No run starts strictly inside the list. */
  predicate OneRun(ys: seq<int>)
  {
    forall k :: 0 <= k < |ys| ==> !BreakAt(ys, k)
  }

  /** Position k is the last run start: the first position or a break, with no break after it. */
  predicate LastBreak(ys: seq<int>, k: int)
  {
    && (k == 0 || BreakAt(ys, k))
    && (forall j :: k < j < |ys| ==> !BreakAt(ys, j))
  }

  /** The loop after i coordinates, with `start` at the last break k0 seen so far. */
  lemma {:induction false} RunFromFollowsBreaks(ys: seq<int>, i: nat, k0: nat)
    requires 1 <= i <= |ys| && k0 < i
    requires k0 == 0 || BreakAt(ys, k0)
    requires forall j :: k0 < j < i ==> !BreakAt(ys, j)
    ensures exists k :: k0 <= k < |ys| && RunFrom(ys[k0], Some(ys[i - 1]), ys[i..]) == ys[k] && LastBreak(ys, k)
    decreases |ys| - i
  {
    var r := RunFrom(ys[k0], Some(ys[i - 1]), ys[i..]);
    if i == |ys| {
      assert ys[i..] == [];
      assert r == ys[k0] && LastBreak(ys, k0);
    } else {
      assert ys[i..][1..] == ys[i + 1..];
      if BreakAt(ys, i) {
        assert r == RunFrom(ys[i], Some(ys[i]), ys[i + 1..]);
        RunFromFollowsBreaks(ys, i + 1, i);
        var k :| i <= k < |ys| && RunFrom(ys[i], Some(ys[i]), ys[i + 1..]) == ys[k] && LastBreak(ys, k);
        assert k0 <= k && r == ys[k];
      } else {
        assert r == RunFrom(ys[k0], Some(ys[i]), ys[i + 1..]);
        RunFromFollowsBreaks(ys, i + 1, k0);
      }
    }
  }

  /** The retained run starts at the last break, or at the first coordinate if there is none. */
  lemma RunStartIsLastBreak(ys: seq<int>)
    requires |ys| > 0
    ensures exists k :: (
      && 0 <= k < |ys|
      && RunStart(ys) == ys[k]
      && (k == 0 || BreakAt(ys, k))
      && (forall j :: k < j < |ys| ==> !BreakAt(ys, j)))
  {
    assert ys[1..] == ys[1..];
    assert RunStart(ys) == RunFrom(ys[0], Some(ys[0]), ys[1..]);
    RunFromFollowsBreaks(ys, 1, 0);
  }

  /** Two runs joined at a gap: a gap of at most `MergeGap` merges them; a wider gap keeps
      only the later run, unless the earlier run ends at coordinate 0. */
  lemma TwoRuns(a: seq<int>, b: seq<int>)
    requires |a| > 0 && |b| > 0
    requires OneRun(a) && OneRun(b)
    ensures b[0] - a[|a| - 1] <= MergeGap ==> RunStart(a + b) == a[0]
    ensures a[|a| - 1] != 0 && b[0] - a[|a| - 1] > MergeGap ==> RunStart(a + b) == b[0]
    ensures a[|a| - 1] == 0 ==> RunStart(a + b) == a[0]
  {
    var ys := a + b;
    forall j | 1 <= j < |ys| && j != |a|
      ensures !BreakAt(ys, j)
    {
      if j < |a| {
        assert !BreakAt(a, j);
      } else {
        assert !BreakAt(b, j - |a|);
      }
    }
    assert BreakAt(ys, |a|) <==> a[|a| - 1] != 0 && b[0] - a[|a| - 1] > MergeGap;
    RunStartIsLastBreak(ys);
    var k :| 0 <= k < |ys| && RunStart(ys) == ys[k] && (k == 0 || BreakAt(ys, k))
      && (forall j :: k < j < |ys| ==> !BreakAt(ys, j));
    if BreakAt(ys, |a|) {
      assert k == |a|;
    } else {
      assert k == 0;
    }
  }

  /** The coordinates of a group, i.e. everything after its leading line number. */
  function Tail(g: seq<int>): seq<int>
  {
    if |g| == 0 then [] else g[1..]
  }

  /** The length test of `v_lines` / `h_lines`: `v_lines` counts the coordinates, `h_lines` counts the
      distinct coordinates. */
  predicate Qualifies(axis: Axis, g: seq<int>, lineWeight: nat)
  {
    match axis
    case Columns => |Tail(g)| > lineWeight
    case Rows => |Elems(Tail(g))| > lineWeight
  }

  /** A qualifying group has its line number and at least one coordinate. */
  lemma QualifiesLong(axis: Axis, g: seq<int>, lineWeight: nat)
    requires Qualifies(axis, g, lineWeight)
    ensures |g| >= 2
  {
    assert |g| < 2 ==> Tail(g) == [];
    assert Elems<int>([]) == {};
  }

  /** The segment built from one group: drawn at the group's line number, from the start of
      its last run to its last coordinate. */
  function Segment(axis: Axis, g: seq<int>): (l: Line)
    requires |g| >= 2
    ensures l.Vertical? <==> axis == Columns
    ensures Fixed(l) == g[0]
    ensures Start(l) in g[1..]
    ensures Finish(l) == g[|g| - 1]
    ensures StrictlyIncreasing(g[1..]) ==> Start(l) <= Finish(l)
  {
    var ys := g[1..];
    match axis
    case Columns => Vertical(g[0], RunStart(ys), ys[|ys| - 1])
    case Rows => Horizontal(RunStart(ys), ys[|ys| - 1], g[0])
  }

  /** Turns groups into segments, at most one per group, in group order. */
  function AssembleLines(axis: Axis, groups: seq<seq<int>>, lineWeight: nat): (r: seq<Line>)
    ensures |r| <= |groups|
    decreases |groups|
  {
    if |groups| == 0 then []
    else
      var g := groups[0];
      var rest := AssembleLines(axis, groups[1..], lineWeight);
      if Qualifies(axis, g, lineWeight) then
        QualifiesLong(axis, g, lineWeight);
        [Segment(axis, g)] + rest
      else
        rest
  }

  /** Every segment comes from a qualifying group, and every qualifying group gives its segment. */
  lemma {:induction false} AssembleMembers(axis: Axis, groups: seq<seq<int>>, lineWeight: nat)
    ensures forall l :: l in AssembleLines(axis, groups, lineWeight) ==>
      exists g :: g in groups && Qualifies(axis, g, lineWeight) && |g| >= 2 && l == Segment(axis, g)
    ensures forall g :: g in groups && Qualifies(axis, g, lineWeight) ==>
      |g| >= 2 && Segment(axis, g) in AssembleLines(axis, groups, lineWeight)
    decreases |groups|
  {
    if |groups| > 0 {
      var g := groups[0];
      var rest := AssembleLines(axis, groups[1..], lineWeight);
      AssembleMembers(axis, groups[1..], lineWeight);
      assert forall h :: h in groups[1..] ==> h in groups;
      assert forall h :: h in groups ==> h == g || h in groups[1..];
      if Qualifies(axis, g, lineWeight) {
        QualifiesLong(axis, g, lineWeight);
        assert AssembleLines(axis, groups, lineWeight) == [Segment(axis, g)] + rest;
      } else {
        assert AssembleLines(axis, groups, lineWeight) == rest;
      }
    }
  }

  /** `v_lines`: vertical segments from column groups. */
  function VLines(groups: seq<seq<int>>, lineWeight: nat): (r: seq<Line>)
    ensures forall l :: l in r ==> l.Vertical?
    ensures forall g :: g in groups && |g| - 1 > lineWeight ==>
      Vertical(g[0], RunStart(g[1..]), g[|g| - 1]) in r
  {
    AssembleMembers(Columns, groups, lineWeight);
    AssembleLines(Columns, groups, lineWeight)
  }

  /** `h_lines`: horizontal segments from row groups. */
  function HLines(groups: seq<seq<int>>, lineWeight: nat): (r: seq<Line>)
    ensures forall l :: l in r ==> l.Horizontal?
    ensures forall g :: g in groups && |g| >= 2 && |Elems(g[1..])| > lineWeight ==>
      Horizontal(RunStart(g[1..]), g[|g| - 1], g[0]) in r
  {
    AssembleMembers(Rows, groups, lineWeight);
    AssembleLines(Rows, groups, lineWeight)
  }

  /** Assembly works group by group: the segments of a concatenation are the
      concatenation of the segments. */
  lemma {:induction false} AssembleAppend(axis: Axis, a: seq<seq<int>>, b: seq<seq<int>>, lineWeight: nat)
    ensures AssembleLines(axis, a + b, lineWeight) == AssembleLines(axis, a, lineWeight) + AssembleLines(axis, b, lineWeight)
    decreases |a|
  {
    if |a| == 0 {
      assert a + b == b;
    } else {
      assert (a + b)[0] == a[0];
      assert (a + b)[1..] == a[1..] + b;
      AssembleAppend(axis, a[1..], b, lineWeight);
      var head := if Qualifies(axis, a[0], lineWeight) then [Segment(axis, a[0])] else [];
      assert AssembleLines(axis, a, lineWeight) == head + AssembleLines(axis, a[1..], lineWeight);
      assert AssembleLines(axis, a + b, lineWeight) == head + AssembleLines(axis, a[1..] + b, lineWeight);
    }
  }

  /** A single group yields exactly one segment when it qualifies, and none otherwise. */
  lemma AssembleOne(axis: Axis, g: seq<int>, lineWeight: nat)
    ensures Qualifies(axis, g, lineWeight) ==> |g| >= 2 && AssembleLines(axis, [g], lineWeight) == [Segment(axis, g)]
    ensures !Qualifies(axis, g, lineWeight) ==> AssembleLines(axis, [g], lineWeight) == []
  {
    assert [g][1..] == [];
  }

  /** Groups whose line numbers all exceed `b` give segments whose fixed coordinates all
      exceed `b`. */
  lemma AssembleAbove(axis: Axis, groups: seq<seq<int>>, lineWeight: nat, b: int)
    requires forall i :: 0 <= i < |groups| ==> |groups[i]| > 0 && b < groups[i][0]
    ensures forall l :: l in AssembleLines(axis, groups, lineWeight) ==> b < Fixed(l)
  {
    AssembleMembers(axis, groups, lineWeight);
    forall l | l in AssembleLines(axis, groups, lineWeight)
      ensures b < Fixed(l)
    {
      var h :| h in groups && Qualifies(axis, h, lineWeight) && |h| >= 2 && l == Segment(axis, h);
      var m :| 0 <= m < |groups| && groups[m] == h;
    }
  }

  /** Groups whose line numbers strictly increase give segments whose fixed coordinates
      strictly increase. */
  lemma {:induction false} AssembleIncreasing(axis: Axis, groups: seq<seq<int>>, lineWeight: nat)
    requires forall i :: 0 <= i < |groups| ==> |groups[i]| > 0
    requires forall i, j :: 0 <= i < j < |groups| ==> groups[i][0] < groups[j][0]
    ensures StrictlyIncreasing(Limits(AssembleLines(axis, groups, lineWeight)))
    decreases |groups|
  {
    if |groups| > 0 {
      var g := groups[0];
      var rest := AssembleLines(axis, groups[1..], lineWeight);
      AssembleIncreasing(axis, groups[1..], lineWeight);
      AssembleAbove(axis, groups[1..], lineWeight, g[0]);
      if Qualifies(axis, g, lineWeight) {
        QualifiesLong(axis, g, lineWeight);
        var r := [Segment(axis, g)] + rest;
        assert AssembleLines(axis, groups, lineWeight) == r;
        forall i, j | 0 <= i < j < |r|
          ensures Fixed(r[i]) < Fixed(r[j])
        {
          assert r[j] == rest[j - 1];
          if i > 0 {
            assert r[i] == rest[i - 1];
            assert Limits(rest)[i - 1] < Limits(rest)[j - 1];
          } else {
            assert rest[j - 1] in rest;
          }
        }
      } else {
        assert AssembleLines(axis, groups, lineWeight) == rest;
      }
    }
  }

  /** On strictly increasing coordinates the two length tests of `v_lines` and `h_lines` agree. */
  lemma RowTestIsLengthTest(g: seq<int>, lineWeight: nat)
    requires StrictlyIncreasing(Tail(g))
    ensures Qualifies(Rows, g, lineWeight) <==> Qualifies(Columns, g, lineWeight)
  {
    DistinctCount(Tail(g));
  }
}
