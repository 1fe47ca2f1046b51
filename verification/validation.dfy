/** The candidate validator (`validate_recs`): a candidate survives only if each of its
    four edges is covered, within tolerance `t`, by a detected segment of the same
    orientation. */
module Validation {
  import opened Seqs
  import opened Lines
  import opened Candidates

  function Abs(n: int): nat
  {
    if n < 0 then -n else n
  }

  /** Segment `seg` covers edge `edge`: same orientation, fixed coordinates at most `t`
      apart, and the segment's span reaching to within `t` of each end of the edge. */
  predicate Covers(seg: Line, edge: Line, t: nat)
  {
    match (seg, edge)
    case (Vertical(sx, sy1, sy2), Vertical(ex, ey1, ey2)) =>
      Abs(ex - sx) <= t && sy1 <= ey1 + t && ey2 - t <= sy2
    case (Horizontal(sx1, sx2, sy), Horizontal(ex1, ex2, ey)) =>
      sx1 <= ex1 + t && ex2 - t <= sx2 && Abs(ey - sy) <= t
    case _ => false
  }

  /** Some segment of `segs` covers `edge` (a non-empty `existing_lines` in `validate_recs`). */
  function HasMatch(segs: seq<Line>, edge: Line, t: nat): (b: bool)
    ensures b <==> exists k :: 0 <= k < |segs| && Covers(segs[k], edge, t)
    decreases |segs|
  {
    if |segs| == 0 then false
    else Covers(segs[0], edge, t) || HasMatch(segs[1..], edge, t)
  }

  /** The four edges implied by a candidate: left, right, top, bottom. */
  function LeftEdge(r: Rect): Line { Vertical(r.x1, r.y1, r.y2) }
  function RightEdge(r: Rect): Line { Vertical(r.x2, r.y1, r.y2) }
  function TopEdge(r: Rect): Line { Horizontal(r.x1, r.x2, r.y1) }
  function BottomEdge(r: Rect): Line { Horizontal(r.x1, r.x2, r.y2) }

  /** A candidate is accepted when all four edges are covered, the vertical ones by
      `vs` and the horizontal ones by `hs`. */
  predicate Accepts(r: Rect, vs: seq<Line>, hs: seq<Line>, t: nat)
  {
    && HasMatch(vs, LeftEdge(r), t)
    && HasMatch(vs, RightEdge(r), t)
    && HasMatch(hs, TopEdge(r), t)
    && HasMatch(hs, BottomEdge(r), t)
  }

  /** Which candidates are accepted. */
  function AcceptMask(cands: seq<Rect>, vs: seq<Line>, hs: seq<Line>, t: nat): (m: seq<bool>)
    ensures |m| == |cands|
    ensures forall k :: 0 <= k < |cands| ==> (m[k] <==> Accepts(cands[k], vs, hs, t))
  {
    seq(|cands|, k requires 0 <= k < |cands| => Accepts(cands[k], vs, hs, t))
  }

  /** `validate_recs`: the accepted candidates, in candidate order. */
  function ValidateRecs(cands: seq<Rect>, vs: seq<Line>, hs: seq<Line>, t: nat): (r: seq<Rect>)
    ensures SubseqAt(r, cands, Positions(AcceptMask(cands, vs, hs, t)))
    ensures forall x :: x in r <==> x in cands && Accepts(x, vs, hs, t)
  {
    var m := AcceptMask(cands, vs, hs, t);
    KeepAtPositions(cands, m);
    forall x
      ensures x in Keep(cands, m) <==> x in cands && Accepts(x, vs, hs, t)
    {
      KeepMembers(cands, m, x);
    }
    Keep(cands, m)
  }

  /** With no vertical segments, or no horizontal ones, nothing is accepted. */
  lemma NoSegmentsNoRecs(cands: seq<Rect>, vs: seq<Line>, hs: seq<Line>, t: nat)
    requires vs == [] || hs == []
    ensures ValidateRecs(cands, vs, hs, t) == []
  {
    KeepNone(cands, AcceptMask(cands, vs, hs, t));
  }

  /** The tolerance boundary for one end of a vertical edge: a segment whose start falls
      short of the edge's start by d covers the edge exactly when d <= t. */
  lemma ShortfallWithinTolerance(x: int, y1: int, y2: int, d: int, t: nat)
    ensures Covers(Vertical(x, y1 + d, y2), Vertical(x, y1, y2), t) <==> d <= t
  {
  }

  /** The same boundary at the far end of a horizontal edge: a segment stopping d short of
      the edge's end covers it exactly when d <= t. */
  lemma OvershootWithinTolerance(x1: int, x2: int, y: int, d: int, t: nat)
    ensures Covers(Horizontal(x1, x2 - d, y), Horizontal(x1, x2, y), t) <==> d <= t
  {
  }

  /** A segment never covers an edge of the other orientation. */
  lemma CoversKeepsOrientation(seg: Line, edge: Line, t: nat)
    requires Covers(seg, edge, t)
    ensures seg.Vertical? <==> edge.Vertical?
  {
  }

  /** The validator does not reject a zero-area candidate: a candidate with x1 == x2 is
      accepted when segments cover its four edges. */
  lemma AcceptsZeroWidth()
    ensures Accepts(Rect(5, 0, 5, 9), [Vertical(5, 0, 9)], [Horizontal(5, 5, 0), Horizontal(5, 5, 9)], 0)
  {
    var hs := [Horizontal(5, 5, 0), Horizontal(5, 5, 9)];
    assert Covers(hs[1], BottomEdge(Rect(5, 0, 5, 9)), 0);
  }
}
