/** The axis scanner (`px_cols` / `px_rows`): for each column (row) it collects the
    coordinates of the black pixels along it, prefixed by the column (row) number. */
module Scanner {
  import opened Seqs
  import opened Raster

  /** A group as the scanner builds it: never empty, since it starts with the line number. */
  type Scanned = g: seq<int> | |g| > 0 witness [0]

  /** The black positions among 0 .. n-1 along column (row) `fixed`, in scan order. */
  function InkCoords(pix: Pixels, axis: Axis, fixed: int, n: nat): (r: seq<int>)
    ensures StrictlyIncreasing(r)
    ensures forall m :: m in r <==> 0 <= m < n && InkOn(pix, axis, fixed, m)
    decreases n
  {
    if n == 0 then []
    else
      var init := InkCoords(pix, axis, fixed, n - 1);
      assert forall i :: 0 <= i < |init| ==> init[i] in init;
      init + (if InkOn(pix, axis, fixed, n - 1) then [n - 1] else [])
  }

  /** A group as `px_cols` / `px_rows` build it: the scanned line's own number followed by
      its black positions. */
  function Group(pix: Pixels, axis: Axis, fixed: int, n: nat): Scanned
  {
    [fixed] + InkCoords(pix, axis, fixed, n)
  }

  /** The groups of lines 0 .. count-1, each `n` pixels long, in scan order. */
  function Scan(pix: Pixels, axis: Axis, count: nat, n: nat): (gs: seq<Scanned>)
    ensures |gs| == count
    ensures forall i :: 0 <= i < count ==> gs[i] == Group(pix, axis, i, n)
  {
    seq(count, i requires 0 <= i < count => Group(pix, axis, i, n))
  }

  /** Which groups are longer than `lineWeight`. */
  function LongMask(gs: seq<Scanned>, lineWeight: nat): (m: seq<bool>)
    ensures |m| == |gs|
    ensures forall k :: 0 <= k < |gs| ==> (m[k] <==> |gs[k]| > lineWeight)
  {
    seq(|gs|, k requires 0 <= k < |gs| => |gs[k]| > lineWeight)
  }

  /** The groups of lines 0 .. count-1 whose list length exceeds `lineWeight`, in scan
      order (the closing list comprehension of `px_cols` / `px_rows`). */
  function Groups(pix: Pixels, axis: Axis, count: nat, n: nat, lineWeight: nat): (r: seq<Scanned>)
    ensures forall k :: 0 <= k < |r| ==>
      && |r[k]| > lineWeight
      && 0 <= r[k][0] < count
      && r[k] == Group(pix, axis, r[k][0], n)
    ensures forall i, j :: 0 <= i < j < |r| ==> r[i][0] < r[j][0]
  {
    var gs := Scan(pix, axis, count, n);
    var m := LongMask(gs, lineWeight);
    var p := Positions(m);
    KeepAtPositions(gs, m);
    assert forall k :: 0 <= k < |p| ==> Keep(gs, m)[k] == Group(pix, axis, p[k], n) && Keep(gs, m)[k][0] == p[k];
    Keep(gs, m)
  }

  /** Every line whose group is long enough has its group in the result, and no other. */
  lemma GroupsComplete(pix: Pixels, axis: Axis, count: nat, n: nat, lineWeight: nat)
    ensures forall i :: 0 <= i < count ==>
      (Group(pix, axis, i, n) in Groups(pix, axis, count, n, lineWeight) <==> |Group(pix, axis, i, n)| > lineWeight)
  {
    var gs := Scan(pix, axis, count, n);
    var m := LongMask(gs, lineWeight);
    forall i | 0 <= i < count
      ensures Group(pix, axis, i, n) in Groups(pix, axis, count, n, lineWeight) <==> |Group(pix, axis, i, n)| > lineWeight
    {
      var g := Group(pix, axis, i, n);
      KeepMembers(gs, m, g);
      if g in Keep(gs, m) {
        var k :| 0 <= k < |gs| && m[k] && gs[k] == g;
      }
      assert gs[i] == g;
    }
  }

  /** `px_cols`: one group per column of a `w` x `h` raster, kept when the column has at
      least `lineWeight` black pixels (the column number counts towards the length). */
  function PxCols(pix: Pixels, w: nat, h: nat, lineWeight: nat): (r: seq<Scanned>)
    ensures forall x :: 0 <= x < w ==>
      (Group(pix, Columns, x, h) in r <==> |InkCoords(pix, Columns, x, h)| >= lineWeight)
    ensures forall k :: 0 <= k < |r| ==> 0 <= r[k][0] < w && r[k] == Group(pix, Columns, r[k][0], h)
    ensures forall i, j :: 0 <= i < j < |r| ==> r[i][0] < r[j][0]
  {
    GroupsComplete(pix, Columns, w, h, lineWeight);
    Groups(pix, Columns, w, h, lineWeight)
  }

  /** `px_rows`: one group per row of a `w` x `h` raster, kept when the row has at
      least `lineWeight` black pixels (the row number counts towards the length). */
  function PxRows(pix: Pixels, w: nat, h: nat, lineWeight: nat): (r: seq<Scanned>)
    ensures forall y :: 0 <= y < h ==>
      (Group(pix, Rows, y, w) in r <==> |InkCoords(pix, Rows, y, w)| >= lineWeight)
    ensures forall k :: 0 <= k < |r| ==> 0 <= r[k][0] < h && r[k] == Group(pix, Rows, r[k][0], w)
    ensures forall i, j :: 0 <= i < j < |r| ==> r[i][0] < r[j][0]
  {
    GroupsComplete(pix, Rows, h, w, lineWeight);
    Groups(pix, Rows, h, w, lineWeight)
  }

  /** On a blank raster every group is just the line number. */
  lemma BlankGroups(pix: Pixels, axis: Axis, fixed: int, n: nat)
    requires Blank(pix)
    ensures InkCoords(pix, axis, fixed, n) == []
  {
    var r := InkCoords(pix, axis, fixed, n);
    assert forall m :: m !in r;
  }
}
