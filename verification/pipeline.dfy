/** The detection pipeline as composed by the `__main__` block of `tablelines.py`:
    scan, assemble, thin, generate, validate, sort, and resolve overlaps. */
module Pipeline {
  import opened Seqs
  import opened Raster
  import opened Scanner
  import opened Lines
  import opened Thinning
  import opened Candidates
  import opened Validation
  import opened Resolve

  /** Line 273: the thinned vertical segments of a `w` x `h` raster. */
  function VerticalLines(pix: Pixels, w: nat, h: nat, lineWeight: nat): seq<Line>
  {
    FilterLines(VLines(PxCols(pix, w, h, lineWeight), lineWeight))
  }

  /** Line 275: the thinned horizontal segments of a `w` x `h` raster. */
  function HorizontalLines(pix: Pixels, w: nat, h: nat, lineWeight: nat): seq<Line>
  {
    FilterLines(HLines(PxRows(pix, w, h, lineWeight), lineWeight))
  }

  /** Lines 284-287: candidates from the limits of the thinned segments. */
  function CandidateRecs(pix: Pixels, w: nat, h: nat, lineWeight: nat): seq<Rect>
  {
    PotentialRecs(Limits(VerticalLines(pix, w, h, lineWeight)), Limits(HorizontalLines(pix, w, h, lineWeight)))
  }

  /** The candidates whose edges the thinned segments cover. */
  function ValidRecs(pix: Pixels, w: nat, h: nat, lineWeight: nat, t: nat): seq<Rect>
  {
    ValidateRecs(CandidateRecs(pix, w, h, lineWeight),
      VerticalLines(pix, w, h, lineWeight), HorizontalLines(pix, w, h, lineWeight), t)
  }

  /** Lines 290-295: the validated rectangles, sorted by height and then by width, with every
      rectangle that encloses other structure removed. */
  function DetectCells(pix: Pixels, w: nat, h: nat, lineWeight: nat, t: nat): seq<Rect>
  {
    SeparateRecs(pix, TwoPassSort(ValidRecs(pix, w, h, lineWeight, t)), t)
  }

  /** The thinned segments are drawn at strictly increasing coordinates: columns and rows are
      scanned in order and thinning keeps a subsequence. */
  lemma LinesIncreasing(pix: Pixels, w: nat, h: nat, lineWeight: nat)
    ensures StrictlyIncreasing(Limits(VerticalLines(pix, w, h, lineWeight)))
    ensures StrictlyIncreasing(Limits(HorizontalLines(pix, w, h, lineWeight)))
  {
    var cols, rows := PxCols(pix, w, h, lineWeight), PxRows(pix, w, h, lineWeight);
    AssembleIncreasing(Columns, cols, lineWeight);
    AssembleIncreasing(Rows, rows, lineWeight);
    FilterLinesIncreasing(VLines(cols, lineWeight));
    FilterLinesIncreasing(HLines(rows, lineWeight));
  }

  /** A group whose line number no other group shares yields a segment at that line number
      exactly when it is one of the groups and passes the assembler's length test. */
  lemma GroupYieldsLine(axis: Axis, groups: seq<seq<int>>, g: seq<int>, lineWeight: nat)
    requires |g| > 0
    requires forall k :: 0 <= k < |groups| && |groups[k]| > 0 && groups[k][0] == g[0] ==> groups[k] == g
    ensures DrawnAt(AssembleLines(axis, groups, lineWeight), g[0]) <==> g in groups && Qualifies(axis, g, lineWeight)
  {
    AssembleMembers(axis, groups, lineWeight);
    if DrawnAt(AssembleLines(axis, groups, lineWeight), g[0]) {
      var l :| l in AssembleLines(axis, groups, lineWeight) && Fixed(l) == g[0];
      var g' :| g' in groups && Qualifies(axis, g', lineWeight) && |g'| >= 2 && l == Segment(axis, g');
      var k :| 0 <= k < |groups| && groups[k] == g';
    }
    if g in groups && Qualifies(axis, g, lineWeight) {
      assert Fixed(Segment(axis, g)) == g[0];
    }
  }

  /** Column x produces a vertical segment before thinning exactly when it has more than
      `lineWeight` black pixels: the scanner keeps columns with at least `lineWeight`, and
      the assembler then demands one more. */
  lemma ColumnYieldsLine(pix: Pixels, w: nat, h: nat, lineWeight: nat, x: nat)
    requires x < w
    ensures DrawnAt(VLines(PxCols(pix, w, h, lineWeight), lineWeight), x) <==> |InkCoords(pix, Columns, x, h)| > lineWeight
  {
    var groups := PxCols(pix, w, h, lineWeight);
    var g := Group(pix, Columns, x, h);
    assert Tail(g) == InkCoords(pix, Columns, x, h);
    GroupYieldsLine(Columns, groups, g, lineWeight);
  }

  /** Row y produces a horizontal segment before thinning exactly when it has more than
      `lineWeight` black pixels; the assembler's test on distinct coordinates agrees with a
      plain count because a row's coordinates are scanned in increasing order. */
  lemma RowYieldsLine(pix: Pixels, w: nat, h: nat, lineWeight: nat, y: nat)
    requires y < h
    ensures DrawnAt(HLines(PxRows(pix, w, h, lineWeight), lineWeight), y) <==> |InkCoords(pix, Rows, y, w)| > lineWeight
  {
    var groups := PxRows(pix, w, h, lineWeight);
    var g := Group(pix, Rows, y, w);
    assert Tail(g) == InkCoords(pix, Rows, y, w);
    RowTestIsLengthTest(g, lineWeight);
    GroupYieldsLine(Rows, groups, g, lineWeight);
  }

  /** Before thinning, a segment sits at the nonzero column x - 1 exactly when x - 1 is a
      column from 1 on with more than `lineWeight` black pixels. */
  lemma ColumnBefore(pix: Pixels, w: nat, h: nat, lineWeight: nat, x: nat)
    requires x < w
    ensures (x - 1 != 0 && DrawnAt(VLines(PxCols(pix, w, h, lineWeight), lineWeight), x - 1))
      <==> x >= 2 && |InkCoords(pix, Columns, x - 1, h)| > lineWeight
  {
    if x >= 1 {
      ColumnYieldsLine(pix, w, h, lineWeight, x - 1);
    } else {
      AssembledWithin(Columns, PxCols(pix, w, h, lineWeight), lineWeight, w);
    }
  }

  /** Before thinning, a segment sits at the nonzero row y - 1 exactly when y - 1 is a row
      from 1 on with more than `lineWeight` black pixels. */
  lemma RowBefore(pix: Pixels, w: nat, h: nat, lineWeight: nat, y: nat)
    requires y < h
    ensures (y - 1 != 0 && DrawnAt(HLines(PxRows(pix, w, h, lineWeight), lineWeight), y - 1))
      <==> y >= 2 && |InkCoords(pix, Rows, y - 1, w)| > lineWeight
  {
    if y >= 1 {
      RowYieldsLine(pix, w, h, lineWeight, y - 1);
    } else {
      AssembledWithin(Rows, PxRows(pix, w, h, lineWeight), lineWeight, h);
    }
  }

  /** After thinning, column x carries a vertical segment exactly when it has more than
      `lineWeight` black pixels and column x - 1 does not, column 0 excepted: a segment
      drawn one column after another is thinned away unless that other is column 0. */
  lemma VerticalLineAt(pix: Pixels, w: nat, h: nat, lineWeight: nat, x: nat)
    requires x < w
    ensures DrawnAt(VerticalLines(pix, w, h, lineWeight), x) <==>
      && |InkCoords(pix, Columns, x, h)| > lineWeight
      && !(x >= 2 && |InkCoords(pix, Columns, x - 1, h)| > lineWeight)
  {
    var cols := PxCols(pix, w, h, lineWeight);
    AssembleIncreasing(Columns, cols, lineWeight);
    ColumnYieldsLine(pix, w, h, lineWeight, x);
    ColumnBefore(pix, w, h, lineWeight, x);
    ThinnedAt(VLines(cols, lineWeight), x);
  }

  /** After thinning, row y carries a horizontal segment exactly when it has more than
      `lineWeight` black pixels and row y - 1 does not, row 0 excepted. */
  lemma HorizontalLineAt(pix: Pixels, w: nat, h: nat, lineWeight: nat, y: nat)
    requires y < h
    ensures DrawnAt(HorizontalLines(pix, w, h, lineWeight), y) <==>
      && |InkCoords(pix, Rows, y, w)| > lineWeight
      && !(y >= 2 && |InkCoords(pix, Rows, y - 1, w)| > lineWeight)
  {
    var rows := PxRows(pix, w, h, lineWeight);
    AssembleIncreasing(Rows, rows, lineWeight);
    RowYieldsLine(pix, w, h, lineWeight, y);
    RowBefore(pix, w, h, lineWeight, y);
    ThinnedAt(HLines(rows, lineWeight), y);
  }

  /** Without a qualifying group the assembler produces nothing. */
  lemma NoQualifyingNoLines(axis: Axis, groups: seq<seq<int>>, lineWeight: nat)
    requires forall k :: 0 <= k < |groups| ==> !Qualifies(axis, groups[k], lineWeight)
    ensures AssembleLines(axis, groups, lineWeight) == []
  {
    var segs := AssembleLines(axis, groups, lineWeight);
    AssembleMembers(axis, groups, lineWeight);
    assert forall g :: g in groups ==> !Qualifies(axis, g, lineWeight);
    assert forall l :: l !in segs;
  }

  /** On a blank raster, or one with no rows, no column group passes the vertical length
      test. */
  lemma BlankColumnsDoNotQualify(pix: Pixels, w: nat, h: nat, lineWeight: nat)
    requires Blank(pix) || h == 0
    ensures forall k :: 0 <= k < |PxCols(pix, w, h, lineWeight)| ==>
      !Qualifies(Columns, PxCols(pix, w, h, lineWeight)[k], lineWeight)
  {
    var groups := PxCols(pix, w, h, lineWeight);
    forall k | 0 <= k < |groups|
      ensures !Qualifies(Columns, groups[k], lineWeight)
    {
      if Blank(pix) {
        BlankGroups(pix, Columns, groups[k][0], h);
      }
      assert Tail(groups[k]) == InkCoords(pix, Columns, groups[k][0], h) == [];
    }
  }

  /** On a blank raster, or one with no columns, no row group passes the horizontal
      length test. */
  lemma BlankRowsDoNotQualify(pix: Pixels, w: nat, h: nat, lineWeight: nat)
    requires Blank(pix) || w == 0
    ensures forall k :: 0 <= k < |PxRows(pix, w, h, lineWeight)| ==>
      !Qualifies(Rows, PxRows(pix, w, h, lineWeight)[k], lineWeight)
  {
    var groups := PxRows(pix, w, h, lineWeight);
    forall k | 0 <= k < |groups|
      ensures !Qualifies(Rows, groups[k], lineWeight)
    {
      if Blank(pix) {
        BlankGroups(pix, Rows, groups[k][0], w);
      }
      assert Tail(groups[k]) == InkCoords(pix, Rows, groups[k][0], w) == [];
      assert Elems<int>([]) == {};
    }
  }

  /** Without vertical segments no candidate is accepted, so there are no cells. */
  lemma NoVerticalLinesNoCells(pix: Pixels, w: nat, h: nat, lineWeight: nat, t: nat)
    requires VerticalLines(pix, w, h, lineWeight) == []
    ensures DetectCells(pix, w, h, lineWeight, t) == []
  {
    NoSegmentsNoRecs(CandidateRecs(pix, w, h, lineWeight), [], HorizontalLines(pix, w, h, lineWeight), t);
    var sorted := TwoPassSort(ValidRecs(pix, w, h, lineWeight, t));
    TwoPassOrder(ValidRecs(pix, w, h, lineWeight, t));
    assert |sorted| == 0 by {
      assert |multiset(sorted)| == 0;
    }
  }

  /** A blank page yields no segments and hence no cells. */
  lemma BlankPageHasNoCells(pix: Pixels, w: nat, h: nat, lineWeight: nat, t: nat)
    requires Blank(pix)
    ensures VerticalLines(pix, w, h, lineWeight) == []
    ensures HorizontalLines(pix, w, h, lineWeight) == []
    ensures DetectCells(pix, w, h, lineWeight, t) == []
  {
    BlankColumnsDoNotQualify(pix, w, h, lineWeight);
    NoQualifyingNoLines(Columns, PxCols(pix, w, h, lineWeight), lineWeight);
    BlankRowsDoNotQualify(pix, w, h, lineWeight);
    NoQualifyingNoLines(Rows, PxRows(pix, w, h, lineWeight), lineWeight);
    NoVerticalLinesNoCells(pix, w, h, lineWeight, t);
  }

  /** A page with no columns or no rows is not rejected: it yields no cells. */
  lemma EmptyRasterHasNoCells(pix: Pixels, w: nat, h: nat, lineWeight: nat, t: nat)
    requires w == 0 || h == 0
    ensures DetectCells(pix, w, h, lineWeight, t) == []
  {
    var groups := PxCols(pix, w, h, lineWeight);
    if w == 0 {
      assert |groups| == 0;
    } else {
      BlankColumnsDoNotQualify(pix, w, h, lineWeight);
    }
    NoQualifyingNoLines(Columns, groups, lineWeight);
    NoVerticalLinesNoCells(pix, w, h, lineWeight, t);
  }

  /** Thinning has done all its work in the pipeline: the thinned segments are left
      unchanged by another pass. */
  lemma ThinningSettled(pix: Pixels, w: nat, h: nat, lineWeight: nat)
    ensures FilterLines(VerticalLines(pix, w, h, lineWeight)) == VerticalLines(pix, w, h, lineWeight)
    ensures FilterLines(HorizontalLines(pix, w, h, lineWeight)) == HorizontalLines(pix, w, h, lineWeight)
  {
    var cols, rows := PxCols(pix, w, h, lineWeight), PxRows(pix, w, h, lineWeight);
    AssembleIncreasing(Columns, cols, lineWeight);
    AssembleIncreasing(Rows, rows, lineWeight);
    FilterLinesIdempotent(VLines(cols, lineWeight));
    FilterLinesIdempotent(HLines(rows, lineWeight));
  }

  /** A rectangle is a detected cell exactly when it is a candidate whose four edges are
      covered by the thinned segments and whose inset interior holds no black pixel. Every
      cell is properly oriented: x1 < x2 and y1 < y2. */
  lemma CellsAreResolved(pix: Pixels, w: nat, h: nat, lineWeight: nat, t: nat, c: Rect)
    ensures c in DetectCells(pix, w, h, lineWeight, t) <==>
      && c in CandidateRecs(pix, w, h, lineWeight)
      && Accepts(c, VerticalLines(pix, w, h, lineWeight), HorizontalLines(pix, w, h, lineWeight), t)
      && !Encloses(pix, c, t)
    ensures c in DetectCells(pix, w, h, lineWeight, t) ==> c.x1 < c.x2 && c.y1 < c.y2
  {
    var valid := ValidRecs(pix, w, h, lineWeight, t);
    TwoPassOrder(valid);
    assert c in TwoPassSort(valid) <==> c in valid by {
      assert c in TwoPassSort(valid) <==> c in multiset(TwoPassSort(valid));
    }
    LinesIncreasing(pix, w, h, lineWeight);
    PotentialRecsProper(Limits(VerticalLines(pix, w, h, lineWeight)), Limits(HorizontalLines(pix, w, h, lineWeight)));
  }

  /** The cells come ordered by width, equal widths by height. */
  lemma CellsOrdered(pix: Pixels, w: nat, h: nat, lineWeight: nat, t: nat)
    ensures var cells := DetectCells(pix, w, h, lineWeight, t);
      forall i, j :: 0 <= i < j < |cells| ==>
        Width(cells[i]) < Width(cells[j]) || (Width(cells[i]) == Width(cells[j]) && Height(cells[i]) <= Height(cells[j]))
  {
    var sorted := TwoPassSort(ValidRecs(pix, w, h, lineWeight, t));
    TwoPassOrder(ValidRecs(pix, w, h, lineWeight, t));
    SeparateKeepsOrder(pix, sorted, t);
  }

  /** Cells of the same width and height come in the order validation accepted them,
      which is the order `potential_recs` generated them in. */
  lemma CellsKeepCandidateOrder(pix: Pixels, w: nat, h: nat, lineWeight: nat, t: nat, a: int, b: int)
    ensures Sized(DetectCells(pix, w, h, lineWeight, t), a, b)
      == Sized(SeparateRecs(pix, ValidRecs(pix, w, h, lineWeight, t), t), a, b)
  {
    var valid := ValidRecs(pix, w, h, lineWeight, t);
    SeparateSized(pix, TwoPassSort(valid), t, a, b);
    TwoPassStable(valid, a, b);
    SeparateSized(pix, valid, t, a, b);
  }

  /** Groups whose line numbers lie in [0, bound) give segments drawn in [0, bound). */
  lemma AssembledWithin(axis: Axis, groups: seq<seq<int>>, lineWeight: nat, bound: int)
    requires forall k :: 0 <= k < |groups| ==> |groups[k]| > 0 && 0 <= groups[k][0] < bound
    ensures forall l :: l in AssembleLines(axis, groups, lineWeight) ==> 0 <= Fixed(l) < bound
  {
    AssembleMembers(axis, groups, lineWeight);
    forall l | l in AssembleLines(axis, groups, lineWeight)
      ensures 0 <= Fixed(l) < bound
    {
      var g :| g in groups && Qualifies(axis, g, lineWeight) && |g| >= 2 && l == Segment(axis, g);
      var k :| 0 <= k < |groups| && groups[k] == g;
    }
  }

  /** Thinning keeps segments drawn in [0, bound) within it. */
  lemma ThinnedWithin(ls: seq<Line>, bound: int)
    requires forall l :: l in ls ==> 0 <= Fixed(l) < bound
    ensures forall i :: 0 <= i < |Limits(FilterLines(ls))| ==> 0 <= Limits(FilterLines(ls))[i] < bound
  {
    var r, p := FilterLines(ls), Positions(ThinMask(ls));
    FilterLinesSubsequence(ls);
    forall i | 0 <= i < |r|
      ensures 0 <= Fixed(r[i]) < bound
    {
      assert r[i] == ls[p[i]] && ls[p[i]] in ls;
    }
  }

  /** Every candidate lies on the page: its vertical limits are column numbers below `w`
      and its horizontal limits are row numbers below `h`. */
  lemma CandidatesInsideRaster(pix: Pixels, w: nat, h: nat, lineWeight: nat)
    ensures forall c :: c in CandidateRecs(pix, w, h, lineWeight) ==>
      0 <= c.x1 < w && 0 <= c.x2 < w && 0 <= c.y1 < h && 0 <= c.y2 < h
  {
    var cols, rows := PxCols(pix, w, h, lineWeight), PxRows(pix, w, h, lineWeight);
    AssembledWithin(Columns, cols, lineWeight, w);
    AssembledWithin(Rows, rows, lineWeight, h);
    ThinnedWithin(VLines(cols, lineWeight), w);
    ThinnedWithin(HLines(rows, lineWeight), h);
    PotentialRecsWithin(Limits(VerticalLines(pix, w, h, lineWeight)), Limits(HorizontalLines(pix, w, h, lineWeight)), w, h);
  }

  /** On a raster of `w` columns of `h` pixels, every pixel the pipeline reads is on the
      page: the scans read columns below `w` and rows below `h`, and the interior scan of
      `separate_recs`, inset by t >= 0, reads only inside candidates, whose corners are on
      the page. */
  lemma ReadsOnPage(pix: Pixels, w: nat, h: nat, lineWeight: nat, t: nat)
    requires HasShape(pix, w, h)
    ensures forall x, y :: 0 <= x < w && 0 <= y < h ==> OnPage(pix, x, y)
    ensures forall c, x, y :: c in CandidateRecs(pix, w, h, lineWeight) && Inside(c, t, x, y) ==> OnPage(pix, x, y)
  {
    forall x, y | 0 <= x < w && 0 <= y < h
      ensures OnPage(pix, x, y)
    {
      assert |pix[x]| == h;
    }
    CandidatesInsideRaster(pix, w, h, lineWeight);
    forall c, x, y | c in CandidateRecs(pix, w, h, lineWeight) && Inside(c, t, x, y)
      ensures OnPage(pix, x, y)
    {
      assert 0 <= x < w && 0 <= y < h;
      assert |pix[x]| == h;
    }
  }

  /** The rectangles handed to `separate_recs` are all different. */
  lemma SortedDistinct(pix: Pixels, w: nat, h: nat, lineWeight: nat, t: nat)
    ensures Distinct(TwoPassSort(ValidRecs(pix, w, h, lineWeight, t)))
  {
    var vs, hs := VerticalLines(pix, w, h, lineWeight), HorizontalLines(pix, w, h, lineWeight);
    var cands := CandidateRecs(pix, w, h, lineWeight);
    var valid := ValidRecs(pix, w, h, lineWeight, t);
    LinesIncreasing(pix, w, h, lineWeight);
    PotentialRecsDistinct(Limits(vs), Limits(hs));
    DistinctSubseq(valid, cands, Positions(AcceptMask(cands, vs, hs, t)));
    TwoPassOrder(valid);
    DistinctPermutation(valid, TwoPassSort(valid));
  }

  /** The removal loop of `separate_recs`, which deletes each enclosing rectangle from the sorted
      list with `list.remove`, never fails and leaves exactly the detected cells: the
      sorted list holds no repeats, so each removal deletes the one occurrence. */
  lemma CellsByRemoval(pix: Pixels, w: nat, h: nat, lineWeight: nat, t: nat, enclosing: seq<Rect>)
    requires Distinct(enclosing)
    requires forall x :: x in enclosing <==>
      x in TwoPassSort(ValidRecs(pix, w, h, lineWeight, t)) && Encloses(pix, x, t)
    ensures RemoveEach(TwoPassSort(ValidRecs(pix, w, h, lineWeight, t)), enclosing)
      == Some(DetectCells(pix, w, h, lineWeight, t))
  {
    SortedDistinct(pix, w, h, lineWeight, t);
    RemovalIsFilter(pix, TwoPassSort(ValidRecs(pix, w, h, lineWeight, t)), t, enclosing);
  }
}
