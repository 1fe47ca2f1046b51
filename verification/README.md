# tablelines — a Dafny model of the rectangle-detection pipeline

`tablelines.py` finds the cells of ruled tables on a bilevel page raster, where intensity `0` is ink. It works as a chain of stages over integer coordinates:

1. **Axis scanner.** `px_cols` and `px_rows` group the ink coordinates of every column and row.
2. **Segment assembler.** `v_lines` and `h_lines` turn each long-enough group into one segment, keeping only the trailing run after gaps wider than 5 pixels.
3. **Duplicate filter.** `filter_lines` thins strokes that lie one pixel apart.
4. **Candidate generator.** `potential_recs` pairs every two vertical limits with every two horizontal limits.
5. **Candidate validator.** `validate_recs` keeps candidates whose four edges are covered, within tolerance `t`, by detected segments.
6. **Overlap resolver.** The code sorts by `height` and then by `width`. `separate_recs` then removes each rectangle whose interior, inset by `t`, still contains ink.

The model has one module per stage:
- `Seqs`: masks, positions, subsequences and distinctness.
- `Raster`: the page `pix[x][y]`, given its width `w` and height `h`.
- `Scanner`, `Lines`, `Thinning`, `Candidates`, `Validation` and `Resolve`: one module for each stage above.
- `Pipeline`: the `__main__` composition, `DetectCells`.

Segments are a tagged datatype, `Vertical(x, y1, y2) | Horizontal(x1, x2, y)`. It replaces the untagged tuples, the `isinstance` dispatch and the flattened `v_flatlines`/`h_flatlines`. The globals `line_weight` and `t` become parameters.

The model keeps the code's quirks:
- **Zero is falsy.** The code tests the previous coordinate with `last_y and …` (and likewise `last_x`, `last_num`). A previous coordinate of `0` counts as absent, so it never starts a new run and never causes a drop.
- **Last seen, not last kept.** `filter_lines` compares each segment with the one seen just before it, not with the last one it kept.
- **The scanner counts the line number.** `px_cols`/`px_rows` keep a group when its list, line number included, is longer than `line_weight`. The assembler then counts only the coordinates, so a line needs more than `line_weight` ink pixels to become a segment.
- **`h_lines` counts distinct values.** It tests the size of the *set* of coordinates, where `v_lines` tests the length. The two tests agree because a scanned line's coordinates are strictly increasing.

Where the written design and the code differ, the model follows the code:
- **Duplicate filter.** The design says each segment is compared with the last *accepted* one. The code compares with the last *seen* one: `ComparesWithLastSeen` shows strokes at 1, 2, 3 collapsing to one.
- **Idempotence.** The design promises it unconditionally. It holds on strictly increasing coordinates (`FilterLinesIdempotent`), which is what the pipeline produces (`ThinningSettled`). Without that it fails (`IdempotenceNeedsIncreasing`).
- **Degenerate candidates.** The design says inverted or zero-area candidates are rejected. The code's validator does not reject them (`AcceptsZeroWidth`). The generator never produces them in the pipeline (`PotentialRecsProper`, `CellsAreResolved`).
- **Empty raster.** The design says a raster of width or height 0 fails fast. The code does not check for it: it yields no cells (`EmptyRasterHasNoCells`).

`separate_recs` deletes the enclosing rectangles with `list.remove`. The model's `SeparateRecs` is the equivalent filter. `CellsByRemoval` proves that the removal loop, as written, yields the same list. It does so because the sorted list never holds a rectangle twice (`SortedDistinct`).

## Model

| member | source | states |
|---|---|---|
| Scanner.InkCoords | tablelines.py:56-63 | the coordinates collected for one column (row) are exactly its ink positions inside the raster, in strictly increasing order |
| Scanner.Group | tablelines.py:56-63 | no contract of its own: the line number followed by `Scanner.InkCoords` |
| Scanner.Groups | tablelines.py:54-65 | every kept group is longer than `line_weight`, is the group of its own line number, and the groups come in increasing line order |
| Scanner.GroupsComplete | tablelines.py:65 | a line's group is kept if and only if its list, line number included, is longer than `line_weight` |
| Scanner.PxCols | tablelines.py:41-65 | column x's group is kept if and only if the column has at least `line_weight` ink pixels; the kept groups are column groups in increasing column order |
| Scanner.PxRows | tablelines.py:68-92 | row y's group is kept if and only if the row has at least `line_weight` ink pixels; the kept groups are row groups in increasing row order |
| Scanner.BlankGroups | tablelines.py:59-61 | on a raster without ink no coordinate is collected |
| Lines.RunFrom | tablelines.py:108-112 | the run start the gap loop ends with is the initial start or one of the coordinates |
| Lines.RunStart | tablelines.py:105-113 | the retained start is one of the group's coordinates and, for increasing coordinates, is no later than the finish |
| Lines.RunStartIsLastBreak | tablelines.py:105-113 | the retained start is the last coordinate lying more than 5 past a nonzero predecessor, or the first coordinate if there is none |
| Lines.TwoRuns | tablelines.py:131-141 | two runs separated by a gap of at most 5 merge; a gap of more than 5 keeps only the later run, unless the earlier run ends at coordinate 0 |
| Lines.Segment | tablelines.py:105-115 | a segment has the group's orientation, is drawn at the group's line number, starts at one of its coordinates and finishes at its last coordinate |
| Lines.AssembleLines | tablelines.py:98-117 | at most one segment per group |
| Lines.AssembleMembers | tablelines.py:98-117 | every segment comes from a group passing the length test, and every such group contributes its segment |
| Lines.AssembleOne | tablelines.py:103-115 | a single group yields exactly one segment if it passes the length test and none otherwise |
| Lines.AssembleAppend | tablelines.py:98-117 | the assembler works group by group: the segments of concatenated groups are the concatenated segments |
| Lines.AssembleIncreasing | tablelines.py:98-117 | groups in strictly increasing line order give segments at strictly increasing coordinates |
| Lines.VLines | tablelines.py:95-117 | all segments are vertical, and every group with more than `line_weight` coordinates yields its segment |
| Lines.HLines | tablelines.py:120-146 | all segments are horizontal, and every group with more than `line_weight` distinct coordinates yields its segment |
| Lines.RowTestIsLengthTest | tablelines.py:126-128 | on strictly increasing coordinates the distinct-count test of `h_lines` agrees with the length test of `v_lines` |
| Thinning.FilterLines | tablelines.py:149-163 | the filter never lengthens its input and always keeps the first segment |
| Thinning.FilterFrom | tablelines.py:151-161 | the loop never lengthens its input; what it keeps is stated by `Thinning.FilterFromIsKeep` |
| Thinning.FilterFromIsKeep | tablelines.py:151-161 | after the first segment, the loop keeps exactly the segments that are not one past a nonzero predecessor |
| Thinning.FilterLinesIsKeep | tablelines.py:151-163 | the loop keeps exactly the segments that are not one past a nonzero predecessor in the input |
| Thinning.FilterLinesSubsequence | tablelines.py:151-163 | the output is an order-preserving subsequence of the input, and input position k survives if and only if it is not dropped |
| Thinning.FilterLinesIncreasing | tablelines.py:149-163 | thinning segments at strictly increasing coordinates keeps them strictly increasing |
| Thinning.FilterLinesIdempotent | tablelines.py:149-163 | on strictly increasing coordinates a second pass changes nothing |
| Thinning.IdempotenceNeedsIncreasing | tablelines.py:155-157 | at coordinates 5, 6, 6 the first pass gives 5, 6 and the second gives 5 |
| Thinning.ComparesWithLastSeen | tablelines.py:159-161 | strokes at 1, 2, 3 collapse to the first, because each is compared with the one seen just before |
| Thinning.ThinnedKeepsAll | tablelines.py:151-163 | on strictly increasing coordinates no segment of the filter's output is one past a nonzero predecessor |
| Thinning.ThinnedFrom | tablelines.py:151-163 | on strictly increasing coordinates, a segment at x after the filter was at x before it, with no segment at a nonzero x - 1 |
| Thinning.ThinnedKeeps | tablelines.py:151-163 | a segment at x with no segment at a nonzero x - 1 survives the filter |
| Thinning.ThinnedAt | tablelines.py:149-163 | on strictly increasing coordinates, a segment is at x after the filter if and only if one is at x before it and none is at a nonzero x - 1 |
| Thinning.ZeroPredecessorKeeps | tablelines.py:155 | a stroke at 1 after one at 0 is kept |
| Candidates.PairsFrom | tablelines.py:173-174 | index pairs (a, b) with a < b, in strictly increasing lexicographic order |
| Candidates.Pairs | tablelines.py:173-174 | no contract of its own: `combinations(s, 2)`, stated through `Candidates.PairsFrom`, `Candidates.PairsFromComplete` and `Candidates.PairsDistinct` |
| Candidates.PairsFromComplete | tablelines.py:173-174 | every index pair a < b occurs, and there are C(n, 2) of them |
| Candidates.CrossRecs | tablelines.py:173-176 | no contract of its own: the nested loops, stated by `Candidates.CrossRecsLength`, `CrossRecsAt`, `CrossRecsMembers` and `CrossRecsContains` |
| Candidates.PotentialRecs | tablelines.py:166-177 | no contract of its own: stated by `Candidates.PotentialRecsCount`, `PotentialRecsOrder`, `PotentialRecsSound`, `PotentialRecsComplete` and `PotentialRecsDistinct` |
| Candidates.CrossRecsLength | tablelines.py:173-176 | the nested loops produce one candidate per vertical pair and horizontal pair |
| Candidates.CrossRecsAt | tablelines.py:173-176 | the candidate of vertical pair i and horizontal pair j sits at position i times the number of horizontal pairs plus j |
| Candidates.CrossRecsMembers | tablelines.py:173-176 | every candidate combines one vertical pair with one horizontal pair |
| Candidates.CrossRecsContains | tablelines.py:173-176 | every combination of a vertical pair with a horizontal pair is generated |
| Candidates.PotentialRecsCount | tablelines.py:166-177 | n vertical and m horizontal limits give C(n, 2) times C(m, 2) candidates |
| Candidates.PotentialRecsOrder | tablelines.py:172-177 | candidate i times C(m, 2) plus j is (v[a], h[c], v[b], h[d]) for the i-th vertical and j-th horizontal index pair: vertical pairs outside, horizontal pairs inside |
| Candidates.PotentialRecsSound | tablelines.py:173-176 | every candidate is (v[a], h[c], v[b], h[d]) with a < b and c < d |
| Candidates.PotentialRecsComplete | tablelines.py:173-176 | every (v[a], h[c], v[b], h[d]) with a < b and c < d is a candidate |
| Candidates.PotentialRecsProper | tablelines.py:175 | with strictly increasing limits every candidate has x1 < x2 and y1 < y2 |
| Candidates.PotentialRecsWithin | tablelines.py:175 | when the vertical limits lie in [0, w) and the horizontal limits in [0, h), every candidate has x1 and x2 in [0, w) and y1 and y2 in [0, h) |
| Candidates.PairsDistinct | tablelines.py:173-174 | with strictly increasing limits no two pairs are equal |
| Candidates.CrossRecsDistinct | tablelines.py:173-176 | distinct pairs give distinct candidates |
| Candidates.PotentialRecsDistinct | tablelines.py:166-177 | with strictly increasing limits no candidate is generated twice |
| Validation.Covers | tablelines.py:194-210 | no contract of its own: one segment matching one edge, stated by `Validation.ShortfallWithinTolerance`, `OvershootWithinTolerance` and `CoversKeepsOrientation` |
| Validation.Accepts | tablelines.py:187-214 | no contract of its own: all four edges matched, stated by `Validation.ValidateRecs` and `Validation.AcceptsZeroWidth` |
| Validation.HasMatch | tablelines.py:194-197 | an edge has a match if and only if some segment of the same orientation lies within t of it and spans it up to t at each end |
| Validation.ValidateRecs | tablelines.py:180-216 | the result is an order-preserving subsequence of the candidates holding exactly the candidates whose four edges all have a match |
| Validation.NoSegmentsNoRecs | tablelines.py:194-212 | with no vertical or no horizontal segments nothing is accepted |
| Validation.ShortfallWithinTolerance | tablelines.py:194-195 | a segment starting d after a vertical edge's start covers it if and only if d is at most t |
| Validation.OvershootWithinTolerance | tablelines.py:209-210 | a segment ending d before a horizontal edge's end covers it if and only if d is at most t |
| Validation.CoversKeepsOrientation | tablelines.py:194-210 | vertical edges are matched only by vertical segments and horizontal edges only by horizontal ones |
| Validation.AcceptsZeroWidth | tablelines.py:189-214 | a zero-width candidate whose edges are covered is accepted |
| Resolve.SortBy | tablelines.py:290 | the sort returns a permutation of its input in non-decreasing key order |
| Resolve.WithKeyMembers | tablelines.py:290-291 | the entries selected by key value k are exactly the entries whose key is k |
| Resolve.WithKeysCommute | tablelines.py:290-291 | selecting by two key values gives the same list in either order |
| Resolve.InsertWithKey | tablelines.py:290 | inserting into a key-sorted list keeps every key's entries in the order of the input with the new entry in front |
| Resolve.SortByStable | tablelines.py:290-291 | the sort is stable: for every key value the entries with that key come out in their input order |
| Resolve.SortTies | tablelines.py:290-291 | sorting stably by one key an input sorted by another leaves equal-key entries in the other key's order |
| Resolve.Height | tablelines.py:220-221 | no contract of its own: the `height` key, used in `Resolve.TwoPassOrder` and `Resolve.TwoPassStable` |
| Resolve.Width | tablelines.py:223-224 | no contract of its own: the `width` key, used in `Resolve.TwoPassOrder` and `Resolve.TwoPassStable` |
| Resolve.TwoPassSort | tablelines.py:290-291 | no contract of its own: the two sorts, stated by `Resolve.TwoPassOrder` and `Resolve.TwoPassStable` |
| Resolve.TwoPassOrder | tablelines.py:290-291 | the two sorts give a permutation of the validated rectangles ordered by width, equal widths by height |
| Resolve.TwoPassStable | tablelines.py:290-291 | rectangles of equal width and equal height leave the two sorts in the order they entered them |
| Resolve.ColumnHasInk | tablelines.py:232-235 | the inner scan finds ink if and only if some pixel of the column range is ink |
| Resolve.RegionHasInk | tablelines.py:231-235 | the nested scan finds ink if and only if some pixel of the box is ink |
| Resolve.Encloses | tablelines.py:229-234 | a rectangle encloses structure if and only if its interior inset by t holds ink; one at most 2t wide or high never does |
| Resolve.SeparateRecs | tablelines.py:227-240 | the result is an order-preserving subsequence of the sorted list holding exactly the rectangles that enclose nothing |
| Resolve.SeparateKeepsOrder | tablelines.py:237-240 | the kept rectangles stay ordered by width, then height |
| Resolve.RemoveFirst | tablelines.py:238 | `list.remove` fails exactly when the value is absent; otherwise the result is the list before the first occurrence followed by the list after it, so the first occurrence goes and the rest keeps its order |
| Resolve.FirstRemovedCons | tablelines.py:238 | removing the first occurrence after a different head keeps that head in front |
| Resolve.RemoveFirstDistinct | tablelines.py:238 | in a list without repeats, removing a present value leaves exactly the other entries, in order |
| Resolve.RemoveEach | tablelines.py:237-238 | no contract of its own: the loop of `remove` calls, stated by `Resolve.RemoveEachStep` and `Resolve.RemoveEachDistinct` |
| Resolve.RemoveEachStep | tablelines.py:237-238 | on a list without repeats, one round of the loop drops the first listed value and continues with the rest |
| Resolve.RemoveEachDistinct | tablelines.py:237-238 | removing distinct listed values one at a time from a list without repeats drops exactly those values, in any listing order |
| Resolve.DropWithKey | tablelines.py:237-238 | dropping a set of rectangles and selecting by key value can be done in either order |
| Resolve.SeparateSized | tablelines.py:227-240 | overlap removal keeps, from the rectangles of one width and height, exactly what it keeps from that size class on its own, in the same order |
| Resolve.RemovalIsFilter | tablelines.py:229-240 | on a list without repeats, with the enclosing rectangles listed without repeats, the removal loop as written never fails and yields the same list as the filter `SeparateRecs` (`Pipeline.SortedDistinct` shows the pipeline's list has no repeats) |
| Pipeline.VerticalLines | tablelines.py:273 | no contract of its own: the thinned vertical segments, stated by `Pipeline.VerticalLineAt` and `Pipeline.LinesIncreasing` |
| Pipeline.HorizontalLines | tablelines.py:275 | no contract of its own: the thinned horizontal segments, stated by `Pipeline.HorizontalLineAt` and `Pipeline.LinesIncreasing` |
| Pipeline.CandidateRecs | tablelines.py:284-287 | no contract of its own: the candidates from the segment limits, stated by `Pipeline.CandidatesInsideRaster` and `Pipeline.CellsAreResolved` |
| Pipeline.ValidRecs | tablelines.py:180-216 | no contract of its own: the validated candidates that line 290 sorts, stated by `Validation.ValidateRecs` and `Pipeline.SortedDistinct` |
| Pipeline.DetectCells | tablelines.py:273-295 | no contract of its own: the cells, stated by `Pipeline.CellsAreResolved`, `Pipeline.CellsOrdered` and `Pipeline.CellsKeepCandidateOrder` |
| Pipeline.LinesIncreasing | tablelines.py:273-275 | the thinned vertical and horizontal segments are at strictly increasing coordinates |
| Pipeline.GroupYieldsLine | tablelines.py:98-117 | a group yields a segment at its line number if and only if it is present and passes the length test |
| Pipeline.ColumnYieldsLine | tablelines.py:95-117 | before thinning, `v_lines` over the groups of `px_cols` gives column x a vertical segment if and only if it has more than `line_weight` ink pixels |
| Pipeline.RowYieldsLine | tablelines.py:120-146 | before thinning, `h_lines` over the groups of `px_rows` gives row y a horizontal segment if and only if it has more than `line_weight` ink pixels |
| Pipeline.ColumnBefore | tablelines.py:155 | before thinning, a segment at a nonzero column x - 1 exists if and only if x ≥ 2 and column x - 1 has more than `line_weight` ink pixels |
| Pipeline.RowBefore | tablelines.py:159 | before thinning, a segment at a nonzero row y - 1 exists if and only if y ≥ 2 and row y - 1 has more than `line_weight` ink pixels |
| Pipeline.VerticalLineAt | tablelines.py:273 | after thinning, column x carries a vertical segment if and only if it has more than `line_weight` ink pixels and column x - 1 is not a column from 1 on with more than `line_weight` ink pixels |
| Pipeline.HorizontalLineAt | tablelines.py:275 | after thinning, row y carries a horizontal segment if and only if it has more than `line_weight` ink pixels and row y - 1 is not a row from 1 on with more than `line_weight` ink pixels |
| Pipeline.ThinningSettled | tablelines.py:273-275 | another pass of `filter_lines` leaves the thinned segments unchanged |
| Pipeline.NoVerticalLinesNoCells | tablelines.py:284-291 | without vertical segments the pipeline returns no cells |
| Pipeline.NoQualifyingNoLines | tablelines.py:98-117 | groups none of which passes the length test yield no segments |
| Pipeline.BlankColumnsDoNotQualify | tablelines.py:56-65 | on a page without ink, or with no rows, no column group passes the assembler's length test |
| Pipeline.BlankRowsDoNotQualify | tablelines.py:83-92 | on a page without ink, or with no columns, no row group passes the assembler's length test |
| Pipeline.BlankPageHasNoCells | tablelines.py:273-291 | a page without ink yields no vertical segments, no horizontal segments and no cells |
| Pipeline.EmptyRasterHasNoCells | tablelines.py:273-291 | a page of width or height 0 yields no cells |
| Pipeline.CandidatesInsideRaster | tablelines.py:284-287 | every candidate has x1 and x2 in [0, w) and y1 and y2 in [0, h) |
| Pipeline.ReadsOnPage | tablelines.py:231-233 | on a page of w columns of h pixels, every pixel the scanners of `px_cols` and `px_rows` read and every pixel of a candidate's inset interior read by `separate_recs` lies on the page |
| Pipeline.SortedDistinct | tablelines.py:287-291 | the sorted list handed to `separate_recs` holds no rectangle twice |
| Pipeline.CellsAreResolved | tablelines.py:273-295 | a rectangle is a cell if and only if it is a candidate whose four edges are matched and whose inset interior holds no ink; every cell has x1 < x2 and y1 < y2 |
| Pipeline.CellsOrdered | tablelines.py:290-295 | the cells come ordered by width, equal widths by height |
| Pipeline.CellsKeepCandidateOrder | tablelines.py:287-295 | cells of equal width and height come in the order `potential_recs` generated them |
| Pipeline.CellsByRemoval | tablelines.py:237-240 | the code's removal loop, with any repeat-free listing of the enclosing rectangles, never fails and leaves exactly the cells |

## Left out

- Image and PDF loading (tablelines.py:17, 22, 30-38): this is foreign library I/O. The raster is a parameter `pix[x][y]` with its width and height `w`, `h`. The PDF branch leaves `im` undefined in the code and is not modelled.
- `see_recs` (tablelines.py:243-267): a debug visualisation that shades pixels and saves images. It does not feed the result.
- The final `print` loop and Python 2 specifics such as `long` and `print i` (tablelines.py:153, 295-296): output plumbing.
- The `isinstance` flattening into `v_flatlines`/`h_flatlines` (tablelines.py:278-281): the tagged `Line` datatype carries the same three numbers.
- Pixel reads outside the raster: the model treats them as background, which the code's pixel access does not do. When `pix` has the declared shape (`HasShape`), `ReadsOnPage` shows the pipeline never makes such reads: the scanners stay inside w × h, and interiors are inset by t ≥ 0 inside on-page corners.
- The `break` at tablelines.py:235 leaves only the inner loop, so a rectangle can be recorded several times before `set` removes the repeats. The model records the set of enclosing rectangles directly. `CellsByRemoval` holds for any listing of that set, including the code's lexicographic one.
- Resolve.SortBy: Python's `sorted` is modelled as an insertion sort. Its own contract states a permutation in key order; stability is stated separately in `SortByStable` and `TwoPassStable`. Timsort's algorithm is not modelled.
- Lines.AssembleLines: its own contract only bounds the number of segments. The exact membership is stated in `Lines.AssembleMembers`.
- The worked 100×100 page examples are not stated or proved as lemmas.
