/** The overlap resolver: the validated rectangles are ordered by two stable sorts
    (by `height`, then by `width`), and `separate_recs` then removes every rectangle
    whose interior, inset by `t`, still contains a black pixel. */
module Resolve {
  import opened Seqs
  import opened Raster
  import opened Candidates

  /** The sort keys `height` and `width`. */
  function Height(r: Rect): int { r.y2 - r.y1 }
  function Width(r: Rect): int { r.x2 - r.x1 }

  predicate SortedBy(s: seq<Rect>, key: Rect -> int)
  {
    forall i, j :: 0 <= i < j < |s| ==> key(s[i]) <= key(s[j])
  }

  /** Among entries with equal `key`, the `tie` key does not decrease. */
  predicate TiesBy(s: seq<Rect>, key: Rect -> int, tie: Rect -> int)
  {
    forall i, j :: 0 <= i < j < |s| && key(s[i]) == key(s[j]) ==> tie(s[i]) <= tie(s[j])
  }

  /** Inserts `x` just before the first entry whose key is at least `x`'s, so that `x`
      precedes the entries with the same key. */
  function Insert(x: Rect, s: seq<Rect>, key: Rect -> int): (r: seq<Rect>)
    ensures multiset(r) == multiset(s) + multiset{x}
    decreases |s|
  {
    if |s| == 0 then [x]
    else if key(x) <= key(s[0]) then [x] + s
    else
      assert s == [s[0]] + s[1..];
      [s[0]] + Insert(x, s[1..], key)
  }

  /** Every entry of `r` other than `x` is an entry of `s`. */
  lemma InsertedFrom(x: Rect, s: seq<Rect>, r: seq<Rect>, y: Rect)
    requires multiset(r) == multiset(s) + multiset{x}
    requires y in r && y != x
    ensures exists m :: 0 <= m < |s| && s[m] == y
  {
    assert y in multiset(r);
    assert y in multiset(s);
  }

  /** Insertion keeps a sorted sequence sorted. */
  lemma {:induction false} InsertSorted(x: Rect, s: seq<Rect>, key: Rect -> int)
    requires SortedBy(s, key)
    ensures SortedBy(Insert(x, s, key), key)
    decreases |s|
  {
    if |s| > 0 && key(x) > key(s[0]) {
      var rest := Insert(x, s[1..], key);
      InsertSorted(x, s[1..], key);
      forall j | 0 <= j < |rest|
        ensures key(s[0]) <= key(rest[j])
      {
        if rest[j] != x {
          InsertedFrom(x, s[1..], rest, rest[j]);
          var m :| 0 <= m < |s[1..]| && s[1..][m] == rest[j];
          assert s[m + 1] == rest[j];
        }
      }
      var r := [s[0]] + rest;
      assert forall i :: 1 <= i < |r| ==> r[i] == rest[i - 1];
    }
  }

  /** Python's stable `sorted(s, key=key)`, as an insertion sort that inserts each entry
      in front of the later entries with the same key. */
  function SortBy(s: seq<Rect>, key: Rect -> int): (r: seq<Rect>)
    ensures multiset(r) == multiset(s)
    ensures SortedBy(r, key)
    decreases |s|
  {
    if |s| == 0 then []
    else
      assert s == [s[0]] + s[1..];
      InsertSorted(s[0], SortBy(s[1..], key), key);
      Insert(s[0], SortBy(s[1..], key), key)
  }

  /** The entries of `s` whose `key` is `k`, in their order in `s`. */
  function WithKey(s: seq<Rect>, key: Rect -> int, k: int): seq<Rect>
    decreases |s|
  {
    if |s| == 0 then []
    else (if key(s[0]) == k then [s[0]] else []) + WithKey(s[1..], key, k)
  }

  /** Selecting from a sequence extended at the front decides the front entry first. */
  lemma WithKeyCons(x: Rect, s: seq<Rect>, key: Rect -> int, k: int)
    ensures WithKey([x] + s, key, k) == (if key(x) == k then [x] else []) + WithKey(s, key, k)
  {
    assert ([x] + s)[1..] == s;
  }

  /** The selected entries are entries of `s` with key `k`. */
  lemma {:induction false} WithKeyMembers(s: seq<Rect>, key: Rect -> int, k: int)
    ensures forall x :: x in WithKey(s, key, k) <==> x in s && key(x) == k
    decreases |s|
  {
    if |s| > 0 {
      WithKeyMembers(s[1..], key, k);
      assert s == [s[0]] + s[1..];
    }
  }

  /** Selecting by two keys gives the same entries in either order. */
  lemma {:induction false} WithKeysCommute(s: seq<Rect>, key1: Rect -> int, k1: int, key2: Rect -> int, k2: int)
    ensures WithKey(WithKey(s, key1, k1), key2, k2) == WithKey(WithKey(s, key2, k2), key1, k1)
    decreases |s|
  {
    if |s| > 0 {
      var x, t := s[0], s[1..];
      var both := if key1(x) == k1 && key2(x) == k2 then [x] else [];
      WithKeysCommute(t, key1, k1, key2, k2);
      assert WithKey(WithKey(s, key1, k1), key2, k2) == both + WithKey(WithKey(t, key1, k1), key2, k2) by {
        if key1(x) == k1 {
          assert WithKey(s, key1, k1) == [x] + WithKey(t, key1, k1);
          WithKeyCons(x, WithKey(t, key1, k1), key2, k2);
        } else {
          assert WithKey(s, key1, k1) == WithKey(t, key1, k1);
        }
      }
      assert WithKey(WithKey(s, key2, k2), key1, k1) == both + WithKey(WithKey(t, key2, k2), key1, k1) by {
        if key2(x) == k2 {
          assert WithKey(s, key2, k2) == [x] + WithKey(t, key2, k2);
          WithKeyCons(x, WithKey(t, key2, k2), key1, k1);
        } else {
          assert WithKey(s, key2, k2) == WithKey(t, key2, k2);
        }
      }
    }
  }

  /** A suffix of a sequence sorted by `key` is sorted by `key`. */
  lemma SortedTail(s: seq<Rect>, key: Rect -> int)
    requires |s| > 0 && SortedBy(s, key)
    ensures SortedBy(s[1..], key)
  {
    assert forall i :: 0 <= i < |s[1..]| ==> s[1..][i] == s[i + 1];
  }

  /** Inserting into a sequence sorted by `key` puts `x` in front of every entry with the
      same key: the entries with any one key are as if `x` had been put at the front. */
  lemma {:induction false} InsertWithKey(x: Rect, s: seq<Rect>, key: Rect -> int, k: int)
    requires SortedBy(s, key)
    ensures WithKey(Insert(x, s, key), key, k) == WithKey([x] + s, key, k)
    decreases |s|
  {
    if |s| > 0 && key(x) > key(s[0]) {
      var y, t := s[0], s[1..];
      var rest := Insert(x, t, key);
      var px := if key(x) == k then [x] else [];
      var py := if key(y) == k then [y] else [];
      assert Insert(x, s, key) == [y] + rest;
      assert WithKey(rest, key, k) == px + WithKey(t, key, k) by {
        SortedTail(s, key);
        InsertWithKey(x, t, key, k);
        WithKeyCons(x, t, key, k);
      }
      assert WithKey([y] + rest, key, k) == py + WithKey(rest, key, k) by {
        WithKeyCons(y, rest, key, k);
      }
      assert WithKey([x] + s, key, k) == px + WithKey(s, key, k) by {
        WithKeyCons(x, s, key, k);
      }
      assert px + py == py + px;
    } else {
      assert Insert(x, s, key) == [x] + s;
    }
  }

  /** `SortBy` is stable, as Python's `sorted` is: for every key value, the entries with
      that key come out in the order they went in. */
  lemma {:induction false} SortByStable(s: seq<Rect>, key: Rect -> int, k: int)
    ensures WithKey(SortBy(s, key), key, k) == WithKey(s, key, k)
    decreases |s|
  {
    if |s| > 0 {
      var rest := SortBy(s[1..], key);
      SortByStable(s[1..], key, k);
      InsertWithKey(s[0], rest, key, k);
      WithKeyCons(s[0], rest, key, k);
      assert s == [s[0]] + s[1..];
      WithKeyCons(s[0], s[1..], key, k);
    }
  }

  /** The head of a sequence with ordered ties has no larger `tie` key than any later
      entry with the same `key`. */
  lemma HeadTies(s: seq<Rect>, key: Rect -> int, tie: Rect -> int)
    requires |s| > 0 && TiesBy(s, key, tie)
    ensures forall y :: y in s[1..] && key(s[0]) == key(y) ==> tie(s[0]) <= tie(y)
  {
    forall y | y in s[1..] && key(s[0]) == key(y)
      ensures tie(s[0]) <= tie(y)
    {
      var m :| 0 <= m < |s[1..]| && s[1..][m] == y;
      assert s[m + 1] == y;
    }
  }

  /** The tail of a sequence sorted by `key`, with ordered ties, keeps both properties. */
  lemma TailOrdered(s: seq<Rect>, key: Rect -> int, tie: Rect -> int)
    requires |s| > 0 && SortedBy(s, key) && TiesBy(s, key, tie)
    ensures SortedBy(s[1..], key) && TiesBy(s[1..], key, tie)
  {
    assert forall i :: 0 <= i < |s[1..]| ==> s[1..][i] == s[i + 1];
  }

  /** Putting in front an entry whose `tie` key is no larger than that of any entry with
      the same `key` keeps ties ordered. */
  lemma TiesCons(a: Rect, rest: seq<Rect>, key: Rect -> int, tie: Rect -> int)
    requires TiesBy(rest, key, tie)
    requires forall y :: y in rest && key(a) == key(y) ==> tie(a) <= tie(y)
    ensures TiesBy([a] + rest, key, tie)
  {
    var r := [a] + rest;
    assert forall i :: 1 <= i < |r| ==> r[i] == rest[i - 1] && r[i] in rest;
  }

  /** Inserting an entry whose `tie` key is no larger than any other keeps ties ordered. */
  lemma {:induction false} InsertTies(x: Rect, s: seq<Rect>, key: Rect -> int, tie: Rect -> int)
    requires SortedBy(s, key) && TiesBy(s, key, tie)
    requires forall y :: y in s ==> tie(x) <= tie(y)
    ensures TiesBy(Insert(x, s, key), key, tie)
    decreases |s|
  {
    if |s| > 0 && key(x) > key(s[0]) {
      var rest := Insert(x, s[1..], key);
      TailOrdered(s, key, tie);
      assert forall y :: y in s[1..] ==> y in s;
      InsertTies(x, s[1..], key, tie);
      HeadTies(s, key, tie);
      forall y | y in rest
        ensures y == x || y in s[1..]
      {
        if y != x {
          InsertedFrom(x, s[1..], rest, y);
        }
      }
      TiesCons(s[0], rest, key, tie);
    }
  }

  /** Sorting stably by `key` an input already sorted by `tie` leaves ties ordered by `tie`. */
  lemma {:induction false} SortTies(s: seq<Rect>, key: Rect -> int, tie: Rect -> int)
    requires SortedBy(s, tie)
    ensures TiesBy(SortBy(s, key), key, tie)
    decreases |s|
  {
    if |s| > 0 {
      var rest := SortBy(s[1..], key);
      SortTies(s[1..], key, tie);
      forall y | y in rest
        ensures tie(s[0]) <= tie(y)
      {
        assert y in multiset(s[1..]);
        var m :| 0 <= m < |s[1..]| && s[1..][m] == y;
        assert s[m + 1] == y;
      }
      InsertTies(s[0], rest, key, tie);
    }
  }

  /** The two sorts of `__main__`: by height, then the result again by width. */
  function TwoPassSort(s: seq<Rect>): seq<Rect>
  {
    SortBy(SortBy(s, Height), Width)
  }

  /** The two stable sorts give a permutation of their input ordered by width, with equal
      widths ordered by height: the same order as one sort on the composite key
      (width, height). */
  lemma TwoPassOrder(s: seq<Rect>)
    ensures multiset(TwoPassSort(s)) == multiset(s)
    ensures forall i, j :: 0 <= i < j < |TwoPassSort(s)| ==>
      var (a, b) := (TwoPassSort(s)[i], TwoPassSort(s)[j]);
      Width(a) < Width(b) || (Width(a) == Width(b) && Height(a) <= Height(b))
  {
    SortTies(SortBy(s, Height), Width, Height);
  }

  /** The rectangles of `s` that are `a` wide and `b` high, in their order in `s`. */
  function Sized(s: seq<Rect>, a: int, b: int): seq<Rect>
  {
    WithKey(WithKey(s, Width, a), Height, b)
  }

  /** Rectangles of equal width and equal height come out of the two sorts in the order
      they went in; with `TwoPassOrder` this fixes the sorted list completely. */
  lemma TwoPassStable(s: seq<Rect>, a: int, b: int)
    ensures Sized(TwoPassSort(s), a, b) == Sized(s, a, b)
  {
    var byHeight := SortBy(s, Height);
    SortByStable(byHeight, Width, a);
    WithKeysCommute(byHeight, Width, a, Height, b);
    SortByStable(s, Height, b);
    WithKeysCommute(s, Width, a, Height, b);
  }

  /** Some pixel (x, y) with lo <= y < hi in column x is black. */
  function ColumnHasInk(pix: Pixels, x: int, lo: int, hi: int): (b: bool)
    ensures b <==> exists y :: lo <= y < hi && Ink(pix, x, y)
    decreases hi - lo
  {
    if lo >= hi then false
    else Ink(pix, x, lo) || ColumnHasInk(pix, x, lo + 1, hi)
  }

  /** The nested scan of `separate_recs`: some pixel of [xlo, xhi) x [ylo, yhi) is black. */
  function RegionHasInk(pix: Pixels, xlo: int, xhi: int, ylo: int, yhi: int): (b: bool)
    ensures b <==> exists x, y :: xlo <= x < xhi && ylo <= y < yhi && Ink(pix, x, y)
    decreases xhi - xlo
  {
    if xlo >= xhi then false
    else ColumnHasInk(pix, xlo, ylo, yhi) || RegionHasInk(pix, xlo + 1, xhi, ylo, yhi)
  }

  /** (x, y) lies in the interior of `r` inset by `t`, the half-open box
      [x1 + t, x2 - t) x [y1 + t, y2 - t) that `separate_recs` scans. */
  predicate Inside(r: Rect, t: nat, x: int, y: int)
  {
    r.x1 + t <= x < r.x2 - t && r.y1 + t <= y < r.y2 - t
  }

  /** The rectangle encloses other structure: its inset interior holds a black pixel. A
      rectangle at most 2t wide or 2t high has an empty interior and never encloses
      anything. */
  predicate Encloses(pix: Pixels, r: Rect, t: nat)
    ensures Encloses(pix, r, t) <==> exists x, y :: Inside(r, t, x, y) && Ink(pix, x, y)
    ensures Width(r) <= 2 * t || Height(r) <= 2 * t ==> !Encloses(pix, r, t)
  {
    RegionHasInk(pix, r.x1 + t, r.x2 - t, r.y1 + t, r.y2 - t)
  }

  /** Which rectangles survive the overlap removal. */
  function KeepMask(pix: Pixels, rs: seq<Rect>, t: nat): (m: seq<bool>)
    ensures |m| == |rs|
    ensures forall k :: 0 <= k < |rs| ==> (m[k] <==> !Encloses(pix, rs[k], t))
  {
    seq(|rs|, k requires 0 <= k < |rs| => !Encloses(pix, rs[k], t))
  }

  /** `separate_recs`: the rectangles that enclose nothing, in their sorted order. */
  function SeparateRecs(pix: Pixels, sorted: seq<Rect>, t: nat): (r: seq<Rect>)
    ensures SubseqAt(r, sorted, Positions(KeepMask(pix, sorted, t)))
    ensures forall x :: x in r <==> x in sorted && !Encloses(pix, x, t)
  {
    var m := KeepMask(pix, sorted, t);
    KeepAtPositions(sorted, m);
    forall x
      ensures x in Keep(sorted, m) <==> x in sorted && !Encloses(pix, x, t)
    {
      KeepMembers(sorted, m, x);
    }
    Keep(sorted, m)
  }

  /** The rectangles kept stay in width-then-height order. */
  lemma SeparateKeepsOrder(pix: Pixels, sorted: seq<Rect>, t: nat)
    requires forall i, j :: 0 <= i < j < |sorted| ==>
      Width(sorted[i]) < Width(sorted[j]) || (Width(sorted[i]) == Width(sorted[j]) && Height(sorted[i]) <= Height(sorted[j]))
    ensures var r := SeparateRecs(pix, sorted, t);
      forall i, j :: 0 <= i < j < |r| ==>
        Width(r[i]) < Width(r[j]) || (Width(r[i]) == Width(r[j]) && Height(r[i]) <= Height(r[j]))
  {
    var r, p := SeparateRecs(pix, sorted, t), Positions(KeepMask(pix, sorted, t));
    assert forall i :: 0 <= i < |r| ==> r[i] == sorted[p[i]];
  }

  /** The entries of `s` outside `xs`, in their order. */
  function Drop(s: seq<Rect>, xs: set<Rect>): seq<Rect>
    decreases |s|
  {
    if |s| == 0 then []
    else (if s[0] in xs then [] else [s[0]]) + Drop(s[1..], xs)
  }

  /** Dropping keeps exactly the values outside the set. */
  lemma {:induction false} DropMembers(s: seq<Rect>, xs: set<Rect>)
    ensures forall x :: x in Drop(s, xs) <==> x in s && x !in xs
    decreases |s|
  {
    if |s| > 0 {
      DropMembers(s[1..], xs);
      assert s == [s[0]] + s[1..];
    }
  }

  /** Dropping values that do not occur changes nothing. */
  lemma {:induction false} DropNothing(s: seq<Rect>, xs: set<Rect>)
    requires forall x :: x in s ==> x !in xs
    ensures Drop(s, xs) == s
    decreases |s|
  {
    if |s| > 0 {
      assert forall x :: x in s[1..] ==> x in s;
      DropNothing(s[1..], xs);
    }
  }

  /** Two drops in a row drop the union. */
  lemma {:induction false} DropTwice(s: seq<Rect>, a: set<Rect>, b: set<Rect>)
    ensures Drop(Drop(s, a), b) == Drop(s, a + b)
    decreases |s|
  {
    if |s| > 0 {
      var x, d := s[0], Drop(s[1..], a);
      DropTwice(s[1..], a, b);
      if x in a {
        assert Drop(s, a) == d;
        assert Drop(s, a + b) == Drop(s[1..], a + b);
      } else {
        assert Drop(s, a) == [x] + d;
        assert ([x] + d)[1..] == d;
        assert Drop([x] + d, b) == (if x in b then [] else [x]) + Drop(d, b);
      }
    }
  }

  /** Dropping keeps a sequence free of repeats. */
  lemma {:induction false} DropDistinct(s: seq<Rect>, xs: set<Rect>)
    requires Distinct(s)
    ensures Distinct(Drop(s, xs))
    decreases |s|
  {
    if |s| > 0 {
      DropDistinct(s[1..], xs);
      DropMembers(s[1..], xs);
      assert s[0] !in s[1..];
      DistinctConcat(if s[0] in xs then [] else [s[0]], Drop(s[1..], xs));
    }
  }

  /** `r` is `s` without the occurrence of `x` at position i, the first one. */
  predicate RemovedAt(s: seq<Rect>, x: Rect, r: seq<Rect>, i: int)
  {
    0 <= i < |s| && s[i] == x && x !in s[..i] && r == s[..i] + s[i + 1..]
  }

  /** `r` is `s` without its first occurrence of `x`: everything before it followed by
      everything after it. */
  predicate FirstRemoved(s: seq<Rect>, x: Rect, r: seq<Rect>)
  {
    exists i :: 0 <= i < |s| && RemovedAt(s, x, r, i)
  }

  /** Removing the first `x` after a different head keeps the head in front. */
  lemma FirstRemovedCons(a: Rect, s: seq<Rect>, x: Rect, r: seq<Rect>)
    requires a != x && FirstRemoved(s, x, r)
    ensures FirstRemoved([a] + s, x, [a] + r)
  {
    var i :| 0 <= i < |s| && RemovedAt(s, x, r, i);
    var t := [a] + s;
    assert RemovedAt(t, x, [a] + r, i + 1) by {
      assert s[i] == x && x !in s[..i] && r == s[..i] + s[i + 1..];
      assert t[..i + 1] == [a] + s[..i];
      assert t[i + 2..] == s[i + 1..];
      assert x !in t[..i + 1] by {
        assert forall y :: y in [a] + s[..i] ==> y == a || y in s[..i];
      }
      assert [a] + r == t[..i + 1] + t[i + 2..] by {
        assert [a] + (s[..i] + s[i + 1..]) == ([a] + s[..i]) + s[i + 1..];
      }
    }
  }

  /** Python's `list.remove`: deletes the first occurrence of `x`, keeping the order of
      everything else, and fails (a `ValueError`) when `x` does not occur. */
  function RemoveFirst(s: seq<Rect>, x: Rect): (r: Option<seq<Rect>>)
    ensures r.None? <==> x !in s
    ensures r.Some? ==> FirstRemoved(s, x, r.value)
    ensures r.Some? ==> |r.value| == |s| - 1 && multiset(r.value) + multiset{x} == multiset(s)
    decreases |s|
  {
    if |s| == 0 then None
    else if s[0] == x then
      assert s == [s[0]] + s[1..];
      assert RemovedAt(s, x, s[1..], 0) by {
        assert s[..0] + s[1..] == s[1..];
      }
      Some(s[1..])
    else
      match RemoveFirst(s[1..], x)
      case None => None
      case Some(rest) =>
        assert s == [s[0]] + s[1..];
        FirstRemovedCons(s[0], s[1..], x, rest);
        Some([s[0]] + rest)
  }

  /** The removal loop of `separate_recs`: each listed rectangle is removed in turn. */
  function RemoveEach(s: seq<Rect>, xs: seq<Rect>): Option<seq<Rect>>
    decreases |xs|
  {
    if |xs| == 0 then Some(s)
    else
      match RemoveFirst(s, xs[0])
      case None => None
      case Some(rest) => RemoveEach(rest, xs[1..])
  }

  /** In a sequence without repeats, removing the first occurrence removes the only one. */
  lemma {:induction false} RemoveFirstDistinct(s: seq<Rect>, x: Rect)
    requires Distinct(s) && x in s
    ensures RemoveFirst(s, x) == Some(Drop(s, {x}))
    decreases |s|
  {
    if s[0] == x {
      assert s[0] !in s[1..];
      DropNothing(s[1..], {x});
      assert Drop(s, {x}) == Drop(s[1..], {x});
    } else {
      RemoveFirstDistinct(s[1..], x);
    }
  }

  /** One round of the removal loop on a sequence without repeats drops the first listed
      value. */
  lemma RemoveEachStep(s: seq<Rect>, xs: seq<Rect>)
    requires Distinct(s) && |xs| > 0 && xs[0] in s
    ensures RemoveEach(s, xs) == RemoveEach(Drop(s, {xs[0]}), xs[1..])
  {
    RemoveFirstDistinct(s, xs[0]);
  }

  /** Removing the listed rectangles one at a time from a sequence without repeats drops
      exactly the listed values, whatever order they are listed in, provided each occurs
      and none is listed twice. */
  lemma {:induction false} RemoveEachDistinct(s: seq<Rect>, xs: seq<Rect>)
    requires Distinct(s) && Distinct(xs)
    requires forall x :: x in xs ==> x in s
    ensures RemoveEach(s, xs) == Some(Drop(s, Elems(xs)))
    decreases |xs|
  {
    if |xs| == 0 {
      DropNothing(s, {});
      assert Elems(xs) == {};
    } else {
      var x, more := xs[0], xs[1..];
      var s1 := Drop(s, {x});
      assert RemoveEach(s, xs) == RemoveEach(s1, more) by {
        RemoveEachStep(s, xs);
      }
      assert RemoveEach(s1, more) == Some(Drop(s1, Elems(more))) by {
        DropDistinct(s, {x});
        RestRemains(s, xs);
        RemoveEachDistinct(s1, more);
      }
      assert Drop(s1, Elems(more)) == Drop(s, Elems(xs)) by {
        DropTwice(s, {x}, Elems(more));
        assert xs == [x] + more;
        ElemsCons(x, more);
      }
    }
  }

  /** Once the first listed value is dropped, the other listed values still occur. */
  lemma RestRemains(s: seq<Rect>, xs: seq<Rect>)
    requires |xs| > 0 && Distinct(xs)
    requires forall x :: x in xs ==> x in s
    ensures forall y :: y in xs[1..] ==> y in Drop(s, {xs[0]})
    ensures Distinct(xs[1..])
  {
    assert forall i :: 0 <= i < |xs[1..]| ==> xs[1..][i] == xs[i + 1];
    DropMembers(s, {xs[0]});
    forall y | y in xs[1..]
      ensures y in Drop(s, {xs[0]})
    {
      var k :| 0 <= k < |xs[1..]| && xs[1..][k] == y;
      assert xs[k + 1] == y && xs[0] != xs[k + 1];
    }
  }

  /** Dropping a set agrees with keeping by a mask that is false exactly on its members. */
  lemma {:induction false} DropIsKeep(s: seq<Rect>, m: seq<bool>, xs: set<Rect>)
    requires |m| == |s|
    requires forall k :: 0 <= k < |s| ==> (s[k] in xs <==> !m[k])
    ensures Drop(s, xs) == Keep(s, m)
    decreases |s|
  {
    if |s| > 0 {
      DropIsKeep(s[1..], m[1..], xs);
      assert s == [s[0]] + s[1..] && m == [m[0]] + m[1..];
      KeepCons(s[0], m[0], s[1..], m[1..]);
    }
  }

  /** The rectangles kept by the mask are those outside any set that, on `s`, holds
      exactly the enclosing rectangles. */
  lemma DropIsSeparate(pix: Pixels, s: seq<Rect>, t: nat, xs: set<Rect>)
    requires forall x :: x in s ==> (x in xs <==> Encloses(pix, x, t))
    ensures Drop(s, xs) == SeparateRecs(pix, s, t)
  {
    var m := KeepMask(pix, s, t);
    assert forall k :: 0 <= k < |s| ==> s[k] in s;
    DropIsKeep(s, m, xs);
  }

  /** Dropping a set and selecting by key can be done in either order. */
  lemma {:induction false} DropWithKey(s: seq<Rect>, xs: set<Rect>, key: Rect -> int, k: int)
    ensures WithKey(Drop(s, xs), key, k) == Drop(WithKey(s, key, k), xs)
    decreases |s|
  {
    if |s| > 0 {
      var x, t := s[0], s[1..];
      var both := if x !in xs && key(x) == k then [x] else [];
      DropWithKey(t, xs, key, k);
      assert WithKey(Drop(s, xs), key, k) == both + WithKey(Drop(t, xs), key, k) by {
        if x !in xs {
          assert Drop(s, xs) == [x] + Drop(t, xs);
          WithKeyCons(x, Drop(t, xs), key, k);
        } else {
          assert Drop(s, xs) == Drop(t, xs);
        }
      }
      assert Drop(WithKey(s, key, k), xs) == both + Drop(WithKey(t, key, k), xs) by {
        if key(x) == k {
          var u := [x] + WithKey(t, key, k);
          assert WithKey(s, key, k) == u;
          assert u[0] == x && u[1..] == WithKey(t, key, k);
        } else {
          assert WithKey(s, key, k) == WithKey(t, key, k);
        }
      }
    }
  }

  /** Overlap removal treats each size class on its own: the rectangles of one width and
      height that it keeps are those it keeps from that size class alone. */
  lemma SeparateSized(pix: Pixels, s: seq<Rect>, t: nat, a: int, b: int)
    ensures Sized(SeparateRecs(pix, s, t), a, b) == SeparateRecs(pix, Sized(s, a, b), t)
  {
    var enclosing := set x | x in s && Encloses(pix, x, t);
    var byWidth := WithKey(s, Width, a);
    DropIsSeparate(pix, s, t, enclosing);
    DropWithKey(s, enclosing, Width, a);
    DropWithKey(byWidth, enclosing, Height, b);
    WithKeyMembers(s, Width, a);
    WithKeyMembers(byWidth, Height, b);
    DropIsSeparate(pix, Sized(s, a, b), t, enclosing);
  }

  /** `separate_recs` as written, deleting the enclosing rectangles one by one with
      `list.remove`, agrees with the filter `SeparateRecs` on a sorted list without
      repeats, for any listing of the enclosing rectangles without repeats (`separate_recs`
      lists them through `sorted(list(set(...)))`). */
  lemma RemovalIsFilter(pix: Pixels, sorted: seq<Rect>, t: nat, enclosing: seq<Rect>)
    requires Distinct(sorted) && Distinct(enclosing)
    requires forall x :: x in enclosing <==> x in sorted && Encloses(pix, x, t)
    ensures RemoveEach(sorted, enclosing) == Some(SeparateRecs(pix, sorted, t))
  {
    RemoveEachDistinct(sorted, enclosing);
    DropIsSeparate(pix, sorted, t, Elems(enclosing));
  }
}
