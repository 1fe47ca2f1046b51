/** Generic sequence vocabulary shared by every stage of the detection pipeline:
    an optional value, strictly increasing integer sequences, and filtering a
    sequence by a boolean mask together with the positions it keeps. */
module Seqs {

  /** A value that may be absent; `None` stands for "no previous coordinate yet". */
  datatype Option<T> = None | Some(value: T)

  predicate StrictlyIncreasing(s: seq<int>)
  {
    forall i, j :: 0 <= i < j < |s| ==> s[i] < s[j]
  }

  /** Entries of a strictly increasing integer sequence lie at least as far apart as
      their positions. */
  lemma {:induction false} Spread(s: seq<int>, j: nat, k: nat)
    requires StrictlyIncreasing(s)
    requires j <= k < |s|
    ensures s[k] - s[j] >= k - j
    decreases k - j
  {
    if j < k {
      Spread(s, j, k - 1);
      assert s[k - 1] < s[k];
    }
  }

  /** In a strictly increasing integer sequence the value one below `s[k]` can only sit
      just before it. */
  lemma PredecessorAt(s: seq<int>, j: nat, k: nat)
    requires StrictlyIncreasing(s)
    requires j < |s| && k < |s| && s[j] == s[k] - 1
    ensures j + 1 == k
  {
    if j <= k {
      Spread(s, j, k);
    } else {
      Spread(s, k, j);
    }
  }

  /** The set of values occurring in `s` (Python's `set(...)`). */
  function Elems<T>(s: seq<T>): set<T>
  {
    set x | x in s
  }

  /** The values of a sequence extended at the front. */
  lemma ElemsCons<T>(x: T, s: seq<T>)
    ensures Elems([x] + s) == {x} + Elems(s)
  {
    assert forall y :: y in [x] + s <==> y == x || y in s;
  }

  /** `r` is the subsequence of `s` picked at the strictly increasing positions `p`. */
  ghost predicate SubseqAt<T>(r: seq<T>, s: seq<T>, p: seq<nat>)
  {
    && |p| == |r|
    && (forall i :: 0 <= i < |p| ==> p[i] < |s| && r[i] == s[p[i]])
    && (forall i, j :: 0 <= i < j < |p| ==> p[i] < p[j])
  }

  /** The positions at which the mask is true, in increasing order. */
  function Positions(m: seq<bool>): (p: seq<nat>)
    ensures forall i :: 0 <= i < |p| ==> p[i] < |m| && m[p[i]]
    ensures forall i, j :: 0 <= i < j < |p| ==> p[i] < p[j]
    ensures forall k :: 0 <= k < |m| ==> (k in p <==> m[k])
    decreases |m|
  {
    if |m| == 0 then []
    else
      var n := |m| - 1;
      Positions(m[..n]) + (if m[n] then [n] else [])
  }

  /** The elements of `s` whose mask entry is true, in their original order. */
  function Keep<T>(s: seq<T>, m: seq<bool>): seq<T>
    requires |m| == |s|
    decreases |s|
  {
    if |s| == 0 then []
    else
      var n := |s| - 1;
      Keep(s[..n], m[..n]) + (if m[n] then [s[n]] else [])
  }

  /** `Keep` picks exactly the elements at the mask's true positions. */
  lemma {:induction false} KeepAtPositions<T>(s: seq<T>, m: seq<bool>)
    requires |m| == |s|
    ensures SubseqAt(Keep(s, m), s, Positions(m))
    decreases |s|
  {
    if |s| > 0 {
      var n := |s| - 1;
      KeepAtPositions(s[..n], m[..n]);
    }
  }

  /** Keeping from a sequence extended at the front decides the front element first. */
  lemma {:induction false} KeepCons<T>(x: T, b: bool, s: seq<T>, m: seq<bool>)
    requires |m| == |s|
    ensures Keep([x] + s, [b] + m) == (if b then [x] else []) + Keep(s, m)
    decreases |s|
  {
    if |s| == 0 {
      assert [x] + s == [x] && [b] + m == [b];
      assert Keep([x], [b]) == Keep([x][..0], [b][..0]) + (if b then [x] else []);
    } else {
      var n := |s| - 1;
      var xs, bm := [x] + s, [b] + m;
      KeepCons(x, b, s[..n], m[..n]);
      assert xs[..n + 1] == [x] + s[..n];
      assert bm[..n + 1] == [b] + m[..n];
      assert xs[n + 1] == s[n] && bm[n + 1] == m[n];
      calc {
        Keep(xs, bm);
        Keep(xs[..n + 1], bm[..n + 1]) + (if m[n] then [s[n]] else []);
        (if b then [x] else []) + Keep(s[..n], m[..n]) + (if m[n] then [s[n]] else []);
        (if b then [x] else []) + Keep(s, m);
      }
    }
  }

  /** A subsequence picked at the kept positions contains exactly the kept elements. */
  lemma KeepMembers<T>(s: seq<T>, m: seq<bool>, x: T)
    requires |m| == |s|
    ensures x in Keep(s, m) <==> exists k :: 0 <= k < |s| && m[k] && s[k] == x
  {
    var r, p := Keep(s, m), Positions(m);
    KeepAtPositions(s, m);
    if x in r {
      var i :| 0 <= i < |r| && r[i] == x;
      assert m[p[i]] && s[p[i]] == x;
    }
    if exists k :: 0 <= k < |s| && m[k] && s[k] == x {
      var k :| 0 <= k < |s| && m[k] && s[k] == x;
      assert k in p;
      var i :| 0 <= i < |p| && p[i] == k;
      assert r[i] == x;
    }
  }

  /** An all-true mask keeps everything. */
  lemma KeepAll<T>(s: seq<T>, m: seq<bool>)
    requires |m| == |s|
    requires forall k :: 0 <= k < |m| ==> m[k]
    ensures Keep(s, m) == s
  {
    KeepAtPositions(s, m);
    PositionsOfAllTrue(m);
  }

  /** The positions of an all-true mask are 0, 1, ..., |m|-1. */
  lemma {:induction false} PositionsOfAllTrue(m: seq<bool>)
    requires forall k :: 0 <= k < |m| ==> m[k]
    ensures |Positions(m)| == |m|
    ensures forall i :: 0 <= i < |m| ==> Positions(m)[i] == i
    decreases |m|
  {
    if |m| > 0 {
      PositionsOfAllTrue(m[..|m| - 1]);
    }
  }

  /** An all-false mask keeps nothing. */
  lemma KeepNone<T>(s: seq<T>, m: seq<bool>)
    requires |m| == |s|
    requires forall k :: 0 <= k < |m| ==> !m[k]
    ensures Keep(s, m) == []
  {
    KeepAtPositions(s, m);
  }

  /** A subsequence of a strictly increasing sequence is strictly increasing. */
  lemma SubseqIncreasing(r: seq<int>, s: seq<int>, p: seq<nat>)
    requires SubseqAt(r, s, p)
    requires StrictlyIncreasing(s)
    ensures StrictlyIncreasing(r)
  {
  }

  /** A strictly increasing sequence has as many distinct values as entries. */
  lemma {:induction false} DistinctCount(s: seq<int>)
    requires StrictlyIncreasing(s)
    ensures |Elems(s)| == |s|
    decreases |s|
  {
    if |s| > 0 {
      var init := s[..|s| - 1];
      DistinctCount(init);
      assert s == init + [s[|s| - 1]];
      assert Elems(s) == Elems(init) + {s[|s| - 1]};
      assert s[|s| - 1] !in Elems(init);
    }
  }

  /** No value occurs twice in `s`. */
  predicate Distinct<T(==)>(s: seq<T>)
  {
    forall i, j :: 0 <= i < j < |s| ==> s[i] != s[j]
  }

  /** A subsequence of a sequence without repeats has no repeats. */
  lemma DistinctSubseq<T>(r: seq<T>, s: seq<T>, p: seq<nat>)
    requires SubseqAt(r, s, p)
    requires Distinct(s)
    ensures Distinct(r)
  {
    forall i, j | 0 <= i < j < |r|
      ensures r[i] != r[j]
    {
      assert p[i] < p[j];
    }
  }

  /** Joining two sequences without repeats and without common values gives none. */
  lemma DistinctConcat<T>(a: seq<T>, b: seq<T>)
    requires Distinct(a) && Distinct(b)
    requires forall x :: x in a ==> x !in b
    ensures Distinct(a + b)
  {
    var c := a + b;
    forall i, j | 0 <= i < j < |c|
      ensures c[i] != c[j]
    {
      if i < |a| && j >= |a| {
        assert c[i] in a && c[j] == b[j - |a|];
      } else if i >= |a| {
        assert c[i] == b[i - |a|] && c[j] == b[j - |a|];
      }
    }
  }

  /** In a sequence without repeats every value is counted at most once. */
  lemma {:induction false} DistinctCountsOnce<T>(s: seq<T>, x: T)
    requires Distinct(s)
    ensures multiset(s)[x] <= 1
    decreases |s|
  {
    if |s| > 0 {
      var n := |s| - 1;
      assert s == s[..n] + [s[n]];
      DistinctCountsOnce(s[..n], x);
      if x == s[n] {
        assert x !in s[..n];
      }
    }
  }

  /** A value at two positions is counted at least twice. */
  lemma Repeated<T>(s: seq<T>, i: nat, j: nat)
    requires i < j < |s| && s[i] == s[j]
    ensures multiset(s)[s[i]] >= 2
  {
    assert s == s[..j] + [s[j]] + s[j + 1..];
    assert s[i] in s[..j];
  }

  /** Rearranging a sequence without repeats introduces none. */
  lemma DistinctPermutation<T>(a: seq<T>, b: seq<T>)
    requires Distinct(a)
    requires multiset(a) == multiset(b)
    ensures Distinct(b)
  {
    forall i, j | 0 <= i < j < |b|
      ensures b[i] != b[j]
    {
      if b[i] == b[j] {
        Repeated(b, i, j);
        DistinctCountsOnce(a, b[i]);
      }
    }
  }
}
