/** The candidate generator (`potential_recs`): every pair of vertical limits combined
    with every pair of horizontal limits, in the order `itertools.combinations` and the
    two nested loops produce them. */
module Candidates {
  import opened Seqs

  /** A rectangle candidate `(x1, y1, x2, y2)`, taken as generated (not normalised). */
  datatype Rect = Rect(x1: int, y1: int, x2: int, y2: int)

  /** The number of 2-element combinations of n items. */
  function Choose2(n: nat): nat
  {
    n * (n - 1) / 2
  }

  /** The index pairs (a, b) with lo <= a < b < n, in lexicographic order: the first index
      of `combinations(range(lo, n), 2)` varies slowest. */
  function PairsFrom(lo: nat, n: nat): (p: seq<(nat, nat)>)
    requires lo <= n
    ensures forall k :: 0 <= k < |p| ==> lo <= p[k].0 < p[k].1 < n
    ensures forall k, l :: 0 <= k < l < |p| ==> p[k].0 < p[l].0 || (p[k].0 == p[l].0 && p[k].1 < p[l].1)
    decreases n - lo
  {
    if lo == n then []
    else
      seq(n - lo - 1, k requires 0 <= k < n - lo - 1 => (lo, lo + 1 + k)) + PairsFrom(lo + 1, n)
  }

  /** Every index pair of the range occurs, and there are exactly C(n - lo, 2) of them. */
  lemma {:induction false} PairsFromComplete(lo: nat, n: nat)
    requires lo <= n
    ensures forall a, b :: lo <= a < b < n ==> (a, b) in PairsFrom(lo, n)
    ensures |PairsFrom(lo, n)| == Choose2(n - lo)
    decreases n - lo
  {
    if lo < n {
      var m := n - lo;
      var row := seq(m - 1, k requires 0 <= k < m - 1 => (lo, lo + 1 + k));
      PairsFromComplete(lo + 1, n);
      assert PairsFrom(lo, n) == row + PairsFrom(lo + 1, n);
      forall a, b | lo <= a < b < n
        ensures (a, b) in PairsFrom(lo, n)
      {
        if a == lo {
          assert row[b - lo - 1] == (a, b);
        } else {
          assert (a, b) in PairsFrom(lo + 1, n);
        }
      }
      assert m * (m - 1) == (m - 1) * (m - 2) + 2 * (m - 1);
    }
  }

  /** The index pairs of `combinations(range(n), 2)`. */
  function PairIndices(n: nat): seq<(nat, nat)>
  {
    PairsFrom(0, n)
  }

  /** `combinations(s, 2)`: the pairs of elements of `s` at the positions `PairIndices`. */
  function Pairs<T>(s: seq<T>): seq<(T, T)>
  {
    var p := PairIndices(|s|);
    seq(|p|, k requires 0 <= k < |p| => (s[p[k].0], s[p[k].1]))
  }

  /** The candidates made from one vertical pair and each horizontal pair in turn. */
  function RecsFor(vp: (int, int), hp: seq<(int, int)>): seq<Rect>
  {
    seq(|hp|, j requires 0 <= j < |hp| => Rect(vp.0, hp[j].0, vp.1, hp[j].1))
  }

  /** The two nested loops of `potential_recs`: vertical pairs outside, horizontal pairs inside. */
  function CrossRecs(vp: seq<(int, int)>, hp: seq<(int, int)>): seq<Rect>
    decreases |vp|
  {
    if |vp| == 0 then [] else RecsFor(vp[0], hp) + CrossRecs(vp[1..], hp)
  }

  /** `potential_recs` over the vertical limits `v` and horizontal limits `h`. */
  function PotentialRecs(v: seq<int>, h: seq<int>): seq<Rect>
  {
    CrossRecs(Pairs(v), Pairs(h))
  }

  /** The nested loops produce |vp| * |hp| candidates. */
  lemma {:induction false} CrossRecsLength(vp: seq<(int, int)>, hp: seq<(int, int)>)
    ensures |CrossRecs(vp, hp)| == |vp| * |hp|
    decreases |vp|
  {
    if |vp| > 0 {
      CrossRecsLength(vp[1..], hp);
      assert |vp| * |hp| == |hp| + (|vp| - 1) * |hp|;
    }
  }

  /** The candidate for vertical pair i and horizontal pair j sits at position i * |hp| + j. */
  lemma {:induction false} CrossRecsAt(vp: seq<(int, int)>, hp: seq<(int, int)>, i: nat, j: nat)
    requires i < |vp| && j < |hp|
    ensures i * |hp| + j < |CrossRecs(vp, hp)|
    ensures CrossRecs(vp, hp)[i * |hp| + j] == Rect(vp[i].0, hp[j].0, vp[i].1, hp[j].1)
    decreases |vp|
  {
    var row, rest := RecsFor(vp[0], hp), CrossRecs(vp[1..], hp);
    assert CrossRecs(vp, hp) == row + rest;
    if i > 0 {
      CrossRecsAt(vp[1..], hp, i - 1, j);
      assert i * |hp| == |hp| + (i - 1) * |hp|;
      assert vp[1..][i - 1] == vp[i];
      assert (row + rest)[|hp| + ((i - 1) * |hp| + j)] == rest[(i - 1) * |hp| + j];
    } else {
      assert i * |hp| == 0;
    }
  }

  /** `x` is the candidate of some vertical pair of `vp` and horizontal pair of `hp`. */
  predicate Combines(x: Rect, vp: seq<(int, int)>, hp: seq<(int, int)>)
  {
    exists i, j :: 0 <= i < |vp| && 0 <= j < |hp| && x == Rect(vp[i].0, hp[j].0, vp[i].1, hp[j].1)
  }

  /** Every candidate combines one vertical pair with one horizontal pair. */
  lemma {:induction false} CrossRecsMembers(vp: seq<(int, int)>, hp: seq<(int, int)>)
    ensures forall k :: 0 <= k < |CrossRecs(vp, hp)| ==> Combines(CrossRecs(vp, hp)[k], vp, hp)
    decreases |vp|
  {
    if |vp| > 0 {
      var row, rest := RecsFor(vp[0], hp), CrossRecs(vp[1..], hp);
      assert CrossRecs(vp, hp) == row + rest;
      CrossRecsMembers(vp[1..], hp);
      var r := CrossRecs(vp, hp);
      forall k | 0 <= k < |r|
        ensures Combines(r[k], vp, hp)
      {
        if k < |row| {
          assert r[k] == Rect(vp[0].0, hp[k].0, vp[0].1, hp[k].1);
        } else {
          assert Combines(rest[k - |row|], vp[1..], hp);
          var i, j :| 0 <= i < |vp[1..]| && 0 <= j < |hp| && rest[k - |row|] == Rect(vp[1..][i].0, hp[j].0, vp[1..][i].1, hp[j].1);
          assert vp[1..][i] == vp[i + 1];
          assert r[k] == Rect(vp[i + 1].0, hp[j].0, vp[i + 1].1, hp[j].1);
        }
      }
    } else {
      assert CrossRecs(vp, hp) == [];
    }
  }

  /** The candidate for vertical pair i and horizontal pair j is generated. */
  lemma {:induction false} CrossRecsContains(vp: seq<(int, int)>, hp: seq<(int, int)>, i: nat, j: nat)
    requires i < |vp| && j < |hp|
    ensures Rect(vp[i].0, hp[j].0, vp[i].1, hp[j].1) in CrossRecs(vp, hp)
    decreases |vp|
  {
    var row, rest := RecsFor(vp[0], hp), CrossRecs(vp[1..], hp);
    assert CrossRecs(vp, hp) == row + rest;
    if i == 0 {
      assert row[j] == Rect(vp[i].0, hp[j].0, vp[i].1, hp[j].1);
    } else {
      CrossRecsContains(vp[1..], hp, i - 1, j);
      assert vp[1..][i - 1] == vp[i];
    }
  }

  /** `potential_recs` yields C(n, 2) * C(m, 2) candidates for n vertical and m horizontal
      limits. */
  lemma PotentialRecsCount(v: seq<int>, h: seq<int>)
    ensures |PotentialRecs(v, h)| == Choose2(|v|) * Choose2(|h|)
  {
    PairsFromComplete(0, |v|);
    PairsFromComplete(0, |h|);
    CrossRecsLength(Pairs(v), Pairs(h));
  }

  /** The candidate for the i-th vertical pair (a, b) and the j-th horizontal pair (c, d)
      is `(v[a], h[c], v[b], h[d])` at position i * C(m, 2) + j: vertical pairs outside,
      horizontal pairs inside, each in the lexicographic order of `PairsFrom`. */
  lemma PotentialRecsOrder(v: seq<int>, h: seq<int>, i: nat, j: nat)
    requires i < Choose2(|v|) && j < Choose2(|h|)
    ensures i < |PairIndices(|v|)| && j < |PairIndices(|h|)|
    ensures var (a, b) := PairIndices(|v|)[i];
      var (c, d) := PairIndices(|h|)[j];
      && i * Choose2(|h|) + j < |PotentialRecs(v, h)|
      && a < b < |v| && c < d < |h|
      && PotentialRecs(v, h)[i * Choose2(|h|) + j] == Rect(v[a], h[c], v[b], h[d])
  {
    PairsFromComplete(0, |v|);
    PairsFromComplete(0, |h|);
    CrossRecsAt(Pairs(v), Pairs(h), i, j);
  }

  /** Every candidate combines two vertical limits a < b with two horizontal limits c < d. */
  lemma PotentialRecsSound(v: seq<int>, h: seq<int>, k: nat)
    requires k < |PotentialRecs(v, h)|
    ensures exists a, b, c, d :: (0 <= a < b < |v| && 0 <= c < d < |h|
      && PotentialRecs(v, h)[k] == Rect(v[a], h[c], v[b], h[d]))
  {
    var vp, hp := Pairs(v), Pairs(h);
    var pv, ph := PairIndices(|v|), PairIndices(|h|);
    CrossRecsMembers(vp, hp);
    assert Combines(CrossRecs(vp, hp)[k], vp, hp);
    var i, j :| 0 <= i < |vp| && 0 <= j < |hp| && CrossRecs(vp, hp)[k] == Rect(vp[i].0, hp[j].0, vp[i].1, hp[j].1);
    assert vp[i] == (v[pv[i].0], v[pv[i].1]);
    assert hp[j] == (h[ph[j].0], h[ph[j].1]);
  }

  /** Every combination of two vertical limits a < b with two horizontal limits c < d is a
      candidate. */
  lemma PotentialRecsComplete(v: seq<int>, h: seq<int>, a: nat, b: nat, c: nat, d: nat)
    requires a < b < |v| && c < d < |h|
    ensures Rect(v[a], h[c], v[b], h[d]) in PotentialRecs(v, h)
  {
    var vp, hp := Pairs(v), Pairs(h);
    var pv, ph := PairIndices(|v|), PairIndices(|h|);
    PairsFromComplete(0, |v|);
    PairsFromComplete(0, |h|);
    assert (a, b) in pv && (c, d) in ph;
    var i :| 0 <= i < |pv| && pv[i] == (a, b);
    var j :| 0 <= j < |ph| && ph[j] == (c, d);
    assert vp[i] == (v[a], v[b]);
    assert hp[j] == (h[c], h[d]);
    CrossRecsContains(vp, hp, i, j);
  }

  /** With strictly increasing limits (as the scan produces them) every candidate has
      x1 < x2 and y1 < y2: the generator never makes inverted or empty rectangles. */
  lemma PotentialRecsProper(v: seq<int>, h: seq<int>)
    requires StrictlyIncreasing(v) && StrictlyIncreasing(h)
    ensures forall r :: r in PotentialRecs(v, h) ==> r.x1 < r.x2 && r.y1 < r.y2
  {
    forall r | r in PotentialRecs(v, h)
      ensures r.x1 < r.x2 && r.y1 < r.y2
    {
      var k :| 0 <= k < |PotentialRecs(v, h)| && PotentialRecs(v, h)[k] == r;
      PotentialRecsSound(v, h, k);
    }
  }

  /** Every candidate lies within the bounds its limits lie within. */
  lemma PotentialRecsWithin(v: seq<int>, h: seq<int>, w: int, ht: int)
    requires forall i :: 0 <= i < |v| ==> 0 <= v[i] < w
    requires forall i :: 0 <= i < |h| ==> 0 <= h[i] < ht
    ensures forall r :: r in PotentialRecs(v, h) ==>
      0 <= r.x1 < w && 0 <= r.x2 < w && 0 <= r.y1 < ht && 0 <= r.y2 < ht
  {
    forall r | r in PotentialRecs(v, h)
      ensures 0 <= r.x1 < w && 0 <= r.x2 < w && 0 <= r.y1 < ht && 0 <= r.y2 < ht
    {
      var k :| 0 <= k < |PotentialRecs(v, h)| && PotentialRecs(v, h)[k] == r;
      PotentialRecsSound(v, h, k);
    }
  }

  /** With strictly increasing limits no two pairs of `combinations(s, 2)` are equal. */
  lemma PairsDistinct(v: seq<int>)
    requires StrictlyIncreasing(v)
    ensures Distinct(Pairs(v))
  {
    var p, ps := PairIndices(|v|), Pairs(v);
    forall k, l | 0 <= k < l < |ps|
      ensures ps[k] != ps[l]
    {
      if p[k].0 < p[l].0 {
        assert v[p[k].0] < v[p[l].0];
      } else {
        assert v[p[k].1] < v[p[l].1];
      }
    }
  }

  /** One vertical pair with different horizontal pairs gives different candidates. */
  lemma RecsForDistinct(vp: (int, int), hp: seq<(int, int)>)
    requires Distinct(hp)
    ensures Distinct(RecsFor(vp, hp))
  {
    var row := RecsFor(vp, hp);
    forall i, j | 0 <= i < j < |row|
      ensures row[i] != row[j]
    {
      assert hp[i] != hp[j];
    }
  }

  /** Different pairs give different candidates: the nested loops never repeat one. */
  lemma {:induction false} CrossRecsDistinct(vp: seq<(int, int)>, hp: seq<(int, int)>)
    requires Distinct(vp) && Distinct(hp)
    ensures Distinct(CrossRecs(vp, hp))
    decreases |vp|
  {
    if |vp| > 0 {
      var row, rest := RecsFor(vp[0], hp), CrossRecs(vp[1..], hp);
      assert CrossRecs(vp, hp) == row + rest;
      assert forall i, j :: 0 <= i < j < |vp[1..]| ==> vp[1..][i] == vp[i + 1] && vp[1..][j] == vp[j + 1];
      CrossRecsDistinct(vp[1..], hp);
      RecsForDistinct(vp[0], hp);
      CrossRecsMembers(vp[1..], hp);
      forall x | x in rest
        ensures (x.x1, x.x2) != vp[0]
      {
        var k :| 0 <= k < |rest| && rest[k] == x;
        assert Combines(rest[k], vp[1..], hp);
        var i, j :| 0 <= i < |vp[1..]| && 0 <= j < |hp| && x == Rect(vp[1..][i].0, hp[j].0, vp[1..][i].1, hp[j].1);
        assert vp[1..][i] == vp[i + 1] && vp[i + 1] != vp[0];
      }
      assert forall x :: x in row ==> (x.x1, x.x2) == vp[0];
      DistinctConcat(row, rest);
    }
  }

  /** With strictly increasing limits `potential_recs` never yields the same candidate twice. */
  lemma PotentialRecsDistinct(v: seq<int>, h: seq<int>)
    requires StrictlyIncreasing(v) && StrictlyIncreasing(h)
    ensures Distinct(PotentialRecs(v, h))
  {
    PairsDistinct(v);
    PairsDistinct(h);
    CrossRecsDistinct(Pairs(v), Pairs(h));
  }
}
