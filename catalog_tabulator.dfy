// The catalog tabulator (catalog/tabulate-catalog.py, steps 1 to 5): stars sorted by
// HIP ID get one-byte indices, every pair at most 84 degrees apart is put into one of
// 840 bins of 0.1 degree, and the bins are serialised into the bytestream that the
// firmware reads, with a bin-to-address lookup table built alongside.
module CatalogTabulator {
  import opened Common

  /** BIN_COUNT: bins of 0.1 degree covering 0 to 84 degrees. */
  const BinCount := 840
  /** Indices are stored in one byte, so at most 256 distinct stars. */
  const MaxStars := 256
  /** BIN_COUNT * BIN_WIDTH: the largest pair angle kept, in degrees. */
  const MaxAngle: real := 84.0
  /** PAIR_SIZE: bytes per pair in a bin. */
  const PairSize := 2

  /** A parsed catalog line: its HIP ID and unit vector. */
  datatype Star = Star(hip: int, v: Vec3)

  /** An `angle_data` entry: the HIP IDs of a pair and their angle in degrees. */
  datatype AngleEntry = AngleEntry(hip1: int, hip2: int, angle: real)

  // ---------------------------------------------------------------------------
  // Step 1: sorting by HIP ID and hip_to_index
  // ---------------------------------------------------------------------------

  predicate SortedByHip(s: seq<Star>)
  {
    forall i, j :: 0 <= i < j < |s| ==> s[i].hip <= s[j].hip
  }

  predicate DistinctHips(s: seq<Star>)
  {
    forall i, j :: 0 <= i < j < |s| ==> s[i].hip != s[j].hip
  }

  /** The HIP IDs occurring in `s`. */
  function HipSet(s: seq<Star>): set<int>
  {
    set i | 0 <= i < |s| :: s[i].hip
  }

  /** `x` placed after every element of `s` whose HIP ID is not larger. */
  function Insert(x: Star, s: seq<Star>): (r: seq<Star>)
    ensures |r| == |s| + 1
    ensures multiset(r) == multiset(s) + multiset{x}
  {
    if s == [] then [x]
    else if x.hip < s[0].hip then [x] + s
    else
      assert s == [s[0]] + s[1..];
      [s[0]] + Insert(x, s[1..])
  }

  lemma SortedCons(a: Star, r: seq<Star>)
    requires SortedByHip(r)
    requires forall k :: 0 <= k < |r| ==> a.hip <= r[k].hip
    ensures SortedByHip([a] + r)
  {
    forall i, j | 0 <= i < j < |[a] + r|
      ensures ([a] + r)[i].hip <= ([a] + r)[j].hip
    {
      if i > 0 {
        assert ([a] + r)[i] == r[i - 1];
      }
      assert ([a] + r)[j] == r[j - 1];
    }
  }

  lemma {:induction false} InsertKeepsSorted(x: Star, s: seq<Star>)
    requires SortedByHip(s)
    ensures SortedByHip(Insert(x, s))
  {
    if s != [] && x.hip >= s[0].hip {
      var rest := Insert(x, s[1..]);
      InsertKeepsSorted(x, s[1..]);
      forall k | 0 <= k < |rest|
        ensures s[0].hip <= rest[k].hip
      {
        assert rest[k] in multiset(rest);
        assert rest[k] == x || rest[k] in multiset(s[1..]);
        if rest[k] != x {
          var m :| 0 <= m < |s[1..]| && s[1..][m] == rest[k];
          assert s[1 + m] == rest[k];
        }
      }
      SortedCons(s[0], rest);
    } else if s != [] {
      SortedCons(x, s);
    }
  }

  /** `unit_vectors.sort(key=lambda x: x[0])`: a stable sort by HIP ID. */
  function SortByHip(s: seq<Star>): (r: seq<Star>)
    ensures |r| == |s|
    ensures multiset(r) == multiset(s)
  {
    if s == [] then []
    else
      assert s == s[..|s| - 1] + [s[|s| - 1]];
      Insert(s[|s| - 1], SortByHip(s[..|s| - 1]))
  }

  /** The sort's result is ordered by HIP ID and a permutation of its input. */
  lemma {:induction false} SortByHipSorts(s: seq<Star>)
    ensures SortedByHip(SortByHip(s))
    ensures multiset(SortByHip(s)) == multiset(s)
  {
    if s != [] {
      SortByHipSorts(s[..|s| - 1]);
      InsertKeepsSorted(s[|s| - 1], SortByHip(s[..|s| - 1]));
    }
  }

  /** The dict comprehension `{hip: idx for idx, (hip, _) in enumerate(unit_vectors)}`:
      a later position overwrites an earlier one with the same HIP ID. */
  function HipToIndex(s: seq<Star>): (m: map<int, nat>)
    ensures forall h :: h in m ==> m[h] < |s| && s[m[h]].hip == h
    ensures forall i :: 0 <= i < |s| ==> s[i].hip in m && i <= m[s[i].hip]
  {
    if s == [] then map[]
    else HipToIndex(s[..|s| - 1])[s[|s| - 1].hip := |s| - 1]
  }

  /** The keys of `hip_to_index` are the HIP IDs of the stars. */
  lemma HipToIndexKeys(s: seq<Star>)
    ensures HipToIndex(s).Keys == HipSet(s)
  {
    var m := HipToIndex(s);
    forall h | h in m
      ensures h in HipSet(s)
    {
      assert s[m[h]].hip == h;
    }
  }

  /** Every star of a duplicate-free list is mapped to its own position. */
  lemma HipToIndexOfDistinct(s: seq<Star>)
    requires DistinctHips(s)
    ensures forall i :: 0 <= i < |s| ==> HipToIndex(s)[s[i].hip] == i
  {
    var m := HipToIndex(s);
    forall i | 0 <= i < |s|
      ensures m[s[i].hip] == i
    {
      var k := m[s[i].hip];
      assert s[k].hip == s[i].hip && i <= k;
    }
  }

  /** Whether `t` is duplicate-free, in terms of its last element and the rest. */
  lemma DistinctSnoc(t: seq<Star>)
    requires t != []
    ensures DistinctHips(t) <==>
      DistinctHips(t[..|t| - 1]) && t[|t| - 1].hip !in HipSet(t[..|t| - 1])
  {
    var s := t[..|t| - 1];
    if DistinctHips(t) {
      assert forall i, j :: 0 <= i < j < |s| ==> s[i] == t[i] && s[j] == t[j];
    }
    if DistinctHips(s) && t[|t| - 1].hip !in HipSet(s) {
      forall i, j | 0 <= i < j < |t|
        ensures t[i].hip != t[j].hip
      {
        if j < |s| {
          assert t[i] == s[i] && t[j] == s[j];
        } else {
          assert t[i] == s[i] && s[i].hip in HipSet(s);
        }
      }
    }
  }

  /** `len(hip_to_index)` is at most the number of stars, and equal to it exactly when no
      HIP ID occurs twice. */
  lemma {:induction false} HipCount(s: seq<Star>)
    ensures |HipToIndex(s)| <= |s|
    ensures |HipToIndex(s)| == |s| <==> DistinctHips(s)
  {
    if s != [] {
      var init := s[..|s| - 1];
      var x := s[|s| - 1];
      HipCount(init);
      var k0 := HipToIndex(init).Keys;
      var k := HipToIndex(s).Keys;
      assert k == k0 + {x.hip};
      HipToIndexKeys(init);
      DistinctSnoc(s);
      if x.hip in k0 {
        assert k == k0;
      } else {
        assert |k| == |k0| + 1;
      }
    }
  }

  /** A sorted list without duplicates is strictly increasing in HIP ID. */
  lemma SortedDistinctIsIncreasing(s: seq<Star>)
    requires SortedByHip(s) && DistinctHips(s)
    ensures forall i, j :: 0 <= i < j < |s| ==> s[i].hip < s[j].hip
  {
  }

  // ---------------------------------------------------------------------------
  // Step 2: pair enumeration
  // ---------------------------------------------------------------------------

  /** Whether the pair at positions i, j is kept: `angle_deg <= BIN_COUNT * BIN_WIDTH`. */
  predicate Kept(s: seq<Star>, pairAngle: (Vec3, Vec3) -> real, i: nat, j: nat)
    requires i < |s| && j < |s|
  {
    pairAngle(s[i].v, s[j].v) <= MaxAngle
  }

  /** Every pair is within 84 degrees. */
  predicate AllKept(s: seq<Star>, pairAngle: (Vec3, Vec3) -> real)
  {
    forall a: nat, b: nat :: a < b < |s| ==> Kept(s, pairAngle, a, b)
  }

  /** Every position in `qs` names two of the n stars. */
  predicate PositionsBelow(qs: seq<(nat, nat)>, n: nat)
  {
    qs == [] || (PositionsBelow(qs[..|qs| - 1], n) && qs[|qs| - 1].0 < n && qs[|qs| - 1].1 < n)
  }

  lemma {:induction false} PositionsBelowAt(qs: seq<(nat, nat)>, n: nat)
    requires PositionsBelow(qs, n)
    ensures forall k :: 0 <= k < |qs| ==> qs[k].0 < n && qs[k].1 < n
  {
    if qs != [] {
      var init := qs[..|qs| - 1];
      PositionsBelowAt(init, n);
      assert forall k :: 0 <= k < |init| ==> init[k] == qs[k];
    }
  }

  lemma {:induction false} PositionsBelowAppend(qs: seq<(nat, nat)>, rs: seq<(nat, nat)>, n: nat)
    requires PositionsBelow(qs, n) && PositionsBelow(rs, n)
    ensures PositionsBelow(qs + rs, n)
    decreases |rs|
  {
    if rs == [] {
      assert qs + rs == qs;
    } else {
      var init := rs[..|rs| - 1];
      PositionsBelowAppend(qs, init, n);
      assert (qs + rs)[..|qs + rs| - 1] == qs + init;
    }
  }

  /** The kept pairs of row i, as positions (i, k) for k = i+1 .. j-1. */
  function RowPairs(s: seq<Star>, pairAngle: (Vec3, Vec3) -> real, i: nat, j: nat): (r: seq<(nat, nat)>)
    requires i < |s| && j <= |s|
    ensures PositionsBelow(r, |s|)
    decreases j
  {
    if j <= i + 1 then []
    else
      var done := RowPairs(s, pairAngle, i, j - 1);
      if Kept(s, pairAngle, i, j - 1) then
        assert (done + [(i, j - 1)])[..|done|] == done;
        done + [(i, j - 1)]
      else done
  }

  /** The kept pairs of rows 0 .. i-1, in the order of the two nested loops. */
  function PairPositions(s: seq<Star>, pairAngle: (Vec3, Vec3) -> real, i: nat): (r: seq<(nat, nat)>)
    requires i <= |s|
    ensures PositionsBelow(r, |s|)
  {
    if i == 0 then []
    else
      var init := PairPositions(s, pairAngle, i - 1);
      var row := RowPairs(s, pairAngle, i - 1, |s|);
      PositionsBelowAppend(init, row, |s|);
      init + row
  }

  function Entry(s: seq<Star>, pairAngle: (Vec3, Vec3) -> real, q: (nat, nat)): AngleEntry
    requires q.0 < |s| && q.1 < |s|
  {
    AngleEntry(s[q.0].hip, s[q.1].hip, pairAngle(s[q.0].v, s[q.1].v))
  }

  /** The `angle_data` entries of the pairs at positions `qs`. */
  function Entries(s: seq<Star>, pairAngle: (Vec3, Vec3) -> real, qs: seq<(nat, nat)>): (r: seq<AngleEntry>)
    requires PositionsBelow(qs, |s|)
    ensures |r| == |qs|
  {
    if qs == [] then [] else Entries(s, pairAngle, qs[..|qs| - 1]) + [Entry(s, pairAngle, qs[|qs| - 1])]
  }

  /** Entry k of `Entries` is the entry of the k-th position pair. */
  lemma {:induction false} EntriesAt(s: seq<Star>, pairAngle: (Vec3, Vec3) -> real, qs: seq<(nat, nat)>)
    requires PositionsBelow(qs, |s|)
    ensures forall k :: 0 <= k < |qs| ==> qs[k].0 < |s| && qs[k].1 < |s|
    ensures forall k :: 0 <= k < |qs| ==> Entries(s, pairAngle, qs)[k] == Entry(s, pairAngle, qs[k])
  {
    if qs != [] {
      var init := qs[..|qs| - 1];
      EntriesAt(s, pairAngle, init);
      assert forall k :: 0 <= k < |init| ==> init[k] == qs[k];
    }
  }

  /** `(a, b)` precedes `(c, d)` in row-major order. */
  predicate RowMajorBefore(p: (nat, nat), q: (nat, nat))
  {
    p.0 < q.0 || (p.0 == q.0 && p.1 < q.1)
  }

  lemma {:induction false} RowPairsElements(s: seq<Star>, pairAngle: (Vec3, Vec3) -> real, i: nat, j: nat)
    requires i < |s| && j <= |s|
    ensures forall k :: 0 <= k < |RowPairs(s, pairAngle, i, j)| ==>
      RowPairs(s, pairAngle, i, j)[k].0 == i && i < RowPairs(s, pairAngle, i, j)[k].1 < j
    ensures forall k, l :: 0 <= k < l < |RowPairs(s, pairAngle, i, j)| ==>
      RowPairs(s, pairAngle, i, j)[k].1 < RowPairs(s, pairAngle, i, j)[l].1
    decreases j
  {
    if j > i + 1 {
      RowPairsElements(s, pairAngle, i, j - 1);
    }
  }

  lemma {:induction false} RowPairsMember(s: seq<Star>, pairAngle: (Vec3, Vec3) -> real, i: nat, j: nat, a: nat, b: nat)
    requires i < |s| && j <= |s|
    ensures (a, b) in RowPairs(s, pairAngle, i, j) <==> a == i && i < b < j && Kept(s, pairAngle, i, b)
    decreases j
  {
    if j > i + 1 {
      RowPairsMember(s, pairAngle, i, j - 1, a, b);
      var done := RowPairs(s, pairAngle, i, j - 1);
      var add: seq<(nat, nat)> := if Kept(s, pairAngle, i, j - 1) then [(i, j - 1)] else [];
      assert RowPairs(s, pairAngle, i, j) == done + add;
      assert (a, b) in done + add <==> (a, b) in done || (a, b) in add;
    }
  }

  lemma {:induction false} RowPairsLength(s: seq<Star>, pairAngle: (Vec3, Vec3) -> real, i: nat, j: nat)
    requires i < j <= |s|
    ensures |RowPairs(s, pairAngle, i, j)| <= j - i - 1
    ensures (forall m: nat :: i < m < j ==> Kept(s, pairAngle, i, m)) ==>
      |RowPairs(s, pairAngle, i, j)| == j - i - 1
    decreases j
  {
    if j > i + 1 {
      RowPairsLength(s, pairAngle, i, j - 1);
    }
  }

  lemma {:induction false} PairPositionsRowsBelow(s: seq<Star>, pairAngle: (Vec3, Vec3) -> real, i: nat)
    requires i <= |s|
    ensures forall k :: 0 <= k < |PairPositions(s, pairAngle, i)| ==>
      PairPositions(s, pairAngle, i)[k].0 < i
  {
    if i > 0 {
      var init: seq<(nat, nat)> := PairPositions(s, pairAngle, i - 1);
      var row: seq<(nat, nat)> := RowPairs(s, pairAngle, i - 1, |s|);
      PairPositionsRowsBelow(s, pairAngle, i - 1);
      RowPairsElements(s, pairAngle, i - 1, |s|);
      forall k | 0 <= k < |init + row|
        ensures (init + row)[k].0 < i
      {
        if k >= |init| {
          assert (init + row)[k] == row[k - |init|];
        }
      }
    }
  }

  lemma {:induction false} PairPositionsOrdered(s: seq<Star>, pairAngle: (Vec3, Vec3) -> real, i: nat)
    requires i <= |s|
    ensures forall k, l :: 0 <= k < l < |PairPositions(s, pairAngle, i)| ==>
      RowMajorBefore(PairPositions(s, pairAngle, i)[k], PairPositions(s, pairAngle, i)[l])
  {
    if i > 0 {
      var init: seq<(nat, nat)> := PairPositions(s, pairAngle, i - 1);
      var row: seq<(nat, nat)> := RowPairs(s, pairAngle, i - 1, |s|);
      PairPositionsOrdered(s, pairAngle, i - 1);
      PairPositionsRowsBelow(s, pairAngle, i - 1);
      RowPairsElements(s, pairAngle, i - 1, |s|);
      forall k, l | 0 <= k < l < |init + row|
        ensures RowMajorBefore((init + row)[k], (init + row)[l])
      {
        if l < |init| {
          assert (init + row)[k] == init[k] && (init + row)[l] == init[l];
        } else if k < |init| {
          assert (init + row)[k] == init[k] && (init + row)[l] == row[l - |init|];
        } else {
          assert (init + row)[k] == row[k - |init|] && (init + row)[l] == row[l - |init|];
        }
      }
    }
  }

  lemma {:induction false} PairPositionsMember(s: seq<Star>, pairAngle: (Vec3, Vec3) -> real, i: nat, a: nat, b: nat)
    requires i <= |s|
    ensures (a, b) in PairPositions(s, pairAngle, i) <==> a < i && a < b < |s| && Kept(s, pairAngle, a, b)
  {
    if i > 0 {
      var init: seq<(nat, nat)> := PairPositions(s, pairAngle, i - 1);
      var row: seq<(nat, nat)> := RowPairs(s, pairAngle, i - 1, |s|);
      assert PairPositions(s, pairAngle, i) == init + row;
      PairPositionsMember(s, pairAngle, i - 1, a, b);
      RowPairsMember(s, pairAngle, i - 1, |s|, a, b);
      MemberOfConcat((a, b), init, row,
        a < i - 1 && a < b < |s| && Kept(s, pairAngle, a, b),
        a == i - 1 && i - 1 < b < |s| && Kept(s, pairAngle, i - 1, b));
    }
  }

  lemma MemberOfConcat(x: (nat, nat), u: seq<(nat, nat)>, w: seq<(nat, nat)>, inU: bool, inW: bool)
    requires (x in u <==> inU) && (x in w <==> inW)
    ensures x in u + w <==> inU || inW
  {
  }

  /** Step 2's promise: `angle_data` holds, in row-major order of positions, each pair i < j
      whose angle is at most 84 degrees, exactly once. */
  lemma PairEnumeration(s: seq<Star>, pairAngle: (Vec3, Vec3) -> real)
    ensures var ps := PairPositions(s, pairAngle, |s|);
      (forall a: nat, b: nat :: (a, b) in ps <==> a < b < |s| && Kept(s, pairAngle, a, b))
      && (forall k, l :: 0 <= k < l < |ps| ==> RowMajorBefore(ps[k], ps[l]))
  {
    forall a: nat, b: nat
      ensures (a, b) in PairPositions(s, pairAngle, |s|) <==> a < b < |s| && Kept(s, pairAngle, a, b)
    {
      PairPositionsMember(s, pairAngle, |s|, a, b);
    }
    PairPositionsOrdered(s, pairAngle, |s|);
  }

  /** The pairs i < j with i among rows 0 .. i-1 of an n-star catalog: `n-1 + n-2 + ...`. */
  function PossiblePairs(n: nat, i: nat): nat
    requires i <= n
  {
    if i == 0 then 0 else PossiblePairs(n, i - 1) + (n - i)
  }

  lemma {:induction false} PossiblePairsFormula(n: nat, i: nat)
    requires i <= n
    ensures 2 * PossiblePairs(n, i) == i * (2 * n - i - 1)
  {
    if i > 0 {
      PossiblePairsFormula(n, i - 1);
      assert (i - 1) * (2 * n - (i - 1) - 1) + 2 * (n - i) == i * (2 * n - i - 1);
    }
  }

  /** Rows 0 .. i-1 keep at most all their pairs, and all of them when every angle is at
      most 84 degrees. */
  lemma {:induction false} PairCount(s: seq<Star>, pairAngle: (Vec3, Vec3) -> real, i: nat)
    requires i <= |s|
    ensures |PairPositions(s, pairAngle, i)| <= PossiblePairs(|s|, i)
    ensures AllKept(s, pairAngle) ==>
      |PairPositions(s, pairAngle, i)| == PossiblePairs(|s|, i)
  {
    if i > 0 {
      var r: nat := i - 1;
      var init := PairPositions(s, pairAngle, r);
      var row := RowPairs(s, pairAngle, r, |s|);
      assert PairPositions(s, pairAngle, i) == init + row;
      assert PossiblePairs(|s|, i) == PossiblePairs(|s|, r) + (|s| - i);
      PairCount(s, pairAngle, r);
      RowPairsLength(s, pairAngle, r, |s|);
      if AllKept(s, pairAngle) {
        forall m: nat | r < m < |s|
          ensures Kept(s, pairAngle, r, m)
        {
        }
      }
    }
  }

  /** At most `n(n-1)/2` pairs are kept (`total_pairs_possible`), and all of them when
      every angle is at most 84 degrees. */
  lemma TotalPairsPossible(s: seq<Star>, pairAngle: (Vec3, Vec3) -> real)
    ensures |PairPositions(s, pairAngle, |s|)| <= |s| * (|s| - 1) / 2
    ensures AllKept(s, pairAngle) ==>
      |PairPositions(s, pairAngle, |s|)| == |s| * (|s| - 1) / 2
  {
    PairCount(s, pairAngle, |s|);
    PossiblePairsFormula(|s|, |s|);
  }

  lemma EntriesSnoc(s: seq<Star>, pairAngle: (Vec3, Vec3) -> real, qs: seq<(nat, nat)>, q: (nat, nat))
    requires PositionsBelow(qs, |s|) && q.0 < |s| && q.1 < |s|
    ensures PositionsBelow(qs + [q], |s|)
    ensures Entries(s, pairAngle, qs + [q]) == Entries(s, pairAngle, qs) + [Entry(s, pairAngle, q)]
  {
    assert (qs + [q])[..|qs|] == qs;
  }

  lemma {:induction false} EntriesAppend(s: seq<Star>, pairAngle: (Vec3, Vec3) -> real, qs: seq<(nat, nat)>, rs: seq<(nat, nat)>)
    requires PositionsBelow(qs, |s|) && PositionsBelow(rs, |s|)
    ensures PositionsBelow(qs + rs, |s|)
    ensures Entries(s, pairAngle, qs + rs) == Entries(s, pairAngle, qs) + Entries(s, pairAngle, rs)
    decreases |rs|
  {
    PositionsBelowAppend(qs, rs, |s|);
    if rs == [] {
      assert qs + rs == qs;
    } else {
      var init := rs[..|rs| - 1];
      EntriesAppend(s, pairAngle, qs, init);
      assert (qs + rs)[..|qs + rs| - 1] == qs + init;
      assert (qs + rs)[|qs + rs| - 1] == rs[|rs| - 1];
    }
  }

  lemma EntriesRowStep(s: seq<Star>, pairAngle: (Vec3, Vec3) -> real, i: nat, j: nat)
    requires i < j < |s|
    ensures Entries(s, pairAngle, RowPairs(s, pairAngle, i, j + 1)) ==
      Entries(s, pairAngle, RowPairs(s, pairAngle, i, j)) +
      (if Kept(s, pairAngle, i, j) then [AngleEntry(s[i].hip, s[j].hip, pairAngle(s[i].v, s[j].v))] else [])
  {
    var done := RowPairs(s, pairAngle, i, j);
    if Kept(s, pairAngle, i, j) {
      EntriesSnoc(s, pairAngle, done, (i, j));
    } else {
      assert RowPairs(s, pairAngle, i, j + 1) == done;
    }
  }

  /** The inner loop of step 2 for row i: the kept pairs (i, j), j = i+1 .. n-1. */
  method EnumerateRow(s: seq<Star>, pairAngle: (Vec3, Vec3) -> real, i: nat) returns (row: seq<AngleEntry>)
    requires i < |s|
    ensures row == Entries(s, pairAngle, RowPairs(s, pairAngle, i, |s|))
  {
    row := [];
    var j := i + 1;
    assert Entries(s, pairAngle, []) == [];
    while j < |s|
      invariant i + 1 <= j <= |s|
      invariant row == Entries(s, pairAngle, RowPairs(s, pairAngle, i, j))
    {
      var angle := pairAngle(s[i].v, s[j].v);
      assert Kept(s, pairAngle, i, j) <==> angle <= MaxAngle;
      EntriesRowStep(s, pairAngle, i, j);
      if angle <= MaxAngle {
        row := row + [AngleEntry(s[i].hip, s[j].hip, angle)];
      }
      j := j + 1;
    }
  }

  /** The two nested loops of step 2. */
  method EnumeratePairs(s: seq<Star>, pairAngle: (Vec3, Vec3) -> real) returns (angleData: seq<AngleEntry>)
    ensures angleData == Entries(s, pairAngle, PairPositions(s, pairAngle, |s|))
  {
    angleData := [];
    var i := 0;
    while i < |s|
      invariant 0 <= i <= |s|
      invariant angleData == Entries(s, pairAngle, PairPositions(s, pairAngle, i))
    {
      var row := EnumerateRow(s, pairAngle, i);
      ghost var done := PairPositions(s, pairAngle, i);
      ghost var added := RowPairs(s, pairAngle, i, |s|);
      EntriesAppend(s, pairAngle, done, added);
      angleData := angleData + row;
      assert angleData == Entries(s, pairAngle, done + added);
      assert PairPositions(s, pairAngle, i + 1) == done + added;
      i := i + 1;
    }
  }

  // ---------------------------------------------------------------------------
  // Step 3: binning by angle
  // ---------------------------------------------------------------------------

  /** Both HIP IDs of every entry have an index. */
  predicate HipsIndexed(ad: seq<AngleEntry>, h2i: map<int, nat>)
  {
    forall k :: 0 <= k < |ad| ==> ad[k].hip1 in h2i && ad[k].hip2 in h2i
  }

  lemma HipsIndexedPrefix(ad: seq<AngleEntry>, h2i: map<int, nat>, k: nat)
    requires HipsIndexed(ad, h2i) && k <= |ad|
    ensures HipsIndexed(ad[..k], h2i)
  {
    assert forall m :: 0 <= m < k ==> ad[..k][m] == ad[m];
  }

  /** `(hip_to_index[hip1], hip_to_index[hip2])`. */
  function IndexPairOf(e: AngleEntry, h2i: map<int, nat>): (nat, nat)
    requires e.hip1 in h2i && e.hip2 in h2i
  {
    (h2i[e.hip1], h2i[e.hip2])
  }

  /** `[[] for _ in range(BIN_COUNT)]`. */
  function EmptyBins(): (r: seq<seq<(nat, nat)>>)
    ensures |r| == BinCount
    ensures forall b :: 0 <= b < BinCount ==> r[b] == []
  {
    seq(BinCount, _ => [])
  }

  /** `binned` after the binning loop has processed every entry of `ad`. */
  function Binned(ad: seq<AngleEntry>, h2i: map<int, nat>, binOf: real -> int): (r: seq<seq<(nat, nat)>>)
    requires HipsIndexed(ad, h2i)
    ensures |r| == BinCount
  {
    if ad == [] then EmptyBins()
    else
      HipsIndexedPrefix(ad, h2i, |ad| - 1);
      var bins := Binned(ad[..|ad| - 1], h2i, binOf);
      var e := ad[|ad| - 1];
      var b := binOf(e.angle);
      if 0 <= b < BinCount then bins[b := bins[b] + [IndexPairOf(e, h2i)]] else bins
  }

  /** The index pairs of the entries of `ad` whose angle falls in bin b, in `ad`'s order. */
  function BinContents(ad: seq<AngleEntry>, h2i: map<int, nat>, binOf: real -> int, b: int): seq<(nat, nat)>
    requires HipsIndexed(ad, h2i)
  {
    if ad == [] then []
    else
      HipsIndexedPrefix(ad, h2i, |ad| - 1);
      var e := ad[|ad| - 1];
      BinContents(ad[..|ad| - 1], h2i, binOf, b) + (if binOf(e.angle) == b then [IndexPairOf(e, h2i)] else [])
  }

  /** Step 3's promise: bin b holds exactly the pairs whose angle falls in bin b, in
      `angle_data` order; an entry whose bin is outside 0..839 is dropped. */
  lemma {:induction false} BinnedIsFilter(ad: seq<AngleEntry>, h2i: map<int, nat>, binOf: real -> int)
    requires HipsIndexed(ad, h2i)
    ensures forall b :: 0 <= b < BinCount ==> Binned(ad, h2i, binOf)[b] == BinContents(ad, h2i, binOf, b)
  {
    if ad != [] {
      HipsIndexedPrefix(ad, h2i, |ad| - 1);
      BinnedIsFilter(ad[..|ad| - 1], h2i, binOf);
    }
  }

  /** Total number of pairs over a list of bins (`total_pairs`). */
  function SumLens(bins: seq<seq<(nat, nat)>>): nat
  {
    if bins == [] then 0 else SumLens(bins[..|bins| - 1]) + |bins[|bins| - 1]|
  }

  lemma {:induction false} SumLensAppendOne(bins: seq<seq<(nat, nat)>>, b: nat, q: (nat, nat))
    requires b < |bins|
    ensures SumLens(bins[b := bins[b] + [q]]) == SumLens(bins) + 1
  {
    var bins' := bins[b := bins[b] + [q]];
    assert bins'[..|bins| - 1] == if b == |bins| - 1 then bins[..|bins| - 1]
      else bins[..|bins| - 1][b := bins[b] + [q]];
    if b < |bins| - 1 {
      SumLensAppendOne(bins[..|bins| - 1], b, q);
    }
  }

  lemma {:induction false} SumLensEmpty(k: nat)
    requires k <= BinCount
    ensures SumLens(EmptyBins()[..k]) == 0
  {
    if k > 0 {
      assert EmptyBins()[..k][..k - 1] == EmptyBins()[..k - 1];
      SumLensEmpty(k - 1);
    }
  }

  /** The entries of `ad` whose bin index lies in 0..839. */
  function InRangeCount(ad: seq<AngleEntry>, binOf: real -> int): nat
  {
    if ad == [] then 0
    else InRangeCount(ad[..|ad| - 1], binOf) + (if 0 <= binOf(ad[|ad| - 1].angle) < BinCount then 1 else 0)
  }

  /** Every entry whose bin is in range lands in exactly one bin. */
  lemma {:induction false} BinnedTotal(ad: seq<AngleEntry>, h2i: map<int, nat>, binOf: real -> int)
    requires HipsIndexed(ad, h2i)
    ensures SumLens(Binned(ad, h2i, binOf)) == InRangeCount(ad, binOf) <= |ad|
  {
    if ad == [] {
      SumLensEmpty(BinCount);
      assert EmptyBins()[..BinCount] == EmptyBins();
    } else {
      HipsIndexedPrefix(ad, h2i, |ad| - 1);
      BinnedTotal(ad[..|ad| - 1], h2i, binOf);
      var bins := Binned(ad[..|ad| - 1], h2i, binOf);
      var e := ad[|ad| - 1];
      var b := binOf(e.angle);
      if 0 <= b < BinCount {
        SumLensAppendOne(bins, b, IndexPairOf(e, h2i));
      }
    }
  }

  lemma BinnedSnoc(ad: seq<AngleEntry>, h2i: map<int, nat>, binOf: real -> int, k: nat)
    requires HipsIndexed(ad, h2i) && k < |ad|
    ensures HipsIndexed(ad[..k], h2i) && HipsIndexed(ad[..k + 1], h2i)
    ensures var bins := Binned(ad[..k], h2i, binOf);
      var b := binOf(ad[k].angle);
      Binned(ad[..k + 1], h2i, binOf) ==
        if 0 <= b < BinCount then bins[b := bins[b] + [IndexPairOf(ad[k], h2i)]] else bins
  {
    HipsIndexedPrefix(ad, h2i, k);
    HipsIndexedPrefix(ad, h2i, k + 1);
    assert ad[..k + 1][..k] == ad[..k];
  }

  /** The binning loop of step 3. */
  method BinPairs(ad: seq<AngleEntry>, h2i: map<int, nat>, binOf: real -> int) returns (binned: seq<seq<(nat, nat)>>)
    requires HipsIndexed(ad, h2i)
    ensures binned == Binned(ad, h2i, binOf)
  {
    binned := seq(BinCount, _ => []);
    var k := 0;
    assert ad[..0] == [];
    while k < |ad|
      invariant 0 <= k <= |ad|
      invariant HipsIndexed(ad[..k], h2i)
      invariant binned == Binned(ad[..k], h2i, binOf)
    {
      var e := ad[k];
      var bin := binOf(e.angle);
      assert binOf(ad[k].angle) == bin;
      BinnedSnoc(ad, h2i, binOf, k);
      if 0 <= bin < BinCount {
        var idx1 := h2i[e.hip1];
        var idx2 := h2i[e.hip2];
        binned := binned[bin := binned[bin] + [(idx1, idx2)]];
      }
      k := k + 1;
    }
    assert ad[..|ad|] == ad;
  }

  // ---------------------------------------------------------------------------
  // Step 4: the bytestream and bin_angle_to_address_lut
  // ---------------------------------------------------------------------------

  /** The `idx1 & 0xFF, idx2 & 0xFF` bytes of a bin's pairs, in order. */
  function PairBytes(bin: seq<(nat, nat)>): (r: seq<byte>)
    ensures |r| == 2 * |bin|
  {
    if bin == [] then []
    else PairBytes(bin[..|bin| - 1]) + [bin[|bin| - 1].0 % 256, bin[|bin| - 1].1 % 256]
  }

  /** One serialised bin: `num_pairs & 0xFF`, then its pair bytes. */
  function BinBytes(bin: seq<(nat, nat)>): (r: seq<byte>)
    ensures |r| == 1 + 2 * |bin|
  {
    [|bin| % 256] + PairBytes(bin)
  }

  /** The bytestream once bins 0 .. k-1 are serialised. */
  function Stream(binned: seq<seq<(nat, nat)>>, k: nat): seq<byte>
    requires k <= |binned|
  {
    if k == 0 then [] else Stream(binned, k - 1) + BinBytes(binned[k - 1])
  }

  /** The stream of bins 0 .. k-1 is one count byte per bin plus two bytes per pair. */
  lemma {:induction false} StreamSize(binned: seq<seq<(nat, nat)>>, k: nat)
    requires k <= |binned|
    ensures |Stream(binned, k)| == k + 2 * SumLens(binned[..k])
  {
    if k > 0 {
      StreamSize(binned, k - 1);
      assert binned[..k][..k - 1] == binned[..k - 1];
    }
  }

  /** The lookup table once bins 0 .. k-1 are serialised: each bin's start address. */
  function Addresses(binned: seq<seq<(nat, nat)>>, k: nat): (r: seq<nat>)
    requires k <= |binned|
    ensures |r| == k
  {
    if k == 0 then [] else Addresses(binned, k - 1) + [|Stream(binned, k - 1)|]
  }

  /** Entry b of the table is the length of the stream of bins before b. */
  lemma {:induction false} AddressesAt(binned: seq<seq<(nat, nat)>>, k: nat)
    requires k <= |binned|
    ensures forall b :: 0 <= b < k ==> Addresses(binned, k)[b] == |Stream(binned, b)|
  {
    if k > 0 {
      AddressesAt(binned, k - 1);
    }
  }

  lemma {:induction false} StreamGrows(binned: seq<seq<(nat, nat)>>, b: nat, c: nat)
    requires b < c <= |binned|
    ensures |Stream(binned, b)| < |Stream(binned, c)|
    decreases c
  {
    if b < c - 1 {
      StreamGrows(binned, b, c - 1);
    }
  }

  /** Consecutive addresses differ by the size of the bin between them. */
  lemma AddressStep(binned: seq<seq<(nat, nat)>>, b: nat)
    requires b + 1 < |binned|
    ensures Addresses(binned, |binned|)[b + 1] == Addresses(binned, |binned|)[b] + 1 + 2 * |binned[b]|
  {
    AddressesAt(binned, |binned|);
    assert Stream(binned, b + 1) == Stream(binned, b) + BinBytes(binned[b]);
  }

  /** The address LUT has one entry per bin, starts at 0, advances by `1 + 2·len(bin b)`
      and is strictly increasing; entry b is `b + 2·(pairs in bins before b)`. */
  lemma AddressLutShape(binned: seq<seq<(nat, nat)>>)
    requires |binned| == BinCount
    ensures var lut := Addresses(binned, |binned|);
      |lut| == BinCount && lut[0] == 0
      && (forall b :: 0 <= b < BinCount - 1 ==> lut[b + 1] == lut[b] + 1 + 2 * |binned[b]|)
      && (forall b :: 0 <= b < BinCount ==> lut[b] == b + 2 * SumLens(binned[..b]))
      && (forall b, c :: 0 <= b < c < BinCount ==> lut[b] < lut[c])
  {
    var lut := Addresses(binned, |binned|);
    AddressesAt(binned, |binned|);
    forall b | 0 <= b < BinCount - 1
      ensures lut[b + 1] == lut[b] + 1 + 2 * |binned[b]|
    {
      AddressStep(binned, b);
    }
    forall b, c | 0 <= b < c < BinCount
      ensures lut[b] < lut[c]
    {
      StreamGrows(binned, b, c);
    }
    forall b | 0 <= b < BinCount
      ensures lut[b] == b + 2 * SumLens(binned[..b])
    {
      StreamSize(binned, b);
    }
  }

  /** The stream of the first b bins is a prefix of the stream of the first k bins. */
  lemma {:induction false} StreamPrefix(binned: seq<seq<(nat, nat)>>, b: nat, k: nat)
    requires b <= k <= |binned|
    ensures |Stream(binned, b)| <= |Stream(binned, k)|
    ensures Stream(binned, k)[..|Stream(binned, b)|] == Stream(binned, b)
    decreases k
  {
    if b < k {
      StreamPrefix(binned, b, k - 1);
      var before := Stream(binned, k - 1);
      assert Stream(binned, k) == before + BinBytes(binned[k - 1]);
      assert (before + BinBytes(binned[k - 1]))[..|before|] == before;
    }
  }

  lemma {:induction false} PairBytesAt(bin: seq<(nat, nat)>)
    ensures forall t :: 0 <= t < |bin| ==>
      PairBytes(bin)[2 * t] == bin[t].0 % 256 && PairBytes(bin)[2 * t + 1] == bin[t].1 % 256
  {
    if bin != [] {
      var init := bin[..|bin| - 1];
      PairBytesAt(init);
      assert forall t :: 0 <= t < |init| ==> init[t] == bin[t];
    }
  }

  lemma BinBytesAt(bin: seq<(nat, nat)>, t: nat)
    requires t < |bin|
    ensures BinBytes(bin)[1 + 2 * t] == bin[t].0 % 256 && BinBytes(bin)[2 + 2 * t] == bin[t].1 % 256
  {
    PairBytesAt(bin);
    assert BinBytes(bin)[1 + 2 * t] == PairBytes(bin)[2 * t];
    assert BinBytes(bin)[2 + 2 * t] == PairBytes(bin)[2 * t + 1];
  }

  /** Byte m of bin b's serialisation sits at offset `|Stream(binned, b)| + m` in the
      whole bytestream. */
  lemma StreamBinAt(binned: seq<seq<(nat, nat)>>, b: nat, k: nat, m: nat)
    requires b < k <= |binned| && m < 1 + 2 * |binned[b]|
    ensures |Stream(binned, b)| + m < |Stream(binned, k)|
    ensures Stream(binned, k)[|Stream(binned, b)| + m] == BinBytes(binned[b])[m]
  {
    StreamPrefix(binned, b + 1, k);
    var upTo := Stream(binned, b + 1);
    var before := Stream(binned, b);
    assert upTo == before + BinBytes(binned[b]);
    IndexInPrefix(Stream(binned, k), upTo, |before| + m);
  }

  lemma IndexInPrefix(w: seq<byte>, p: seq<byte>, i: nat)
    requires |p| <= |w| && w[..|p|] == p && i < |p|
    ensures w[i] == p[i]
  {
    assert w[..|p|][i] == w[i];
  }

  /** The byte layout of bin b at `lut[b]`: its count byte, then its pairs' index bytes. */
  lemma StreamLayout(binned: seq<seq<(nat, nat)>>, b: nat)
    requires |binned| == BinCount && b < BinCount
    ensures var stream := Stream(binned, |binned|);
      var a := Addresses(binned, |binned|)[b];
      a < |stream| && stream[a] == |binned[b]| % 256 && HoldsPairs(stream, a, binned[b])
  {
    AddressesAt(binned, |binned|);
    var bin := binned[b];
    var stream := Stream(binned, |binned|);
    var a := Addresses(binned, |binned|)[b];
    assert a == |Stream(binned, b)|;
    StreamBinAt(binned, b, |binned|, 0);
    StreamBinAt(binned, b, |binned|, 2 * |bin|);
    forall t | 0 <= t < |bin|
      ensures stream[a + 1 + 2 * t] == bin[t].0 % 256 && stream[a + 2 + 2 * t] == bin[t].1 % 256
    {
      StreamPairAt(binned, b, |binned|, t);
    }
  }

  /** Pair t of bin b sits at offsets `1 + 2t` and `2 + 2t` past the bin's start. */
  lemma StreamPairAt(binned: seq<seq<(nat, nat)>>, b: nat, k: nat, t: nat)
    requires b < k <= |binned| && t < |binned[b]|
    ensures |Stream(binned, b)| + 2 + 2 * t < |Stream(binned, k)|
    ensures Stream(binned, k)[|Stream(binned, b)| + 1 + 2 * t] == binned[b][t].0 % 256
    ensures Stream(binned, k)[|Stream(binned, b)| + 2 + 2 * t] == binned[b][t].1 % 256
  {
    StreamBinAt(binned, b, k, 1 + 2 * t);
    StreamBinAt(binned, b, k, 2 + 2 * t);
    BinBytesAt(binned[b], t);
  }


  /** `len(bytestream) == BIN_COUNT + 2 * total_pairs`. */
  lemma StreamLength(binned: seq<seq<(nat, nat)>>)
    requires |binned| == BinCount
    ensures |Stream(binned, |binned|)| == BinCount + 2 * SumLens(binned)
  {
    StreamSize(binned, |binned|);
    assert binned[..|binned|] == binned;
  }

  /** Reads `c` pairs starting at `from`, as the firmware intends to; None past the end. */
  function DecodePairs(bs: seq<byte>, from: nat, c: nat): Option<seq<(byte, byte)>>
  {
    if c == 0 then Some([])
    else
      match DecodePairs(bs, from, c - 1)
      case None => None
      case Some(ps) =>
        var j := from + 2 * (c - 1);
        if j + 1 < |bs| then Some(ps + [(bs[j], bs[j + 1])]) else None
  }

  /** Decodes the bin that starts at `addr`: its count byte, then that many pairs. */
  function DecodeBin(bs: seq<byte>, addr: nat): Option<seq<(byte, byte)>>
  {
    if addr < |bs| then DecodePairs(bs, addr + 1, bs[addr]) else None
  }

  /** A bin's pairs as the bytes they are stored as. */
  function AsBytes(bin: seq<(nat, nat)>): (r: seq<(byte, byte)>)
    ensures |r| == |bin|
  {
    if bin == [] then [] else AsBytes(bin[..|bin| - 1]) + [(bin[|bin| - 1].0 % 256, bin[|bin| - 1].1 % 256)]
  }

  /** The bytes after `a` hold the pairs of `bin`, two bytes each. */
  predicate HoldsPairs(bs: seq<byte>, a: nat, bin: seq<(nat, nat)>)
  {
    a + 2 * |bin| < |bs|
    && forall t :: 0 <= t < |bin| ==> bs[a + 1 + 2 * t] == bin[t].0 % 256 && bs[a + 2 + 2 * t] == bin[t].1 % 256
  }

  lemma {:induction false} DecodeHeldPairs(bs: seq<byte>, a: nat, bin: seq<(nat, nat)>, t: nat)
    requires HoldsPairs(bs, a, bin) && t <= |bin|
    ensures DecodePairs(bs, a + 1, t) == Some(AsBytes(bin[..t]))
  {
    if t > 0 {
      DecodeHeldPairs(bs, a, bin, t - 1);
      var j := a + 1 + 2 * (t - 1);
      assert j + 1 < |bs| && bs[j] == bin[t - 1].0 % 256 && bs[j + 1] == bin[t - 1].1 % 256;
      assert bin[..t][..t - 1] == bin[..t - 1];
      assert AsBytes(bin[..t]) == AsBytes(bin[..t - 1]) + [(bin[t - 1].0 % 256, bin[t - 1].1 % 256)];
    }
  }

  /** Round trip: decoding the bytestream at `lut[b]` gives back bin b, when it holds fewer
      than 256 pairs (its count byte is then exact). */
  lemma DecodeBinRoundTrip(binned: seq<seq<(nat, nat)>>, b: nat)
    requires |binned| == BinCount && b < BinCount && |binned[b]| < 256
    ensures DecodeBin(Stream(binned, |binned|), Addresses(binned, |binned|)[b]) == Some(AsBytes(binned[b]))
  {
    var stream := Stream(binned, |binned|);
    var a := Addresses(binned, |binned|)[b];
    StreamLayout(binned, b);
    assert stream[a] == |binned[b]|;
    DecodeHeldPairs(stream, a, binned[b], |binned[b]|);
    assert binned[b][..|binned[b]|] == binned[b];
  }

  lemma StreamSnoc(binned: seq<seq<(nat, nat)>>, b: nat)
    requires b < |binned|
    ensures Stream(binned, b + 1) == Stream(binned, b) + [|binned[b]| % 256] + PairBytes(binned[b])
    ensures Addresses(binned, b + 1) == Addresses(binned, b) + [|Stream(binned, b)|]
  {
  }

  lemma PairBytesSnoc(bin: seq<(nat, nat)>, t: nat)
    requires t < |bin|
    ensures PairBytes(bin[..t + 1]) == PairBytes(bin[..t]) + [bin[t].0 % 256, bin[t].1 % 256]
  {
    assert bin[..t + 1][..t] == bin[..t];
  }

  /** Step 4's loop: each bin's address is recorded, then its count byte and pair bytes
      are appended, and the running address advances by `1 + 2·num_pairs`. */
  method SerializeBins(binned: seq<seq<(nat, nat)>>) returns (bytestream: seq<byte>, lut: seq<nat>)
    requires |binned| == BinCount
    ensures bytestream == Stream(binned, |binned|)
    ensures lut == Addresses(binned, |binned|)
  {
    bytestream := [];
    lut := [];
    var addressCounter := 0;
    var b := 0;
    while b < BinCount
      invariant 0 <= b <= BinCount
      invariant bytestream == Stream(binned, b) && lut == Addresses(binned, b)
      invariant addressCounter == |bytestream|
    {
      var contents := binned[b];
      var numPairs := |contents|;
      lut := lut + [addressCounter];
      bytestream := bytestream + [numPairs % 256];
      ghost var head := bytestream;
      var t := 0;
      while t < |contents|
        invariant 0 <= t <= |contents|
        invariant bytestream == head + PairBytes(contents[..t])
      {
        var (idx1, idx2) := contents[t];
        PairBytesSnoc(contents, t);
        bytestream := bytestream + [idx1 % 256, idx2 % 256];
        t := t + 1;
      }
      assert contents[..|contents|] == contents;
      StreamSnoc(binned, b);
      addressCounter := addressCounter + 1 + numPairs * 2;
      b := b + 1;
    }
  }

  /** A header row of the binned CSV: `BIN{b}`, the bin's size and its address. */
  datatype BinHeader = BinHeader(bin: nat, count: nat, address: nat)

  /** The header rows of the binned CSV, whose running address is counted separately from
      step 4's; every address equals the lookup table's entry for that bin. */
  method BinnedCsvHeaders(binned: seq<seq<(nat, nat)>>) returns (headers: seq<BinHeader>)
    requires |binned| == BinCount
    ensures |headers| == BinCount
    ensures forall b :: 0 <= b < BinCount ==>
      headers[b] == BinHeader(b, |binned[b]|, Addresses(binned, |binned|)[b])
  {
    headers := [];
    var addressCounter := 0;
    var b := 0;
    while b < BinCount
      invariant 0 <= b <= BinCount && |headers| == b
      invariant addressCounter == |Stream(binned, b)|
      invariant forall c :: 0 <= c < b ==> headers[c] == BinHeader(c, |binned[c]|, |Stream(binned, c)|)
    {
      var contents := binned[b];
      headers := headers + [BinHeader(b, |contents|, addressCounter)];
      StreamSnoc(binned, b);
      addressCounter := addressCounter + 1 + |contents| * PairSize;
      b := b + 1;
    }
    AddressesAt(binned, |binned|);
  }

  // ---------------------------------------------------------------------------
  // Step 5 and the catalog table: index_to_hip_lut and catalog_bytes
  // ---------------------------------------------------------------------------

  /** Distinct HIP IDs have distinct indices. */
  lemma HipToIndexInjective(s: seq<Star>, h: int, h': int)
    requires h in HipToIndex(s) && h' in HipToIndex(s) && h != h'
    ensures HipToIndex(s)[h] != HipToIndex(s)[h']
  {
    var m := HipToIndex(s);
    assert s[m[h]].hip == h && s[m[h']].hip == h';
  }

  /** An index at or past the number of distinct HIP IDs means some HIP ID repeats. */
  lemma IndexPastEndMeansRepeat(s: seq<Star>, h: int)
    requires h in HipToIndex(s) && HipToIndex(s)[h] >= |HipToIndex(s)|
    ensures !DistinctHips(s)
  {
    HipCount(s);
  }

  /** Conversely, when the last star's index fits, no HIP ID repeats. */
  lemma LastIndexFitsMeansDistinct(s: seq<Star>)
    requires s != [] && HipToIndex(s)[s[|s| - 1].hip] < |HipToIndex(s)|
    ensures DistinctHips(s)
  {
    HipCount(s);
  }

  /** A table holding each HIP ID at its index lists, on distinct HIP IDs, every star's. */
  lemma TableListsStars(s: seq<Star>, table: seq<Option<int>>)
    requires DistinctHips(s) && |table| == |s|
    requires PlacedUpTo(s, HipToIndex(s), table, |s|)
    ensures forall i :: 0 <= i < |s| ==> table[i] == Some(s[i].hip)
  {
    HipToIndexOfDistinct(s);
  }

  /** No two keys of `m` share a value. */
  predicate Injective(m: map<int, nat>)
  {
    forall h, h' :: h in m && h' in m && h != h' ==> m[h] != m[h']
  }

  lemma HipToIndexIsInjective(s: seq<Star>)
    ensures Injective(HipToIndex(s))
  {
    forall h, h' | h in HipToIndex(s) && h' in HipToIndex(s) && h != h'
      ensures HipToIndex(s)[h] != HipToIndex(s)[h']
    {
      HipToIndexInjective(s, h, h');
    }
  }

  /** The first `n` stars sit in `table` at their dictionary index. */
  predicate PlacedUpTo(s: seq<Star>, m: map<int, nat>, table: seq<Option<int>>, n: nat)
    requires n <= |s|
  {
    forall k :: 0 <= k < n ==> s[k].hip in m && m[s[k].hip] < |table| && table[m[s[k].hip]] == Some(s[k].hip)
  }

  /** Writing one more star keeps the others in place: a repeated HIP ID writes the same
      slot with the same value, and distinct HIP IDs have distinct indices. */
  lemma PlaceStep(s: seq<Star>, m: map<int, nat>, table: seq<Option<int>>, n: nat)
    requires n < |s| && Injective(m) && PlacedUpTo(s, m, table, n)
    requires s[n].hip in m && m[s[n].hip] < |table|
    ensures PlacedUpTo(s, m, table[m[s[n].hip] := Some(s[n].hip)], n + 1)
  {
  }

  /** The loop of step 5: `table[m[hip]] := hip` into `|m|` slots for each dictionary item.
      The items are visited through the sorted stars, which meets every key in insertion
      order (a repeated key again, writing the same slot). `ok` is false, and `bad` names
      a key, when an index is past the end of the table. */
  method PlaceByIndex(s: seq<Star>, m: map<int, nat>) returns (ok: bool, table: seq<Option<int>>, ghost bad: int)
    requires Injective(m)
    requires forall i :: 0 <= i < |s| ==> s[i].hip in m
    ensures !ok ==> bad in m && m[bad] >= |m|
    ensures ok ==> |table| == |m| && PlacedUpTo(s, m, table, |s|)
  {
    table := seq(|m|, _ => None);
    bad := 0;
    var n := 0;
    while n < |s|
      invariant 0 <= n <= |s|
      invariant |table| == |m|
      invariant PlacedUpTo(s, m, table, n)
    {
      var hip := s[n].hip;
      var idx := m[hip];
      if idx >= |table| {
        return false, table, hip;
      }
      PlaceStep(s, m, table, n);
      table := table[idx := Some(hip)];
      n := n + 1;
    }
    ok := true;
  }

  /** The first `index_to_hip_lut` of step 5: `[None] * len(hip_to_index)`, then
      `index_to_hip_lut[idx] = hip` for every dictionary item. None when an index is past
      the end of the table, where Python raises IndexError. */
  method IndexToHipTable(s: seq<Star>, h2i: map<int, nat>) returns (r: Option<seq<int>>)
    requires h2i == HipToIndex(s)
    ensures r.Some? <==> DistinctHips(s)
    ensures r.Some? ==> |r.value| == |s| && forall i :: 0 <= i < |s| ==> r.value[i] == s[i].hip
    ensures r.Some? ==> forall h :: h in h2i ==> h2i[h] < |r.value| && r.value[h2i[h]] == h
  {
    HipToIndexIsInjective(s);
    var ok, table, bad := PlaceByIndex(s, h2i);
    if !ok {
      IndexPastEndMeansRepeat(s, bad);
      return None;
    }
    if s != [] {
      LastIndexFitsMeansDistinct(s);
    }
    HipCount(s);
    assert |table| == |s|;
    TableListsStars(s, table);
    r := Some(seq(|table|, i requires 0 <= i < |table| => if table[i].Some? then table[i].value else 0));
  }

  /** The second `index_to_hip_lut`, which is the one shipped: the HIP IDs in sorted order. */
  function HipsInOrder(s: seq<Star>): (r: seq<int>)
    ensures |r| == |s|
  {
    if s == [] then [] else HipsInOrder(s[..|s| - 1]) + [s[|s| - 1].hip]
  }

  /** Entry i of the table is the HIP ID of star i. */
  lemma {:induction false} HipsInOrderAt(s: seq<Star>)
    ensures forall i :: 0 <= i < |s| ==> HipsInOrder(s)[i] == s[i].hip
  {
    if s != [] {
      var init := s[..|s| - 1];
      HipsInOrderAt(init);
      assert forall i :: 0 <= i < |init| ==> init[i] == s[i];
    }
  }

  /** The shipped table inverts `hip_to_index`, and on a catalog without repeated HIP IDs
      `hip_to_index` inverts it back. */
  lemma HipsInOrderInverts(s: seq<Star>)
    ensures forall i :: 0 <= i < |s| ==> HipsInOrder(s)[i] == s[i].hip
    ensures forall h :: h in HipToIndex(s) ==> HipsInOrder(s)[HipToIndex(s)[h]] == h
    ensures DistinctHips(s) ==>
      forall i :: 0 <= i < |s| ==> HipToIndex(s)[HipsInOrder(s)[i]] == i
  {
    HipsInOrderAt(s);
    var r := HipsInOrder(s);
    var m := HipToIndex(s);
    forall h | h in m
      ensures r[m[h]] == h
    {
      assert s[m[h]].hip == h;
    }
    if DistinctHips(s) {
      HipToIndexOfDistinct(s);
    }
  }

  // ---------------------------------------------------------------------------
  // The C tables: `index_to_hip_ID_lut` and `bin_angle_to_address_lut`
  // ---------------------------------------------------------------------------

  /** One more than the largest `uint16_t`, the element type of both C tables. */
  const Uint16Limit := 0x1_0000

  /** One more than the largest `uint32_t`. */
  const Uint32Limit := 0x1_0000_0000

  /** A C array of an unsigned type whose values lie below `limit`, initialised from the
      Python list `t`: each initialiser is converted modulo `limit`, so an entry keeps its
      value exactly when that value fits the type. */
  function CTable(t: seq<int>, limit: nat): (r: seq<nat>)
    requires limit > 0
    ensures |r| == |t|
    ensures forall i :: 0 <= i < |t| ==> r[i] < limit && (r[i] == t[i] <==> 0 <= t[i] < limit)
  {
    seq(|t|, i requires 0 <= i < |t| => t[i] % limit)
  }

  /** As written, the shipped `index_to_hip_ID_lut` is a `uint16_t` array: a star whose
      HIP ID is 91262 (0x1647E) is stored as 0x647E, so the table no longer holds its ID. */
  lemma ShippedHipTableTruncates(s: seq<Star>, i: nat)
    requires i < |s| && s[i].hip == 91262
    ensures CTable(HipsInOrder(s), Uint16Limit)[i] == 0x647E
    ensures CTable(HipsInOrder(s), Uint16Limit)[i] != s[i].hip
  {
    HipsInOrderAt(s);
  }

  /** A `uint32_t` table, as evidently intended, holds every HIP ID of the catalog (they
      run to about 120000), and then inverts `hip_to_index` as the Python list does. */
  lemma WideHipTableInverts(s: seq<Star>)
    requires forall i :: 0 <= i < |s| ==> 0 <= s[i].hip < Uint32Limit
    ensures CTable(HipsInOrder(s), Uint32Limit) == HipsInOrder(s)
    ensures forall h :: h in HipToIndex(s) ==> CTable(HipsInOrder(s), Uint32Limit)[HipToIndex(s)[h]] == h
    ensures DistinctHips(s) ==> forall i :: 0 <= i < |s| ==>
      CTable(HipsInOrder(s), Uint32Limit)[i] in HipToIndex(s)
      && HipToIndex(s)[CTable(HipsInOrder(s), Uint32Limit)[i]] == i
  {
    HipsInOrderInverts(s);
    var t := CTable(HipsInOrder(s), Uint32Limit);
    assert forall i :: 0 <= i < |s| ==> t[i] == HipsInOrder(s)[i];
  }

  /** The firmware's `bin_angle_to_address_lut`: the tabulator's addresses in a `uint16_t`
      array. An address keeps its value exactly when it is below 65536. */
  function FirmwareAddresses(binned: seq<seq<(nat, nat)>>): (r: seq<nat>)
    ensures |r| == |binned|
    ensures forall b :: 0 <= b < |binned| ==>
      (r[b] == Addresses(binned, |binned|)[b] <==> Addresses(binned, |binned|)[b] < Uint16Limit)
  {
    CTable(Addresses(binned, |binned|), Uint16Limit)
  }

  /** `catalog_bytes`: per star, `idx & 0xFF`, then the x, y, z bytes of its unit vector. */
  function CatalogRecords(s: seq<Star>, toByte: real -> byte): (r: seq<byte>)
    ensures |r| == 4 * |s|
  {
    if s == [] then []
    else
      var i := |s| - 1;
      CatalogRecords(s[..i], toByte) + [i % 256, toByte(s[i].v.x), toByte(s[i].v.y), toByte(s[i].v.z)]
  }

  /** Record i occupies bytes `4i .. 4i+3`. */
  lemma {:induction false} CatalogRecordsAt(s: seq<Star>, toByte: real -> byte)
    ensures forall i :: 0 <= i < |s| ==>
      CatalogRecords(s, toByte)[4 * i] == i % 256
      && CatalogRecords(s, toByte)[4 * i + 1] == toByte(s[i].v.x)
      && CatalogRecords(s, toByte)[4 * i + 2] == toByte(s[i].v.y)
      && CatalogRecords(s, toByte)[4 * i + 3] == toByte(s[i].v.z)
  {
    if s != [] {
      var init := s[..|s| - 1];
      CatalogRecordsAt(init, toByte);
      assert forall i :: 0 <= i < |init| ==> init[i] == s[i];
    }
  }

  /** The loop over `enumerate(unit_vectors)` that builds `catalog_bytes` and the second
      `index_to_hip_lut`. */
  method CatalogBytes(s: seq<Star>, toByte: real -> byte) returns (catalog: seq<byte>, indexToHip: seq<int>)
    ensures catalog == CatalogRecords(s, toByte)
    ensures indexToHip == HipsInOrder(s)
  {
    catalog := [];
    indexToHip := [];
    var idx := 0;
    while idx < |s|
      invariant 0 <= idx <= |s|
      invariant catalog == CatalogRecords(s[..idx], toByte)
      invariant indexToHip == HipsInOrder(s[..idx])
    {
      var star := s[idx];
      var xByte := toByte(star.v.x);
      var yByte := toByte(star.v.y);
      var zByte := toByte(star.v.z);
      assert s[..idx + 1][..idx] == s[..idx];
      assert xByte == toByte(s[..idx + 1][idx].v.x);
      assert yByte == toByte(s[..idx + 1][idx].v.y);
      assert zByte == toByte(s[..idx + 1][idx].v.z);
      catalog := catalog + [idx % 256, xByte, yByte, zByte];
      indexToHip := indexToHip + [star.hip];
      idx := idx + 1;
    }
    assert s[..|s|] == s;
  }

  // ---------------------------------------------------------------------------
  // Steps 1 to 5 together
  // ---------------------------------------------------------------------------

  datatype TabulateError =
    | TooManyStars     // ValueError: more than 256 distinct HIP IDs
    | IndexOutOfRange  // IndexError in step 5: a HIP ID occurs twice

  /** Everything steps 1 to 5 produce. */
  datatype Tables = Tables(
    unitVectors: seq<Star>,
    hipToIndex: map<int, nat>,
    angleData: seq<AngleEntry>,
    binned: seq<seq<(nat, nat)>>,
    bytestream: seq<byte>,
    addressLut: seq<nat>,
    indexToHip: seq<int>,
    catalog: seq<byte>)

  lemma EntriesIndexed(s: seq<Star>, pairAngle: (Vec3, Vec3) -> real, qs: seq<(nat, nat)>)
    requires PositionsBelow(qs, |s|)
    ensures HipsIndexed(Entries(s, pairAngle, qs), HipToIndex(s))
  {
    EntriesAt(s, pairAngle, qs);
  }

  /** The tables steps 1 to 5 compute from the parsed stars. */
  function TablesOf(stars: seq<Star>, pairAngle: (Vec3, Vec3) -> real, binOf: real -> int, toByte: real -> byte): Tables
  {
    var s := SortByHip(stars);
    var h2i := HipToIndex(s);
    var ad := Entries(s, pairAngle, PairPositions(s, pairAngle, |s|));
    EntriesIndexed(s, pairAngle, PairPositions(s, pairAngle, |s|));
    var binned := Binned(ad, h2i, binOf);
    Tables(s, h2i, ad, binned, Stream(binned, |binned|), Addresses(binned, |binned|),
      HipsInOrder(s), CatalogRecords(s, toByte))
  }

  /** The tabulator's steps 1 to 5, with its two error exits. */
  method Tabulate(stars: seq<Star>, pairAngle: (Vec3, Vec3) -> real, binOf: real -> int, toByte: real -> byte)
    returns (r: Result<Tables, TabulateError>)
    ensures var s := SortByHip(stars);
      (|HipToIndex(s)| > MaxStars ==> r == Err(TooManyStars))
      && (|HipToIndex(s)| <= MaxStars && !DistinctHips(s) ==> r == Err(IndexOutOfRange))
      && (|HipToIndex(s)| <= MaxStars && DistinctHips(s) ==> r == Ok(TablesOf(stars, pairAngle, binOf, toByte)))
  {
    var unitVectors := SortByHip(stars);
    var hipToIndex := HipToIndex(unitVectors);
    if |hipToIndex| > MaxStars {
      return Err(TooManyStars);
    }
    var angleData := EnumeratePairs(unitVectors, pairAngle);
    EntriesIndexed(unitVectors, pairAngle, PairPositions(unitVectors, pairAngle, |unitVectors|));
    var binned := BinPairs(angleData, hipToIndex, binOf);
    var bytestream, lut := SerializeBins(binned);
    var firstLut := IndexToHipTable(unitVectors, hipToIndex);
    if firstLut.None? {
      return Err(IndexOutOfRange);
    }
    var catalog, indexToHip := CatalogBytes(unitVectors, toByte);
    return Ok(Tables(unitVectors, hipToIndex, angleData, binned, bytestream, lut, indexToHip, catalog));
  }

  /** On success (at most 256 stars, no HIP ID twice) every star has an index below 256,
      and so does every binned pair; the `& 0xFF` of steps 4 and 6 then changes nothing. */
  lemma IndicesFitInAByte(s: seq<Star>, pairAngle: (Vec3, Vec3) -> real, binOf: real -> int)
    requires |HipToIndex(s)| <= MaxStars && DistinctHips(s)
    ensures |s| <= MaxStars
    ensures forall h :: h in HipToIndex(s) ==> HipToIndex(s)[h] < MaxStars
    ensures var ad := Entries(s, pairAngle, PairPositions(s, pairAngle, |s|));
      HipsIndexed(ad, HipToIndex(s))
      && forall b, k :: 0 <= b < BinCount && 0 <= k < |Binned(ad, HipToIndex(s), binOf)[b]| ==>
        Binned(ad, HipToIndex(s), binOf)[b][k].0 < MaxStars
        && Binned(ad, HipToIndex(s), binOf)[b][k].1 < MaxStars
  {
    HipCount(s);
    var qs := PairPositions(s, pairAngle, |s|);
    var ad := Entries(s, pairAngle, qs);
    EntriesIndexed(s, pairAngle, qs);
    BinnedIndicesBelow(ad, HipToIndex(s), binOf, MaxStars);
  }

  lemma {:induction false} BinnedIndicesBelow(ad: seq<AngleEntry>, h2i: map<int, nat>, binOf: real -> int, n: nat)
    requires HipsIndexed(ad, h2i) && forall h :: h in h2i ==> h2i[h] < n
    ensures forall b, k :: 0 <= b < BinCount && 0 <= k < |Binned(ad, h2i, binOf)[b]| ==>
      Binned(ad, h2i, binOf)[b][k].0 < n && Binned(ad, h2i, binOf)[b][k].1 < n
  {
    if ad != [] {
      HipsIndexedPrefix(ad, h2i, |ad| - 1);
      BinnedIndicesBelow(ad[..|ad| - 1], h2i, binOf, n);
    }
  }
}
