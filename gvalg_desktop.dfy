// Geometric voting as the desktop prototype runs it (geometric-voting/gvalg.cpp): the
// votes for an image pair come from a range of rows of the catalog pair table, found
// by a binary search that is not part of this model; each centroid's identity is what
// an equally external `mode` makes of its vote row; a second round counts the image
// pairs whose identified stars agree with the catalog angle.
module GvalgDesktop {
  import opened Common

  /** One row of `tab_cat`: the catalog IDs of a pair (integer-valued doubles) and their angle. */
  datatype CatPair = CatPair(a: int, b: int, angle: real)

  /** One row of `tab_image`: centroid indices A and B (integer-valued doubles) and their angle. */
  datatype ImagePair = ImagePair(a: int, b: int, angle: real)

  /** Each `v[i]` row is calloc'd with 512 slots. */
  const RowSlots := 512

  /** The centroid indices of every image pair lie in 0..n-1. */
  predicate IndicesInRange(pairs: seq<ImagePair>, n: int)
  {
    forall i :: 0 <= i < |pairs| ==> 0 <= pairs[i].a < n && 0 <= pairs[i].b < n
  }

  // ---------------------------------------------------------------------------
  // The first round
  // ---------------------------------------------------------------------------

  /** The rows after one endpoint's writes `v[c][2k+1] = x`, `v[c][2k+2] = y` and `k_n[c]++`,
      where the row holds 2k votes. None when slot 2k+2 is past the 512-slot row. */
  function AppendPair(rows: seq<seq<int>>, c: int, x: int, y: int): (r: Option<seq<seq<int>>>)
    requires 0 <= c < |rows|
    ensures r.Some? ==> |r.value| == |rows|
  {
    if |rows[c]| + 2 >= RowSlots then None else Some(rows[c := rows[c] + [x, y]])
  }

  /** One iteration of the inner loop at catalog row j: the pair's two catalog IDs go to
      centroid A's row, then to centroid B's. None when j is outside `tab_cat` or a write
      is past a row. */
  function VisitRow(rows: seq<seq<int>>, p: ImagePair, tabCat: seq<CatPair>, j: int): (r: Option<seq<seq<int>>>)
    requires 0 <= p.a < |rows| && 0 <= p.b < |rows|
    ensures r.Some? ==> |r.value| == |rows|
  {
    if !(0 <= j < |tabCat|) then None
    else
      match AppendPair(rows, p.a, tabCat[j].a, tabCat[j].b)
      case None => None
      case Some(r1) => AppendPair(r1, p.b, tabCat[j].a, tabCat[j].b)
  }

  /** The rows after the inner loop has visited catalog rows `lo .. lo+t-1`. */
  function VisitRange(rows: seq<seq<int>>, p: ImagePair, tabCat: seq<CatPair>, lo: int, t: nat): (r: Option<seq<seq<int>>>)
    requires 0 <= p.a < |rows| && 0 <= p.b < |rows|
    ensures r.Some? ==> |r.value| == |rows|
  {
    if t == 0 then Some(rows)
    else
      match VisitRange(rows, p, tabCat, lo, t - 1)
      case None => None
      case Some(r) => VisitRow(r, p, tabCat, lo + t - 1)
  }

  /** The number of j with `lo <= j <= hi`. */
  function RangeSize(lo: int, hi: int): nat
  {
    if hi < lo then 0 else hi - lo + 1
  }

  /** The votes one image pair casts: catalog rows `bsearch(angle - loc_err)` through
      `bsearch(angle + loc_err)`, both inclusive. */
  function CastPair(rows: seq<seq<int>>, p: ImagePair, tabCat: seq<CatPair>,
                    bsearch: (seq<CatPair>, real) -> int, locErr: real): (r: Option<seq<seq<int>>>)
    requires 0 <= p.a < |rows| && 0 <= p.b < |rows|
    ensures r.Some? ==> |r.value| == |rows|
  {
    var lo := bsearch(tabCat, p.angle - locErr);
    var hi := bsearch(tabCat, p.angle + locErr);
    VisitRange(rows, p, tabCat, lo, RangeSize(lo, hi))
  }

  /** The vote rows (row x is `v[x][1 .. 2*k_n[x]]`) after the first round over `pairs`,
      or None when the C code would read or write out of bounds. */
  function FirstRound(pairs: seq<ImagePair>, tabCat: seq<CatPair>, bsearch: (seq<CatPair>, real) -> int,
                      locErr: real, n: nat): (r: Option<seq<seq<int>>>)
    requires IndicesInRange(pairs, n)
    ensures r.Some? ==> |r.value| == n
  {
    if pairs == [] then Some(EmptyRows(n))
    else
      match FirstRound(pairs[..|pairs| - 1], tabCat, bsearch, locErr, n)
      case None => None
      case Some(rows) => CastPair(rows, pairs[|pairs| - 1], tabCat, bsearch, locErr)
  }

  lemma {:induction false} VisitRangeNoneStays(rows: seq<seq<int>>, p: ImagePair, tabCat: seq<CatPair>, lo: int, t: nat, u: nat)
    requires 0 <= p.a < |rows| && 0 <= p.b < |rows|
    requires t <= u && VisitRange(rows, p, tabCat, lo, t).None?
    ensures VisitRange(rows, p, tabCat, lo, u).None?
    decreases u
  {
    if t < u {
      VisitRangeNoneStays(rows, p, tabCat, lo, t, u - 1);
    }
  }

  /** One more image pair: the round so far, then that pair's votes. */
  lemma FirstRoundSnoc(pairs: seq<ImagePair>, i: nat, tabCat: seq<CatPair>,
                       bsearch: (seq<CatPair>, real) -> int, locErr: real, n: nat, rows: seq<seq<int>>)
    requires i < |pairs| && IndicesInRange(pairs, n)
    requires IndicesInRange(pairs[..i], n) && FirstRound(pairs[..i], tabCat, bsearch, locErr, n) == Some(rows)
    ensures IndicesInRange(pairs[..i + 1], n)
    ensures FirstRound(pairs[..i + 1], tabCat, bsearch, locErr, n) == CastPair(rows, pairs[i], tabCat, bsearch, locErr)
  {
    assert pairs[..i + 1][..i] == pairs[..i];
  }

  lemma {:induction false} FirstRoundNoneStays(pairs: seq<ImagePair>, i: nat, tabCat: seq<CatPair>,
                                               bsearch: (seq<CatPair>, real) -> int, locErr: real, n: nat)
    requires i <= |pairs| && IndicesInRange(pairs, n)
    requires IndicesInRange(pairs[..i], n) && FirstRound(pairs[..i], tabCat, bsearch, locErr, n).None?
    ensures FirstRound(pairs, tabCat, bsearch, locErr, n).None?
    decreases |pairs| - i
  {
    if i < |pairs| {
      assert pairs[..i + 1][..i] == pairs[..i];
      assert IndicesInRange(pairs[..i + 1], n);
      FirstRoundNoneStays(pairs, i + 1, tabCat, bsearch, locErr, n);
    } else {
      assert pairs[..i] == pairs;
    }
  }

  // ---------------------------------------------------------------------------
  // What the first round writes
  // ---------------------------------------------------------------------------

  /** How many of the pair's endpoints are centroid x. */
  function Touches(p: ImagePair, x: int): nat
  {
    (if p.a == x then 1 else 0) + (if p.b == x then 1 else 0)
  }

  /** `m` copies of `s` one after the other. */
  function Repeat(s: seq<int>, m: nat): (r: seq<int>)
    ensures |r| == m * |s|
  {
    if m == 0 then [] else s + Repeat(s, m - 1)
  }

  /** Catalog rows `lo .. lo+t-1`, each contributing its two IDs once per endpoint that is
      the centroid (`m` times). */
  function RangeVotes(tabCat: seq<CatPair>, lo: int, t: nat, m: nat): (r: seq<int>)
    ensures |r| == 2 * m * t
  {
    if t == 0 then []
    else
      var j := lo + t - 1;
      var ids := if 0 <= j < |tabCat| then [tabCat[j].a, tabCat[j].b] else [0, 0];
      RangeVotes(tabCat, lo, t - 1, m) + Repeat(ids, m)
  }

  /** Every vote centroid x receives from the image pairs, in image-pair order. */
  function AllVotes(pairs: seq<ImagePair>, tabCat: seq<CatPair>, bsearch: (seq<CatPair>, real) -> int,
                    locErr: real, x: int): seq<int>
  {
    if pairs == [] then []
    else
      var p := pairs[|pairs| - 1];
      var lo := bsearch(tabCat, p.angle - locErr);
      var hi := bsearch(tabCat, p.angle + locErr);
      AllVotes(pairs[..|pairs| - 1], tabCat, bsearch, locErr, x) + RangeVotes(tabCat, lo, RangeSize(lo, hi), Touches(p, x))
  }

  lemma VisitRowAppends(rows: seq<seq<int>>, p: ImagePair, tabCat: seq<CatPair>, j: int, x: int)
    requires 0 <= p.a < |rows| && 0 <= p.b < |rows| && 0 <= x < |rows|
    requires VisitRow(rows, p, tabCat, j).Some?
    ensures 0 <= j < |tabCat|
    ensures VisitRow(rows, p, tabCat, j).value[x] == rows[x] + Repeat([tabCat[j].a, tabCat[j].b], Touches(p, x))
  {
    var ids := [tabCat[j].a, tabCat[j].b];
    assert Repeat(ids, 1) == ids;
    assert Repeat(ids, 2) == ids + ids;
  }

  /** The inner loop appends, to each centroid's row, the IDs of the visited catalog rows
      in ascending j, once per endpoint the centroid is; every visited j lies in `tab_cat`. */
  lemma {:induction false} VisitRangeAppends(rows: seq<seq<int>>, p: ImagePair, tabCat: seq<CatPair>, lo: int, t: nat, x: int)
    requires 0 <= p.a < |rows| && 0 <= p.b < |rows| && 0 <= x < |rows|
    requires VisitRange(rows, p, tabCat, lo, t).Some?
    ensures t > 0 ==> 0 <= lo && lo + t <= |tabCat|
    ensures VisitRange(rows, p, tabCat, lo, t).value[x] == rows[x] + RangeVotes(tabCat, lo, t, Touches(p, x))
  {
    if t > 0 {
      var prev := VisitRange(rows, p, tabCat, lo, t - 1);
      assert prev.Some?;
      VisitRangeAppends(rows, p, tabCat, lo, t - 1, x);
      VisitRowAppends(prev.value, p, tabCat, lo + t - 1, x);
    }
  }

  /** Rows `index_min .. index_max` are visited; none when `index_max < index_min`. */
  lemma CastPairVisitsRange(rows: seq<seq<int>>, p: ImagePair, tabCat: seq<CatPair>,
                            bsearch: (seq<CatPair>, real) -> int, locErr: real, x: int)
    requires 0 <= p.a < |rows| && 0 <= p.b < |rows| && 0 <= x < |rows|
    requires CastPair(rows, p, tabCat, bsearch, locErr).Some?
    ensures var lo := bsearch(tabCat, p.angle - locErr);
      var hi := bsearch(tabCat, p.angle + locErr);
      var r := CastPair(rows, p, tabCat, bsearch, locErr).value;
      (lo <= hi ==> 0 <= lo && hi < |tabCat| && |r[x]| == |rows[x]| + 2 * Touches(p, x) * (hi - lo + 1))
      && (hi < lo ==> r == rows)
  {
    var lo := bsearch(tabCat, p.angle - locErr);
    var hi := bsearch(tabCat, p.angle + locErr);
    VisitRangeAppends(rows, p, tabCat, lo, RangeSize(lo, hi), x);
  }

  /** Within a centroid's row the votes appear in image-pair order, and for one image pair
      in ascending catalog row. */
  lemma {:induction false} FirstRoundVotes(pairs: seq<ImagePair>, tabCat: seq<CatPair>, bsearch: (seq<CatPair>, real) -> int,
                                           locErr: real, n: nat, x: int)
    requires IndicesInRange(pairs, n) && 0 <= x < n
    requires FirstRound(pairs, tabCat, bsearch, locErr, n).Some?
    ensures FirstRound(pairs, tabCat, bsearch, locErr, n).value[x] == AllVotes(pairs, tabCat, bsearch, locErr, x)
  {
    if pairs != [] {
      var init := pairs[..|pairs| - 1];
      assert IndicesInRange(init, n);
      var prev := FirstRound(init, tabCat, bsearch, locErr, n);
      assert prev.Some?;
      FirstRoundVotes(init, tabCat, bsearch, locErr, n, x);
      var p := pairs[|pairs| - 1];
      var lo := bsearch(tabCat, p.angle - locErr);
      var hi := bsearch(tabCat, p.angle + locErr);
      VisitRangeAppends(prev.value, p, tabCat, lo, RangeSize(lo, hi), x);
    }
  }

  /** Each write at `2k+2` stays inside the row only while k <= 254, so after a defined
      first round every row holds an even number of votes, at most 510. */
  lemma {:induction false} VisitRangeRowsFit(rows: seq<seq<int>>, p: ImagePair, tabCat: seq<CatPair>, lo: int, t: nat, x: int)
    requires 0 <= p.a < |rows| && 0 <= p.b < |rows| && 0 <= x < |rows|
    requires |rows[x]| % 2 == 0 && |rows[x]| <= RowSlots - 2
    requires VisitRange(rows, p, tabCat, lo, t).Some?
    ensures var r := VisitRange(rows, p, tabCat, lo, t).value[x]; |r| % 2 == 0 && |r| <= RowSlots - 2
  {
    if t > 0 {
      var prev := VisitRange(rows, p, tabCat, lo, t - 1);
      assert prev.Some?;
      VisitRangeRowsFit(rows, p, tabCat, lo, t - 1, x);
      var j := lo + t - 1;
      var r1 := AppendPair(prev.value, p.a, tabCat[j].a, tabCat[j].b);
      assert r1.Some?;
      assert |r1.value[x]| % 2 == 0 && |r1.value[x]| <= RowSlots - 2;
    }
  }

  lemma {:induction false} FirstRoundRowsFit(pairs: seq<ImagePair>, tabCat: seq<CatPair>, bsearch: (seq<CatPair>, real) -> int,
                                             locErr: real, n: nat, x: int)
    requires IndicesInRange(pairs, n) && 0 <= x < n
    requires FirstRound(pairs, tabCat, bsearch, locErr, n).Some?
    ensures var r := FirstRound(pairs, tabCat, bsearch, locErr, n).value[x]; |r| % 2 == 0 && |r| <= RowSlots - 2
  {
    if pairs != [] {
      var init := pairs[..|pairs| - 1];
      assert IndicesInRange(init, n);
      var prev := FirstRound(init, tabCat, bsearch, locErr, n);
      assert prev.Some?;
      FirstRoundRowsFit(init, tabCat, bsearch, locErr, n, x);
      var p := pairs[|pairs| - 1];
      var lo := bsearch(tabCat, p.angle - locErr);
      var hi := bsearch(tabCat, p.angle + locErr);
      VisitRangeRowsFit(prev.value, p, tabCat, lo, RangeSize(lo, hi), x);
    }
  }

  // ---------------------------------------------------------------------------
  // The vote rows in memory
  // ---------------------------------------------------------------------------

  /** Slot k of a row holding `votes`: slot 0 is never written, the votes fill slots
      1 .. |votes|, and the calloc zeros remain after them. */
  function SlotValue(votes: seq<int>, k: int): int
  {
    if 1 <= k <= |votes| then votes[k - 1] else 0
  }

  /** The 512 slots of a vote row holding `votes`, as `mode` receives them. */
  function Slots(votes: seq<int>): (r: seq<int>)
    ensures |r| == RowSlots && r[0] == 0
    ensures |votes| < RowSlots ==> r[1..|votes| + 1] == votes
    ensures forall k :: |votes| < k < RowSlots ==> r[k] == 0
  {
    seq(RowSlots, k requires 0 <= k < RowSlots => SlotValue(votes, k))
  }

  /** The arrays `v` and `k_n` hold `rows`: row x has `2*k_n[x]` votes from slot 1 on,
      and zeros everywhere else. */
  ghost predicate RowsMatch(v: array2<int>, kn: array<int>, rows: seq<seq<int>>)
    reads v, kn
  {
    v.Length0 == kn.Length == |rows| && v.Length1 == RowSlots
    && (forall x :: 0 <= x < |rows| ==> 2 * kn[x] == |rows[x]| <= RowSlots - 2)
    && (forall x, k :: 0 <= x < |rows| && 0 <= k < RowSlots ==> v[x, k] == SlotValue(rows[x], k))
  }

  // ---------------------------------------------------------------------------
  // The second round
  // ---------------------------------------------------------------------------

  /** The second round's test for image pair p: both centroid indices non-zero, both
      identities non-zero, and the catalog angle strictly inside `angle ± loc_err`. */
  predicate Supports(p: ImagePair, ids: seq<int>, cat: seq<Vec3>, catAngle: (Vec3, Vec3) -> real, locErr: real)
    requires 0 <= p.a < |ids| && 0 <= p.b < |ids|
  {
    p.a != 0 && p.b != 0 && ids[p.a] != 0 && ids[p.b] != 0
    && 0 <= ids[p.a] < |cat| && 0 <= ids[p.b] < |cat|
    && p.angle - locErr < catAngle(cat[ids[p.a]], cat[ids[p.b]]) < p.angle + locErr
  }

  /** The second round reads `cat[a]` and `cat[b]` with identities used as row indices:
      out of bounds unless both lie in the catalog. */
  predicate ReadsOutside(p: ImagePair, ids: seq<int>, cat: seq<Vec3>)
    requires 0 <= p.a < |ids| && 0 <= p.b < |ids|
  {
    p.a != 0 && p.b != 0 && ids[p.a] != 0 && ids[p.b] != 0
    && !(0 <= ids[p.a] < |cat| && 0 <= ids[p.b] < |cat|)
  }

  /** `v2` after the second round has looked at image pair p: both ends bumped when p
      supports its identities; None when `cat` would be read out of bounds. */
  function VerifyPair(v2: seq<real>, p: ImagePair, ids: seq<int>, cat: seq<Vec3>,
                      catAngle: (Vec3, Vec3) -> real, locErr: real): (r: Option<seq<real>>)
    requires 0 <= p.a < |ids| && 0 <= p.b < |ids| && |v2| == |ids|
    ensures r.Some? ==> |r.value| == |v2|
  {
    if ReadsOutside(p, ids, cat) then None
    else if Supports(p, ids, cat, catAngle, locErr) then
      var w := v2[p.a := v2[p.a] + 1.0];
      Some(w[p.b := w[p.b] + 1.0])
    else Some(v2)
  }

  /** `v2` after the second round over `pairs`, or None on an out-of-bounds read. */
  function Verified(v2: seq<real>, pairs: seq<ImagePair>, ids: seq<int>, cat: seq<Vec3>,
                    catAngle: (Vec3, Vec3) -> real, locErr: real): (r: Option<seq<real>>)
    requires IndicesInRange(pairs, |ids|) && |v2| == |ids|
    ensures r.Some? ==> |r.value| == |v2|
  {
    if pairs == [] then Some(v2)
    else
      var init := pairs[..|pairs| - 1];
      assert IndicesInRange(init, |ids|);
      match Verified(v2, init, ids, cat, catAngle, locErr)
      case None => None
      case Some(w) => VerifyPair(w, pairs[|pairs| - 1], ids, cat, catAngle, locErr)
  }

  /** How many supporting image pairs have x as an endpoint (twice when both ends are x). */
  function SupportCount(pairs: seq<ImagePair>, ids: seq<int>, cat: seq<Vec3>,
                        catAngle: (Vec3, Vec3) -> real, locErr: real, x: int): nat
    requires IndicesInRange(pairs, |ids|)
  {
    if pairs == [] then 0
    else
      var init := pairs[..|pairs| - 1];
      var p := pairs[|pairs| - 1];
      assert IndicesInRange(init, |ids|);
      SupportCount(init, ids, cat, catAngle, locErr, x)
        + (if Supports(p, ids, cat, catAngle, locErr) then Touches(p, x) else 0)
  }

  /** The second round is defined exactly when no image pair makes it read `cat` out of
      bounds. */
  lemma {:induction false} VerifiedDefined(v2: seq<real>, pairs: seq<ImagePair>, ids: seq<int>, cat: seq<Vec3>,
                                           catAngle: (Vec3, Vec3) -> real, locErr: real)
    requires IndicesInRange(pairs, |ids|) && |v2| == |ids|
    ensures Verified(v2, pairs, ids, cat, catAngle, locErr).Some? <==>
      forall k :: 0 <= k < |pairs| ==> !ReadsOutside(pairs[k], ids, cat)
  {
    if pairs != [] {
      var init := pairs[..|pairs| - 1];
      assert IndicesInRange(init, |ids|);
      VerifiedDefined(v2, init, ids, cat, catAngle, locErr);
      assert forall k :: 0 <= k < |init| ==> init[k] == pairs[k];
    }
  }

  /** Both endpoints of an image pair are bumped together or not at all, and nothing else
      changes. */
  lemma VerifyPairIsSymmetric(v2: seq<real>, p: ImagePair, ids: seq<int>, cat: seq<Vec3>,
                              catAngle: (Vec3, Vec3) -> real, locErr: real)
    requires 0 <= p.a < |ids| && 0 <= p.b < |ids| && |v2| == |ids|
    requires VerifyPair(v2, p, ids, cat, catAngle, locErr).Some?
    ensures var w := VerifyPair(v2, p, ids, cat, catAngle, locErr).value;
      (forall x :: 0 <= x < |v2| ==> w[x] == v2[x] + (if Supports(p, ids, cat, catAngle, locErr) then Touches(p, x) as real else 0.0))
  {
  }

  /** Each centroid's score grows by the number of supporting image pairs it is an
      endpoint of. */
  lemma {:induction false} VerifiedIsSupportCount(v2: seq<real>, pairs: seq<ImagePair>, ids: seq<int>, cat: seq<Vec3>,
                                                  catAngle: (Vec3, Vec3) -> real, locErr: real, x: int)
    requires IndicesInRange(pairs, |ids|) && |v2| == |ids| && 0 <= x < |v2|
    requires Verified(v2, pairs, ids, cat, catAngle, locErr).Some?
    ensures Verified(v2, pairs, ids, cat, catAngle, locErr).value[x]
      == v2[x] + SupportCount(pairs, ids, cat, catAngle, locErr, x) as real
  {
    if pairs != [] {
      var init := pairs[..|pairs| - 1];
      assert IndicesInRange(init, |ids|);
      var prev := Verified(v2, init, ids, cat, catAngle, locErr);
      assert prev.Some?;
      VerifiedIsSupportCount(v2, init, ids, cat, catAngle, locErr, x);
      VerifyPairIsSymmetric(prev.value, pairs[|pairs| - 1], ids, cat, catAngle, locErr);
    }
  }

  /** The `!= 0` test on the centroid indices skips every pair that has centroid 0 as an
      endpoint, so centroid 0 never gains verification. */
  lemma {:induction false} CentroidZeroHasNoSupport(pairs: seq<ImagePair>, ids: seq<int>, cat: seq<Vec3>,
                                                    catAngle: (Vec3, Vec3) -> real, locErr: real)
    requires IndicesInRange(pairs, |ids|)
    ensures SupportCount(pairs, ids, cat, catAngle, locErr, 0) == 0
  {
    if pairs != [] {
      var init := pairs[..|pairs| - 1];
      assert IndicesInRange(init, |ids|);
      CentroidZeroHasNoSupport(init, ids, cat, catAngle, locErr);
    }
  }

  /** A centroid whose identity is 0 never gains verification. */
  lemma {:induction false} UnidentifiedHasNoSupport(pairs: seq<ImagePair>, ids: seq<int>, cat: seq<Vec3>,
                                                    catAngle: (Vec3, Vec3) -> real, locErr: real, x: int)
    requires IndicesInRange(pairs, |ids|) && 0 <= x < |ids| && ids[x] == 0
    ensures SupportCount(pairs, ids, cat, catAngle, locErr, x) == 0
  {
    if pairs != [] {
      var init := pairs[..|pairs| - 1];
      assert IndicesInRange(init, |ids|);
      UnidentifiedHasNoSupport(init, ids, cat, catAngle, locErr, x);
    }
  }

  // ---------------------------------------------------------------------------
  // The imperative algorithm
  // ---------------------------------------------------------------------------

  /** One endpoint's writes: the two IDs at slots `2*k_n[c] + 1` and `2*k_n[c] + 2`, then
      `k_n[c]` incremented. */
  method AppendEndpoint(v: array2<int>, kn: array<int>, c: int, x: int, y: int, ghost rows: seq<seq<int>>)
    requires RowsMatch(v, kn, rows) && 0 <= c < |rows| && AppendPair(rows, c, x, y).Some?
    modifies v, kn
    ensures RowsMatch(v, kn, AppendPair(rows, c, x, y).value)
  {
    ghost var next := AppendPair(rows, c, x, y).value;
    v[c, 2 * kn[c] + 1] := x;
    v[c, 2 * kn[c] + 2] := y;
    kn[c] := kn[c] + 1;
    assert forall z :: 0 <= z < |rows| && z != c ==> next[z] == rows[z];
  }

  /** The inner loop for one image pair: `for (j = index_min; j <= index_max; j++)`. */
  method CastPairVotes(p: ImagePair, tabCat: seq<CatPair>, lo: int, hi: int,
                       v: array2<int>, kn: array<int>, ghost rows: seq<seq<int>>) returns (defined: bool)
    requires 0 <= p.a < |rows| && 0 <= p.b < |rows|
    requires RowsMatch(v, kn, rows)
    modifies v, kn
    ensures var r := VisitRange(rows, p, tabCat, lo, RangeSize(lo, hi));
      defined == r.Some? && (defined ==> RowsMatch(v, kn, r.value))
  {
    ghost var cur := rows;
    var j := lo;
    while j <= hi
      invariant lo <= j && j - lo <= RangeSize(lo, hi)
      invariant VisitRange(rows, p, tabCat, lo, j - lo) == Some(cur)
      invariant RowsMatch(v, kn, cur)
    {
      ghost var t: nat := j - lo;
      if !(0 <= j < |tabCat|) || 2 * kn[p.a] + 2 >= RowSlots {
        VisitRangeNoneStays(rows, p, tabCat, lo, t + 1, RangeSize(lo, hi));
        return false;
      }
      var row := tabCat[j];
      AppendEndpoint(v, kn, p.a, row.a, row.b, cur);
      ghost var mid := AppendPair(cur, p.a, row.a, row.b).value;
      if 2 * kn[p.b] + 2 >= RowSlots {
        VisitRangeNoneStays(rows, p, tabCat, lo, t + 1, RangeSize(lo, hi));
        return false;
      }
      AppendEndpoint(v, kn, p.b, row.a, row.b, mid);
      cur := AppendPair(mid, p.b, row.a, row.b).value;
      j := j + 1;
    }
    return true;
  }

  /** The first round over the calloc'd `v` and `k_n`. Returns false where the C code
      would read or write out of bounds; the arrays are then unspecified. */
  method CastVotes(tabImage: seq<ImagePair>, tabCat: seq<CatPair>, bsearch: (seq<CatPair>, real) -> int, locErr: real,
                   v: array2<int>, kn: array<int>) returns (defined: bool)
    requires IndicesInRange(tabImage, kn.Length)
    requires RowsMatch(v, kn, EmptyRows(kn.Length))
    modifies v, kn
    ensures defined == FirstRound(tabImage, tabCat, bsearch, locErr, kn.Length).Some?
    ensures defined ==> RowsMatch(v, kn, FirstRound(tabImage, tabCat, bsearch, locErr, kn.Length).value)
  {
    var n := kn.Length;
    ghost var rows := EmptyRows(n);
    var i := 0;
    while i < |tabImage|
      invariant 0 <= i <= |tabImage|
      invariant IndicesInRange(tabImage[..i], n)
      invariant FirstRound(tabImage[..i], tabCat, bsearch, locErr, n) == Some(rows)
      invariant RowsMatch(v, kn, rows)
    {
      FirstRoundSnoc(tabImage, i, tabCat, bsearch, locErr, n, rows);
      var p := tabImage[i];
      var indexMin := bsearch(tabCat, p.angle - locErr);
      var indexMax := bsearch(tabCat, p.angle + locErr);
      assert CastPair(rows, p, tabCat, bsearch, locErr)
        == VisitRange(rows, p, tabCat, indexMin, RangeSize(indexMin, indexMax));
      defined := CastPairVotes(p, tabCat, indexMin, indexMax, v, kn, rows);
      if !defined {
        FirstRoundNoneStays(tabImage, i + 1, tabCat, bsearch, locErr, n);
        return false;
      }
      rows := VisitRange(rows, p, tabCat, indexMin, RangeSize(indexMin, indexMax)).value;
      i := i + 1;
    }
    assert tabImage[..i] == tabImage;
    return true;
  }

  /** The "first zero" scan: advance while the slot is non-zero. Stops at the first zero
      at or before the known zero slot `z`. */
  method FirstZero(v: array2<int>, i: int, ghost z: int) returns (firstZero: int)
    requires 0 <= i < v.Length0 && 0 <= z < v.Length1 && v[i, z] == 0
    ensures 0 <= firstZero <= z && v[i, firstZero] == 0
    ensures forall k :: 0 <= k < firstZero ==> v[i, k] != 0
  {
    firstZero := 0;
    while v[i, firstZero] != 0
      invariant 0 <= firstZero <= z
      invariant forall k :: 0 <= k < firstZero ==> v[i, k] != 0
      decreases z - firstZero
    {
      firstZero := firstZero + 1;
    }
  }

  /** The identification loop: `id[i] = mode(v[i], first_zero)`. Slot 0 is never written,
      so the scan stops at once and `mode` always receives length 0. The `isnan` fallback
      tests an `int` and never fires. */
  method CountVotes(v: array2<int>, kn: array<int>, id: array<int>, mode: (seq<int>, int) -> int, ghost rows: seq<seq<int>>)
    requires RowsMatch(v, kn, rows) && id.Length == |rows| && id != kn
    modifies id
    ensures forall i :: 0 <= i < id.Length ==> id[i] == mode(Slots(rows[i]), 0)
  {
    var i := 0;
    while i < id.Length
      invariant 0 <= i <= id.Length
      invariant forall k :: 0 <= k < i ==> id[k] == mode(Slots(rows[k]), 0)
    {
      var firstZero := FirstZero(v, i, 0);
      assert firstZero == 0;
      var row := seq(RowSlots, k requires 0 <= k < RowSlots reads v => v[i, k]);
      assert row == Slots(rows[i]);
      id[i] := mode(row, firstZero);
      i := i + 1;
    }
  }

  /** The verification round over `tab_image`. Returns false where the C code would read
      `cat` out of bounds; `v2` is then unspecified. */
  method Verify(cat: seq<Vec3>, catAngle: (Vec3, Vec3) -> real, tabImage: seq<ImagePair>, locErr: real,
                id: array<int>, v2: array<real>) returns (defined: bool)
    requires id.Length == v2.Length && IndicesInRange(tabImage, id.Length)
    modifies v2
    ensures var r := Verified(old(v2[..]), tabImage, id[..], cat, catAngle, locErr);
      defined == r.Some? && (defined ==> v2[..] == r.value)
  {
    var i := 0;
    while i < |tabImage|
      invariant 0 <= i <= |tabImage| && IndicesInRange(tabImage[..i], id.Length)
      invariant Verified(old(v2[..]), tabImage[..i], id[..], cat, catAngle, locErr) == Some(v2[..])
    {
      assert tabImage[..i + 1][..i] == tabImage[..i];
      assert IndicesInRange(tabImage[..i + 1], id.Length);
      var p := tabImage[i];
      if p.a != 0 && p.b != 0 {
        var a := id[p.a];
        var b := id[p.b];
        if a != 0 && b != 0 {
          if !(0 <= a < |cat| && 0 <= b < |cat|) {
            VerifiedNoneStays(old(v2[..]), tabImage, i + 1, id[..], cat, catAngle, locErr);
            return false;
          }
          var dCat := catAngle(cat[a], cat[b]);
          var dImage := p.angle;
          assert Supports(p, id[..], cat, catAngle, locErr) <==> dImage - locErr < dCat < dImage + locErr;
          if dImage - locErr < dCat && dCat < dImage + locErr {
            v2[p.a] := v2[p.a] + 1.0;
            v2[p.b] := v2[p.b] + 1.0;
          }
        }
      }
      i := i + 1;
    }
    assert tabImage[..i] == tabImage;
    return true;
  }

  lemma {:induction false} VerifiedNoneStays(v2: seq<real>, pairs: seq<ImagePair>, i: nat, ids: seq<int>, cat: seq<Vec3>,
                                             catAngle: (Vec3, Vec3) -> real, locErr: real)
    requires i <= |pairs| && IndicesInRange(pairs, |ids|) && |v2| == |ids|
    requires IndicesInRange(pairs[..i], |ids|) && Verified(v2, pairs[..i], ids, cat, catAngle, locErr).None?
    ensures Verified(v2, pairs, ids, cat, catAngle, locErr).None?
    decreases |pairs| - i
  {
    if i < |pairs| {
      assert pairs[..i + 1][..i] == pairs[..i];
      assert IndicesInRange(pairs[..i + 1], |ids|);
      VerifiedNoneStays(v2, pairs, i + 1, ids, cat, catAngle, locErr);
    } else {
      assert pairs[..i] == pairs;
    }
  }

  /** `gvalg`: vote, identify, verify. Returns false where the C code would read or write
      out of bounds: in the first round, with `id` and `v2` untouched, or in the second,
      once `id` holds the identities. */
  method Gvalg(cat: seq<Vec3>, catAngle: (Vec3, Vec3) -> real, tabCat: seq<CatPair>, tabImage: seq<ImagePair>,
               locErr: real, bsearch: (seq<CatPair>, real) -> int, mode: (seq<int>, int) -> int,
               id: array<int>, v2: array<real>) returns (defined: bool)
    requires id.Length == v2.Length && IndicesInRange(tabImage, id.Length)
    modifies id, v2
    ensures var votes := FirstRound(tabImage, tabCat, bsearch, locErr, id.Length);
      (votes.None? ==> !defined && id[..] == old(id[..]) && v2[..] == old(v2[..]))
      && (votes.Some? ==>
            (forall i :: 0 <= i < id.Length ==> id[i] == mode(Slots(votes.value[i]), 0))
            && var ver := Verified(old(v2[..]), tabImage, id[..], cat, catAngle, locErr);
               defined == ver.Some? && (defined ==> v2[..] == ver.value))
  {
    var n := id.Length;
    var kn := new int[n](_ => 0);
    var v := new int[n, RowSlots]((_, _) => 0);
    defined := CastVotes(tabImage, tabCat, bsearch, locErr, v, kn);
    if !defined {
      return;
    }
    ghost var rows := FirstRound(tabImage, tabCat, bsearch, locErr, n).value;
    CountVotes(v, kn, id, mode, rows);
    defined := Verify(cat, catAngle, tabImage, locErr, id, v2);
  }
}
