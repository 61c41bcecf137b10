// Geometric voting as the STM32 firmware runs it (stm-32/Core/Src/gvalg.c):
// votes are read from the binned catalog bytestream, each centroid's identity is
// the mode of its votes (setmode), and a second round counts the image pairs whose
// identified stars agree with the catalog angle.
module GvalgEmbedded {
  import opened Common

  /** One row of `cat[][4]`: the catalog ID, then the unit vector. */
  datatype CatRow = CatRow(id: int, v: Vec3)

  /** One row of `tab_image`: centroid indices A and B, and their angle in millidegrees. */
  datatype ImagePair = ImagePair(a: int, b: int, angle: real)

  /** Each `v[i]` row is calloc'd with 512 slots. */
  const RowSlots := 512
  /** The verification round scans catalog rows 0..255. */
  const CatScan := 256

  /** The centroid indices of every image pair lie in 0..n-1. */
  predicate IndicesInRange(pairs: seq<ImagePair>, n: int)
  {
    forall i :: 0 <= i < |pairs| ==> 0 <= pairs[i].a < n && 0 <= pairs[i].b < n
  }

  // ---------------------------------------------------------------------------
  // setmode
  // ---------------------------------------------------------------------------

  /** `(mode, maxcount)` of setmode once its outer loop has examined `s[..i]`. */
  function ModeScan(s: seq<int>, i: nat): (int, nat)
    requires i <= |s|
  {
    if i == 0 then (0, 0)
    else
      var prev := ModeScan(s, i - 1);
      var n := CountOf(s, s[i - 1]);
      if n > prev.1 then (s[i - 1], n) else prev
  }

  /** The value setmode computes before its conversion to `uint8_t`. */
  function ModeOf(s: seq<int>): int
  {
    ModeScan(s, |s|).0
  }

  lemma CountOfAbsent(s: seq<int>, x: int)
    requires forall j :: 0 <= j < |s| ==> s[j] != x
    ensures CountOf(s, x) == 0
  {
    if s != [] {
      CountOfAbsent(s[..|s| - 1], x);
    }
  }

  /** `s[k]` is the first of `s[..i]` whose count over all of `s` is largest among `s[..i]`. */
  ghost predicate EarliestMaximum(s: seq<int>, i: nat, k: nat)
    requires i <= |s|
  {
    k < i
    && (forall j :: 0 <= j < i ==> CountOf(s, s[j]) <= CountOf(s, s[k]))
    && (forall j :: 0 <= j < k ==> CountOf(s, s[j]) < CountOf(s, s[k]))
  }

  /** After `i > 0` steps, setmode holds the earliest element of `s[..i]` with maximal count. */
  lemma {:induction false} ModeScanIsEarliestMaximum(s: seq<int>, i: nat) returns (k: nat)
    requires 0 < i <= |s|
    ensures EarliestMaximum(s, i, k) && ModeScan(s, i) == (s[k], CountOf(s, s[k]))
  {
    if i == 1 {
      k := 0;
      assert ModeScan(s, 0) == (0, 0);
      assert CountOf(s[..1], s[0]) == 1 by {
        assert s[..1][..0] == [];
      }
      CountMonotone(s, 1, s[0]);
    } else {
      var k0 := ModeScanIsEarliestMaximum(s, i - 1);
      if CountOf(s, s[i - 1]) > CountOf(s, s[k0]) {
        k := i - 1;
      } else {
        k := k0;
      }
    }
  }

  /** A prefix never holds more occurrences than the whole sequence. */
  lemma {:induction false} CountMonotone(s: seq<int>, i: nat, x: int)
    requires i <= |s|
    ensures CountOf(s[..i], x) <= CountOf(s, x)
  {
    if i < |s| {
      CountMonotone(s[..|s| - 1], i, x);
      assert s[..|s| - 1][..i] == s[..i];
    } else {
      assert s[..i] == s;
    }
  }

  /** setmode's promise: on a non-empty input, the first element whose number of
      occurrences is maximal; a later element with the same count never replaces it. */
  lemma ModeIsEarliestMostFrequent(s: seq<int>) returns (k: nat)
    requires |s| > 0
    ensures k < |s| && ModeOf(s) == s[k]
    ensures forall y :: CountOf(s, y) <= CountOf(s, s[k])
    ensures forall j :: 0 <= j < k ==> CountOf(s, s[j]) < CountOf(s, s[k])
  {
    k := ModeScanIsEarliestMaximum(s, |s|);
    forall y
      ensures CountOf(s, y) <= CountOf(s, s[k])
    {
      if forall j :: 0 <= j < |s| ==> s[j] != y {
        CountOfAbsent(s, y);
      }
    }
  }

  /** An empty vote list resolves to 0; otherwise the result is one of the votes. */
  lemma ModeOfIsZeroOrVote(s: seq<int>)
    ensures s == [] ==> ModeOf(s) == 0
    ensures s != [] ==> ModeOf(s) in s
  {
    if s != [] {
      var k := ModeIsEarliestMostFrequent(s);
    }
  }

  /** When every vote is a byte, the `uint8_t` return type of setmode loses nothing. */
  lemma ModeOfBytesFitsByte(s: seq<int>)
    requires forall j :: 0 <= j < |s| ==> 0 <= s[j] < 256
    ensures 0 <= ModeOf(s) < 256
    ensures ModeOf(s) % 256 == ModeOf(s)
  {
    ModeOfIsZeroOrVote(s);
  }

  /** `setmode(nums, numsize)`: the O(k^2) mode with its result converted to `uint8_t`.
      A negative numsize behaves like 0. */
  method SetMode(nums: seq<int>, numsize: int) returns (r: byte)
    requires numsize <= |nums|
    ensures r == ModeOf(nums[..if numsize < 0 then 0 else numsize]) % 256
  {
    ghost var s := nums[..if numsize < 0 then 0 else numsize];
    var mode := 0;
    var counting := 0;
    var maxcount := 0;
    var i := 0;
    while i < numsize
      invariant 0 <= i <= |s|
      invariant (mode, maxcount) == ModeScan(s, i)
      invariant counting == 0
    {
      var x := 0;
      while x < numsize
        invariant 0 <= x <= |s|
        invariant counting == CountOf(s[..x], nums[i])
      {
        assert s[..x + 1][..x] == s[..x];
        if nums[i] == nums[x] {
          counting := counting + 1;
        }
        x := x + 1;
      }
      assert s[..x] == s;
      if counting > maxcount {
        mode := nums[i];
        maxcount := counting;
      }
      counting := 0;
      i := i + 1;
    }
    r := mode % 256;
  }

  // ---------------------------------------------------------------------------
  // First round: casting votes from the bytestream
  // ---------------------------------------------------------------------------

  /** `bin_index = (int)(angle / 100)` where `angle` is the millidegree value truncated to `int`. */
  function BinIndex(angle: real): (bin: int)
    ensures angle >= 0.0 ==> bin == angle.Floor / 100
  {
    CDiv(TruncToInt(angle), 100)
  }

  /** The bins of the six demo image pairs of the firmware's main program. */
  lemma DemoBins()
    ensures BinIndex(4916.0) == 49 && BinIndex(6147.0) == 61 && BinIndex(13261.0) == 132
    ensures BinIndex(4679.0) == 46 && BinIndex(11575.0) == 115 && BinIndex(7326.0) == 73
  {
  }

  /** How many pairs the inner loop reads for a bin whose count byte is `c`: j starts at
      `bin_addr + 1`, advances by 2 and runs while `j <= bin_addr + c + 4`. */
  function PairsRead(c: byte): nat
  {
    (c + 3) / 2 + 1
  }

  /** The t-th iteration of the inner loop (reading at `bin_addr + 1 + 2t`) happens exactly
      when its j passes the loop test `j <= bin_addr + c + 4`. */
  lemma PairsReadIsLoopTest(c: byte, t: nat)
    ensures t < PairsRead(c) <==> 1 + 2 * t <= c + 4
  {
  }

  /** The walk reads as many pairs as the bin holds only when the bin holds 4 or 5 pairs. */
  lemma PairsReadEqualsCountOnlyAtFourAndFive(c: byte)
    ensures PairsRead(c) == c <==> c == 4 || c == 5
  {
  }

  /** The vote rows after one inner-loop iteration writes bytes `p0, p1` to the rows of
      centroids `a` and `b`. Both writes land at slots `2k, 2k+1` of the row's counter k,
      so when `a == b` the pair is written once and the counter advances twice, leaving two
      calloc zeros counted as votes. None when a row would exceed its 512 slots (the C
      code writes, or setmode later reads, past the allocation). */
  function AddVote(rows: seq<seq<int>>, a: int, b: int, p0: int, p1: int): (r: Option<seq<seq<int>>>)
    requires 0 <= a < |rows| && 0 <= b < |rows|
    ensures r.Some? ==> |r.value| == |rows|
  {
    if a == b then
      if |rows[a]| + 4 > RowSlots then None else Some(rows[a := rows[a] + [p0, p1, 0, 0]])
    else if |rows[a]| + 2 > RowSlots || |rows[b]| + 2 > RowSlots then None
    else Some(rows[a := rows[a] + [p0, p1]][b := rows[b] + [p0, p1]])
  }

  /** The vote rows after the first `t` inner-loop iterations for image pair `p` whose bin
      starts at `addr`; None when an iteration reads past the bytestream or overflows a row. */
  function CastPrefix(rows: seq<seq<int>>, p: ImagePair, addr: nat, t: nat, bs: seq<byte>): (r: Option<seq<seq<int>>>)
    requires 0 <= p.a < |rows| && 0 <= p.b < |rows|
    ensures r.Some? ==> |r.value| == |rows|
    decreases t
  {
    if t == 0 then Some(rows)
    else
      match CastPrefix(rows, p, addr, t - 1, bs)
      case None => None
      case Some(r) =>
        var j := addr + 1 + 2 * (t - 1);
        if j + 1 >= |bs| then None else AddVote(r, p.a, p.b, bs[j], bs[j + 1])
  }

  /** The votes one image pair casts: look its bin up in `lut`, read the count byte, then
      walk `PairsRead(count)` pairs. None on an out-of-range lookup. */
  function CastPair(rows: seq<seq<int>>, p: ImagePair, bs: seq<byte>, lut: seq<nat>): (r: Option<seq<seq<int>>>)
    requires 0 <= p.a < |rows| && 0 <= p.b < |rows|
    ensures r.Some? ==> |r.value| == |rows|
  {
    var bin := BinIndex(p.angle);
    if !(0 <= bin < |lut|) || lut[bin] >= |bs| then None
    else CastPrefix(rows, p, lut[bin], PairsRead(bs[lut[bin]]), bs)
  }

  /** The vote rows (each `v[i][..2*k_n[i]]`) after the first round over `pairs`, or None
      when the C code would read or write out of bounds. */
  function FirstRound(pairs: seq<ImagePair>, bs: seq<byte>, lut: seq<nat>, n: nat): (r: Option<seq<seq<int>>>)
    requires IndicesInRange(pairs, n)
    ensures r.Some? ==> |r.value| == n
  {
    if pairs == [] then Some(EmptyRows(n))
    else
      match FirstRound(pairs[..|pairs| - 1], bs, lut, n)
      case None => None
      case Some(rows) => CastPair(rows, pairs[|pairs| - 1], bs, lut)
  }

  lemma {:induction false} CastPrefixNoneStays(rows: seq<seq<int>>, p: ImagePair, addr: nat, t: nat, u: nat, bs: seq<byte>)
    requires 0 <= p.a < |rows| && 0 <= p.b < |rows|
    requires t <= u && CastPrefix(rows, p, addr, t, bs).None?
    ensures CastPrefix(rows, p, addr, u, bs).None?
    decreases u
  {
    if t < u {
      CastPrefixNoneStays(rows, p, addr, t, u - 1, bs);
    }
  }

  lemma {:induction false} FirstRoundNoneStays(pairs: seq<ImagePair>, i: nat, bs: seq<byte>, lut: seq<nat>, n: nat)
    requires IndicesInRange(pairs, n) && i <= |pairs|
    requires FirstRound(pairs[..i], bs, lut, n).None?
    ensures FirstRound(pairs, bs, lut, n).None?
    decreases |pairs| - i
  {
    if i < |pairs| {
      assert pairs[..i + 1][..i] == pairs[..i];
      FirstRoundNoneStays(pairs, i + 1, bs, lut, n);
    } else {
      assert pairs[..i] == pairs;
    }
  }

  /** Every vote is a byte read from the bytestream or one of the zeros of a self-pair. */
  ghost predicate AllBytes(rows: seq<seq<int>>)
  {
    forall x, k :: 0 <= x < |rows| && 0 <= k < |rows[x]| ==> 0 <= rows[x][k] < 256
  }

  lemma {:induction false} CastPrefixKeepsBytes(rows: seq<seq<int>>, p: ImagePair, addr: nat, t: nat, bs: seq<byte>)
    requires 0 <= p.a < |rows| && 0 <= p.b < |rows| && AllBytes(rows)
    requires CastPrefix(rows, p, addr, t, bs).Some?
    ensures AllBytes(CastPrefix(rows, p, addr, t, bs).value)
  {
    if t > 0 {
      CastPrefixKeepsBytes(rows, p, addr, t - 1, bs);
    }
  }

  lemma {:induction false} FirstRoundVotesAreBytes(pairs: seq<ImagePair>, bs: seq<byte>, lut: seq<nat>, n: nat)
    requires IndicesInRange(pairs, n)
    requires FirstRound(pairs, bs, lut, n).Some?
    ensures AllBytes(FirstRound(pairs, bs, lut, n).value)
  {
    if pairs != [] {
      var init := pairs[..|pairs| - 1];
      assert IndicesInRange(init, n);
      FirstRoundVotesAreBytes(init, bs, lut, n);
      var rows := FirstRound(init, bs, lut, n).value;
      var p := pairs[|pairs| - 1];
      var bin := BinIndex(p.angle);
      CastPrefixKeepsBytes(rows, p, lut[bin], PairsRead(bs[lut[bin]]), bs);
    }
  }

  /** How many times an inner-loop iteration for image pair `p` increments `k_n[x]`. */
  function Touches(p: ImagePair, x: int): nat
  {
    (if p.a == x then 1 else 0) + (if p.b == x then 1 else 0)
  }

  /** The final `k_n[x]`: the pairs read for each image pair, times how often it touches x. */
  function VotePairs(pairs: seq<ImagePair>, bs: seq<byte>, lut: seq<nat>, x: int): nat
  {
    if pairs == [] then 0
    else
      var p := pairs[|pairs| - 1];
      var bin := BinIndex(p.angle);
      var c := if 0 <= bin < |lut| && lut[bin] < |bs| then bs[lut[bin]] else 0;
      VotePairs(pairs[..|pairs| - 1], bs, lut, x) + PairsRead(c) * Touches(p, x)
  }

  lemma {:induction false} CastPrefixLength(rows: seq<seq<int>>, p: ImagePair, addr: nat, t: nat, bs: seq<byte>, x: int)
    requires 0 <= p.a < |rows| && 0 <= p.b < |rows| && 0 <= x < |rows|
    requires CastPrefix(rows, p, addr, t, bs).Some?
    ensures |CastPrefix(rows, p, addr, t, bs).value[x]| == |rows[x]| + 2 * (t * Touches(p, x))
  {
    if t > 0 {
      CastPrefixLength(rows, p, addr, t - 1, bs, x);
    }
  }

  /** The count setmode receives for centroid x, `2*k_n[x]`, is twice the pairs read for all
      image pairs touching x; no defined run gives a centroid more than 256 pairs. */
  lemma {:induction false} VoteCountIsTwicePairsRead(pairs: seq<ImagePair>, bs: seq<byte>, lut: seq<nat>, n: nat, x: int)
    requires IndicesInRange(pairs, n) && 0 <= x < n
    requires FirstRound(pairs, bs, lut, n).Some?
    ensures |FirstRound(pairs, bs, lut, n).value[x]| == 2 * VotePairs(pairs, bs, lut, x) <= RowSlots
  {
    if pairs != [] {
      var init := pairs[..|pairs| - 1];
      var p := pairs[|pairs| - 1];
      assert IndicesInRange(init, n);
      VoteCountIsTwicePairsRead(init, bs, lut, n, x);
      var rows := FirstRound(init, bs, lut, n).value;
      assert FirstRound(pairs, bs, lut, n) == CastPair(rows, p, bs, lut);
      CastPairLength(rows, p, bs, lut, x);
      var bin := BinIndex(p.angle);
      var pt := PairsRead(bs[lut[bin]]) * Touches(p, x);
      assert VotePairs(pairs, bs, lut, x) == VotePairs(init, bs, lut, x) + pt;
    }
  }

  lemma CastPairLength(rows: seq<seq<int>>, p: ImagePair, bs: seq<byte>, lut: seq<nat>, x: int)
    requires 0 <= p.a < |rows| && 0 <= p.b < |rows| && 0 <= x < |rows| && |rows[x]| <= RowSlots
    requires CastPair(rows, p, bs, lut).Some?
    ensures var bin := BinIndex(p.angle);
      0 <= bin < |lut| && lut[bin] < |bs|
      && |CastPair(rows, p, bs, lut).value[x]| == |rows[x]| + 2 * (PairsRead(bs[lut[bin]]) * Touches(p, x)) <= RowSlots
  {
    var bin := BinIndex(p.angle);
    CastPrefixLength(rows, p, lut[bin], PairsRead(bs[lut[bin]]), bs, x);
    CastPrefixBounded(rows, p, lut[bin], PairsRead(bs[lut[bin]]), bs, x);
  }

  lemma {:induction false} CastPrefixBounded(rows: seq<seq<int>>, p: ImagePair, addr: nat, t: nat, bs: seq<byte>, x: int)
    requires 0 <= p.a < |rows| && 0 <= p.b < |rows| && 0 <= x < |rows|
    requires |rows[x]| <= RowSlots
    requires CastPrefix(rows, p, addr, t, bs).Some?
    ensures |CastPrefix(rows, p, addr, t, bs).value[x]| <= RowSlots
  {
    if t > 0 {
      CastPrefixBounded(rows, p, addr, t - 1, bs, x);
    }
  }

  // ---------------------------------------------------------------------------
  // Vote counting
  // ---------------------------------------------------------------------------

  /** `id[i]` after the vote-counting loop: setmode of the row, as `uint8_t`. */
  function Identities(rows: seq<seq<int>>): (ids: seq<int>)
    ensures |ids| == |rows|
    ensures forall i :: 0 <= i < |rows| ==> 0 <= ids[i] < 256
  {
    seq(|rows|, i requires 0 <= i < |rows| => ModeOf(rows[i]) % 256)
  }

  /** On a defined run, every identity is exactly the mode of the centroid's votes: the
      `uint8_t` conversion never alters it and the `id[i] < 0` fallback never fires. */
  lemma IdentitiesAreModes(pairs: seq<ImagePair>, bs: seq<byte>, lut: seq<nat>, n: nat)
    requires IndicesInRange(pairs, n)
    requires FirstRound(pairs, bs, lut, n).Some?
    ensures var rows := FirstRound(pairs, bs, lut, n).value;
      forall i :: 0 <= i < n ==> Identities(rows)[i] == ModeOf(rows[i]) >= 0
  {
    var rows := FirstRound(pairs, bs, lut, n).value;
    FirstRoundVotesAreBytes(pairs, bs, lut, n);
    forall i | 0 <= i < n
      ensures Identities(rows)[i] == ModeOf(rows[i])
    {
      ModeOfBytesFitsByte(rows[i]);
    }
  }

  // ---------------------------------------------------------------------------
  // Second round: verification
  // ---------------------------------------------------------------------------

  /** `a_idx` after the search loop has looked at rows 0..j-1: the last row whose ID is `id`,
      or -1. */
  function LastRowWithId(cat: seq<CatRow>, id: int, j: nat): (r: int)
    requires j <= |cat|
    ensures -1 <= r < j
    ensures r == -1 <==> forall k :: 0 <= k < j ==> cat[k].id != id
    ensures r >= 0 ==> cat[r].id == id && forall k :: r < k < j ==> cat[k].id != id
  {
    if j == 0 then -1
    else if cat[j - 1].id == id then j - 1
    else LastRowWithId(cat, id, j - 1)
  }

  function Abs(r: real): real { if r < 0.0 then -r else r }

  /** Whether image pair `p` raises the verification score of its two centroids: both
      indices are non-negative, both identities are non-zero, both are found among catalog
      rows 0..255, and the catalog angle is within 1 of the image angle. */
  predicate Supports(p: ImagePair, ids: seq<int>, cat: seq<CatRow>, catAngle: (Vec3, Vec3) -> real)
    requires 0 <= p.a < |ids| && 0 <= p.b < |ids| && |cat| >= CatScan
  {
    var a := ids[p.a];
    var b := ids[p.b];
    var ai := LastRowWithId(cat, a, CatScan);
    var bi := LastRowWithId(cat, b, CatScan);
    p.a >= 0 && p.b >= 0 && a != 0 && b != 0 && ai >= 0 && bi >= 0
    && Abs(catAngle(cat[ai].v, cat[bi].v) - p.angle) < 1.0
  }

  /** `v2` incremented at both ends of pair `p`. */
  function Bump(v2: seq<real>, p: ImagePair): (r: seq<real>)
    requires 0 <= p.a < |v2| && 0 <= p.b < |v2|
    ensures |r| == |v2|
  {
    var w := v2[p.a := v2[p.a] + 1.0];
    w[p.b := w[p.b] + 1.0]
  }

  /** `v2` after the verification round over `pairs`. */
  function Verified(v2: seq<real>, pairs: seq<ImagePair>, ids: seq<int>, cat: seq<CatRow>, catAngle: (Vec3, Vec3) -> real): (r: seq<real>)
    requires |ids| == |v2| && IndicesInRange(pairs, |ids|) && |cat| >= CatScan
    ensures |r| == |v2|
  {
    if pairs == [] then v2
    else
      var prev := Verified(v2, pairs[..|pairs| - 1], ids, cat, catAngle);
      var p := pairs[|pairs| - 1];
      if Supports(p, ids, cat, catAngle) then Bump(prev, p) else prev
  }

  /** The number of increments centroid x receives: one per supporting pair per end that is x. */
  function SupportCount(pairs: seq<ImagePair>, ids: seq<int>, cat: seq<CatRow>, catAngle: (Vec3, Vec3) -> real, x: int): nat
    requires IndicesInRange(pairs, |ids|) && |cat| >= CatScan
  {
    if pairs == [] then 0
    else
      var p := pairs[|pairs| - 1];
      SupportCount(pairs[..|pairs| - 1], ids, cat, catAngle, x)
      + (if Supports(p, ids, cat, catAngle) then Touches(p, x) else 0)
  }

  /** A verification step raises both ends of the pair by exactly 1, or changes nothing. */
  lemma VerifyStepIsSymmetric(v2: seq<real>, pairs: seq<ImagePair>, p: ImagePair, ids: seq<int>, cat: seq<CatRow>, catAngle: (Vec3, Vec3) -> real)
    requires |ids| == |v2| && IndicesInRange(pairs, |ids|) && IndicesInRange(pairs + [p], |ids|)
    requires 0 <= p.a < |ids| && 0 <= p.b < |ids| && p.a != p.b && |cat| >= CatScan
    ensures var before := Verified(v2, pairs, ids, cat, catAngle);
      var after := Verified(v2, pairs + [p], ids, cat, catAngle);
      (after[p.a] == before[p.a] + 1.0 <==> after[p.b] == before[p.b] + 1.0)
      && (after[p.a] == before[p.a] <==> after[p.b] == before[p.b])
      && (after[p.a] == before[p.a] || after[p.a] == before[p.a] + 1.0)
      && forall x :: 0 <= x < |v2| && x != p.a && x != p.b ==> after[x] == before[x]
  {
    var before := Verified(v2, pairs, ids, cat, catAngle);
    var after := Verified(v2, pairs + [p], ids, cat, catAngle);
    assert (pairs + [p])[..|pairs + [p]| - 1] == pairs;
    if Supports(p, ids, cat, catAngle) {
      assert after == Bump(before, p);
      BumpRaisesBothEnds(before, p);
    } else {
      assert after == before;
    }
  }

  lemma BumpRaisesBothEnds(w: seq<real>, p: ImagePair)
    requires 0 <= p.a < |w| && 0 <= p.b < |w| && p.a != p.b
    ensures Bump(w, p)[p.a] == w[p.a] + 1.0 && Bump(w, p)[p.b] == w[p.b] + 1.0
    ensures forall x :: 0 <= x < |w| && x != p.a && x != p.b ==> Bump(w, p)[x] == w[x]
  {
  }

  /** The final score of centroid x is its initial score plus its support count. */
  lemma {:induction false} VerifiedIsSupportCount(v2: seq<real>, pairs: seq<ImagePair>, ids: seq<int>, cat: seq<CatRow>, catAngle: (Vec3, Vec3) -> real, x: int)
    requires |ids| == |v2| && IndicesInRange(pairs, |ids|) && |cat| >= CatScan && 0 <= x < |v2|
    ensures Verified(v2, pairs, ids, cat, catAngle)[x] == v2[x] + SupportCount(pairs, ids, cat, catAngle, x) as real
  {
    if pairs != [] {
      var init := pairs[..|pairs| - 1];
      assert IndicesInRange(init, |ids|);
      VerifiedIsSupportCount(v2, init, ids, cat, catAngle, x);
    }
  }

  /** A centroid whose identity is 0 never gains verification. */
  lemma {:induction false} UnidentifiedGainsNothing(v2: seq<real>, pairs: seq<ImagePair>, ids: seq<int>, cat: seq<CatRow>, catAngle: (Vec3, Vec3) -> real, x: int)
    requires |ids| == |v2| && IndicesInRange(pairs, |ids|) && |cat| >= CatScan && 0 <= x < |v2|
    requires ids[x] == 0
    ensures Verified(v2, pairs, ids, cat, catAngle)[x] == v2[x]
  {
    VerifiedIsSupportCount(v2, pairs, ids, cat, catAngle, x);
    ZeroIdHasNoSupport(pairs, ids, cat, catAngle, x);
  }

  lemma {:induction false} ZeroIdHasNoSupport(pairs: seq<ImagePair>, ids: seq<int>, cat: seq<CatRow>, catAngle: (Vec3, Vec3) -> real, x: int)
    requires IndicesInRange(pairs, |ids|) && |cat| >= CatScan && 0 <= x < |ids| && ids[x] == 0
    ensures SupportCount(pairs, ids, cat, catAngle, x) == 0
  {
    if pairs != [] {
      var init := pairs[..|pairs| - 1];
      assert IndicesInRange(init, |ids|);
      ZeroIdHasNoSupport(init, ids, cat, catAngle, x);
    }
  }

  // ---------------------------------------------------------------------------
  // The imperative algorithm
  // ---------------------------------------------------------------------------

  /** The vote arrays `v` and `k_n` hold `rows`: row x has `2*k_n[x]` votes in its first
      slots and calloc zeros after them. */
  ghost predicate RowsMatch(v: array2<int>, kn: array<int>, rows: seq<seq<int>>)
    reads v, kn
  {
    v.Length0 == kn.Length == |rows| && v.Length1 == RowSlots
    && (forall x :: 0 <= x < |rows| ==> 2 * kn[x] == |rows[x]| <= RowSlots)
    && (forall x, k :: 0 <= x < |rows| && 0 <= k < RowSlots ==>
          v[x, k] == if k < |rows[x]| then rows[x][k] else 0)
  }

  /** One inner-loop iteration's writes: bytes `p0, p1` at slots `2*k_n[idx] + 0/1` of both
      endpoint rows, then both counters incremented. */
  method RecordVote(v: array2<int>, kn: array<int>, idx0: int, idx1: int, p0: int, p1: int, ghost rows: seq<seq<int>>)
    requires RowsMatch(v, kn, rows) && 0 <= idx0 < |rows| && 0 <= idx1 < |rows|
    requires AddVote(rows, idx0, idx1, p0, p1).Some?
    modifies v, kn
    ensures RowsMatch(v, kn, AddVote(rows, idx0, idx1, p0, p1).value)
  {
    ghost var next := AddVote(rows, idx0, idx1, p0, p1).value;
    v[idx0, 2 * kn[idx0] + 0] := p0;
    v[idx0, 2 * kn[idx0] + 1] := p1;
    v[idx1, 2 * kn[idx1] + 0] := p0;
    v[idx1, 2 * kn[idx1] + 1] := p1;
    kn[idx0] := kn[idx0] + 1;
    kn[idx1] := kn[idx1] + 1;
    forall x | 0 <= x < |rows|
      ensures 2 * kn[x] == |next[x]| <= RowSlots
      ensures forall k :: 0 <= k < RowSlots ==> v[x, k] == if k < |next[x]| then next[x][k] else 0
    {
      if x != idx0 && x != idx1 {
        assert next[x] == rows[x];
      }
    }
  }

  /** The inner loop for one image pair whose bin starts at `binAddr`: j runs from
      `binAddr + 1` while `j <= binAddr + count + 4`, advancing twice per iteration. */
  method CastPairVotes(p: ImagePair, bs: seq<byte>, binAddr: nat, v: array2<int>, kn: array<int>, ghost rows: seq<seq<int>>)
    returns (defined: bool)
    requires binAddr < |bs| && 0 <= p.a < |rows| && 0 <= p.b < |rows|
    requires RowsMatch(v, kn, rows)
    modifies v, kn
    ensures var r := CastPrefix(rows, p, binAddr, PairsRead(bs[binAddr]), bs);
      defined == r.Some? && (defined ==> RowsMatch(v, kn, r.value))
  {
    var indexMin := binAddr + 1;
    var indexMax := binAddr + bs[binAddr];
    ghost var cur := rows;
    ghost var t := 0;
    var j := indexMin;
    while j <= indexMax + 4
      invariant j == indexMin + 2 * t && t <= PairsRead(bs[binAddr])
      invariant CastPrefix(rows, p, binAddr, t, bs) == Some(cur)
      invariant RowsMatch(v, kn, cur)
    {
      var idx0 := p.a;
      var idx1 := p.b;
      if j + 1 >= |bs| || (idx0 == idx1 && 2 * kn[idx0] + 4 > RowSlots)
        || (idx0 != idx1 && (2 * kn[idx0] + 2 > RowSlots || 2 * kn[idx1] + 2 > RowSlots))
      {
        CastPrefixNoneStays(rows, p, binAddr, t + 1, PairsRead(bs[binAddr]), bs);
        return false;
      }
      RecordVote(v, kn, idx0, idx1, bs[j], bs[j + 1], cur);
      cur := AddVote(cur, idx0, idx1, bs[j], bs[j + 1]).value;
      j := j + 1;
      j := j + 1;
      t := t + 1;
    }
    return true;
  }

  /** The first round, run over the calloc'd `v` and `k_n`. Returns false where the C code
      would read or write out of bounds; the arrays are then unspecified. */
  method CastVotes(tabImage: seq<ImagePair>, bs: seq<byte>, lut: seq<nat>, v: array2<int>, kn: array<int>) returns (defined: bool)
    requires IndicesInRange(tabImage, kn.Length)
    requires RowsMatch(v, kn, EmptyRows(kn.Length))
    modifies v, kn
    ensures defined == FirstRound(tabImage, bs, lut, kn.Length).Some?
    ensures defined ==> RowsMatch(v, kn, FirstRound(tabImage, bs, lut, kn.Length).value)
  {
    var n := kn.Length;
    ghost var rows := EmptyRows(n);
    var i := 0;
    while i < |tabImage|
      invariant 0 <= i <= |tabImage|
      invariant IndicesInRange(tabImage[..i], n)
      invariant FirstRound(tabImage[..i], bs, lut, n) == Some(rows)
      invariant RowsMatch(v, kn, rows)
    {
      assert tabImage[..i + 1][..i] == tabImage[..i];
      assert IndicesInRange(tabImage[..i + 1], n);
      var p := tabImage[i];
      var angle := TruncToInt(p.angle);
      var binIndex := CDiv(angle, 100);
      if !(0 <= binIndex < |lut|) || lut[binIndex] >= |bs| {
        FirstRoundNoneStays(tabImage, i + 1, bs, lut, n);
        return false;
      }
      var binAddr := lut[binIndex];
      assert FirstRound(tabImage[..i + 1], bs, lut, n) == CastPrefix(rows, p, binAddr, PairsRead(bs[binAddr]), bs);
      defined := CastPairVotes(p, bs, binAddr, v, kn, rows);
      if !defined {
        FirstRoundNoneStays(tabImage, i + 1, bs, lut, n);
        return false;
      }
      rows := CastPrefix(rows, p, binAddr, PairsRead(bs[binAddr]), bs).value;
      i := i + 1;
    }
    assert tabImage[..i] == tabImage;
    return true;
  }

  /** The vote-counting loop: `id[i] = setmode(v[i], 2 * k_n[i])`, with the `id[i] < 0` fallback. */
  method CountVotes(v: array2<int>, kn: array<int>, id: array<int>, ghost rows: seq<seq<int>>)
    requires RowsMatch(v, kn, rows) && id.Length == |rows| && id != kn
    modifies id
    ensures id[..] == Identities(rows)
  {
    var i := 0;
    while i < id.Length
      invariant 0 <= i <= id.Length
      invariant forall k :: 0 <= k < i ==> id[k] == Identities(rows)[k]
    {
      var voteCount := kn[i] * 2;
      var row := seq(RowSlots, k requires 0 <= k < RowSlots reads v => v[i, k]);
      assert row[..voteCount] == rows[i];
      var m := SetMode(row, voteCount);
      var idi: int := m;
      // the fallback for an invalid match; a uint8_t is never negative
      if idi < 0 {
        idi := 0;
      }
      id[i] := idi;
      i := i + 1;
    }
  }

  /** The verification round: for each image pair whose centroids both carry a non-zero
      identity found among catalog rows 0..255, bump `v2` at both ends when the catalog
      angle is within 1 of the image angle. */
  method Verify(cat: seq<CatRow>, catAngle: (Vec3, Vec3) -> real, tabImage: seq<ImagePair>, id: array<int>, v2: array<real>)
    requires |cat| >= CatScan && id.Length == v2.Length && IndicesInRange(tabImage, id.Length)
    modifies v2
    ensures v2[..] == Verified(old(v2[..]), tabImage, id[..], cat, catAngle)
  {
    var i := 0;
    while i < |tabImage|
      invariant 0 <= i <= |tabImage| && IndicesInRange(tabImage[..i], id.Length)
      invariant v2[..] == Verified(old(v2[..]), tabImage[..i], id[..], cat, catAngle)
    {
      assert tabImage[..i + 1][..i] == tabImage[..i];
      assert IndicesInRange(tabImage[..i + 1], id.Length);
      var p := tabImage[i];
      ghost var prev := v2[..];
      assert Verified(old(v2[..]), tabImage[..i + 1], id[..], cat, catAngle)
        == if Supports(p, id[..], cat, catAngle) then Bump(prev, p) else prev;
      if p.a >= 0 && p.b >= 0 {
        var a := id[p.a];
        var b := id[p.b];
        if a != 0 && b != 0 {
          var aIdx, bIdx := FindRows(cat, a, b);
          if aIdx >= 0 && bIdx >= 0 {
            var dCat := catAngle(cat[aIdx].v, cat[bIdx].v);
            var dImage := p.angle;
            if Abs(dCat - dImage) < 1.0 {
              v2[p.a] := v2[p.a] + 1.0;
              v2[p.b] := v2[p.b] + 1.0;
              assert v2[..] == Bump(prev, p);
            }
          }
        }
      }
      i := i + 1;
    }
    assert tabImage[..i] == tabImage;
  }

  /** The scan of catalog rows 0..255 for the two identities: the last row holding each. */
  method FindRows(cat: seq<CatRow>, a: int, b: int) returns (aIdx: int, bIdx: int)
    requires |cat| >= CatScan
    ensures aIdx == LastRowWithId(cat, a, CatScan) && bIdx == LastRowWithId(cat, b, CatScan)
  {
    aIdx, bIdx := -1, -1;
    var j := 0;
    while j < CatScan
      invariant 0 <= j <= CatScan
      invariant aIdx == LastRowWithId(cat, a, j) && bIdx == LastRowWithId(cat, b, j)
    {
      if cat[j].id == a {
        aIdx := j;
      }
      if cat[j].id == b {
        bIdx := j;
      }
      j := j + 1;
    }
  }

  /** `gvalg`: vote, resolve, verify. Returns false, with `id` and `v2` untouched, when the
      first round would read or write out of bounds. The catalog pair table argument of
      the C function is never read and is omitted. */
  method Gvalg(cat: seq<CatRow>, catAngle: (Vec3, Vec3) -> real, tabImage: seq<ImagePair>, bs: seq<byte>, lut: seq<nat>,
               id: array<int>, v2: array<real>) returns (defined: bool)
    requires |cat| >= CatScan && id.Length == v2.Length && IndicesInRange(tabImage, id.Length)
    modifies id, v2
    ensures var votes := FirstRound(tabImage, bs, lut, id.Length);
      defined == votes.Some?
      && (!defined ==> id[..] == old(id[..]) && v2[..] == old(v2[..]))
      && (defined ==> id[..] == Identities(votes.value)
                      && v2[..] == Verified(old(v2[..]), tabImage, id[..], cat, catAngle))
  {
    var n := id.Length;
    var kn := new int[n](_ => 0);
    var v := new int[n, RowSlots]((_, _) => 0);
    defined := CastVotes(tabImage, bs, lut, v, kn);
    if !defined {
      return;
    }
    ghost var rows := FirstRound(tabImage, bs, lut, n).value;
    CountVotes(v, kn, id, rows);
    Verify(cat, catAngle, tabImage, id, v2);
  }
}
