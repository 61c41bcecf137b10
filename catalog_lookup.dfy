// How the firmware's first round (stm-32/Core/Src/gvalg.c) reads the bytestream and
// address table that the catalog tabulator (catalog/tabulate-catalog.py) produces.
module CatalogLookup {
  import opened Common
  import CT = CatalogTabulator
  import GE = GvalgEmbedded

  /** When bin b's address fits the firmware's `uint16_t` table, the byte the firmware
      reads there, `catalog_bytestream[bin_addr]`, is the bin's pair count as the tabulator
      wrote it (`num_pairs & 0xFF`). */
  lemma BinCountAtAddress(binned: seq<seq<(nat, nat)>>, b: nat)
    requires |binned| == CT.BinCount && b < CT.BinCount
    requires CT.Addresses(binned, |binned|)[b] < CT.Uint16Limit
    ensures var bs := CT.Stream(binned, |binned|);
      var lut := CT.FirmwareAddresses(binned);
      lut[b] == CT.Addresses(binned, |binned|)[b]
      && lut[b] < |bs| && bs[lut[b]] == |binned[b]| % 256
  {
    CT.StreamLayout(binned, b);
  }

  /** For an image pair with two different centroids, the first t iterations of the
      firmware's inner loop append to each endpoint's row the 2t stream bytes that follow
      the bin address, in order. */
  lemma {:induction false} WalkAppendsStreamBytes(rows: seq<seq<int>>, p: GE.ImagePair, addr: nat, t: nat, bs: seq<byte>, x: int)
    requires 0 <= p.a < |rows| && 0 <= p.b < |rows| && p.a != p.b && (x == p.a || x == p.b)
    requires GE.CastPrefix(rows, p, addr, t, bs).Some?
    ensures t == 0 ==> GE.CastPrefix(rows, p, addr, t, bs).value == rows
    ensures t > 0 ==> (addr + 2 * t < |bs|
      && GE.CastPrefix(rows, p, addr, t, bs).value[x] == rows[x] + bs[addr + 1 .. addr + 1 + 2 * t])
  {
    if t > 0 {
      var prev := GE.CastPrefix(rows, p, addr, t - 1, bs);
      assert prev.Some?;
      WalkAppendsStreamBytes(rows, p, addr, t - 1, bs, x);
      var j := addr + 1 + 2 * (t - 1);
      assert j + 1 < |bs|;
      assert bs[addr + 1 .. addr + 1 + 2 * t] == bs[addr + 1 .. j] + [bs[j], bs[j + 1]];
    }
  }

  /** As written, the loop bound `j <= index_max + 4` makes the firmware read two pairs
      even from a bin with no pairs: its votes are the four bytes after the bin's address,
      the first of them being the next bin's count byte rather than a star index. */
  lemma EmptyBinStillVotes(binned: seq<seq<(nat, nat)>>, bs: seq<byte>, lut: seq<nat>, b: nat,
                            rows: seq<seq<int>>, p: GE.ImagePair, x: int)
    requires |binned| == CT.BinCount && b + 1 < CT.BinCount && binned[b] == []
    requires bs == CT.Stream(binned, |binned|) && lut == CT.FirmwareAddresses(binned)
    requires CT.Addresses(binned, |binned|)[b] < CT.Uint16Limit
    requires 0 <= p.a < |rows| && 0 <= p.b < |rows| && p.a != p.b && (x == p.a || x == p.b)
    requires lut[b] < |bs| && GE.CastPrefix(rows, p, lut[b], GE.PairsRead(bs[lut[b]]), bs).Some?
    ensures GE.PairsRead(bs[lut[b]]) == 2
    ensures GE.CastPrefix(rows, p, lut[b], 2, bs).value[x] == rows[x] + bs[lut[b] + 1 .. lut[b] + 5]
    ensures bs[lut[b] + 1] == |binned[b + 1]| % 256
  {
    var a := CT.Addresses(binned, |binned|)[b];
    BinCountAtAddress(binned, b);
    assert lut[b] == a;
    CT.AddressStep(binned, b);
    CT.StreamLayout(binned, b + 1);
    EmptyCountWalk(rows, p, a, bs, x);
  }

  /** A zero count byte at `a` still makes the loop read the four bytes after it. */
  lemma EmptyCountWalk(rows: seq<seq<int>>, p: GE.ImagePair, a: nat, bs: seq<byte>, x: int)
    requires 0 <= p.a < |rows| && 0 <= p.b < |rows| && p.a != p.b && (x == p.a || x == p.b)
    requires a < |bs| && bs[a] == 0 && GE.CastPrefix(rows, p, a, GE.PairsRead(bs[a]), bs).Some?
    ensures GE.PairsRead(bs[a]) == 2
    ensures GE.CastPrefix(rows, p, a, 2, bs).value[x] == rows[x] + bs[a + 1 .. a + 5]
  {
    assert GE.PairsRead(0) == 2;
    WalkAppendsStreamBytes(rows, p, a, 2, bs, x);
  }

  /** The walk the loop evidently intends: exactly `count` pairs from the bin, where the
      firmware walks `(count + 3) / 2 + 1`. */
  function CountedCastPair(rows: seq<seq<int>>, p: GE.ImagePair, bs: seq<byte>, lut: seq<nat>): (r: Option<seq<seq<int>>>)
    requires 0 <= p.a < |rows| && 0 <= p.b < |rows|
    ensures r.Some? ==> |r.value| == |rows|
  {
    var bin := GE.BinIndex(p.angle);
    if !(0 <= bin < |lut|) || lut[bin] >= |bs| then None
    else GE.CastPrefix(rows, p, lut[bin], bs[lut[bin]], bs)
  }

  lemma {:induction false} WalkOverPairs(bs: seq<byte>, a: nat, bin: seq<(nat, nat)>, rows: seq<seq<int>>, p: GE.ImagePair, t: nat)
    requires CT.HoldsPairs(bs, a, bin) && t <= |bin|
    requires 0 <= p.a < |rows| && 0 <= p.b < |rows| && p.a != p.b
    requires |rows[p.a]| + 2 * |bin| <= GE.RowSlots && |rows[p.b]| + 2 * |bin| <= GE.RowSlots
    ensures var r := GE.CastPrefix(rows, p, a, t, bs);
      r.Some?
      && r.value[p.a] == rows[p.a] + CT.PairBytes(bin[..t])
      && r.value[p.b] == rows[p.b] + CT.PairBytes(bin[..t])
  {
    if t == 0 {
      assert bin[..0] == [];
    } else {
      WalkOverPairs(bs, a, bin, rows, p, t - 1);
      var prev := GE.CastPrefix(rows, p, a, t - 1, bs).value;
      var j := a + 1 + 2 * (t - 1);
      var p0, p1 := bin[t - 1].0 % 256, bin[t - 1].1 % 256;
      assert j + 1 < |bs| && bs[j] == p0 && bs[j + 1] == p1;
      var before := CT.PairBytes(bin[..t - 1]);
      assert |prev[p.a]| == |rows[p.a]| + 2 * (t - 1) && |prev[p.b]| == |rows[p.b]| + 2 * (t - 1);
      assert GE.CastPrefix(rows, p, a, t, bs) == GE.AddVote(prev, p.a, p.b, p0, p1);
      assert bin[..t][..t - 1] == bin[..t - 1];
      assert CT.PairBytes(bin[..t]) == before + [p0, p1];
    }
  }

  /** With the counted walk, an image pair whose bin b holds fewer than 256 pairs, at an
      address that fits the `uint16_t` table, votes,
      for each of its two centroids, exactly the index bytes of bin b's pairs in their
      stored order. */
  lemma CountedWalkVotesBin(binned: seq<seq<(nat, nat)>>, rows: seq<seq<int>>, p: GE.ImagePair)
    requires |binned| == CT.BinCount && 0 <= GE.BinIndex(p.angle) < CT.BinCount
    requires CT.Addresses(binned, |binned|)[GE.BinIndex(p.angle)] < CT.Uint16Limit
    requires |binned[GE.BinIndex(p.angle)]| < 256
    requires 0 <= p.a < |rows| && 0 <= p.b < |rows| && p.a != p.b
    requires |rows[p.a]| + 2 * |binned[GE.BinIndex(p.angle)]| <= GE.RowSlots
    requires |rows[p.b]| + 2 * |binned[GE.BinIndex(p.angle)]| <= GE.RowSlots
    ensures var bin := binned[GE.BinIndex(p.angle)];
      var r := CountedCastPair(rows, p, CT.Stream(binned, |binned|), CT.FirmwareAddresses(binned));
      r.Some? && r.value[p.a] == rows[p.a] + CT.PairBytes(bin) && r.value[p.b] == rows[p.b] + CT.PairBytes(bin)
  {
    var b: nat := GE.BinIndex(p.angle);
    var bin := binned[b];
    var bs := CT.Stream(binned, |binned|);
    var a := CT.Addresses(binned, |binned|)[b];
    assert CT.FirmwareAddresses(binned)[b] == a;
    CT.StreamLayout(binned, b);
    assert CT.HoldsPairs(bs, a, bin);
    assert bs[a] == |bin|;
    WalkOverPairs(bs, a, bin, rows, p, |bin|);
    assert bin[..|bin|] == bin;
  }
}
