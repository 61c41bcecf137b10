// The Raspberry Pi's centroid packet (raspberry-pi/spi-protocol.py, `send_centroids`):
// the scaled centroid coordinates are packed as little-endian uint32 pairs between a
// start and a stop marker, and the packet goes out over SPI in 32-byte chunks.
module SpiProtocol {
  import opened Common

  /** START_BYTE, 0b10101010. */
  const StartByte := 0xAA
  /** STOP_BYTE, 0b01010101. */
  const StopByte := 0x55
  /** The STM32's SPI buffers hold 32 bytes. */
  const ChunkSize := 32
  /** `struct.pack('<I', v)` accepts 0 <= v < 2^32. */
  const Uint32Limit := 0x1_0000_0000

  /** The `struct.error` raised for the first centroid with a coordinate outside uint32. */
  datatype PackError = NotUint32(centroid: nat)

  // ---------------------------------------------------------------------------
  // Little-endian uint32
  // ---------------------------------------------------------------------------

  predicate FitsUint32(v: int)
  {
    0 <= v < Uint32Limit
  }

  /** `struct.pack('<I', v)`: least significant byte first. */
  function Le32(v: int): (r: seq<byte>)
    requires FitsUint32(v)
    ensures |r| == 4
  {
    [v % 256, v / 256 % 256, v / 65536 % 256, v / 16777216 % 256]
  }

  /** `struct.unpack('<I', b)`. */
  function DecodeLe32(b: seq<byte>): int
    requires |b| == 4
  {
    var b0, b1, b2, b3: int := b[0], b[1], b[2], b[3];
    b0 + 256 * b1 + 65536 * b2 + 16777216 * b3
  }

  /** Decoding the four bytes recovers the value. */
  lemma Le32RoundTrip(v: int)
    requires FitsUint32(v)
    ensures DecodeLe32(Le32(v)) == v
  {
    var q1 := v / 256;
    var q2 := q1 / 256;
    var q3 := q2 / 256;
    assert v == v % 256 + 256 * q1;
    assert q1 == q1 % 256 + 256 * q2;
    assert q2 == q2 % 256 + 256 * q3;
    assert q3 < 256;
    assert v / 65536 == q2;
    assert v / 16777216 == q3;
  }

  /** Every four bytes are the encoding of exactly one uint32. */
  lemma DecodeLe32Inverse(b: seq<byte>)
    requires |b| == 4
    ensures FitsUint32(DecodeLe32(b)) && Le32(DecodeLe32(b)) == b
  {
    var v := DecodeLe32(b);
    var b0, b1, b2, b3: int := b[0], b[1], b[2], b[3];
    var q2 := b2 + 256 * b3;
    var q1 := b1 + 256 * q2;
    assert v == b0 + 256 * q1;
    assert v % 256 == b0 && v / 256 == q1;
    assert q1 % 256 == b1 && q1 / 256 == q2;
    assert q2 % 256 == b2 && q2 / 256 == b3;
    assert v / 65536 == q1 / 256;
    assert v / 16777216 == q2 / 256;
  }

  // ---------------------------------------------------------------------------
  // The packet
  // ---------------------------------------------------------------------------

  predicate CentroidFits(c: (int, int))
  {
    FitsUint32(c.0) && FitsUint32(c.1)
  }

  predicate AllFit(cs: seq<(int, int)>)
  {
    forall k :: 0 <= k < |cs| ==> CentroidFits(cs[k])
  }

  function Zeros(n: nat): (r: seq<byte>)
    ensures |r| == n && forall i :: 0 <= i < n ==> r[i] == 0
  {
    seq(n, _ => 0)
  }

  /** The eight bytes of each centroid, `fx` then `fy`, in input order. */
  function Payload(cs: seq<(int, int)>): (r: seq<byte>)
    requires AllFit(cs)
    ensures |r| == 8 * |cs|
  {
    if cs == [] then []
    else
      var c := cs[|cs| - 1];
      assert AllFit(cs[..|cs| - 1]);
      Payload(cs[..|cs| - 1]) + Le32(c.0) + Le32(c.1)
  }

  /** The buffer as the code builds it: `bytes(n)` with an int argument is n zero bytes, so
      `bytes(START_BYTE)` is 170 zeros and `bytes(STOP_BYTE)` 85 zeros. */
  function Packet(cs: seq<(int, int)>): (r: seq<byte>)
    requires AllFit(cs)
    ensures |r| == StartByte + 8 * |cs| + StopByte
  {
    Zeros(StartByte) + Payload(cs) + Zeros(StopByte)
  }

  /** Reads a payload back as centroids, eight bytes at a time. */
  function DecodePayload(b: seq<byte>): (r: seq<(int, int)>)
    decreases |b|
  {
    if |b| < 8 then []
    else
      var n := |b| - 8;
      DecodePayload(b[..n]) + [(DecodeLe32(b[n..n + 4]), DecodeLe32(b[n + 4..]))]
  }

  /** Centroid k occupies payload bytes `8k .. 8k+7`, x first. */
  lemma {:induction false} PayloadAt(cs: seq<(int, int)>)
    requires AllFit(cs)
    ensures forall k :: 0 <= k < |cs| ==> Payload(cs)[8 * k .. 8 * k + 8] == Le32(cs[k].0) + Le32(cs[k].1)
  {
    if cs != [] {
      var init := cs[..|cs| - 1];
      assert AllFit(init);
      PayloadAt(init);
      var before := Payload(init);
      var tail := Le32(cs[|cs| - 1].0) + Le32(cs[|cs| - 1].1);
      var whole := Payload(cs);
      assert whole == before + tail;
      forall k | 0 <= k < |cs|
        ensures whole[8 * k .. 8 * k + 8] == Le32(cs[k].0) + Le32(cs[k].1)
      {
        if k < |init| {
          assert 8 * k + 8 <= |before|;
          SliceOfLeft(before, tail, 8 * k, 8 * k + 8);
        } else {
          assert 8 * k == |before|;
          SliceOfRight(before, tail);
        }
      }
    }
  }

  lemma DecodePayloadSnoc(b: seq<byte>, t: seq<byte>)
    requires |t| == 8
    ensures DecodePayload(b + t) == DecodePayload(b) + [(DecodeLe32(t[..4]), DecodeLe32(t[4..]))]
  {
    var w := b + t;
    assert w[..|b|] == b && w[|b|..|b| + 4] == t[..4] && w[|b| + 4..] == t[4..];
  }

  lemma SliceOfLeft(a: seq<byte>, b: seq<byte>, lo: nat, hi: nat)
    requires lo <= hi <= |a|
    ensures (a + b)[lo..hi] == a[lo..hi]
  {
  }

  lemma SliceOfRight(a: seq<byte>, b: seq<byte>)
    ensures (a + b)[|a|..] == b && (a + b)[|a|..|a| + |b|] == b && (a + b)[..|a|] == a
  {
  }

  /** Decoding the payload recovers every centroid, in order. */
  lemma {:induction false} PayloadRoundTrip(cs: seq<(int, int)>)
    requires AllFit(cs)
    ensures DecodePayload(Payload(cs)) == cs
  {
    if cs != [] {
      var init := cs[..|cs| - 1];
      var c := cs[|cs| - 1];
      assert AllFit(init);
      PayloadRoundTrip(init);
      var x, y := Le32(c.0), Le32(c.1);
      assert Payload(cs) == Payload(init) + (x + y);
      DecodePayloadSnoc(Payload(init), x + y);
      SliceOfRight(x, y);
      Le32RoundTrip(c.0);
      Le32RoundTrip(c.1);
      assert cs == init + [c];
    }
  }

  /** The buffer is 255 + 8n bytes, not the 2 + 8n that the framing and the `- 2` in
      the report suggest, and it starts and ends with zeros rather than 0xAA and 0x55. */
  lemma PacketLayout(cs: seq<(int, int)>)
    requires AllFit(cs)
    ensures var p := Packet(cs);
      |p| == 255 + 8 * |cs| && p[0] == 0 && p[|p| - 1] == 0
      && p[StartByte .. StartByte + 8 * |cs|] == Payload(cs)
      && DecodePayload(p[StartByte .. StartByte + 8 * |cs|]) == cs
  {
    var p := Packet(cs);
    assert p[StartByte .. StartByte + 8 * |cs|] == Payload(cs);
    PayloadRoundTrip(cs);
  }

  /** The packet the framing comment describes: one 0xAA byte, the payload, one 0x55
      byte. */
  function FramedPacket(cs: seq<(int, int)>): (r: seq<byte>)
    requires AllFit(cs)
  {
    [StartByte] + Payload(cs) + [StopByte]
  }

  /** The framed packet is 2 + 8n bytes, is delimited by the two markers, and decodes back
      to the centroids. */
  lemma FramedPacketRoundTrip(cs: seq<(int, int)>)
    requires AllFit(cs)
    ensures var p := FramedPacket(cs);
      |p| - 2 == 8 * |cs| && p[0] == StartByte && p[|p| - 1] == StopByte
      && DecodePayload(p[1 .. |p| - 1]) == cs
  {
    var p := FramedPacket(cs);
    assert p[1 .. |p| - 1] == Payload(cs);
    PayloadRoundTrip(cs);
  }

  /** The loop `for x, y in centroids: buffer += struct.pack('<II', fx, fy)` between the
      two marker appends. It stops at the first centroid `struct.pack` rejects. */
  method BuildBuffer(centroids: seq<(int, int)>) returns (r: Result<seq<byte>, PackError>)
    ensures r.Ok? <==> AllFit(centroids)
    ensures r.Ok? ==> AllFit(centroids) && r.value == Packet(centroids)
    ensures r.Err? ==> var k := r.error.centroid;
      k < |centroids| && !CentroidFits(centroids[k]) && AllFit(centroids[..k])
  {
    var buffer := Zeros(StartByte);
    var i := 0;
    while i < |centroids|
      invariant 0 <= i <= |centroids| && AllFit(centroids[..i])
      invariant buffer == Zeros(StartByte) + Payload(centroids[..i])
    {
      var fx := centroids[i].0;
      var fy := centroids[i].1;
      if !(FitsUint32(fx) && FitsUint32(fy)) {
        return Err(NotUint32(i));
      }
      assert centroids[..i + 1][..i] == centroids[..i];
      assert AllFit(centroids[..i + 1]);
      buffer := buffer + (Le32(fx) + Le32(fy));
      i := i + 1;
    }
    assert centroids[..i] == centroids;
    buffer := buffer + Zeros(StopByte);
    return Ok(buffer);
  }

  // ---------------------------------------------------------------------------
  // Chunking
  // ---------------------------------------------------------------------------

  function Min(a: int, b: int): int
  {
    if a < b then a else b
  }

  /** `[buffer[i:i+chunk_size] for i in range(0, len(buffer), chunk_size)]`. */
  function Chunks(b: seq<byte>): seq<seq<byte>>
    decreases |b|
  {
    if b == [] then [] else [b[..Min(ChunkSize, |b|)]] + Chunks(b[Min(ChunkSize, |b|)..])
  }

  function Flatten(ss: seq<seq<byte>>): seq<byte>
  {
    if ss == [] then [] else ss[0] + Flatten(ss[1..])
  }

  /** The chunks put back together are the buffer. */
  lemma {:induction false} ChunksFlatten(b: seq<byte>)
    ensures Flatten(Chunks(b)) == b
    decreases |b|
  {
    if b != [] {
      var m := Min(ChunkSize, |b|);
      ChunksFlatten(b[m..]);
      var cs := Chunks(b);
      assert cs[1..] == Chunks(b[m..]);
      assert b == b[..m] + b[m..];
    }
  }

  /** There are `ceil(len / 32)` chunks. */
  lemma {:induction false} ChunksCount(b: seq<byte>)
    ensures |Chunks(b)| == (|b| + ChunkSize - 1) / ChunkSize
    decreases |b|
  {
    if b != [] {
      var m := Min(ChunkSize, |b|);
      ChunksCount(b[m..]);
    }
  }

  /** Chunk k is the slice at offset `32k`: non-empty, at most 32 bytes, and shorter only
      when it is the last. */
  lemma {:induction false} ChunksAt(b: seq<byte>, k: nat)
    requires k < |Chunks(b)|
    ensures k * ChunkSize < |b| && Chunks(b)[k] == b[k * ChunkSize .. Min(k * ChunkSize + ChunkSize, |b|)]
    ensures 0 < |Chunks(b)[k]| <= ChunkSize
    ensures k < |Chunks(b)| - 1 ==> |Chunks(b)[k]| == ChunkSize
    decreases k
  {
    var m := Min(ChunkSize, |b|);
    var rest := b[m..];
    var cs := Chunks(b);
    var tail := Chunks(rest);
    assert cs == [b[..m]] + tail;
    if k > 0 {
      ChunksAt(rest, k - 1);
      assert cs[k] == tail[k - 1];
      assert m == ChunkSize;
    } else if |cs| > 1 {
      assert rest != [];
    }
  }

  /** The chunking loop: `for i in range(0, len(buffer), chunk_size)`, each slice handed
      to `xfer2` in turn. */
  method ChunkBuffer(buffer: seq<byte>) returns (chunks: seq<seq<byte>>)
    ensures chunks == Chunks(buffer)
  {
    chunks := [];
    var i := 0;
    while i < |buffer|
      invariant 0 <= i <= |buffer|
      invariant chunks + Chunks(buffer[i..]) == Chunks(buffer)
      decreases |buffer| - i
    {
      var end := Min(i + ChunkSize, |buffer|);
      var chunk := buffer[i..end];
      ghost var rest := buffer[i..];
      assert rest[..Min(ChunkSize, |rest|)] == chunk;
      assert rest[Min(ChunkSize, |rest|)..] == buffer[end..];
      chunks := chunks + [chunk];
      i := end;
    }
  }

  /** `send_centroids` on already scaled coordinates: the chunks sent in order, or the
      error `struct.pack` raises before anything is sent. */
  method SendCentroids(centroids: seq<(int, int)>) returns (r: Result<seq<seq<byte>>, PackError>)
    ensures r.Ok? <==> AllFit(centroids)
    ensures r.Ok? ==> AllFit(centroids) && r.value == Chunks(Packet(centroids))
    ensures r.Err? ==> var k := r.error.centroid;
      k < |centroids| && !CentroidFits(centroids[k]) && AllFit(centroids[..k])
  {
    var built := BuildBuffer(centroids);
    if built.Err? {
      return Err(built.error);
    }
    var chunks := ChunkBuffer(built.value);
    return Ok(chunks);
  }
}
