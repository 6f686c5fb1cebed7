/** The byte layout of a BPF ring buffer: record headers, strides, and bytes stored round a ring. */
module RingLayout {
  import opened Words

  const BUSY_BIT: nat := 0x8000_0000
  const DISCARD_BIT: nat := 0x4000_0000
  const HDR_SZ: nat := 8

  /** RINGBUF_MAX_RECORD_SZ in the kernel: a length must leave the two flag bits clear. */
  const MAX_RECORD: nat := 0x3FFF_FFFF

  /** BpfRingbufBase::roundLength, mask by mask, in 32-bit arithmetic. */
  function RoundLength(length: Word32): nat {
    var cleared := BitAnd(length, 0xFFFF_FFFF - (BUSY_BIT + DISCARD_BIT));
    var withHeader := U32(cleared + HDR_SZ);
    BitAnd(U32(withHeader + 7), 0xFFFF_FFF8)
  }

  /** The space a producer takes for n payload bytes: header plus payload, rounded up to 8. */
  function Stride(n: nat): nat {
    (n + HDR_SZ + 7) / 8 * 8
  }

  predicate IsBusy(length: Word32) { BitAnd(length, BUSY_BIT) != 0 }

  predicate IsDiscarded(length: Word32) { BitAnd(length, DISCARD_BIT) != 0 }

  function Flags(busy: bool, discarded: bool): nat {
    (if busy then BUSY_BIT else 0) + (if discarded then DISCARD_BIT else 0)
  }

  lemma FlagBits(n: nat, busy: bool, discarded: bool)
    requires n <= MAX_RECORD
    ensures n + Flags(busy, discarded) < 0x1_0000_0000
    ensures IsBusy(n + Flags(busy, discarded)) <==> busy
    ensures IsDiscarded(n + Flags(busy, discarded)) <==> discarded
  {
    hide BitAnd;
    var w := n + Flags(busy, discarded);
    Bit30And31(w);
    assert w / 0x8000_0000 == if busy then 1 else 0;
    assert w / 0x4000_0000 == (if busy then 2 else 0) + (if discarded then 1 else 0);
  }

  /** Bit 31 says busy and bit 30 discarded. */
  lemma FlagsExactly(w: Word32)
    ensures IsBusy(w) <==> w >= 0x8000_0000
    ensures IsDiscarded(w) <==> w / 0x4000_0000 % 2 == 1
  {
    hide BitAnd;
    Bit30And31(w);
  }

  lemma StrideBounds(n: nat)
    requires n <= MAX_RECORD
    ensures n + 8 <= Stride(n) < n + 16 && Stride(n) % 8 == 0
    ensures 8 <= Stride(n) <= MAX_RECORD + 9
  {
  }

  /** Whatever the flag bits, the consumer advances by exactly the producer's stride, and no
      32-bit operation on the way overflows. */
  lemma RoundLengthIsStride(n: nat, busy: bool, discarded: bool)
    requires n <= MAX_RECORD
    ensures n + Flags(busy, discarded) < 0x1_0000_0000
    ensures RoundLength(n + Flags(busy, discarded)) == Stride(n)
  {
    hide BitAnd;
    var w := n + Flags(busy, discarded);
    Bit30And31(w);
    assert w % 0x4000_0000 == n;
    BitAndNot7(n + HDR_SZ + 7);
  }

  // ---- header words in memory ----

  function Bytes4(w: Word32): (b: seq<byte>)
    ensures |b| == 4
  {
    [w % 256, w / 256 % 256, w / 256 / 256 % 256, w / 256 / 256 / 256]
  }

  /** A 32-bit little-endian load. */
  function Word4(b0: byte, b1: byte, b2: byte, b3: byte): Word32 {
    b0 + 256 * (b1 + 256 * (b2 + 256 * b3))
  }

  lemma Word4Bytes4(w: Word32)
    ensures var b := Bytes4(w); Word4(b[0], b[1], b[2], b[3]) == w
  {
  }

  // ---- bytes round the ring ----

  /** The byte at unbounded position `pos`. */
  function At(ring: seq<byte>, pos: nat): byte
    requires |ring| > 0
  {
    ring[pos % |ring|]
  }

  /** `bytes` occupy the positions from `pos` on. */
  ghost predicate Holds(ring: seq<byte>, pos: nat, bytes: seq<byte>)
    requires |ring| > 0
  {
    forall j :: 0 <= j < |bytes| ==> At(ring, pos + j) == bytes[j]
  }

  function Put(ring: seq<byte>, pos: nat, bytes: seq<byte>): (r: seq<byte>)
    requires |ring| > 0
    ensures |r| == |ring|
    decreases |bytes|
  {
    if bytes == [] then ring
    else Put(ring[pos % |ring| := bytes[0]], pos + 1, bytes[1..])
  }

  /** A write leaves every position it does not cover, less than a lap away, as it was. */
  lemma {:induction false} PutElsewhere(ring: seq<byte>, pos: nat, bytes: seq<byte>, q: nat)
    requires |ring| > 0
    requires q < pos || pos + |bytes| <= q
    requires pos + |bytes| <= q + |ring| && q < pos + |ring|
    ensures At(Put(ring, pos, bytes), q) == At(ring, q)
    decreases |bytes|
  {
    if bytes != [] {
      if q < pos {
        ModDistinct(q, pos, |ring|);
      } else {
        ModDistinct(pos, q, |ring|);
      }
      PutElsewhere(ring[pos % |ring| := bytes[0]], pos + 1, bytes[1..], q);
    }
  }

  lemma {:induction false} PutHolds(ring: seq<byte>, pos: nat, bytes: seq<byte>)
    requires 0 < |ring| && |bytes| <= |ring|
    ensures Holds(Put(ring, pos, bytes), pos, bytes)
    decreases |bytes|
  {
    if bytes != [] {
      var ring1 := ring[pos % |ring| := bytes[0]];
      PutHolds(ring1, pos + 1, bytes[1..]);
      PutElsewhere(ring1, pos + 1, bytes[1..], pos);
      forall j | 0 <= j < |bytes| ensures At(Put(ring, pos, bytes), pos + j) == bytes[j] {
        if j > 0 {
          assert At(Put(ring1, pos + 1, bytes[1..]), pos + 1 + (j - 1)) == bytes[1..][j - 1];
        }
      }
    }
  }

  /** What lies in one interval of a lap-sized window survives a write to another. */
  lemma PutKeepsInterval(ring: seq<byte>, pos: nat, bytes: seq<byte>, q: nat, kept: seq<byte>)
    requires |ring| > 0
    requires q + |kept| <= pos || pos + |bytes| <= q
    requires pos + |bytes| <= q + |ring| && q + |kept| <= pos + |ring|
    requires Holds(ring, q, kept)
    ensures Holds(Put(ring, pos, bytes), q, kept)
  {
    forall j | 0 <= j < |kept| ensures At(Put(ring, pos, bytes), q + j) == kept[j] {
      PutElsewhere(ring, pos, bytes, q + j);
    }
  }

  /** The n bytes from `pos` on. */
  function View(ring: seq<byte>, pos: nat, n: nat): (v: seq<byte>)
    requires |ring| > 0
    ensures |v| == n && Holds(ring, pos, v)
  {
    seq<byte>(n, (j: nat) requires j < n => At(ring, pos + j))
  }

  // ---- the doubly mapped data area ----

  /** A load from the consumer's mapping, which shows the ring twice in a row: the source maps
      `2 * max_entries` bytes of data, so an offset must stay below twice the ring size. */
  function Mapped(ring: seq<byte>, offset: nat): byte
    requires offset < 2 * |ring|
  {
    if offset < |ring| then ring[offset] else ring[offset - |ring|]
  }

  /** Reading on from a masked position shows the bytes at the unmasked positions, also for a
      record that straddles the end of the ring. */
  lemma MappedIsAt(ring: seq<byte>, pos: nat, j: nat)
    requires 0 < |ring| && j <= |ring|
    ensures pos % |ring| + j < 2 * |ring|
    ensures Mapped(ring, pos % |ring| + j) == At(ring, pos + j)
  {
    ModAdd(pos, j, |ring|);
    var o := pos % |ring| + j;
    if o < |ring| {
      DivModUnique(o, |ring|, 0, o);
    } else {
      DivModUnique(o, |ring|, 1, o - |ring|);
    }
  }
}
