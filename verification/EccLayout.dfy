/** Layout arithmetic of the error-correcting frames: how many shards a payload gets, and how large. */
module EccLayout {
  import opened Bounds

  const TARGET_SHARD_SIZE: nat := 4096
  const MIN_DATA_SHARDS: nat := 2
  const MAX_DATA_SHARDS: nat := 32
  const PARITY_SHARDS: nat := 2
  const CHECKSUM_BYTES: nat := 4

  datatype Layout = Layout(dataShards: nat, shardSize: nat)

  /** Division rounding up. */
  function DivCeil(a: nat, b: nat): nat
    requires b > 0
  {
    (a + b - 1) / b
  }

  /** Rounding up covers, with less than one divisor to spare. */
  lemma DivCeilBounds(a: nat, b: nat)
    requires b > 0
    ensures a <= b * DivCeil(a, b) < a + b
  {
    var n := a + b - 1;
    assert n == b * (n / b) + n % b;
  }

  function LayoutFor(payloadLen: nat): Layout {
    var effective := MaxNat(payloadLen, 1);
    var dataShards := ClampNat(DivCeil(effective, TARGET_SHARD_SIZE), MIN_DATA_SHARDS, MAX_DATA_SHARDS);
    Layout(dataShards, MaxNat(DivCeil(effective, dataShards), 1))
  }

  /** What a header may announce. */
  predicate FromHeader(dataShards: nat, parityShards: nat, shardSize: nat) {
    MIN_DATA_SHARDS <= dataShards <= MAX_DATA_SHARDS && parityShards == PARITY_SHARDS && shardSize != 0
  }

  function TotalShards(l: Layout): nat { l.dataShards + PARITY_SHARDS }

  function TableLen(l: Layout): nat { TotalShards(l) * CHECKSUM_BYTES }

  function ShardsLen(l: Layout): nat { TotalShards(l) * l.shardSize }

  function DataLen(l: Layout): nat { l.dataShards * l.shardSize }

  /**
   The data shards cover the payload with fewer than one byte of slack per shard, an empty
   payload counting as one byte, and a reader accepts the header.
   */
  lemma LayoutCovers(payloadLen: nat)
    ensures var l := LayoutFor(payloadLen);
            && payloadLen <= DataLen(l) && MaxNat(payloadLen, 1) <= DataLen(l) < MaxNat(payloadLen, 1) + l.dataShards
            && FromHeader(l.dataShards, PARITY_SHARDS, l.shardSize)
  {
    var l := LayoutFor(payloadLen);
    var effective := MaxNat(payloadLen, 1);
    DivCeilBounds(effective, l.dataShards);
    assert DataLen(l) == l.dataShards * l.shardSize;
  }

  /** Below the largest shard count no shard exceeds the target size. */
  lemma SmallShards(payloadLen: nat)
    ensures var l := LayoutFor(payloadLen); l.dataShards < MAX_DATA_SHARDS ==> l.shardSize <= TARGET_SHARD_SIZE
  {
    var l := LayoutFor(payloadLen);
    var effective := MaxNat(payloadLen, 1);
    if l.dataShards < MAX_DATA_SHARDS {
      DivCeilBounds(effective, TARGET_SHARD_SIZE);
      assert effective <= TARGET_SHARD_SIZE * l.dataShards;
      DivCeilMonotone(effective, TARGET_SHARD_SIZE * l.dataShards, l.dataShards);
      DivCeilExact(TARGET_SHARD_SIZE, l.dataShards);
    }
  }

  lemma NegativeFactor(x: int, d: nat)
    requires x * d < 0
    ensures x < 0
  {
  }

  lemma Cancel(x: nat, y: nat, d: nat)
    requires d * x < d * y
    ensures x < y
  {
    assert (x - y) * d == d * x - d * y;
    NegativeFactor(x - y, d);
  }

  lemma DivCeilMonotone(a: nat, b: nat, d: nat)
    requires d > 0 && a <= b
    ensures DivCeil(a, d) <= DivCeil(b, d)
  {
    DivCeilBounds(a, d);
    DivCeilBounds(b, d);
    Cancel(DivCeil(a, d), DivCeil(b, d) + 1, d);
  }

  lemma DivCeilExact(q: nat, d: nat)
    requires d > 0
    ensures DivCeil(q * d, d) == q
  {
    DivCeilBounds(q * d, d);
    Cancel(DivCeil(q * d, d), q + 1, d);
    Cancel(q, DivCeil(q * d, d) + 1, d);
  }

  /** The number of bytes that follow a header of the given length. */
  function EncodedLen(headerLen: nat, l: Layout): nat { headerLen + TableLen(l) + ShardsLen(l) }

  /** No payload within the limit is encoded longer than the largest one, although the length is not monotone. */
  lemma EncodedLenBounded(headerLen: nat, payloadLen: nat, limit: nat)
    requires payloadLen <= limit && limit >= TARGET_SHARD_SIZE * MAX_DATA_SHARDS
    ensures EncodedLen(headerLen, LayoutFor(payloadLen)) <= EncodedLen(headerLen, LayoutFor(limit))
  {
    var l, top := LayoutFor(payloadLen), LayoutFor(limit);
    DivCeilMonotone(TARGET_SHARD_SIZE * MAX_DATA_SHARDS, limit, TARGET_SHARD_SIZE);
    DivCeilExact(MAX_DATA_SHARDS, TARGET_SHARD_SIZE);
    assert top.dataShards == MAX_DATA_SHARDS;
    DivCeilMonotone(TARGET_SHARD_SIZE * MAX_DATA_SHARDS, limit, MAX_DATA_SHARDS);
    DivCeilExact(TARGET_SHARD_SIZE, MAX_DATA_SHARDS);
    assert top.shardSize >= TARGET_SHARD_SIZE;
    if l.dataShards < MAX_DATA_SHARDS {
      SmallShards(payloadLen);
    } else {
      DivCeilMonotone(MaxNat(payloadLen, 1), limit, MAX_DATA_SHARDS);
    }
    assert l.shardSize <= top.shardSize && TotalShards(l) <= TotalShards(top);
    ProductMonotone(TotalShards(l), l.shardSize, TotalShards(top), top.shardSize);
  }

  lemma ProductMonotone(a: nat, x: nat, b: nat, y: nat)
    requires a <= b && x <= y
    ensures a * x <= b * y
  {
    assert b * y - a * x == b * (y - x) + (b - a) * x;
    assert b * (y - x) >= 0 && (b - a) * x >= 0;
  }
  /** The largest payload for its number of shards, and one more shard is still allowed. */
  predicate FullShards(payloadLen: nat) {
    && payloadLen % TARGET_SHARD_SIZE == 0
    && MIN_DATA_SHARDS * TARGET_SHARD_SIZE <= payloadLen < MAX_DATA_SHARDS * TARGET_SHARD_SIZE
  }

  /** One byte more needs one shard more exactly when the shards are full. */
  lemma NextShards(payloadLen: nat)
    ensures LayoutFor(payloadLen + 1).dataShards == LayoutFor(payloadLen).dataShards + if FullShards(payloadLen) then 1 else 0
  {
  }

  lemma FullLayout(payloadLen: nat)
    requires FullShards(payloadLen)
    ensures LayoutFor(payloadLen) == Layout(payloadLen / TARGET_SHARD_SIZE, TARGET_SHARD_SIZE)
    ensures LayoutFor(payloadLen + 1).dataShards == payloadLen / TARGET_SHARD_SIZE + 1
  {
    var k := payloadLen / TARGET_SHARD_SIZE;
    assert payloadLen == TARGET_SHARD_SIZE * k;
    NextShards(payloadLen);
    DivCeilExact(TARGET_SHARD_SIZE, k);
  }

  /** Spreading k full shards and one byte over k + 1 shards makes each so much smaller that the sum is less. */
  lemma SpreadIsShorter(k: nat, size: nat)
    requires MIN_DATA_SHARDS <= k < MAX_DATA_SHARDS
    requires (k + 1) * size < TARGET_SHARD_SIZE * k + 1 + (k + 1)
    ensures (k + 3) * (CHECKSUM_BYTES + size) < (k + 2) * (CHECKSUM_BYTES + TARGET_SHARD_SIZE)
  {
    var t := (k + 1) * size;
    var left, right := (k + 3) * (4 + size), (k + 2) * 4100;
    assert (k + 1) * left == (k + 3) * (4 * (k + 1) + t) by {
      assert (k + 1) * (4 + size) == 4 * (k + 1) + t;
      assert (k + 1) * left == (k + 3) * ((k + 1) * (4 + size));
    }
    ProductMonotone(k + 3, 4 * (k + 1) + t, k + 3, 4101 * k + 5);
    ProductMonotone(k, k, 31, 31);
    assert (k + 3) * (4101 * k + 5) == 4101 * (k * k) + 12308 * k + 15;
    assert (k + 1) * right == 4100 * (k * k) + 12300 * k + 8200;
    Cancel(left, right, k + 1);
  }

  /**
   One byte more makes a frame shorter exactly when the payload fills its shards and one
   more shard is allowed: at the multiples of 4096 from 8192 to 126976.
   */
  lemma ShrinksExactly(headerLen: nat, payloadLen: nat)
    ensures EncodedLen(headerLen, LayoutFor(payloadLen + 1)) < EncodedLen(headerLen, LayoutFor(payloadLen)) <==> FullShards(payloadLen)
  {
    var l, next := LayoutFor(payloadLen), LayoutFor(payloadLen + 1);
    NextShards(payloadLen);
    FrameLen(headerLen, l);
    FrameLen(headerLen, next);
    if FullShards(payloadLen) {
      var k := payloadLen / TARGET_SHARD_SIZE;
      FullLayout(payloadLen);
      DivCeilBounds(payloadLen + 1, k + 1);
      SpreadIsShorter(k, next.shardSize);
    } else {
      DivCeilMonotone(MaxNat(payloadLen, 1), payloadLen + 1, l.dataShards);
      ProductMonotone(TotalShards(l), CHECKSUM_BYTES + l.shardSize, TotalShards(next), CHECKSUM_BYTES + next.shardSize);
    }
  }

  lemma FrameLen(headerLen: nat, l: Layout)
    ensures EncodedLen(headerLen, l) == headerLen + TotalShards(l) * (CHECKSUM_BYTES + l.shardSize)
  {
    assert TotalShards(l) * (CHECKSUM_BYTES + l.shardSize) == TotalShards(l) * CHECKSUM_BYTES + TotalShards(l) * l.shardSize;
  }

  /** Up to 256 MiB the shard count fits two bytes and the shard size four. */
  lemma LayoutFitsFields(payloadLen: nat)
    requires payloadLen <= 0x1000_0000
    ensures LayoutFor(payloadLen).dataShards < 0x1_0000 && LayoutFor(payloadLen).shardSize < 0x1_0000_0000
  {
    var l := LayoutFor(payloadLen);
    LayoutCovers(payloadLen);
    ProductMonotone(1, l.shardSize, l.dataShards, l.shardSize);
  }
}
