/**
 Shards with checksums over an abstract erasure code: any as many shards as there are data
 shards determine all of them. Damaged shards that the checksum tells apart are dropped, and
 up to two of them are repaired.
 */
module ShardCode {
  import opened ByteFields
  import opened EccLayout

  type Checksum = Bytes -> u32

  /** The parity of data shards, and the repair of a list with holes, given the number of data shards. */
  datatype Code = Code(parity: seq<Bytes> -> seq<Bytes>, reconstruct: (nat, seq<Option<Bytes>>) -> Option<seq<Bytes>>)

  /** The data shards and their parity. */
  function Full(code: Code, data: seq<Bytes>): seq<Bytes> { data + code.parity(data) }

  function Holes(partial: seq<Option<Bytes>>): nat {
    if |partial| == 0 then 0 else (if partial[0].None? then 1 else 0) + Holes(partial[1..])
  }

  /** The list agrees with the shards wherever it has no hole. */
  ghost predicate Fits(partial: seq<Option<Bytes>>, shards: seq<Bytes>) {
    |partial| == |shards| && forall i :: 0 <= i < |partial| ==> partial[i].None? || partial[i].value == shards[i]
  }

  /** Data shards the code is used on: a number in range, all of one size, none empty. */
  predicate Encodable(data: seq<Bytes>, size: nat) {
    MIN_DATA_SHARDS <= |data| <= MAX_DATA_SHARDS && size > 0 && AllOfSize(data, size)
  }

  /** The code makes two parity shards of the common size, and repairs any two holes. */
  ghost predicate IsErasureCode(code: Code) {
    && (forall data: seq<Bytes>, size: nat {:trigger Encodable(data, size)} ::
          Encodable(data, size) ==> |code.parity(data)| == PARITY_SHARDS && AllOfSize(code.parity(data), size))
    && (forall data: seq<Bytes>, size: nat, partial: seq<Option<Bytes>> {:trigger Encodable(data, size), Fits(partial, Full(code, data))} ::
          Encodable(data, size) && Fits(partial, Full(code, data)) && Holes(partial) <= PARITY_SHARDS ==>
            code.reconstruct(|data|, partial) == Some(Full(code, data)))
  }

  // --------------------------------------------------------------------------- writing

  function Zeros(n: nat): (z: Bytes)
    ensures |z| == n
  {
    seq(n, _ => 0)
  }

  function Padded(payload: Bytes, len: nat): (p: Bytes)
    requires |payload| <= len
    ensures |p| == len && p[..|payload|] == payload
  {
    payload + Zeros(len - |payload|)
  }

  /** The data shards of a payload. */
  function DataShards(payload: Bytes): (shards: seq<Bytes>)
    ensures |shards| == LayoutFor(|payload|).dataShards && AllOfSize(shards, LayoutFor(|payload|).shardSize)
  {
    LayoutCovers(|payload|);
    var l := LayoutFor(|payload|);
    Pieces(Padded(payload, DataLen(l)), l.shardSize, l.dataShards)
  }

  /** All shards of a payload. */
  function ShardsOf(code: Code, payload: Bytes): seq<Bytes> { Full(code, DataShards(payload)) }

  function Checksums(crc: Checksum, shards: seq<Bytes>): seq<u32> {
    seq(|shards|, i requires 0 <= i < |shards| => crc(shards[i]))
  }

  function Fields(values: seq<u32>): (fields: seq<Bytes>)
    ensures |fields| == |values| && AllOfSize(fields, CHECKSUM_BYTES)
  {
    seq(|values|, i requires 0 <= i < |values| => Put32(values[i]))
  }

  /** The checksum table followed by the shards. */
  function Body(crc: Checksum, shards: seq<Bytes>): Bytes { Flat(Fields(Checksums(crc, shards))) + Flat(shards) }

  lemma ShardsShape(code: Code, payload: Bytes)
    requires IsErasureCode(code)
    ensures var l := LayoutFor(|payload|);
            |ShardsOf(code, payload)| == TotalShards(l) && AllOfSize(ShardsOf(code, payload), l.shardSize)
  {
    var data, l := DataShards(payload), LayoutFor(|payload|);
    LayoutCovers(|payload|);
    assert Encodable(data, l.shardSize);
  }

  // --------------------------------------------------------------------------- reading

  function Values(fields: seq<Bytes>): seq<u32>
    requires AllOfSize(fields, CHECKSUM_BYTES)
  {
    seq(|fields|, i requires 0 <= i < |fields| => Get32(fields[i]))
  }

  lemma ValuesOfFields(values: seq<u32>)
    ensures Values(Fields(values)) == values
  {
    forall i | 0 <= i < |values|
      ensures Values(Fields(values))[i] == values[i]
    {
      Fields32(values[i]);
    }
  }

  /** The shards whose checksum is as announced. */
  function Sieve(crc: Checksum, expected: seq<u32>, shards: seq<Bytes>): (partial: seq<Option<Bytes>>)
    requires |expected| == |shards|
    ensures |partial| == |shards|
  {
    seq(|shards|, i requires 0 <= i < |shards| => if crc(shards[i]) == expected[i] then Some(shards[i]) else None)
  }

  /** How many places differ. */
  function Altered(a: seq<Bytes>, b: seq<Bytes>): nat
    requires |a| == |b|
  {
    if |a| == 0 then 0 else (if a[0] != b[0] then 1 else 0) + Altered(a[1..], b[1..])
  }

  /** The checksum tells every altered shard from the original. */
  ghost predicate Separates(crc: Checksum, original: seq<Bytes>, damaged: seq<Bytes>) {
    |original| == |damaged| && forall i :: 0 <= i < |original| ==> damaged[i] != original[i] ==> crc(damaged[i]) != crc(original[i])
  }

  /** The sieve drops exactly the altered shards. */
  lemma {:induction false} SieveDrops(crc: Checksum, original: seq<Bytes>, damaged: seq<Bytes>)
    requires Separates(crc, original, damaged)
    ensures var partial := Sieve(crc, Checksums(crc, original), damaged);
            Fits(partial, original) && Holes(partial) == Altered(original, damaged)
  {
    if |original| > 0 {
      var o, d := original[1..], damaged[1..];
      assert forall i :: 0 <= i < |o| ==> o[i] == original[i + 1] && d[i] == damaged[i + 1];
      SieveDrops(crc, o, d);
      var partial := Sieve(crc, Checksums(crc, original), damaged);
      assert partial[1..] == Sieve(crc, Checksums(crc, o), d);
    }
  }

  lemma {:induction false} AlteredNone(a: seq<Bytes>)
    ensures Altered(a, a) == 0
  {
    if |a| > 0 {
      AlteredNone(a[1..]);
    }
  }

  /** The payload the data shards hold. */
  function Joined(shards: seq<Bytes>, dataShards: nat, payloadLen: nat): Bytes
    requires dataShards <= |shards|
  {
    var all := Flat(shards[..dataShards]);
    if payloadLen <= |all| then all[..payloadLen] else all
  }

  lemma JoinedPayload(code: Code, payload: Bytes)
    requires IsErasureCode(code)
    ensures var l := LayoutFor(|payload|);
            |ShardsOf(code, payload)| == TotalShards(l) && Joined(ShardsOf(code, payload), l.dataShards, |payload|) == payload
  {
    var l := LayoutFor(|payload|);
    var data := DataShards(payload);
    ShardsShape(code, payload);
    LayoutCovers(|payload|);
    FlatOfPieces(Padded(payload, DataLen(l)), l.shardSize, l.dataShards);
    assert ShardsOf(code, payload)[..l.dataShards] == data;
  }

  /** At most two altered shards are repaired. */
  lemma Repairs(code: Code, crc: Checksum, payload: Bytes, damaged: seq<Bytes>)
    requires IsErasureCode(code) && Separates(crc, ShardsOf(code, payload), damaged)
    requires Altered(ShardsOf(code, payload), damaged) <= PARITY_SHARDS
    ensures var original := ShardsOf(code, payload);
            code.reconstruct(LayoutFor(|payload|).dataShards, Sieve(crc, Checksums(crc, original), damaged)) == Some(original)
  {
    LayoutCovers(|payload|);
    assert Encodable(DataShards(payload), LayoutFor(|payload|).shardSize);
    SieveDrops(crc, ShardsOf(code, payload), damaged);
  }

  /** The two halves of a body. */
  lemma BodyParts(crc: Checksum, shards: seq<Bytes>, size: nat)
    requires AllOfSize(shards, size)
    ensures |Flat(Fields(Checksums(crc, shards)))| == |shards| * CHECKSUM_BYTES && |Flat(shards)| == |shards| * size
    ensures Pieces(Flat(Fields(Checksums(crc, shards))), CHECKSUM_BYTES, |shards|) == Fields(Checksums(crc, shards))
    ensures Pieces(Flat(shards), size, |shards|) == shards
  {
    PiecesOfFlat(Fields(Checksums(crc, shards)), CHECKSUM_BYTES);
    PiecesOfFlat(shards, size);
  }
}
