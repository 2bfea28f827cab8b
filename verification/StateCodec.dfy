/**
 The state file format: a fixed header, a checksum table and the shards. Decoding undoes
 encoding, also when any two shards are damaged, and refuses when three or more are.
 */
module StateCodec {
  import opened ByteFields
  import opened EccLayout
  import opened ShardCode
  import opened ShardBuffers

  /** The characters of MJFEC001. */
  const MAGIC: Bytes := [77, 74, 70, 69, 67, 48, 48, 49]

  /** 256 MiB */
  const MAX_PAYLOAD_BYTES: nat := 268435456

  const HEADER_LEN: nat := 24

  datatype Error =
    | TooLarge | BadMagic | ShortHeader | BadHeader | LengthMismatch
    | Uncorrectable(damaged: nat) | CannotReconstruct | ShardMismatch | PayloadMismatch

  datatype Result<T> = Ok(value: T) | Err(error: Error)

  function Header(payloadLen: u32, l: Layout, payloadCrc: u32): (h: Bytes)
    requires l.dataShards < 0x1_0000 && l.shardSize < 0x1_0000_0000
    ensures |h| == HEADER_LEN
  {
    MAGIC + Put32(payloadLen) + Put16(l.dataShards) + Put16(PARITY_SHARDS) + Put32(l.shardSize) + Put32(payloadCrc)
  }

  function HeaderFor(crc: Checksum, payload: Bytes): (h: Bytes)
    requires |payload| <= MAX_PAYLOAD_BYTES
    ensures |h| == HEADER_LEN
  {
    LayoutFitsFields(|payload|);
    Header(|payload|, LayoutFor(|payload|), crc(payload))
  }

  function Encoded(code: Code, crc: Checksum, payload: Bytes): Bytes
    requires |payload| <= MAX_PAYLOAD_BYTES
  {
    HeaderFor(crc, payload) + Body(crc, ShardsOf(code, payload))
  }

  function MaxStateBytes(): nat { EncodedLen(HEADER_LEN, LayoutFor(MAX_PAYLOAD_BYTES)) }

  /** Every encoded state is as long as its layout says, and fits the limit for state files. */
  lemma EncodedFits(code: Code, crc: Checksum, payload: Bytes)
    requires IsErasureCode(code) && |payload| <= MAX_PAYLOAD_BYTES
    ensures |Encoded(code, crc, payload)| == EncodedLen(HEADER_LEN, LayoutFor(|payload|)) <= MaxStateBytes()
  {
    ShardsShape(code, payload);
    BodyParts(crc, ShardsOf(code, payload), LayoutFor(|payload|).shardSize);
    EncodedLenBounded(HEADER_LEN, |payload|, MAX_PAYLOAD_BYTES);
  }

  // -------------------------------------------------------------------------- decoding

  /** From the shards as read to the payload. */
  function Assemble(code: Code, crc: Checksum, l: Layout, expected: seq<u32>, shards: seq<Bytes>, payloadLen: nat, payloadCrc: u32): Result<Bytes>
    requires |expected| == |shards| == TotalShards(l)
  {
    var partial := Sieve(crc, expected, shards);
    if Holes(partial) > PARITY_SHARDS then Err(Uncorrectable(Holes(partial))) else
      match code.reconstruct(l.dataShards, partial)
      case None => Err(CannotReconstruct)
      case Some(full) =>
        if |full| != TotalShards(l) || Checksums(crc, full) != expected then Err(ShardMismatch) else
          var payload := Joined(full, l.dataShards, payloadLen);
          if crc(payload) != payloadCrc then Err(PayloadMismatch) else Ok(payload)
  }

  /** From the bytes behind a header to the payload. */
  function DecodeBody(code: Code, crc: Checksum, l: Layout, payloadLen: nat, payloadCrc: u32, b: Bytes): Result<Bytes> {
    if |b| != TableLen(l) + ShardsLen(l) then Err(LengthMismatch) else
      Assemble(code, crc, l, Values(Pieces(b[..TableLen(l)], CHECKSUM_BYTES, TotalShards(l))),
               Pieces(b[TableLen(l)..], l.shardSize, TotalShards(l)), payloadLen, payloadCrc)
  }

  function Decode(code: Code, crc: Checksum, b: Bytes): Result<Bytes> {
    if !(MAGIC <= b) then Err(BadMagic)
    else if |b| < HEADER_LEN then Err(ShortHeader)
    else if Get32(b[8..12]) > MAX_PAYLOAD_BYTES then Err(TooLarge)
    else if !FromHeader(Get16(b[12..14]), Get16(b[14..16]), Get32(b[16..20])) then Err(BadHeader)
    else DecodeBody(code, crc, Layout(Get16(b[12..14]), Get32(b[16..20])), Get32(b[8..12]), Get32(b[20..24]), b[HEADER_LEN..])
  }

  lemma HeaderFields(b: Bytes, payloadLen: u32, l: Layout, payloadCrc: u32)
    requires l.dataShards < 0x1_0000 && l.shardSize < 0x1_0000_0000
    requires |b| >= HEADER_LEN && b[..HEADER_LEN] == Header(payloadLen, l, payloadCrc)
    ensures MAGIC <= b && Get32(b[8..12]) == payloadLen && Get16(b[12..14]) == l.dataShards && Get16(b[14..16]) == PARITY_SHARDS
    ensures Get32(b[16..20]) == l.shardSize && Get32(b[20..24]) == payloadCrc
  {
    var h := b[..HEADER_LEN];
    assert h[..8] == MAGIC && b[..8] == h[..8];
    assert b[8..12] == h[8..12] == Put32(payloadLen);
    assert b[12..14] == h[12..14] == Put16(l.dataShards);
    assert b[14..16] == h[14..16] == Put16(PARITY_SHARDS);
    assert b[16..20] == h[16..20] == Put32(l.shardSize);
    assert b[20..24] == h[20..24] == Put32(payloadCrc);
    Fields32(payloadLen);
    Fields16(l.dataShards);
    Fields16(PARITY_SHARDS);
    Fields32(l.shardSize);
    Fields32(payloadCrc);
  }

  /** Assembling shards of which some are altered: repaired up to two, refused from three on. */
  lemma AssembleDamaged(code: Code, crc: Checksum, payload: Bytes, damaged: seq<Bytes>)
    requires IsErasureCode(code) && |ShardsOf(code, payload)| == TotalShards(LayoutFor(|payload|))
    requires Separates(crc, ShardsOf(code, payload), damaged)
    ensures var original := ShardsOf(code, payload);
            Assemble(code, crc, LayoutFor(|payload|), Checksums(crc, original), damaged, |payload|, crc(payload))
            == if Altered(original, damaged) <= PARITY_SHARDS then Ok(payload) else Err(Uncorrectable(Altered(original, damaged)))
  {
    var original := ShardsOf(code, payload);
    SieveDrops(crc, original, damaged);
    if Altered(original, damaged) <= PARITY_SHARDS {
      Repairs(code, crc, payload, damaged);
      JoinedPayload(code, payload);
    }
  }

  /** The file of a payload, with the given shards in place of the original ones. */
  function EncodedWith(code: Code, crc: Checksum, payload: Bytes, shards: seq<Bytes>): Bytes
    requires |payload| <= MAX_PAYLOAD_BYTES
  {
    HeaderFor(crc, payload) + (Flat(Fields(Checksums(crc, ShardsOf(code, payload)))) + Flat(shards))
  }

  lemma BodyDecodes(code: Code, crc: Checksum, l: Layout, payloadLen: nat, payloadCrc: u32, original: seq<Bytes>, shards: seq<Bytes>)
    requires |original| == |shards| == TotalShards(l) && AllOfSize(shards, l.shardSize)
    ensures DecodeBody(code, crc, l, payloadLen, payloadCrc, Flat(Fields(Checksums(crc, original))) + Flat(shards))
            == Assemble(code, crc, l, Checksums(crc, original), shards, payloadLen, payloadCrc)
  {
    var table, body := Flat(Fields(Checksums(crc, original))), Flat(shards);
    PiecesOfFlat(Fields(Checksums(crc, original)), CHECKSUM_BYTES);
    PiecesOfFlat(shards, l.shardSize);
    ValuesOfFields(Checksums(crc, original));
    assert (table + body)[..|table|] == table && (table + body)[|table|..] == body;
  }

  /** With a written header decoding comes down to the body. */
  lemma HeaderDecodes(code: Code, crc: Checksum, payload: Bytes, body: Bytes)
    requires |payload| <= MAX_PAYLOAD_BYTES
    ensures Decode(code, crc, HeaderFor(crc, payload) + body)
            == DecodeBody(code, crc, LayoutFor(|payload|), |payload|, crc(payload), body)
  {
    var b := HeaderFor(crc, payload) + body;
    LayoutFitsFields(|payload|);
    LayoutCovers(|payload|);
    assert b[..HEADER_LEN] == HeaderFor(crc, payload) && b[HEADER_LEN..] == body;
    HeaderFields(b, |payload|, LayoutFor(|payload|), crc(payload));
  }

  /**
   A file with altered shards decodes to the payload exactly when at most two are altered;
   otherwise the damage is reported.
   */
  lemma DecodeDamaged(code: Code, crc: Checksum, payload: Bytes, shards: seq<Bytes>)
    requires IsErasureCode(code) && |payload| <= MAX_PAYLOAD_BYTES
    requires Separates(crc, ShardsOf(code, payload), shards) && AllOfSize(shards, LayoutFor(|payload|).shardSize)
    ensures var altered := Altered(ShardsOf(code, payload), shards);
            Decode(code, crc, EncodedWith(code, crc, payload, shards))
            == if altered <= PARITY_SHARDS then Ok(payload) else Err(Uncorrectable(altered))
  {
    var l := LayoutFor(|payload|);
    var original := ShardsOf(code, payload);
    ShardsShape(code, payload);
    HeaderDecodes(code, crc, payload, Flat(Fields(Checksums(crc, original))) + Flat(shards));
    BodyDecodes(code, crc, l, |payload|, crc(payload), original, shards);
    AssembleDamaged(code, crc, payload, shards);
  }

  /** Decoding undoes encoding. */
  lemma RoundTrip(code: Code, crc: Checksum, payload: Bytes)
    requires IsErasureCode(code) && |payload| <= MAX_PAYLOAD_BYTES
    ensures Decode(code, crc, Encoded(code, crc, payload)) == Ok(payload)
  {
    var original := ShardsOf(code, payload);
    ShardsShape(code, payload);
    AlteredNone(original);
    DecodeDamaged(code, crc, payload, original);
  }

  /** Whatever the bytes, what decodes is as long as they say, no longer than announced, and has the announced checksum. */
  lemma DecodedChecks(code: Code, crc: Checksum, b: Bytes)
    requires Decode(code, crc, b).Ok?
    ensures |b| >= HEADER_LEN && b[..8] == MAGIC
    ensures |b| == EncodedLen(HEADER_LEN, Layout(Get16(b[12..14]), Get32(b[16..20]))) && Get16(b[14..16]) == PARITY_SHARDS
    ensures var payload := Decode(code, crc, b).value;
            crc(payload) == Get32(b[20..24]) && |payload| <= Get32(b[8..12]) <= MAX_PAYLOAD_BYTES
  {
    assert b[..8] == MAGIC;
  }

  // --------------------------------------------------------------------------- methods

  /** The bytes of a state. */
  method EncodeBinary(code: Code, crc: Checksum, payload: Bytes) returns (r: Result<Bytes>)
    ensures |payload| > MAX_PAYLOAD_BYTES ==> r == Err(TooLarge)
    ensures |payload| <= MAX_PAYLOAD_BYTES ==> r == Ok(Encoded(code, crc, payload))
  {
    if |payload| > MAX_PAYLOAD_BYTES {
      return Err(TooLarge);
    }
    LayoutCovers(|payload|);
    var shards := BuildShards(code, payload, LayoutFor(|payload|));
    var encoded := HeaderFor(crc, payload);
    encoded := AppendTable(crc, encoded, shards);
    encoded := AppendShards(encoded, shards);
    assert encoded == HeaderFor(crc, payload) + Body(crc, shards);
    r := Ok(encoded);
  }

  /** The payload of a state file. */
  method DecodeBinary(code: Code, crc: Checksum, b: Bytes) returns (r: Result<Bytes>)
    ensures r == Decode(code, crc, b)
  {
    if !(MAGIC <= b) {
      return Err(BadMagic);
    }
    if |b| < HEADER_LEN {
      return Err(ShortHeader);
    }
    var payloadLen := Get32(b[8..12]);
    if payloadLen > MAX_PAYLOAD_BYTES {
      return Err(TooLarge);
    }
    var dataShards, parityShards, shardSize := Get16(b[12..14]), Get16(b[14..16]), Get32(b[16..20]);
    if !FromHeader(dataShards, parityShards, shardSize) {
      return Err(BadHeader);
    }
    var l := Layout(dataShards, shardSize);
    if |b| != EncodedLen(HEADER_LEN, l) {
      return Err(LengthMismatch);
    }
    var start := HEADER_LEN + TableLen(l);
    assert b[HEADER_LEN..][..TableLen(l)] == b[HEADER_LEN..start] && b[HEADER_LEN..][TableLen(l)..] == b[start..];
    var expected := ReadTable(b[HEADER_LEN..start], TotalShards(l));
    var partial, missing := SieveShards(crc, expected, b[start..], l);
    if missing > PARITY_SHARDS {
      return Err(Uncorrectable(missing));
    }
    r := Finish(code, crc, l, expected, partial, payloadLen, Get32(b[20..24]));
  }

  method ReadTable(table: Bytes, total: nat) returns (expected: seq<u32>)
    requires |table| == total * CHECKSUM_BYTES
    ensures expected == Values(Pieces(table, CHECKSUM_BYTES, total))
  {
    expected := [];
    for i := 0 to total
      invariant expected == Values(Pieces(table, CHECKSUM_BYTES, total))[..i]
    {
      PieceAt(table, CHECKSUM_BYTES, total, i);
      expected := expected + [Get32(table[i * CHECKSUM_BYTES..i * CHECKSUM_BYTES + CHECKSUM_BYTES])];
    }
  }

  method SieveShards(crc: Checksum, expected: seq<u32>, region: Bytes, l: Layout) returns (partial: seq<Option<Bytes>>, missing: nat)
    requires |expected| == TotalShards(l) && |region| == TotalShards(l) * l.shardSize
    ensures partial == Sieve(crc, expected, Pieces(region, l.shardSize, TotalShards(l))) && missing == Holes(partial)
  {
    ghost var all := Sieve(crc, expected, Pieces(region, l.shardSize, TotalShards(l)));
    partial, missing := [], 0;
    for i := 0 to TotalShards(l)
      invariant partial == all[..i] && missing == Holes(partial)
    {
      PieceAt(region, l.shardSize, TotalShards(l), i);
      var shard := region[i * l.shardSize..i * l.shardSize + l.shardSize];
      if crc(shard) == expected[i] {
        HolesNext(partial, Some(shard));
        partial := partial + [Some(shard)];
      } else {
        HolesNext(partial, None);
        partial := partial + [None];
        missing := missing + 1;
      }
    }
  }

  /** Reconstruction, the checks after it, and the payload. */
  method Finish(code: Code, crc: Checksum, l: Layout, expected: seq<u32>, partial: seq<Option<Bytes>>, payloadLen: nat, payloadCrc: u32)
    returns (r: Result<Bytes>)
    requires |expected| == |partial| == TotalShards(l)
    ensures r == match code.reconstruct(l.dataShards, partial)
                 case None => Err(CannotReconstruct)
                 case Some(full) =>
                   if |full| != TotalShards(l) || Checksums(crc, full) != expected then Err(ShardMismatch) else
                     var payload := Joined(full, l.dataShards, payloadLen);
                     if crc(payload) != payloadCrc then Err(PayloadMismatch) else Ok(payload)
  {
    var repaired := code.reconstruct(l.dataShards, partial);
    if repaired.None? {
      return Err(CannotReconstruct);
    }
    var full := repaired.value;
    if |full| != TotalShards(l) {
      return Err(ShardMismatch);
    }
    var payload: Bytes := [];
    for i := 0 to TotalShards(l)
      invariant payload == Flat(full[..if i < l.dataShards then i else l.dataShards])
      invariant forall k :: 0 <= k < i ==> crc(full[k]) == expected[k]
    {
      if crc(full[i]) != expected[i] {
        assert Checksums(crc, full)[i] != expected[i];
        return Err(ShardMismatch);
      }
      if i < l.dataShards {
        FlatNext(full, i);
        payload := payload + full[i];
      }
    }
    assert Checksums(crc, full) == expected;
    payload := if payloadLen <= |payload| then payload[..payloadLen] else payload;
    if crc(payload) != payloadCrc {
      return Err(PayloadMismatch);
    }
    r := Ok(payload);
  }
}
