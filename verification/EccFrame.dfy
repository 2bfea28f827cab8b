/**
 Frames on a stream between a controller and its worker. A frame is read back from in front
 of anything, a list of frames reads back as the list of payloads, and damage to at most two
 shards of a frame goes unnoticed by the reader of the stream.
 */
module EccFrame {
  import opened ByteFields
  import opened EccLayout
  import opened ShardCode
  import opened ShardBuffers

  /** The characters of MJRP. */
  const MAGIC: Bytes := [77, 74, 82, 80]

  /** 64 MiB */
  const MAX_FRAME_PAYLOAD: nat := 67108864

  const HEADER_LEN: nat := 20

  datatype Error =
    | TooLarge | BadMagic | Truncated | BadHeader
    | Uncorrectable(damaged: nat) | CannotReconstruct | MissingShard | PayloadMismatch

  /** What one read yields; a frame also says how many bytes it took. */
  datatype Read = EndOfStream | Frame(payload: Bytes, used: nat) | Bad(error: Error)

  function HeaderFor(crc: Checksum, payload: Bytes): (h: Bytes)
    requires |payload| <= MAX_FRAME_PAYLOAD
    ensures |h| == HEADER_LEN
  {
    var l := LayoutFor(|payload|);
    LayoutFitsFields(|payload|);
    MAGIC + Put32(|payload|) + Put32(crc(payload)) + Put16(l.dataShards) + Put16(PARITY_SHARDS) + Put32(l.shardSize)
  }

  function FrameBytes(code: Code, crc: Checksum, payload: Bytes): Bytes
    requires |payload| <= MAX_FRAME_PAYLOAD
  {
    HeaderFor(crc, payload) + Body(crc, ShardsOf(code, payload))
  }

  // --------------------------------------------------------------------------- reading

  /** From the shards as read to the payload; only a damaged frame is reconstructed. */
  function Assemble(code: Code, crc: Checksum, l: Layout, partial: seq<Option<Bytes>>, shards: seq<Bytes>, payloadLen: nat, payloadCrc: u32): Read
    requires |partial| == |shards| == TotalShards(l)
  {
    if Holes(partial) > PARITY_SHARDS then Bad(Uncorrectable(Holes(partial))) else
      var repaired := if Holes(partial) > 0 then code.reconstruct(l.dataShards, partial) else Some(shards);
      match repaired
      case None => Bad(CannotReconstruct)
      case Some(full) =>
        if |full| < l.dataShards then Bad(MissingShard) else
          var payload := Joined(full, l.dataShards, payloadLen);
          if crc(payload) != payloadCrc then Bad(PayloadMismatch) else Frame(payload, EncodedLen(HEADER_LEN, l))
  }

  /** What a header announces. */
  datatype HeaderRead = NoHeader | Wrong(error: Error) | Announced(layout: Layout, payloadLen: nat, payloadCrc: u32)

  function ParseHeader(b: Bytes): (h: HeaderRead)
    ensures h.Announced? ==> |b| >= HEADER_LEN
  {
    if |b| < 4 then NoHeader
    else if b[..4] != MAGIC then Wrong(BadMagic)
    else if |b| < 8 then Wrong(Truncated)
    else if Get32(b[4..8]) > MAX_FRAME_PAYLOAD then Wrong(TooLarge)
    else if |b| < HEADER_LEN then Wrong(Truncated)
    else if !FromHeader(Get16(b[12..14]), Get16(b[14..16]), Get32(b[16..20])) then Wrong(BadHeader)
    else Announced(Layout(Get16(b[12..14]), Get32(b[16..20])), Get32(b[4..8]), Get32(b[8..12]))
  }

  /** From the bytes behind a header to the payload. */
  function ParseBody(code: Code, crc: Checksum, l: Layout, payloadLen: nat, payloadCrc: u32, b: Bytes): Read {
    if |b| < TableLen(l) + ShardsLen(l) then Bad(Truncated) else
      var shards := Pieces(b[TableLen(l)..TableLen(l) + ShardsLen(l)], l.shardSize, TotalShards(l));
      Assemble(code, crc, l, Sieve(crc, Values(Pieces(b[..TableLen(l)], CHECKSUM_BYTES, TotalShards(l))), shards), shards, payloadLen, payloadCrc)
  }

  /** One read from the front of what is left of the stream. */
  function ReadNext(code: Code, crc: Checksum, b: Bytes): Read {
    match ParseHeader(b)
    case NoHeader => EndOfStream
    case Wrong(e) => Bad(e)
    case Announced(l, payloadLen, payloadCrc) => ParseBody(code, crc, l, payloadLen, payloadCrc, b[HEADER_LEN..])
  }

  /** Whatever the bytes, a frame read from them is no longer than announced and has the announced checksum. */
  lemma ReadChecks(code: Code, crc: Checksum, b: Bytes)
    requires ReadNext(code, crc, b).Frame?
    ensures |b| >= HEADER_LEN && b[..4] == MAGIC
    ensures var r := ReadNext(code, crc, b);
            && crc(r.payload) == Get32(b[8..12]) && |r.payload| <= Get32(b[4..8]) <= MAX_FRAME_PAYLOAD
            && r.used == EncodedLen(HEADER_LEN, Layout(Get16(b[12..14]), Get32(b[16..20]))) <= |b|
  {
  }

  /** Up to three stray bytes at the end pass for a clean end of the stream. */
  lemma EndExactly(code: Code, crc: Checksum, b: Bytes)
    ensures ReadNext(code, crc, b) == EndOfStream <==> |b| < 4
  {
    if |b| >= 4 && ParseHeader(b).Announced? {
      var h := ParseHeader(b);
      BodyUsed(code, crc, h.layout, h.payloadLen, h.payloadCrc, b[HEADER_LEN..]);
    }
  }

  /** A written header announces the layout, the length and the checksum of its payload. */
  lemma HeaderParses(b: Bytes, crc: Checksum, payload: Bytes)
    requires |payload| <= MAX_FRAME_PAYLOAD && |b| >= HEADER_LEN && b[..HEADER_LEN] == HeaderFor(crc, payload)
    ensures ParseHeader(b) == Announced(LayoutFor(|payload|), |payload|, crc(payload))
  {
    var h := b[..HEADER_LEN];
    var l := LayoutFor(|payload|);
    LayoutFitsFields(|payload|);
    LayoutCovers(|payload|);
    assert b[..4] == h[..4] == MAGIC;
    assert b[4..8] == h[4..8] == Put32(|payload|);
    assert b[8..12] == h[8..12] == Put32(crc(payload));
    assert b[12..14] == h[12..14] == Put16(l.dataShards);
    assert b[14..16] == h[14..16] == Put16(PARITY_SHARDS);
    assert b[16..20] == h[16..20] == Put32(l.shardSize);
    Fields32(|payload|);
    Fields32(crc(payload));
    Fields16(l.dataShards);
    Fields16(PARITY_SHARDS);
    Fields32(l.shardSize);
  }

  lemma AssembleDamaged(code: Code, crc: Checksum, payload: Bytes, damaged: seq<Bytes>)
    requires IsErasureCode(code) && |ShardsOf(code, payload)| == TotalShards(LayoutFor(|payload|))
    requires Separates(crc, ShardsOf(code, payload), damaged)
    ensures var original, l := ShardsOf(code, payload), LayoutFor(|payload|);
            Assemble(code, crc, l, Sieve(crc, Checksums(crc, original), damaged), damaged, |payload|, crc(payload))
            == if Altered(original, damaged) <= PARITY_SHARDS then Frame(payload, EncodedLen(HEADER_LEN, l))
               else Bad(Uncorrectable(Altered(original, damaged)))
  {
    var original := ShardsOf(code, payload);
    SieveDrops(crc, original, damaged);
    if Altered(original, damaged) <= PARITY_SHARDS {
      JoinedPayload(code, payload);
      if Altered(original, damaged) > 0 {
        Repairs(code, crc, payload, damaged);
      } else {
        UnalteredSame(original, damaged);
      }
    }
  }

  lemma {:induction false} UnalteredSame(a: seq<Bytes>, b: seq<Bytes>)
    requires |a| == |b| && Altered(a, b) == 0
    ensures a == b
  {
    if |a| > 0 {
      UnalteredSame(a[1..], b[1..]);
      assert a == [a[0]] + a[1..] && b == [b[0]] + b[1..];
    }
  }

  /** The bytes of a frame for a payload, with the given shards in place of the original ones. */
  function FrameWith(code: Code, crc: Checksum, payload: Bytes, shards: seq<Bytes>): Bytes
    requires |payload| <= MAX_FRAME_PAYLOAD
  {
    HeaderFor(crc, payload) + Flat(Fields(Checksums(crc, ShardsOf(code, payload)))) + Flat(shards)
  }

  /** A table and the shards behind it are read as what was written. */
  lemma BodyParses(code: Code, crc: Checksum, l: Layout, payloadLen: nat, payloadCrc: u32, original: seq<Bytes>, shards: seq<Bytes>, rest: Bytes)
    requires |original| == |shards| == TotalShards(l) && AllOfSize(shards, l.shardSize)
    ensures ParseBody(code, crc, l, payloadLen, payloadCrc, Flat(Fields(Checksums(crc, original))) + Flat(shards) + rest)
            == Assemble(code, crc, l, Sieve(crc, Checksums(crc, original), shards), shards, payloadLen, payloadCrc)
    ensures |Flat(Fields(Checksums(crc, original))) + Flat(shards)| == TableLen(l) + ShardsLen(l)
  {
    var table, body := Flat(Fields(Checksums(crc, original))), Flat(shards);
    PiecesOfFlat(Fields(Checksums(crc, original)), CHECKSUM_BYTES);
    PiecesOfFlat(shards, l.shardSize);
    ValuesOfFields(Checksums(crc, original));
    BodySlices(table, body, rest);
  }

  lemma BodySlices(table: Bytes, body: Bytes, rest: Bytes)
    ensures var b := table + body + rest;
            b[..|table|] == table && b[|table|..|table| + |body|] == body
  {
  }

  /**
   In front of whatever follows, a frame with altered shards reads as its payload exactly when
   at most two are altered; otherwise the damage is reported.
   */
  lemma ReadDamaged(code: Code, crc: Checksum, payload: Bytes, shards: seq<Bytes>, rest: Bytes)
    requires IsErasureCode(code) && |payload| <= MAX_FRAME_PAYLOAD
    requires Separates(crc, ShardsOf(code, payload), shards) && AllOfSize(shards, LayoutFor(|payload|).shardSize)
    ensures var f := FrameWith(code, crc, payload, shards);
            var altered := Altered(ShardsOf(code, payload), shards);
            && |f| == EncodedLen(HEADER_LEN, LayoutFor(|payload|))
            && ReadNext(code, crc, f + rest) == if altered <= PARITY_SHARDS then Frame(payload, |f|) else Bad(Uncorrectable(altered))
  {
    var l := LayoutFor(|payload|);
    var original := ShardsOf(code, payload);
    var h := HeaderFor(crc, payload);
    var behind := Flat(Fields(Checksums(crc, original))) + Flat(shards) + rest;
    ShardsShape(code, payload);
    var b := FrameWith(code, crc, payload, shards) + rest;
    assert b == h + behind;
    assert b[..HEADER_LEN] == h && b[HEADER_LEN..] == behind;
    HeaderParses(b, crc, payload);
    BodyParses(code, crc, l, |payload|, crc(payload), original, shards, rest);
    AssembleDamaged(code, crc, payload, shards);
  }

  // --------------------------------------------------------------------------- streams

  datatype Ending = Clean(stray: nat) | Broken(error: Error)

  datatype Reading = Reading(payloads: seq<Bytes>, ending: Ending)

  /** All frames of a stream, up to its end or the first bad one. */
  function ReadAll(code: Code, crc: Checksum, b: Bytes): Reading
    decreases |b|
  {
    match ReadNext(code, crc, b)
    case EndOfStream => Reading([], Clean(|b|))
    case Bad(e) => Reading([], Broken(e))
    case Frame(payload, used) =>
      UsedBytes(code, crc, b);
      var rest := ReadAll(code, crc, b[used..]);
      Reading([payload] + rest.payloads, rest.ending)
  }

  /** A frame takes some bytes, and no more than there are. */
  lemma UsedBytes(code: Code, crc: Checksum, b: Bytes)
    ensures ReadNext(code, crc, b).Frame? ==> HEADER_LEN <= ReadNext(code, crc, b).used <= |b|
  {
    if ParseHeader(b).Announced? {
      var h := ParseHeader(b);
      BodyUsed(code, crc, h.layout, h.payloadLen, h.payloadCrc, b[HEADER_LEN..]);
    }
  }

  lemma BodyUsed(code: Code, crc: Checksum, l: Layout, payloadLen: nat, payloadCrc: u32, b: Bytes)
    ensures var r := ParseBody(code, crc, l, payloadLen, payloadCrc, b);
            !r.EndOfStream? && (r.Frame? ==> r.used == EncodedLen(HEADER_LEN, l) <= HEADER_LEN + |b|)
  {
  }

  /** A payload with the shards its frame arrives with. */
  datatype Sent = Sent(payload: Bytes, shards: seq<Bytes>)

  /** The frame arrives with at most two shards altered, all of which the checksum tells apart. */
  ghost predicate Arrives(code: Code, crc: Checksum, s: Sent) {
    && |s.payload| <= MAX_FRAME_PAYLOAD
    && Separates(crc, ShardsOf(code, s.payload), s.shards) && AllOfSize(s.shards, LayoutFor(|s.payload|).shardSize)
    && Altered(ShardsOf(code, s.payload), s.shards) <= PARITY_SHARDS
  }

  ghost predicate AllArrive(code: Code, crc: Checksum, sent: seq<Sent>) {
    forall i :: 0 <= i < |sent| ==> Arrives(code, crc, sent[i])
  }

  /** In front of whatever follows, the frame reads as the payload. */
  ghost predicate Carries(code: Code, crc: Checksum, f: Bytes, payload: Bytes) {
    forall rest: Bytes :: ReadNext(code, crc, f + rest) == Frame(payload, |f|)
  }

  lemma ArrivalCarries(code: Code, crc: Checksum, s: Sent)
    requires IsErasureCode(code) && Arrives(code, crc, s)
    ensures Carries(code, crc, FrameWith(code, crc, s.payload, s.shards), s.payload)
  {
    forall rest: Bytes
      ensures ReadNext(code, crc, FrameWith(code, crc, s.payload, s.shards) + rest) == Frame(s.payload, |FrameWith(code, crc, s.payload, s.shards)|)
    {
      ReadDamaged(code, crc, s.payload, s.shards, rest);
    }
  }

  /** Frames that carry payloads read back as those payloads and then the stream ends. */
  lemma {:induction false} FramesReadBack(code: Code, crc: Checksum, frames: seq<Bytes>, payloads: seq<Bytes>)
    requires |frames| == |payloads| && forall i :: 0 <= i < |frames| ==> Carries(code, crc, frames[i], payloads[i])
    ensures ReadAll(code, crc, Flat(frames)) == Reading(payloads, Clean(0))
  {
    if |frames| > 0 {
      var after := Flat(frames[1..]);
      FramesReadBack(code, crc, frames[1..], payloads[1..]);
      assert Carries(code, crc, frames[0], payloads[0]);
      assert Flat(frames) == frames[0] + after;
      assert (frames[0] + after)[|frames[0]|..] == after;
    }
  }

  /** The frames of a list as they arrive. */
  function Frames(code: Code, crc: Checksum, sent: seq<Sent>): seq<Bytes>
    requires forall i :: 0 <= i < |sent| ==> |sent[i].payload| <= MAX_FRAME_PAYLOAD
  {
    seq(|sent|, i requires 0 <= i < |sent| => FrameWith(code, crc, sent[i].payload, sent[i].shards))
  }

  function Payloads(sent: seq<Sent>): seq<Bytes> {
    seq(|sent|, i requires 0 <= i < |sent| => sent[i].payload)
  }

  /** A stream of frames, each damaged in at most two shards, reads back as the list of payloads and then ends. */
  lemma StreamReadsBack(code: Code, crc: Checksum, sent: seq<Sent>)
    requires IsErasureCode(code) && AllArrive(code, crc, sent)
    ensures (forall i :: 0 <= i < |sent| ==> |sent[i].payload| <= MAX_FRAME_PAYLOAD)
    ensures ReadAll(code, crc, Flat(Frames(code, crc, sent))) == Reading(Payloads(sent), Clean(0))
  {
    forall i | 0 <= i < |sent|
      ensures |sent[i].payload| <= MAX_FRAME_PAYLOAD && Carries(code, crc, FrameWith(code, crc, sent[i].payload, sent[i].shards), sent[i].payload)
    {
      assert Arrives(code, crc, sent[i]);
      ArrivalCarries(code, crc, sent[i]);
    }
    FramesReadBack(code, crc, Frames(code, crc, sent), Payloads(sent));
  }

  /** An undamaged frame is one that arrives. */
  lemma WrittenArrives(code: Code, crc: Checksum, payload: Bytes)
    requires IsErasureCode(code) && |payload| <= MAX_FRAME_PAYLOAD
    ensures Arrives(code, crc, Sent(payload, ShardsOf(code, payload)))
    ensures FrameWith(code, crc, payload, ShardsOf(code, payload)) == FrameBytes(code, crc, payload)
  {
    ShardsShape(code, payload);
    AlteredNone(ShardsOf(code, payload));
  }

  // --------------------------------------------------------------------------- methods

  lemma Appended(a: Bytes, b: Bytes, c: Bytes, d: Bytes)
    ensures a + b + c + d == a + (b + (c + d))
  {
  }

  class Writer {
    var written: Bytes

    constructor ()
      ensures written == []
    {
      written := [];
    }

    method WriteAll(b: Bytes)
      modifies this
      ensures written == old(written) + b
    {
      written := written + b;
    }

    /** Writes one frame, or nothing when the payload is too large. */
    method WriteFrame(code: Code, crc: Checksum, payload: Bytes) returns (ok: bool)
      modifies this
      ensures ok <==> |payload| <= MAX_FRAME_PAYLOAD
      ensures written == if ok then old(written) + FrameBytes(code, crc, payload) else old(written)
    {
      if |payload| > MAX_FRAME_PAYLOAD {
        return false;
      }
      LayoutCovers(|payload|);
      var shards := BuildShards(code, payload, LayoutFor(|payload|));
      WriteAll(HeaderFor(crc, payload));
      WriteTable(crc, shards);
      WriteShards(shards);
      Appended(old(written), HeaderFor(crc, payload), Flat(Fields(Checksums(crc, shards))), Flat(shards));
      ok := true;
    }

    method WriteTable(crc: Checksum, shards: seq<Bytes>)
      modifies this
      ensures written == old(written) + Flat(Fields(Checksums(crc, shards)))
    {
      var table := AppendTable(crc, [], shards);
      WriteAll(table);
    }

    method WriteShards(shards: seq<Bytes>)
      modifies this
      ensures written == old(written) + Flat(shards)
    {
      for i := 0 to |shards|
        invariant written == old(written) + Flat(shards[..i])
      {
        FlatNext(shards, i);
        WriteAll(shards[i]);
      }
      assert shards[..|shards|] == shards;
    }
  }

  class Reader {
    const data: Bytes
    var pos: nat

    ghost predicate Valid()
      reads this
    {
      pos <= |data|
    }

    constructor (data: Bytes)
      ensures Valid() && this.data == data && pos == 0
    {
      this.data := data;
      pos := 0;
    }

    function Left(): Bytes
      requires Valid()
      reads this
    {
      data[pos..]
    }

    /** Reads exactly n bytes, or runs to the end and fails. */
    method ReadExact(n: nat) returns (ok: bool, b: Bytes)
      requires Valid()
      modifies this
      ensures Valid() && (ok <==> n <= |old(Left())|)
      ensures ok ==> b == old(Left())[..n] && pos == old(pos) + n
    {
      if n <= |data| - pos {
        ok, b := true, data[pos..pos + n];
        pos := pos + n;
      } else {
        ok, b := false, [];
        pos := |data|;
      }
    }

    /** Reads one frame; after a frame the reader stands right behind it. */
    method ReadFrame(code: Code, crc: Checksum) returns (r: Read)
      requires Valid()
      modifies this
      ensures Valid() && r == ReadNext(code, crc, old(Left()))
      ensures r.Frame? ==> pos == old(pos) + r.used
    {
      var h := ReadHeader();
      match h
      case NoHeader => r := EndOfStream;
      case Wrong(e) => r := Bad(e);
      case Announced(l, payloadLen, payloadCrc) =>
        assert Left() == old(Left())[HEADER_LEN..];
        BodyUsed(code, crc, l, payloadLen, payloadCrc, Left());
        r := ReadBody(code, crc, l, payloadLen, payloadCrc);
    }

    /** Reads and checks the header fields one after the other. */
    method ReadHeader() returns (h: HeaderRead)
      requires Valid()
      modifies this
      ensures Valid() && h == ParseHeader(old(Left()))
      ensures h.Announced? ==> pos == old(pos) + HEADER_LEN
    {
      ghost var b := Left();
      var ok, field := ReadField(b, 0, 4);
      if !ok {
        return NoHeader;
      }
      if field != MAGIC {
        return Wrong(BadMagic);
      }
      ok, field := ReadField(b, 4, 4);
      if !ok {
        return Wrong(Truncated);
      }
      var payloadLen := Get32(field);
      if payloadLen > MAX_FRAME_PAYLOAD {
        return Wrong(TooLarge);
      }
      var l, payloadCrc;
      ok, l, payloadCrc := ReadLayout(b);
      if !ok {
        return Wrong(Truncated);
      }
      if l.None? {
        return Wrong(BadHeader);
      }
      h := Announced(l.value, payloadLen, payloadCrc);
    }

    /** Reads a field at a known place of what is left. */
    method ReadField(ghost b: Bytes, ghost at: nat, n: nat) returns (ok: bool, field: Bytes)
      requires Valid() && at <= |b| && Left() == b[at..]
      modifies this
      ensures Valid() && (ok <==> at + n <= |b|)
      ensures ok ==> field == b[at..at + n] && Left() == b[at + n..] && pos == old(pos) + n
    {
      ok, field := ReadExact(n);
      assert ok ==> b[at..][..n] == b[at..at + n];
    }

    /** Reads payload checksum and layout; a layout no writer makes comes back as none. */
    method ReadLayout(ghost b: Bytes) returns (ok: bool, l: Option<Layout>, payloadCrc: u32)
      requires Valid() && 8 <= |b| && Left() == b[8..]
      modifies this
      ensures Valid() && (ok <==> HEADER_LEN <= |b|)
      ensures ok ==>
                && payloadCrc == Get32(b[8..12]) && pos == old(pos) + 12
                && l == if FromHeader(Get16(b[12..14]), Get16(b[14..16]), Get32(b[16..20])) then Some(Layout(Get16(b[12..14]), Get32(b[16..20]))) else None
    {
      l, payloadCrc := None, 0;
      var crcField, dataField, parityField, sizeField;
      ok, crcField := ReadField(b, 8, 4);
      if !ok {
        return;
      }
      ok, dataField := ReadField(b, 12, 2);
      if !ok {
        return;
      }
      ok, parityField := ReadField(b, 14, 2);
      if !ok {
        return;
      }
      ok, sizeField := ReadField(b, 16, 4);
      if !ok {
        return;
      }
      payloadCrc := Get32(crcField);
      if FromHeader(Get16(dataField), Get16(parityField), Get32(sizeField)) {
        l := Some(Layout(Get16(dataField), Get32(sizeField)));
      }
    }

    /** Reads the checksum table and the shards, and assembles the payload. */
    method ReadBody(code: Code, crc: Checksum, l: Layout, payloadLen: nat, payloadCrc: u32) returns (r: Read)
      requires Valid()
      modifies this
      ensures Valid()
      ensures r == ParseBody(code, crc, l, payloadLen, payloadCrc, old(Left()))
      ensures r.Frame? ==> pos == old(pos) + TableLen(l) + ShardsLen(l)
    {
      ghost var b := Left();
      var ok, table := ReadExact(TableLen(l));
      if !ok {
        return Bad(Truncated);
      }
      var fields := Cut(table, CHECKSUM_BYTES, TotalShards(l));
      var shards;
      ok, shards := ReadShards(l);
      if !ok {
        return Bad(Truncated);
      }
      assert b[TableLen(l)..][..ShardsLen(l)] == b[TableLen(l)..TableLen(l) + ShardsLen(l)];
      r := Settle(code, crc, l, Values(fields), shards, payloadLen, payloadCrc);
    }

    /** Reads all shards one by one. */
    method ReadShards(l: Layout) returns (ok: bool, shards: seq<Bytes>)
      requires Valid()
      modifies this
      ensures Valid() && (ok <==> ShardsLen(l) <= |old(Left())|)
      ensures ok ==> shards == Pieces(old(Left())[..ShardsLen(l)], l.shardSize, TotalShards(l)) && pos == old(pos) + ShardsLen(l)
    {
      ghost var b := Left();
      shards := [];
      var i := 0;
      while i < TotalShards(l)
        invariant 0 <= i <= TotalShards(l) && Valid() && |shards| == i && AllOfSize(shards, l.shardSize)
        invariant pos == old(pos) + |Flat(shards)| && Flat(shards) <= b && |Flat(shards)| == i * l.shardSize
      {
        var got, shard := ReadExact(l.shardSize);
        if !got {
          MoreShards(i, TotalShards(l), l.shardSize);
          return false, [];
        }
        FlatAppend(shards, shard, l.shardSize);
        shards := shards + [shard];
        i := i + 1;
      }
      PiecesOfFlat(shards, l.shardSize);
      assert b[..ShardsLen(l)] == Flat(shards);
      ok := true;
    }
  }

  lemma MoreShards(i: nat, n: nat, size: nat)
    requires i < n
    ensures i * size + size <= n * size
  {
    ProductMonotone(i + 1, size, n, size);
    assert (i + 1) * size == i * size + size;
  }

  lemma FlatAppend(shards: seq<Bytes>, shard: Bytes, size: nat)
    requires AllOfSize(shards, size) && |shard| == size
    ensures Flat(shards + [shard]) == Flat(shards) + shard && |Flat(shards + [shard])| == (|shards| + 1) * size
  {
    FlatConcat(shards, [shard]);
    assert Flat([shard]) == shard;
    FlatLength(shards + [shard], size);
  }

  /** Sieves the shards, repairs them if need be, and checks the payload. */
  method Settle(code: Code, crc: Checksum, l: Layout, expected: seq<u32>, shards: seq<Bytes>, payloadLen: nat, payloadCrc: u32) returns (r: Read)
    requires |expected| == |shards| == TotalShards(l)
    ensures r == Assemble(code, crc, l, Sieve(crc, expected, shards), shards, payloadLen, payloadCrc)
  {
    var partial, corrupted := [], 0;
    ghost var all := Sieve(crc, expected, shards);
    for i := 0 to |shards|
      invariant partial == all[..i] && corrupted == Holes(partial)
    {
      if crc(shards[i]) == expected[i] {
        HolesNext(partial, Some(shards[i]));
        partial := partial + [Some(shards[i])];
      } else {
        HolesNext(partial, None);
        corrupted := corrupted + 1;
        partial := partial + [None];
      }
    }
    assert partial == all;
    if corrupted > PARITY_SHARDS {
      return Bad(Uncorrectable(corrupted));
    }
    var full := shards;
    if corrupted > 0 {
      var repaired := code.reconstruct(l.dataShards, partial);
      if repaired.None? {
        return Bad(CannotReconstruct);
      }
      full := repaired.value;
    }
    if |full| < l.dataShards {
      return Bad(MissingShard);
    }
    var payload := AppendShards([], full[..l.dataShards]);
    assert payload == Flat(full[..l.dataShards]);
    payload := if payloadLen <= |payload| then payload[..payloadLen] else payload;
    if crc(payload) != payloadCrc {
      return Bad(PayloadMismatch);
    }
    r := Frame(payload, EncodedLen(HEADER_LEN, l));
  }
}
