/** Building and appending shard buffers, shared by the state files and the frames. */
module ShardBuffers {
  import opened ByteFields
  import opened EccLayout
  import opened ShardCode

  /** Cuts a string into pieces of one size. */
  method Cut(b: Bytes, size: nat, count: nat) returns (pieces: seq<Bytes>)
    requires |b| == count * size
    ensures pieces == Pieces(b, size, count)
  {
    pieces := [];
    for i := 0 to count
      invariant pieces == Pieces(b, size, count)[..i]
    {
      PieceAt(b, size, count, i);
      pieces := pieces + [b[i * size..i * size + size]];
    }
  }

  /** Cuts the padded payload into data shards and appends the parity shards. */
  method BuildShards(code: Code, payload: Bytes, l: Layout) returns (shards: seq<Bytes>)
    requires l == LayoutFor(|payload|) && |payload| <= DataLen(l)
    ensures shards == ShardsOf(code, payload)
  {
    var padded := Padded(payload, DataLen(l));
    shards := Cut(padded, l.shardSize, l.dataShards);
    shards := shards + code.parity(shards);
  }

  method AppendTable(crc: Checksum, before: Bytes, shards: seq<Bytes>) returns (after: Bytes)
    ensures after == before + Flat(Fields(Checksums(crc, shards)))
  {
    ghost var fields := Fields(Checksums(crc, shards));
    after := before;
    for i := 0 to |shards|
      invariant after == before + Flat(fields[..i])
    {
      FlatNext(fields, i);
      after := after + Put32(crc(shards[i]));
    }
    assert fields[..|shards|] == fields;
  }

  lemma FlatNext(pieces: seq<Bytes>, i: nat)
    requires i < |pieces|
    ensures Flat(pieces[..i + 1]) == Flat(pieces[..i]) + pieces[i]
  {
    assert pieces[..i + 1] == pieces[..i] + [pieces[i]];
    FlatConcat(pieces[..i], [pieces[i]]);
    assert Flat([pieces[i]]) == pieces[i];
  }

  method AppendShards(before: Bytes, shards: seq<Bytes>) returns (after: Bytes)
    ensures after == before + Flat(shards)
  {
    after := before;
    for i := 0 to |shards|
      invariant after == before + Flat(shards[..i])
    {
      FlatNext(shards, i);
      after := after + shards[i];
    }
    assert shards[..|shards|] == shards;
  }

  lemma {:induction false} HolesNext(partial: seq<Option<Bytes>>, x: Option<Bytes>)
    ensures Holes(partial + [x]) == Holes(partial) + (if x.None? then 1 else 0)
  {
    if |partial| > 0 {
      assert (partial + [x])[1..] == partial[1..] + [x];
      HolesNext(partial[1..], x);
    } else {
      assert partial + [x] == [x];
    }
  }
}
