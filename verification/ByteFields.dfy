/** Bytes, little-endian fields, and cutting byte strings into equal pieces. */
module ByteFields {

  type byte = x: int | 0 <= x < 256

  type u16 = x: int | 0 <= x < 0x1_0000

  type u32 = x: int | 0 <= x < 0x1_0000_0000

  type Bytes = seq<byte>

  datatype Option<T> = None | Some(value: T)

  function Put16(n: u16): (b: Bytes)
    ensures |b| == 2
  {
    [n % 256, n / 256]
  }

  function Get16(b: Bytes): u16
    requires |b| == 2
  {
    b[0] as int + 256 * (b[1] as int)
  }

  function Put32(n: u32): (b: Bytes)
    ensures |b| == 4
  {
    [n % 256, n / 256 % 256, n / 0x1_0000 % 256, n / 0x100_0000]
  }

  function Get32(b: Bytes): u32
    requires |b| == 4
  {
    b[0] as int + 256 * (b[1] as int) + 0x1_0000 * (b[2] as int) + 0x100_0000 * (b[3] as int)
  }

  lemma Fields16(n: u16)
    ensures Get16(Put16(n)) == n
  {
  }

  lemma Fields32(n: u32)
    ensures Get32(Put32(n)) == n
  {
    var a, b := n / 256, n / 0x1_0000;
    assert n == n % 256 + 256 * a;
    assert a == a % 256 + 256 * (a / 256);
    assert a / 256 == b;
    assert b == b % 256 + 256 * (b / 256);
    assert b / 256 == n / 0x100_0000;
  }

  // ------------------------------------------------------------------------------ pieces

  function Flat(pieces: seq<Bytes>): Bytes {
    if |pieces| == 0 then [] else pieces[0] + Flat(pieces[1..])
  }

  predicate AllOfSize(pieces: seq<Bytes>, size: nat) {
    forall i :: 0 <= i < |pieces| ==> |pieces[i]| == size
  }

  lemma MulStep(count: nat, size: nat)
    requires count > 0
    ensures count * size == size + (count - 1) * size && (count - 1) * size >= 0
  {
  }

  /** Cuts a string of count times size bytes into pieces of that size. */
  function Pieces(b: Bytes, size: nat, count: nat): (pieces: seq<Bytes>)
    requires |b| == count * size
    ensures |pieces| == count && AllOfSize(pieces, size)
    decreases count
  {
    if count == 0 then [] else
      MulStep(count, size);
      [b[..size]] + Pieces(b[size..], size, count - 1)
  }

  lemma {:induction false} FlatLength(pieces: seq<Bytes>, size: nat)
    requires AllOfSize(pieces, size)
    ensures |Flat(pieces)| == |pieces| * size
  {
    if |pieces| > 0 {
      assert AllOfSize(pieces[1..], size);
      FlatLength(pieces[1..], size);
      MulStep(|pieces|, size);
    }
  }

  /** Cutting undoes joining. */
  lemma {:induction false} PiecesOfFlat(pieces: seq<Bytes>, size: nat)
    requires AllOfSize(pieces, size)
    ensures |Flat(pieces)| == |pieces| * size && Pieces(Flat(pieces), size, |pieces|) == pieces
  {
    FlatLength(pieces, size);
    if |pieces| > 0 {
      assert AllOfSize(pieces[1..], size);
      PiecesOfFlat(pieces[1..], size);
      MulStep(|pieces|, size);
      assert Flat(pieces)[..size] == pieces[0];
      assert Flat(pieces)[size..] == Flat(pieces[1..]);
    }
  }

  /** Joining undoes cutting. */
  lemma {:induction false} FlatOfPieces(b: Bytes, size: nat, count: nat)
    requires |b| == count * size
    ensures Flat(Pieces(b, size, count)) == b
    decreases count
  {
    if count > 0 {
      MulStep(count, size);
      FlatOfPieces(b[size..], size, count - 1);
      assert Pieces(b, size, count)[1..] == Pieces(b[size..], size, count - 1);
    }
  }

  /** The k-th piece starts k sizes in. */
  lemma {:induction false} PieceAt(b: Bytes, size: nat, count: nat, k: nat)
    requires |b| == count * size && k < count
    ensures 0 <= k * size && k * size + size <= |b|
    ensures Pieces(b, size, count)[k] == b[k * size..k * size + size]
    decreases count
  {
    MulStep(count, size);
    if k > 0 {
      MulStep(k, size);
      PieceAt(b[size..], size, count - 1, k - 1);
      assert Pieces(b, size, count)[k] == Pieces(b[size..], size, count - 1)[k - 1];
      assert b[size..][(k - 1) * size..(k - 1) * size + size] == b[k * size..k * size + size];
    }
  }

  lemma {:induction false} FlatConcat(a: seq<Bytes>, b: seq<Bytes>)
    ensures Flat(a + b) == Flat(a) + Flat(b)
  {
    if |a| == 0 {
      assert a + b == b;
    } else {
      assert (a + b)[1..] == a[1..] + b;
      FlatConcat(a[1..], b);
    }
  }
}
