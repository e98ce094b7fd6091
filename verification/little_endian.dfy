/**
 * Unsigned little-endian integers over byte sequences, as written by
 * Node's `Buffer.writeUInt16LE` / `writeUInt32LE` and read by a ZIP reader.
 */
module LittleEndian {

  type uint8 = b: int | 0 <= b < 256

  /** 256^n, the number of values an n-byte field can hold. */
  function Pow256(n: nat): (p: nat)
    ensures p > 0
  {
    if n == 0 then 1 else 256 * Pow256(n - 1)
  }

  lemma QuotientBound(v: nat, p: nat)
    requires v < 256 * p
    ensures v / 256 < p
  {
  }

  lemma DigitBound(low: nat, high: nat, p: nat)
    requires low < 256 && high < p
    ensures low + 256 * high < 256 * p
  {
  }

  /** The n-byte little-endian encoding of v, least significant byte first. */
  function Encode(v: nat, n: nat): (r: seq<uint8>)
    requires v < Pow256(n)
    ensures |r| == n
  {
    if n == 0 then []
    else
      QuotientBound(v, Pow256(n - 1));
      [v % 256] + Encode(v / 256, n - 1)
  }

  /** The value of a little-endian byte sequence. */
  function Decode(bs: seq<uint8>): (v: nat)
    ensures v < Pow256(|bs|)
  {
    if |bs| == 0 then 0
    else
      var rest := Decode(bs[1..]);
      DigitBound(bs[0], rest, Pow256(|bs| - 1));
      bs[0] + 256 * rest
  }

  /** The n-byte field at `offset`, as an unsigned little-endian integer. */
  function ReadAt(bs: seq<uint8>, offset: nat, n: nat): (v: nat)
    requires offset + n <= |bs|
    ensures v < Pow256(n)
  {
    Decode(bs[offset..offset + n])
  }

  /** Decoding an encoding gives back the value. */
  lemma {:induction false} DecodeEncode(v: nat, n: nat)
    requires v < Pow256(n)
    ensures Decode(Encode(v, n)) == v
  {
    if n > 0 {
      var r := Encode(v, n);
      assert r[1..] == Encode(v / 256, n - 1);
      DecodeEncode(v / 256, n - 1);
    }
  }

  /** Encoding a decoded sequence at its own width gives back the bytes. */
  lemma {:induction false} EncodeDecode(bs: seq<uint8>)
    ensures Encode(Decode(bs), |bs|) == bs
  {
    if |bs| > 0 {
      var rest := Decode(bs[1..]);
      var v := Decode(bs);
      assert v % 256 == bs[0] && v / 256 == rest;
      EncodeDecode(bs[1..]);
    }
  }

  lemma Distribute(x: nat, p: nat, y: nat)
    ensures 256 * (x + p * y) == 256 * x + (256 * p) * y
  {
  }

  /** A concatenation is read as the low part plus the high part shifted by the low part's width. */
  lemma {:induction false} DecodeAppend(a: seq<uint8>, b: seq<uint8>)
    ensures Decode(a + b) == Decode(a) + Pow256(|a|) * Decode(b)
  {
    if |a| > 0 {
      var c := a + b;
      assert c[0] == a[0];
      assert c[1..] == a[1..] + b;
      DecodeAppend(a[1..], b);
      var x, y, p := Decode(a[1..]), Decode(b), Pow256(|a| - 1);
      assert Decode(c[1..]) == x + p * y;
      assert Decode(c) == a[0] + 256 * (x + p * y);
      Distribute(x, p, y);
      assert Decode(a) == a[0] + 256 * x;
      assert Pow256(|a|) == 256 * p;
    } else {
      assert a + b == b;
    }
  }

  /** A field inside a prefix reads the same once more bytes are appended. */
  lemma ReadPrefix(bs: seq<uint8>, more: seq<uint8>, offset: nat, n: nat)
    requires offset + n <= |bs|
    ensures ReadAt(bs + more, offset, n) == ReadAt(bs, offset, n)
  {
    assert (bs + more)[offset..offset + n] == bs[offset..offset + n];
  }

  /** A field inside a suffix reads the same at its offset shifted by the prefix's length. */
  lemma ReadSuffix(bs: seq<uint8>, more: seq<uint8>, offset: nat, n: nat)
    requires offset + n <= |more|
    ensures ReadAt(bs + more, |bs| + offset, n) == ReadAt(more, offset, n)
  {
    assert (bs + more)[|bs| + offset..|bs| + offset + n] == more[offset..offset + n];
  }

  /** A field read over its whole encoding gives the encoded value. */
  lemma ReadWhole(v: nat, n: nat)
    requires v < Pow256(n)
    ensures ReadAt(Encode(v, n), 0, n) == v
  {
    var r := Encode(v, n);
    assert r[0..n] == r;
    DecodeEncode(v, n);
  }
}
