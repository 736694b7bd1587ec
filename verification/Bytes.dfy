/** Bytes and little-endian words, as the structures of all components are laid out (64-bit ARM). */
module Bytes {
  type byte = x: int | 0 <= x < 256

  const U32: nat := 0x1_0000_0000
  const U64: nat := 0x1_0000_0000_0000_0000

  /** The number of values of a little-endian word of n bytes. */
  function Capacity(n: nat): (c: nat)
    ensures c >= 1
  {
    if n == 0 then 1 else 256 * Capacity(n - 1)
  }

  /** Byte i of v, the least significant one being byte 0. */
  function ByteOf(v: nat, i: nat): byte {
    if i == 0 then v % 256 else ByteOf(v / 256, i - 1)
  }

  /** The n low bytes of v, least significant first. */
  function Encode(v: nat, n: nat): (bs: seq<byte>)
    ensures |bs| == n
  {
    seq(n, (i: nat) => ByteOf(v, i))
  }

  function Decode(bs: seq<byte>): nat {
    if bs == [] then 0 else bs[0] + 256 * Decode(bs[1..])
  }

  /** Decoding gives the value back, reduced to the width of the word. */
  lemma {:induction false} DecodeEncode(v: nat, n: nat)
    ensures Decode(Encode(v, n)) == v % Capacity(n)
    decreases n
  {
    if n > 0 {
      DecodeEncode(v / 256, n - 1);
      assert Encode(v, n)[1..] == Encode(v / 256, n - 1);
      assert Encode(v, n)[0] == v % 256;
      ModMul(v, Capacity(n - 1));
    }
  }

  lemma {:induction false} DecodeBound(bs: seq<byte>)
    ensures Decode(bs) < Capacity(|bs|)
  {
    if bs != [] {
      DecodeBound(bs[1..]);
    }
  }

  /** Little endian: byte i of a word has the weight 256^i. */
  lemma {:induction false} EncodedByte(v: nat, n: nat, i: nat)
    requires i < n
    ensures Encode(v, n)[i] == v / Capacity(i) % 256
    decreases i
  {
    if i > 0 {
      EncodedByte(v / 256, n - 1, i - 1);
      assert ByteOf(v, i) == Encode(v / 256, n - 1)[i - 1];
      DivTwice(v, Capacity(i - 1));
    }
  }

  lemma DivTwice(v: nat, c: nat)
    requires c >= 1
    ensures v / (256 * c) == v / 256 / c
  {
    var q, r := v / 256, v % 256;
    var a, b := q / c, q % c;
    var k := v / (256 * c) - a;
    assert v == (256 * c) * a + (256 * b + r);
    assert (256 * c) * k == 256 * b + r - v % (256 * c);
    SmallMultiple(256 * c, k);
  }

  lemma ModMul(v: nat, c: nat)
    requires c >= 1
    ensures v % (256 * c) == v % 256 + 256 * ((v / 256) % c)
  {
    var q, r := v / 256, v % 256;
    var a, b := q / c, q % c;
    assert v == 256 * (a * c + b) + r;
    assert v == (256 * c) * a + (256 * b + r);
    assert 256 * b + r < 256 * c;
    QuotientUnique(v, 256 * c, a, 256 * b + r);
  }

  lemma QuotientUnique(v: nat, d: nat, a: nat, r: nat)
    requires d >= 1 && v == d * a + r && r < d
    ensures v % d == r
  {
    var k := v / d - a;
    assert d * k == r - v % d;
    SmallMultiple(d, k);
  }

  lemma SmallMultiple(d: int, k: int)
    requires -d < d * k < d
    ensures k == 0
  {
  }

  lemma Capacities()
    ensures Capacity(4) == U32 && Capacity(8) == U64
  {
    assert Capacity(4) == 256 * Capacity(3) && Capacity(3) == 256 * Capacity(2) && Capacity(2) == 256 * Capacity(1);
    assert Capacity(8) == 256 * Capacity(7) && Capacity(7) == 256 * Capacity(6)
        && Capacity(6) == 256 * Capacity(5) && Capacity(5) == 256 * Capacity(4);
  }

  /** A 64-bit word survives the wire. */
  lemma Word64(v: nat)
    requires v < U64
    ensures Decode(Encode(v, 8)) == v
  {
    DecodeEncode(v, 8);
    Capacities();
  }

  /** A 32-bit word survives the wire. */
  lemma Word32(v: nat)
    requires v < U32
    ensures Decode(Encode(v, 4)) == v
  {
    DecodeEncode(v, 4);
    Capacities();
  }

  const U128: nat := 0x1_0000_0000_0000_0000_0000_0000_0000_0000

  /** A 128-bit word survives the wire. */
  lemma Word128(v: nat)
    requires v < U128
    ensures Decode(Encode(v, 16)) == v
  {
    DecodeEncode(v, 16);
    Capacities();
    assert Capacity(12) == 256 * Capacity(11) && Capacity(11) == 256 * Capacity(10)
        && Capacity(10) == 256 * Capacity(9) && Capacity(9) == 256 * Capacity(8);
    assert Capacity(16) == 256 * Capacity(15) && Capacity(15) == 256 * Capacity(14)
        && Capacity(14) == 256 * Capacity(13) && Capacity(13) == 256 * Capacity(12);
  }

  /** s with the bytes from position p on replaced by bs. */
  function Splice(s: seq<byte>, p: nat, bs: seq<byte>): (r: seq<byte>)
    requires p + |bs| <= |s|
    ensures |r| == |s|
    ensures forall i :: 0 <= i < |s| ==> r[i] == if p <= i < p + |bs| then bs[i - p] else s[i]
  {
    s[..p] + bs + s[p + |bs|..]
  }

  lemma SpliceExtends(s: seq<byte>, p: nat, bs: seq<byte>, b: byte)
    requires p + |bs| < |s|
    ensures Splice(s, p, bs + [b]) == Splice(s, p, bs)[p + |bs| := b]
  {
  }

  /** Two adjacent splices are one. */
  lemma SpliceJoins(s: seq<byte>, p: nat, a: seq<byte>, b: seq<byte>)
    requires p + |a| + |b| <= |s|
    ensures Splice(Splice(s, p, a), p + |a|, b) == Splice(s, p, a + b)
  {
  }

  lemma SpliceNothing(s: seq<byte>, p: nat)
    requires p <= |s|
    ensures Splice(s, p, []) == s
  {
  }

  lemma SpliceFront(s: seq<byte>, bs: seq<byte>)
    requires |bs| <= |s|
    ensures Splice(s, 0, bs)[..|bs|] == bs
    ensures |bs| == |s| ==> Splice(s, 0, bs) == bs
  {
  }

  function Zeros(n: nat): (bs: seq<byte>)
    ensures |bs| == n && forall i :: 0 <= i < n ==> bs[i] == 0
  {
    seq(n, _ => 0)
  }

  /** copy_to_user and memcpy into a buffer. */
  method CopyInto(dst: array<byte>, p: nat, src: seq<byte>)
    requires p + |src| <= dst.Length
    modifies dst
    ensures forall i :: 0 <= i < dst.Length ==> dst[i] == if p <= i < p + |src| then src[i - p] else old(dst[i])
    ensures dst[..] == Splice(old(dst[..]), p, src)
  {
    for i := 0 to |src|
      invariant forall j :: 0 <= j < dst.Length ==> dst[j] == if p <= j < p + i then src[j - p] else old(dst[j])
    {
      dst[p + i] := src[i];
    }
  }
}
