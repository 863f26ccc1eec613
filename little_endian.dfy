/** Bytes and the fixed-width integers of the header, least significant byte first.
    The header's integers are two's complement; its floats are kept as unsigned
    bit patterns and are never given a numeric meaning. */
module LittleEndian {

  type byte = x: int | 0 <= x < 256

  /** 256^n: how many values an n-byte field can hold. */
  function Pow256(n: nat): (r: nat)
    ensures r >= 1
  {
    if n == 0 then 1 else 256 * Pow256(n - 1)
  }

  /** The unsigned value of `bs`, least significant byte first. */
  function Unsigned(bs: seq<byte>): (r: nat)
    ensures r < Pow256(|bs|)
  {
    if |bs| == 0 then 0 else bs[0] + 256 * Unsigned(bs[1..])
  }

  /** The n bytes, least significant first, whose unsigned value is v. */
  function EncodeUnsigned(v: nat, n: nat): (bs: seq<byte>)
    requires v < Pow256(n)
    ensures |bs| == n
  {
    if n == 0 then [] else [v % 256] + EncodeUnsigned(v / 256, n - 1)
  }

  /** Encoding then decoding gives back the value. */
  lemma {:induction false} UnsignedOfEncodeUnsigned(v: nat, n: nat)
    requires v < Pow256(n)
    ensures Unsigned(EncodeUnsigned(v, n)) == v
  {
    if n > 0 {
      var bs := EncodeUnsigned(v, n);
      UnsignedOfEncodeUnsigned(v / 256, n - 1);
      assert bs[1..] == EncodeUnsigned(v / 256, n - 1);
    }
  }

  /** Decoding then re-encoding gives back the same bytes: together with
      UnsignedOfEncodeUnsigned, Unsigned is a bijection onto [0, 256^n). */
  lemma {:induction false} EncodeUnsignedOfUnsigned(bs: seq<byte>)
    ensures EncodeUnsigned(Unsigned(bs), |bs|) == bs
  {
    if |bs| > 0 {
      var u := Unsigned(bs[1..]);
      EncodeUnsignedOfUnsigned(bs[1..]);
      LowByteSplit(bs[0], u);
      assert EncodeUnsigned(Unsigned(bs), |bs|) == [bs[0]] + EncodeUnsigned(u, |bs| - 1);
      assert bs == [bs[0]] + bs[1..];
    }
  }

  lemma LowByteSplit(b: byte, u: nat)
    ensures (b + 256 * u) % 256 == b && (b + 256 * u) / 256 == u
  {
  }

  /** v fits an n-byte two's-complement field: -256^n/2 <= v < 256^n/2. */
  predicate InRange(v: int, n: nat) {
    -(Pow256(n) / 2) <= v < Pow256(n) / 2
  }

  /** The two's-complement value of `bs`, least significant byte first. */
  function Signed(bs: seq<byte>): (r: int)
    requires |bs| > 0
    ensures InRange(r, |bs|)
    ensures r >= 0 ==> r == Unsigned(bs)
    ensures r < 0 ==> r == Unsigned(bs) - Pow256(|bs|)
  {
    var u := Unsigned(bs);
    assert Pow256(|bs|) == 256 * Pow256(|bs| - 1);
    if u < Pow256(|bs|) / 2 then u else u - Pow256(|bs|)
  }

  /** The n two's-complement bytes, least significant first, whose value is v. */
  function EncodeSigned(v: int, n: nat): (bs: seq<byte>)
    requires n > 0 && InRange(v, n)
    ensures |bs| == n
  {
    EncodeUnsigned(if v < 0 then v + Pow256(n) else v, n)
  }

  /** Encoding then decoding a two's-complement value gives back the value. */
  lemma SignedOfEncodeSigned(v: int, n: nat)
    requires n > 0 && InRange(v, n)
    ensures Signed(EncodeSigned(v, n)) == v
  {
    UnsignedOfEncodeUnsigned(if v < 0 then v + Pow256(n) else v, n);
  }

  /** Decoding then re-encoding a two's-complement field gives back its bytes. */
  lemma EncodeSignedOfSigned(bs: seq<byte>)
    requires |bs| > 0
    ensures EncodeSigned(Signed(bs), |bs|) == bs
  {
    EncodeUnsignedOfUnsigned(bs);
  }

  /** Two's complement: a field is negative exactly when the sign bit (the top
      bit of its last byte) is set. */
  lemma SignedIsNegativeIffSignBit(bs: seq<byte>)
    requires |bs| > 0
    ensures Signed(bs) < 0 <==> bs[|bs| - 1] >= 128
  {
    UpperHalfIffSignBit(bs);
  }

  /** The unsigned value lies in the upper half of its range exactly when the
      top bit of the last byte is set. */
  lemma {:induction false} UpperHalfIffSignBit(bs: seq<byte>)
    requires |bs| > 0
    ensures Unsigned(bs) >= Pow256(|bs|) / 2 <==> bs[|bs| - 1] >= 128
  {
    if |bs| > 1 {
      var t := bs[1..];
      UpperHalfIffSignBit(t);
      assert t[|t| - 1] == bs[|bs| - 1];
      assert Pow256(|t|) == 256 * Pow256(|t| - 1);
      assert Pow256(|bs|) / 2 == 256 * (Pow256(|t|) / 2);
    }
  }

  /** The bounds of the two widths the header uses for its integers. */
  lemma InRangeWidths(v: int)
    ensures InRange(v, 2) <==> -0x8000 <= v < 0x8000
    ensures InRange(v, 4) <==> -0x8000_0000 <= v < 0x8000_0000
  {
  }
}
