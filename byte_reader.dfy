/** The primitive readers of the header decoder: a file opened for binary
    reading, positioned by a cursor, and the two field readers that take a
    fixed number of bytes from it and unpack them. */
module ByteReader {
  import opened LittleEndian

  /** The four ways a decode fails. */
  datatype Error =
    /** The width has no unpack format: the lookup fails before anything is read. */
    | UnsupportedWidth(width: int)
    /** Unpacking a field of `wanted` bytes was given only the `available` bytes left in the file. */
    | TruncatedInput(wanted: nat, available: nat)
    /** The text trailer holds a byte above 0x7F at `position` (counted from the trailer's start). */
    | InvalidEncoding(position: nat)
    /** A read was asked for `count` bytes with count below -1, which a
        buffered binary file refuses before reading anything. */
    | InvalidReadLength(count: int)

  datatype Result<T> = Ok(value: T) | Err(error: Error)

  /** What the integer reader returns: the one-byte format yields the raw byte
      itself, the others a signed integer. */
  datatype IntValue = RawByte(b: byte) | Int(v: int)

  /** A floating-point field kept as its uninterpreted bit pattern: the unsigned
      little-endian value of its `width` bytes. */
  datatype FloatBits = FloatBits(width: nat, pattern: nat)

  /** Widths the integer reader has a format for (char, short, int, long long). */
  predicate IntWidth(width: int) {
    width == 1 || width == 2 || width == 4 || width == 8
  }

  /** Widths the float reader has a format for (half, single, double). */
  predicate FloatWidth(width: int) {
    width == 2 || width == 4 || width == 8
  }

  /** A read of `n` bytes at `pos`: the next n bytes, or as many as are left
      when fewer remain; n == -1 reads to the end of the file, and any n below
      -1 is refused. */
  function ReadSpan(data: seq<byte>, pos: nat, n: int): (r: Result<seq<byte>>)
    requires pos <= |data|
    ensures r.Err? <==> n < -1
    ensures r.Err? ==> r.error == InvalidReadLength(n)
    ensures r.Ok? ==> pos + |r.value| <= |data| && r.value == data[pos..pos + |r.value|]
    ensures n == -1 ==> r.Ok? && |r.value| == |data| - pos
    ensures 0 <= n ==> r.Ok? && |r.value| == if pos + n <= |data| then n else |data| - pos
  {
    if n < -1 then Err(InvalidReadLength(n))
    else if 0 <= n && pos + n <= |data| then Ok(data[pos..pos + n])
    else Ok(data[pos..])
  }

  /** Two reads in a row return the same bytes as one read of their total
      length, whether or not the file ends first. */
  lemma ReadSpanConcat(data: seq<byte>, pos: nat, a: nat, b: nat)
    requires pos <= |data|
    ensures ReadSpan(data, pos, a).value + ReadSpan(data, pos + |ReadSpan(data, pos, a).value|, b).value
            == ReadSpan(data, pos, a + b).value
  {
  }

  /** The value of a complete integer field: the byte itself for the one-byte
      format, the two's-complement value otherwise. */
  function DecodeInt(width: int, bs: seq<byte>): (r: IntValue)
    requires IntWidth(width) && |bs| == width
    ensures r.RawByte? <==> width == 1
    ensures r.RawByte? ==> r.b == bs[0]
    ensures r.Int? ==> InRange(r.v, width)
  {
    if width == 1 then RawByte(bs[0]) else Int(Signed(bs))
  }

  /** An integer field is recovered from its value: encoding the decoded
      value at the field's width gives back the field's bytes. */
  lemma DecodeIntRoundTrip(width: int, bs: seq<byte>)
    requires IntWidth(width) && |bs| == width && width != 1
    ensures EncodeSigned(DecodeInt(width, bs).v, width) == bs
  {
    EncodeSignedOfSigned(bs);
  }

  /** The value of a complete float field: its bit pattern. */
  function DecodeFloat(bs: seq<byte>): (r: FloatBits)
    ensures r.width == |bs| && r.pattern < Pow256(|bs|)
  {
    FloatBits(|bs|, Unsigned(bs))
  }

  /** No bit of a float field is lost: encoding its pattern at its width gives
      back the field's bytes. */
  lemma DecodeFloatRoundTrip(bs: seq<byte>)
    ensures EncodeUnsigned(DecodeFloat(bs).pattern, DecodeFloat(bs).width) == bs
  {
    EncodeUnsignedOfUnsigned(bs);
  }

  /** Unpacking an integer format: the buffer must hold exactly `width` bytes. */
  function UnpackInt(width: int, chunk: seq<byte>): (r: Result<IntValue>)
    requires IntWidth(width)
    ensures r.Ok? <==> |chunk| == width
    ensures r.Err? ==> r.error == TruncatedInput(width, |chunk|)
  {
    if |chunk| != width then Err(TruncatedInput(width, |chunk|)) else Ok(DecodeInt(width, chunk))
  }

  /** Unpacking a float format: the buffer must hold exactly `width` bytes. */
  function UnpackFloat(width: int, chunk: seq<byte>): (r: Result<FloatBits>)
    requires FloatWidth(width)
    ensures r.Ok? <==> |chunk| == width
    ensures r.Err? ==> r.error == TruncatedInput(width, |chunk|)
  {
    if |chunk| != width then Err(TruncatedInput(width, |chunk|)) else Ok(DecodeFloat(chunk))
  }

  /** A binary file open for reading: its contents and the current position. */
  class Reader {
    const data: seq<byte>
    var pos: nat

    ghost predicate Valid()
      reads this
    {
      pos <= |data|
    }

    /** Opening the file places the cursor at its first byte. */
    constructor (contents: seq<byte>)
      ensures Valid() && data == contents && pos == 0
    {
      data := contents;
      pos := 0;
    }

    /** Reading n bytes: returns fewer at the end of the file and everything
        left when n is -1, and moves past what it returned; a count below -1
        fails and leaves the cursor where it was. */
    method Read(n: int) returns (chunk: Result<seq<byte>>)
      requires Valid()
      modifies this
      ensures Valid()
      ensures chunk == ReadSpan(data, old(pos), n)
      ensures chunk.Ok? ==> pos == old(pos) + |chunk.value|
      ensures chunk.Err? ==> pos == old(pos)
    {
      chunk := ReadSpan(data, pos, n);
      if chunk.Ok? {
        pos := pos + |chunk.value|;
      }
    }

    /** The integer reader: look up the width's format, read that many bytes,
        unpack them. A width without a format fails before the read and leaves
        the cursor where it was; a field cut short by the end of the file fails
        after the read has taken what was left; otherwise exactly `width` bytes
        are consumed and decoded. */
    method ReadInt(width: int) returns (r: Result<IntValue>)
      requires Valid()
      modifies this
      ensures Valid()
      ensures !IntWidth(width) ==> r == Err(UnsupportedWidth(width)) && pos == old(pos)
      ensures IntWidth(width) && old(pos) + width <= |data| ==>
                r == Ok(DecodeInt(width, data[old(pos)..old(pos) + width])) && pos == old(pos) + width
      ensures IntWidth(width) && old(pos) + width > |data| ==>
                r == Err(TruncatedInput(width, |data| - old(pos))) && pos == |data|
    {
      if !IntWidth(width) {
        return Err(UnsupportedWidth(width));
      }
      var chunk := Read(width);
      r := UnpackInt(width, chunk.value);
    }

    /** The float reader, with the same three outcomes as ReadInt. */
    method ReadFloat(width: int) returns (r: Result<FloatBits>)
      requires Valid()
      modifies this
      ensures Valid()
      ensures !FloatWidth(width) ==> r == Err(UnsupportedWidth(width)) && pos == old(pos)
      ensures FloatWidth(width) && old(pos) + width <= |data| ==>
                r == Ok(DecodeFloat(data[old(pos)..old(pos) + width])) && pos == old(pos) + width
      ensures FloatWidth(width) && old(pos) + width > |data| ==>
                r == Err(TruncatedInput(width, |data| - old(pos))) && pos == |data|
    {
      if !FloatWidth(width) {
        return Err(UnsupportedWidth(width));
      }
      var chunk := Read(width);
      r := UnpackFloat(width, chunk.value);
    }
  }
}
