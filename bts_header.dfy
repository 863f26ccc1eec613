/** The header decoder of a BTS wind-field file: a fixed sequence of 2- and
    4-byte fields at fixed offsets, ending in a length-prefixed ASCII text.

      offset  size  field
         0     2    id
         2    16    zCount, yCount, towerCount, dtCount
        18    12    dz, dy, dt
        30    12    meanSpeed, hubHeight, bottomHeight
        42    24    slope[0], intercept[0], slope[1], intercept[1], slope[2], intercept[2]
        66     4    textCount
        70     *    text (textCount ASCII bytes)
*/
module BtsHeader {
  import opened LittleEndian
  import opened ByteReader

  /** The decoded header. Integers are two's complement, floats their bit patterns. */
  datatype HeaderInfo = HeaderInfo(
    id: int,
    zCount: int,
    yCount: int,
    towerCount: int,
    dtCount: int,
    dz: FloatBits,
    dy: FloatBits,
    dt: FloatBits,
    meanSpeed: FloatBits,
    hubHeight: FloatBits,
    bottomHeight: FloatBits,
    slope: seq<FloatBits>,
    intercept: seq<FloatBits>,
    text: string)

  /** A list slot that has not been filled yet holds None. */
  datatype Option<T> = None | Some(value: T)

  /** Bytes taken by the fixed fields: 2 + 4*4 + 4*3 + 4*3 + 4*3*2 + 4. */
  const FixedSpan := 70

  /** Where the 4-byte text count sits: just after the other fixed fields. */
  const CountOffset := 66

  /** Length of the longest prefix of `bs` made of 7-bit bytes. */
  function AsciiPrefix(bs: seq<byte>): (k: nat)
    ensures k <= |bs|
    ensures forall i :: 0 <= i < k ==> bs[i] < 0x80
    ensures k < |bs| ==> bs[k] >= 0x80
  {
    if |bs| == 0 || bs[0] >= 0x80 then 0 else 1 + AsciiPrefix(bs[1..])
  }

  /** Strict ASCII decoding: one character per byte, and the first byte above
      0x7F is reported instead. */
  function DecodeAscii(bs: seq<byte>): (r: Result<string>)
    ensures r.Ok? <==> forall i :: 0 <= i < |bs| ==> bs[i] < 0x80
    ensures r.Ok? ==> |r.value| == |bs| && forall i :: 0 <= i < |bs| ==> r.value[i] == bs[i] as char
    ensures r.Err? ==> r.error.InvalidEncoding? && r.error.position < |bs|
    ensures r.Err? ==> bs[r.error.position] >= 0x80
    ensures r.Err? ==> forall i :: 0 <= i < r.error.position ==> bs[i] < 0x80
  {
    var k := AsciiPrefix(bs);
    if k < |bs| then Err(InvalidEncoding(k))
    else Ok(seq(|bs|, i requires 0 <= i < |bs| => bs[i] as char))
  }

  function Int16At(file: seq<byte>, offset: nat): int
    requires offset + 2 <= |file|
  {
    Signed(file[offset..offset + 2])
  }

  function Int32At(file: seq<byte>, offset: nat): int
    requires offset + 4 <= |file|
  {
    Signed(file[offset..offset + 4])
  }

  function Float32At(file: seq<byte>, offset: nat): FloatBits
    requires offset + 4 <= |file|
  {
    DecodeFloat(file[offset..offset + 4])
  }

  /** The text length the header declares. */
  function DeclaredTextCount(file: seq<byte>): int
    requires |file| >= FixedSpan
  {
    Int32At(file, 66)
  }

  /** The header size the declared text length implies. */
  function ByteCount(file: seq<byte>): int
    requires |file| >= FixedSpan
  {
    FixedSpan + DeclaredTextCount(file)
  }

  /** The bytes the trailer read returns for a count it accepts: the declared
      count, fewer if the file ends first, the rest of the file for -1. */
  function Trailer(file: seq<byte>): seq<byte>
    requires |file| >= FixedSpan && DeclaredTextCount(file) >= -1
  {
    ReadSpan(file, FixedSpan, DeclaredTextCount(file)).value
  }

  /** The error of a file that ends at `n`, inside the fixed fields: the field
      the end falls in, with the bytes of it that are present. */
  function TruncatedAt(n: nat): Error
    requires n < FixedSpan
  {
    if n < 2 then TruncatedInput(2, n) else TruncatedInput(4, (n - 2) % 4)
  }

  /** The fields of `file` before the text count, by the offset table, with
      `text` as the trailer. */
  function FixedFields(file: seq<byte>, text: string): HeaderInfo
    requires |file| >= CountOffset
  {
    HeaderInfo(
      Int16At(file, 0),
      Int32At(file, 2), Int32At(file, 6), Int32At(file, 10), Int32At(file, 14),
      Float32At(file, 18), Float32At(file, 22), Float32At(file, 26),
      Float32At(file, 30), Float32At(file, 34), Float32At(file, 38),
      [Float32At(file, 42), Float32At(file, 50), Float32At(file, 58)],
      [Float32At(file, 46), Float32At(file, 54), Float32At(file, 62)],
      text)
  }

  /** The header of `file` by the offset table, and the file position once
      decoding has finished or failed. */
  function DecodeHeader(file: seq<byte>): (r: (Result<HeaderInfo>, nat))
    ensures r.1 <= |file|
    ensures (r.0.Err? && r.0.error.TruncatedInput?) <==> |file| < FixedSpan
    ensures (r.0.Err? && r.0.error.InvalidReadLength?) <==>
              |file| >= FixedSpan && DeclaredTextCount(file) < -1
    ensures |file| >= FixedSpan && DeclaredTextCount(file) >= -1 ==>
              (r.0.Ok? <==> forall i :: 0 <= i < |Trailer(file)| ==> Trailer(file)[i] < 0x80)
    ensures r.0.Ok? ==> |r.0.value.slope| == 3 && |r.0.value.intercept| == 3
    ensures r.0.Ok? ==> r.1 == FixedSpan + |r.0.value.text|
  {
    if |file| < FixedSpan then (Err(TruncatedAt(|file|)), |file|)
    else
      match ReadSpan(file, FixedSpan, DeclaredTextCount(file))
      case Err(e) => (Err(e), FixedSpan)
      case Ok(trailer) =>
        assert trailer == Trailer(file);
        var text := DecodeAscii(trailer);
        (if text.Err? then Err(text.error) else Ok(FixedFields(file, text.value)), FixedSpan + |trailer|)
  }

  /** The values of a list whose every slot has been filled. */
  function Filled(slots: seq<Option<FloatBits>>): (r: seq<FloatBits>)
    requires forall k :: 0 <= k < |slots| ==> slots[k].Some?
    ensures |r| == |slots| && forall k :: 0 <= k < |slots| ==> slots[k] == Some(r[k])
  {
    seq(|slots|, k requires 0 <= k < |slots| => slots[k].value)
  }

  /** A file that ends inside the run of 4-byte fields that starts with field
      number `field` (the one at offset 2 + 4 * field) is cut short in the
      field the end falls in: the truncation counts the bytes of that field
      which are present. */
  lemma CutShortInFields(n: nat, field: nat, count: nat)
    requires 2 + 4 * field <= n < 2 + 4 * (field + count) <= FixedSpan
    ensures TruncatedAt(n) == TruncatedInput(4, (n - 2 - 4 * field) % 4)
  {
  }

  /** `count` consecutive 4-byte integers, as a list comprehension over the
      integer reader: the values at old(pos), old(pos) + 4, ..., or the
      truncation of the first field the file cuts short. */
  method ReadInt32s(input: Reader, count: nat) returns (r: Result<seq<int>>)
    requires input.Valid()
    modifies input
    ensures input.Valid()
    ensures r.Ok? <==> old(input.pos) + 4 * count <= |input.data|
    ensures r.Ok? ==> input.pos == old(input.pos) + 4 * count && |r.value| == count
    ensures r.Ok? ==> forall k :: 0 <= k < count ==> r.value[k] == Int32At(input.data, old(input.pos) + 4 * k)
    ensures r.Err? ==> input.pos == |input.data|
    ensures r.Err? ==> r.error == TruncatedInput(4, (|input.data| - old(input.pos)) % 4)
  {
    var values: seq<int> := [];
    for n := 0 to count
      invariant input.Valid() && input.pos == old(input.pos) + 4 * n
      invariant |values| == n
      invariant forall k :: 0 <= k < n ==> values[k] == Int32At(input.data, old(input.pos) + 4 * k)
    {
      var v := input.ReadInt(4);
      if v.Err? {
        return Err(v.error);
      }
      values := values + [v.value.v];
    }
    return Ok(values);
  }

  /** `count` consecutive 4-byte floats, as a list comprehension over the
      float reader: the bit patterns at old(pos), old(pos) + 4, ..., or the
      truncation of the first field the file cuts short. */
  method ReadFloat32s(input: Reader, count: nat) returns (r: Result<seq<FloatBits>>)
    requires input.Valid()
    modifies input
    ensures input.Valid()
    ensures r.Ok? <==> old(input.pos) + 4 * count <= |input.data|
    ensures r.Ok? ==> input.pos == old(input.pos) + 4 * count && |r.value| == count
    ensures r.Ok? ==> forall k :: 0 <= k < count ==> r.value[k] == Float32At(input.data, old(input.pos) + 4 * k)
    ensures r.Err? ==> input.pos == |input.data|
    ensures r.Err? ==> r.error == TruncatedInput(4, (|input.data| - old(input.pos)) % 4)
  {
    var values: seq<FloatBits> := [];
    for n := 0 to count
      invariant input.Valid() && input.pos == old(input.pos) + 4 * n
      invariant |values| == n
      invariant forall k :: 0 <= k < n ==> values[k] == Float32At(input.data, old(input.pos) + 4 * k)
    {
      var v := input.ReadFloat(4);
      if v.Err? {
        return Err(v.error);
      }
      values := values + [v.value];
    }
    return Ok(values);
  }

  /** Slot k of a slope or intercept list once the first n axes have been
      read from the pairs starting at `start`: the field at start + 8k + shift
      (shift 0 for a slope, 4 for an intercept), or the placeholder. */
  ghost function Slot(data: seq<byte>, start: nat, n: nat, shift: nat, k: nat): Option<FloatBits>
  {
    if k < n && start + 8 * k + shift + 4 <= |data| then Some(Float32At(data, start + 8 * k + shift))
    else None
  }

  /** The whole three-slot list after n axes have been read. */
  ghost function Slots(data: seq<byte>, start: nat, n: nat, shift: nat): seq<Option<FloatBits>>
  {
    [Slot(data, start, n, shift, 0), Slot(data, start, n, shift, 1), Slot(data, start, n, shift, 2)]
  }

  /** Filling slot n with the field it is due moves the list on by one axis. */
  lemma FillSlot(data: seq<byte>, start: nat, n: nat, shift: nat)
    requires n < 3 && start + 8 * n + shift + 4 <= |data|
    ensures Slots(data, start, n, shift)[n := Some(Float32At(data, start + 8 * n + shift))]
            == Slots(data, start, n + 1, shift)
  {
  }

  /** The slope and intercept lists: both start as three placeholders, and
      for each axis n in turn the n-th slope and then the n-th intercept are
      read into place, so axis n's pair sits at old(pos) + 8n and
      old(pos) + 8n + 4. Returns both lists, with no placeholder left, or the
      truncation of the first field the file cuts short. */
  method ReadSlopeIntercept(input: Reader) returns (r: Result<(seq<FloatBits>, seq<FloatBits>)>)
    requires input.Valid()
    modifies input
    ensures input.Valid()
    ensures r.Ok? <==> old(input.pos) + 24 <= |input.data|
    ensures r.Ok? ==> input.pos == old(input.pos) + 24
    ensures r.Ok? ==> |r.value.0| == 3 && |r.value.1| == 3
    ensures r.Ok? ==> forall n :: 0 <= n < 3 ==>
              r.value.0[n] == Float32At(input.data, old(input.pos) + 8 * n) &&
              r.value.1[n] == Float32At(input.data, old(input.pos) + 8 * n + 4)
    ensures r.Err? ==> input.pos == |input.data|
    ensures r.Err? ==> r.error == TruncatedInput(4, (|input.data| - old(input.pos)) % 4)
  {
    ghost var data, start := input.data, input.pos;
    var slope: seq<Option<FloatBits>> := [None, None, None];
    var intercept: seq<Option<FloatBits>> := [None, None, None];
    for n := 0 to 3
      invariant input.Valid() && input.pos == start + 8 * n
      invariant slope == Slots(data, start, n, 0) && intercept == Slots(data, start, n, 4)
    {
      var s := input.ReadFloat(4);
      if s.Err? {
        return Err(s.error);
      }
      FillSlot(data, start, n, 0);
      slope := slope[n := Some(s.value)];
      var i := input.ReadFloat(4);
      if i.Err? {
        return Err(i.error);
      }
      FillSlot(data, start, n, 4);
      intercept := intercept[n := Some(i.value)];
    }
    return Ok((Filled(slope), Filled(intercept)));
  }

  /** The fixed-size fields before the text count, read one by one from the
      start of the file: their values by the offset table, with the file
      position just past them; or, in a file shorter than that, the truncation
      of the field the file ends in, with the whole file read. */
  method ReadFixedFields(input: Reader) returns (r: Result<HeaderInfo>)
    requires input.Valid() && input.pos == 0
    modifies input
    ensures input.Valid()
    ensures r.Ok? <==> |input.data| >= CountOffset
    ensures r.Ok? ==> r.value == FixedFields(input.data, "") && input.pos == CountOffset
    ensures r.Err? ==> r.error == TruncatedAt(|input.data|) && input.pos == |input.data|
  {
    var id := input.ReadInt(2);
    if id.Err? {
      return Err(id.error);
    }
    // zCount, yCount, towerCount, dtCount
    var counts := ReadInt32s(input, 4);
    if counts.Err? {
      CutShortInFields(|input.data|, 0, 4);
      return Err(counts.error);
    }
    // dz, dy, dt
    var spacing := ReadFloat32s(input, 3);
    if spacing.Err? {
      CutShortInFields(|input.data|, 4, 3);
      return Err(spacing.error);
    }
    // meanSpeed, hubHeight, bottomHeight
    var reference := ReadFloat32s(input, 3);
    if reference.Err? {
      CutShortInFields(|input.data|, 7, 3);
      return Err(reference.error);
    }
    var axes := ReadSlopeIntercept(input);
    if axes.Err? {
      CutShortInFields(|input.data|, 10, 6);
      return Err(axes.error);
    }
    var (slope, intercept) := axes.value;
    assert slope == [Float32At(input.data, 42), Float32At(input.data, 50), Float32At(input.data, 58)];
    assert intercept == [Float32At(input.data, 46), Float32At(input.data, 54), Float32At(input.data, 62)];
    r := Ok(HeaderInfo(
      id.value.v,
      counts.value[0], counts.value[1], counts.value[2], counts.value[3],
      spacing.value[0], spacing.value[1], spacing.value[2],
      reference.value[0], reference.value[1], reference.value[2],
      slope,
      intercept,
      ""));
  }

  /** Opens `file` and reads its header field by field, threading one cursor
      through the reads; returns the header, or the first failure, and the
      file position at that point (the position the read-count diagnostic
      reports). */
  method ReadHeader(file: seq<byte>) returns (r: Result<HeaderInfo>, tell: nat)
    ensures (r, tell) == DecodeHeader(file)
  {
    var input := new Reader(file);
    var fixed := ReadFixedFields(input);
    if fixed.Err? {
      return Err(fixed.error), input.pos;
    }
    var textCount := input.ReadInt(4);
    if textCount.Err? {
      CutShortInFields(|file|, 16, 1);
      return Err(textCount.error), input.pos;
    }
    var textBytes := input.Read(textCount.value.v);
    if textBytes.Err? {
      return Err(textBytes.error), input.pos;
    }
    var text := DecodeAscii(textBytes.value);
    if text.Err? {
      return Err(text.error), input.pos;
    }
    r := Ok(fixed.value.(text := text.value));
    tell := input.pos;
  }
}
