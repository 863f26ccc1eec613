/** What the header decoder promises about whole files: it inverts the
    header encoder in both directions, takes every field from its offset,
    consumes exactly the declared span when the declared text length fits the
    file, and fails on any file that ends inside the fixed fields. */
module HeaderProperties {
  import opened LittleEndian
  import opened ByteReader
  import opened BtsHeader

  /** A float field as the header stores it: a 4-byte bit pattern. */
  predicate Float32(f: FloatBits) {
    f.width == 4 && f.pattern < Pow256(4)
  }

  /** A header that can be written: every integer fits its field, every float
      is a 4-byte pattern, there are three axes and the text is ASCII with a
      length that fits the 4-byte count. */
  predicate WellFormed(h: HeaderInfo) {
    && InRange(h.id, 2)
    && InRange(h.zCount, 4) && InRange(h.yCount, 4)
    && InRange(h.towerCount, 4) && InRange(h.dtCount, 4)
    && Float32(h.dz) && Float32(h.dy) && Float32(h.dt)
    && Float32(h.meanSpeed) && Float32(h.hubHeight) && Float32(h.bottomHeight)
    && |h.slope| == 3 && |h.intercept| == 3
    && (forall n :: 0 <= n < 3 ==> Float32(h.slope[n]) && Float32(h.intercept[n]))
    && InRange(|h.text|, 4)
    && (forall i :: 0 <= i < |h.text| ==> h.text[i] as int < 0x80)
  }

  /** The bytes of a float field. */
  function EncodeFloat(f: FloatBits): (bs: seq<byte>)
    requires f.pattern < Pow256(f.width)
    ensures |bs| == f.width
  {
    EncodeUnsigned(f.pattern, f.width)
  }

  /** Decoding the bytes of a float field gives the field back. */
  lemma DecodeEncodeFloat(f: FloatBits)
    requires f.pattern < Pow256(f.width)
    ensures DecodeFloat(EncodeFloat(f)) == f
  {
    UnsignedOfEncodeUnsigned(f.pattern, f.width);
  }

  /** The bytes of an ASCII text, one per character. */
  function EncodeAscii(text: string): (bs: seq<byte>)
    requires forall i :: 0 <= i < |text| ==> text[i] as int < 0x80
    ensures |bs| == |text|
    ensures forall i :: 0 <= i < |text| ==> bs[i] == text[i] as int
  {
    if |text| == 0 then [] else [text[0] as int] + EncodeAscii(text[1..])
  }

  /** Decoding the bytes of an ASCII text gives the text back. */
  lemma DecodeEncodeAscii(text: string)
    requires forall i :: 0 <= i < |text| ==> text[i] as int < 0x80
    ensures DecodeAscii(EncodeAscii(text)) == Ok(text)
  {
    var bs := EncodeAscii(text);
    var r := DecodeAscii(bs);
    assert r.Ok?;
    forall i | 0 <= i < |text|
      ensures r.value[i] == text[i]
    {
      assert r.value[i] == bs[i] as char;
      assert bs[i] == text[i] as int;
      assert (text[i] as int) as char == text[i];
    }
    assert |r.value| == |text|;
    assert r.value == text;
  }

  /** Encoding a decoded text gives back its bytes. */
  lemma EncodeAsciiOfDecoded(bs: seq<byte>)
    requires DecodeAscii(bs).Ok?
    ensures EncodeAscii(DecodeAscii(bs).value) == bs
  {
  }

  /** The 4-byte words of a run of 4-byte fields, one after another. */
  function Words(ws: seq<seq<byte>>): (r: seq<byte>)
    requires forall k :: 0 <= k < |ws| ==> |ws[k]| == 4
    ensures |r| == 4 * |ws|
  {
    if |ws| == 0 then [] else ws[0] + Words(ws[1..])
  }

  /** Word k of a run sits at byte 4k. */
  lemma {:induction false} WordsSlice(ws: seq<seq<byte>>, k: nat)
    requires forall j :: 0 <= j < |ws| ==> |ws[j]| == 4
    requires k < |ws|
    ensures Words(ws)[4 * k..4 * k + 4] == ws[k]
  {
    if k > 0 {
      WordsSlice(ws[1..], k - 1);
      assert Words(ws) == ws[0] + Words(ws[1..]);
      assert Words(ws)[4 * k..4 * k + 4] == Words(ws[1..])[4 * (k - 1)..4 * (k - 1) + 4];
    }
  }

  /** A byte string of 4|ws| bytes whose every 4-byte slice is the matching
      word is the run of those words. */
  lemma {:induction false} WordsOfSlices(ws: seq<seq<byte>>, s: seq<byte>)
    requires forall j :: 0 <= j < |ws| ==> |ws[j]| == 4
    requires |s| == 4 * |ws|
    requires forall j :: 0 <= j < |ws| ==> s[4 * j..4 * j + 4] == ws[j]
    ensures Words(ws) == s
  {
    if |ws| > 0 {
      forall j | 0 <= j < |ws| - 1
        ensures s[4..][4 * j..4 * j + 4] == ws[1..][j]
      {
        assert s[4..][4 * j..4 * j + 4] == s[4 * (j + 1)..4 * (j + 1) + 4];
      }
      WordsOfSlices(ws[1..], s[4..]);
      assert s[..4] == ws[0];
      assert s == s[..4] + s[4..];
    }
  }

  /** A slice of a slice is a slice of the whole. */
  lemma SliceOfSlice(s: seq<byte>, lo: nat, hi: nat, i: nat, j: nat)
    requires lo <= hi <= |s| && i <= j <= hi - lo
    ensures s[lo..hi][i..j] == s[lo + i..lo + j]
  {
    assert forall m :: 0 <= m < j - i ==> s[lo..hi][i..j][m] == s[lo + i..lo + j][m];
  }

  /** The seventeen 4-byte fields after the id, in file order: the counts,
      the spacings, the reference values, the interleaved axis pairs and the
      text length. */
  function FieldWords(h: HeaderInfo): (ws: seq<seq<byte>>)
    requires WellFormed(h)
    ensures |ws| == 17
    ensures forall k :: 0 <= k < |ws| ==> |ws[k]| == 4
  {
    [EncodeSigned(h.zCount, 4), EncodeSigned(h.yCount, 4),
     EncodeSigned(h.towerCount, 4), EncodeSigned(h.dtCount, 4),
     EncodeFloat(h.dz), EncodeFloat(h.dy), EncodeFloat(h.dt),
     EncodeFloat(h.meanSpeed), EncodeFloat(h.hubHeight), EncodeFloat(h.bottomHeight),
     EncodeFloat(h.slope[0]), EncodeFloat(h.intercept[0]),
     EncodeFloat(h.slope[1]), EncodeFloat(h.intercept[1]),
     EncodeFloat(h.slope[2]), EncodeFloat(h.intercept[2]),
     EncodeSigned(|h.text|, 4)]
  }

  /** The header writer: the fields in the order the decoder reads them,
      least significant byte first, then the text. */
  function EncodeHeader(h: HeaderInfo): (file: seq<byte>)
    requires WellFormed(h)
    ensures |file| == FixedSpan + |h.text|
  {
    EncodeSigned(h.id, 2) + Words(FieldWords(h)) + EncodeAscii(h.text)
  }

  /** `file` begins with the bytes of h's fixed fields: the id in bytes
      [0, 2), then the run of 4-byte fields up to byte 70. */
  predicate StartsWithFields(file: seq<byte>, h: HeaderInfo)
    requires WellFormed(h)
  {
    |file| >= FixedSpan && file[0..2] == EncodeSigned(h.id, 2) && file[2..FixedSpan] == Words(FieldWords(h))
  }

  /** An encoded header, followed by anything, starts with its fixed fields
      and has its text in the bytes after them. */
  lemma EncodedParts(h: HeaderInfo, rest: seq<byte>)
    requires WellFormed(h)
    ensures StartsWithFields(EncodeHeader(h) + rest, h)
    ensures (EncodeHeader(h) + rest)[FixedSpan..FixedSpan + |h.text|] == EncodeAscii(h.text)
  {
  }

  /** Field k of the run after the id sits at offset 2 + 4k. */
  lemma EncodedField(file: seq<byte>, h: HeaderInfo, k: nat)
    requires WellFormed(h) && StartsWithFields(file, h) && k < 17
    ensures file[2 + 4 * k..2 + 4 * k + 4] == FieldWords(h)[k]
  {
    WordsSlice(FieldWords(h), k);
    SliceOfSlice(file, 2, FixedSpan, 4 * k, 4 * k + 4);
  }

  /** A 4-byte integer field holding the bytes of v reads as v. */
  lemma IntAt(file: seq<byte>, offset: nat, v: int)
    requires offset + 4 <= |file| && InRange(v, 4)
    requires file[offset..offset + 4] == EncodeSigned(v, 4)
    ensures Int32At(file, offset) == v
  {
    SignedOfEncodeSigned(v, 4);
  }

  /** A 4-byte float field holding the bytes of f reads as f. */
  lemma FloatAt(file: seq<byte>, offset: nat, f: FloatBits)
    requires offset + 4 <= |file| && Float32(f)
    requires file[offset..offset + 4] == EncodeFloat(f)
    ensures Float32At(file, offset) == f
  {
    DecodeEncodeFloat(f);
  }

  /** The counts and the text length of an encoded header read back. */
  lemma EncodedCounts(file: seq<byte>, h: HeaderInfo)
    requires WellFormed(h) && StartsWithFields(file, h)
    ensures
      && Int32At(file, 2) == h.zCount && Int32At(file, 6) == h.yCount
      && Int32At(file, 10) == h.towerCount && Int32At(file, 14) == h.dtCount
      && Int32At(file, 66) == |h.text|
  {
    EncodedField(file, h, 0);
    IntAt(file, 2, h.zCount);
    EncodedField(file, h, 1);
    IntAt(file, 6, h.yCount);
    EncodedField(file, h, 2);
    IntAt(file, 10, h.towerCount);
    EncodedField(file, h, 3);
    IntAt(file, 14, h.dtCount);
    EncodedField(file, h, 16);
    IntAt(file, 66, |h.text|);
  }

  /** The spacings and reference values of an encoded header read back. */
  lemma EncodedScalars(file: seq<byte>, h: HeaderInfo)
    requires WellFormed(h) && StartsWithFields(file, h)
    ensures
      && Float32At(file, 18) == h.dz && Float32At(file, 22) == h.dy
      && Float32At(file, 26) == h.dt && Float32At(file, 30) == h.meanSpeed
      && Float32At(file, 34) == h.hubHeight && Float32At(file, 38) == h.bottomHeight
  {
    EncodedField(file, h, 4);
    FloatAt(file, 18, h.dz);
    EncodedField(file, h, 5);
    FloatAt(file, 22, h.dy);
    EncodedField(file, h, 6);
    FloatAt(file, 26, h.dt);
    EncodedField(file, h, 7);
    FloatAt(file, 30, h.meanSpeed);
    EncodedField(file, h, 8);
    FloatAt(file, 34, h.hubHeight);
    EncodedField(file, h, 9);
    FloatAt(file, 38, h.bottomHeight);
  }

  /** The interleaved axis pairs of an encoded header read back. */
  lemma EncodedAxes(file: seq<byte>, h: HeaderInfo)
    requires WellFormed(h) && StartsWithFields(file, h)
    ensures
      && [Float32At(file, 42), Float32At(file, 50), Float32At(file, 58)] == h.slope
      && [Float32At(file, 46), Float32At(file, 54), Float32At(file, 62)] == h.intercept
  {
    EncodedField(file, h, 10);
    FloatAt(file, 42, h.slope[0]);
    EncodedField(file, h, 11);
    FloatAt(file, 46, h.intercept[0]);
    EncodedField(file, h, 12);
    FloatAt(file, 50, h.slope[1]);
    EncodedField(file, h, 13);
    FloatAt(file, 54, h.intercept[1]);
    EncodedField(file, h, 14);
    FloatAt(file, 58, h.slope[2]);
    EncodedField(file, h, 15);
    FloatAt(file, 62, h.intercept[2]);
  }

  /** The fixed fields of a file that starts with a header's fixed fields
      are that header's fields, and its text count is the header's text
      length. */
  lemma DecodeEncodedFixedFields(file: seq<byte>, h: HeaderInfo)
    requires WellFormed(h) && StartsWithFields(file, h)
    ensures FixedFields(file, h.text) == h
    ensures DeclaredTextCount(file) == |h.text|
  {
    SignedOfEncodeSigned(h.id, 2);
    EncodedCounts(file, h);
    EncodedScalars(file, h);
    EncodedAxes(file, h);
  }

  /** Round trip: a file that starts with the bytes of a well-formed header
      decodes to that header, whatever follows it, and decoding stops right
      after the text. */
  lemma DecodeEncodeHeader(h: HeaderInfo, rest: seq<byte>)
    requires WellFormed(h)
    ensures DecodeHeader(EncodeHeader(h) + rest) == (Ok(h), FixedSpan + |h.text|)
  {
    var file := EncodeHeader(h) + rest;
    EncodedParts(h, rest);
    DecodeEncodedFixedFields(file, h);
    assert Trailer(file) == EncodeAscii(h.text);
    DecodeEncodeAscii(h.text);
  }

  /** An empty text decodes to "" and the header spans exactly the fixed part. */
  lemma EmptyText(h: HeaderInfo, rest: seq<byte>)
    requires WellFormed(h) && h.text == ""
    ensures |EncodeHeader(h)| == FixedSpan
    ensures DecodeHeader(EncodeHeader(h) + rest) == (Ok(h), FixedSpan)
  {
    DecodeEncodeHeader(h, rest);
  }

  /** The decoded header is well-formed. */
  lemma DecodedWellFormed(file: seq<byte>)
    requires DecodeHeader(file).0.Ok?
    requires 0 <= DeclaredTextCount(file) <= |file| - FixedSpan
    ensures WellFormed(DecodeHeader(file).0.value)
    ensures |DecodeHeader(file).0.value.text| == DeclaredTextCount(file)
  {
  }

  /** The other direction of the round trip: when the declared text length
      fits the file, re-encoding the decoded header reproduces the bytes the
      decoder consumed, byte for byte. */
  lemma EncodeDecodeHeader(file: seq<byte>)
    requires DecodeHeader(file).0.Ok?
    requires 0 <= DeclaredTextCount(file) <= |file| - FixedSpan
    ensures WellFormed(DecodeHeader(file).0.value)
    ensures EncodeHeader(DecodeHeader(file).0.value) == file[..DecodeHeader(file).1]
  {
    DecodedWellFormed(file);
    var h := DecodeHeader(file).0.value;
    var n := |h.text|;
    assert h == FixedFields(file, h.text);
    DecodedWords(file, h);
    EncodeSignedOfSigned(file[0..2]);
    var trailer := Trailer(file);
    EncodeAsciiOfDecoded(trailer);
    assert file[..FixedSpan + n] == file[0..2] + file[2..FixedSpan] + trailer;
  }

  /** The run of 4-byte fields of a header decoded from `file` re-encodes to
      bytes [2, 70) of the file. */
  lemma DecodedWords(file: seq<byte>, h: HeaderInfo)
    requires |file| >= FixedSpan && WellFormed(h)
    requires h == FixedFields(file, h.text) && |h.text| == DeclaredTextCount(file)
    ensures Words(FieldWords(h)) == file[2..FixedSpan]
  {
    var ws := FieldWords(h);
    forall k | 0 <= k < 17
      ensures file[2..FixedSpan][4 * k..4 * k + 4] == ws[k]
    {
      SliceOfSlice(file, 2, FixedSpan, 4 * k, 4 * k + 4);
      FixedFieldWord(file, h, k);
    }
    WordsOfSlices(ws, file[2..FixedSpan]);
  }

  /** A 4-byte integer field re-encodes to its bytes. */
  lemma IntWord(w: seq<byte>, v: int)
    requires |w| == 4 && v == Signed(w)
    ensures EncodeSigned(v, 4) == w
  {
    EncodeSignedOfSigned(w);
  }

  /** A 4-byte float field re-encodes to its bytes. */
  lemma FloatWord(w: seq<byte>, f: FloatBits)
    requires |w| == 4 && f == DecodeFloat(w)
    ensures EncodeFloat(f) == w
  {
    DecodeFloatRoundTrip(w);
  }

  /** Each 4-byte field of a header decoded from `file` re-encodes to the
      bytes it was read from. */
  lemma FixedFieldWord(file: seq<byte>, h: HeaderInfo, k: nat)
    requires |file| >= FixedSpan && WellFormed(h)
    requires h == FixedFields(file, h.text) && |h.text| == DeclaredTextCount(file)
    requires k < 17
    ensures FieldWords(h)[k] == file[2 + 4 * k..2 + 4 * k + 4]
  {
    if k < 4 || k == 16 {
      IntegerFieldWord(file, h, k);
    } else if k < 10 {
      ScalarFloatWord(file, h, k);
    } else {
      AxisFloatWord(file, h, k);
    }
  }

  /** The counts and the text length. */
  lemma IntegerFieldWord(file: seq<byte>, h: HeaderInfo, k: nat)
    requires |file| >= FixedSpan && WellFormed(h)
    requires h == FixedFields(file, h.text) && |h.text| == DeclaredTextCount(file)
    requires k < 4 || k == 16
    ensures FieldWords(h)[k] == file[2 + 4 * k..2 + 4 * k + 4]
  {
    var w := file[2 + 4 * k..2 + 4 * k + 4];
    var ws := FieldWords(h);
    if k == 0 { IntWord(w, h.zCount); assert ws[0] == EncodeSigned(h.zCount, 4); }
    else if k == 1 { IntWord(w, h.yCount); assert ws[1] == EncodeSigned(h.yCount, 4); }
    else if k == 2 { IntWord(w, h.towerCount); assert ws[2] == EncodeSigned(h.towerCount, 4); }
    else if k == 3 { IntWord(w, h.dtCount); assert ws[3] == EncodeSigned(h.dtCount, 4); }
    else { IntWord(w, |h.text|); assert ws[16] == EncodeSigned(|h.text|, 4); }
  }

  /** The spacings and the reference values. */
  lemma ScalarFloatWord(file: seq<byte>, h: HeaderInfo, k: nat)
    requires |file| >= FixedSpan && WellFormed(h)
    requires h == FixedFields(file, h.text) && |h.text| == DeclaredTextCount(file)
    requires 4 <= k < 10
    ensures FieldWords(h)[k] == file[2 + 4 * k..2 + 4 * k + 4]
  {
    var w := file[2 + 4 * k..2 + 4 * k + 4];
    var ws := FieldWords(h);
    if k == 4 { FloatWord(w, h.dz); assert ws[4] == EncodeFloat(h.dz); }
    else if k == 5 { FloatWord(w, h.dy); assert ws[5] == EncodeFloat(h.dy); }
    else if k == 6 { FloatWord(w, h.dt); assert ws[6] == EncodeFloat(h.dt); }
    else if k == 7 { FloatWord(w, h.meanSpeed); assert ws[7] == EncodeFloat(h.meanSpeed); }
    else if k == 8 { FloatWord(w, h.hubHeight); assert ws[8] == EncodeFloat(h.hubHeight); }
    else { FloatWord(w, h.bottomHeight); assert ws[9] == EncodeFloat(h.bottomHeight); }
  }

  /** The interleaved slope and intercept pairs. */
  lemma AxisFloatWord(file: seq<byte>, h: HeaderInfo, k: nat)
    requires |file| >= FixedSpan && WellFormed(h)
    requires h == FixedFields(file, h.text) && |h.text| == DeclaredTextCount(file)
    requires 10 <= k < 16
    ensures FieldWords(h)[k] == file[2 + 4 * k..2 + 4 * k + 4]
  {
    var w := file[2 + 4 * k..2 + 4 * k + 4];
    var ws := FieldWords(h);
    if k == 10 { FloatWord(w, h.slope[0]); assert ws[10] == EncodeFloat(h.slope[0]); }
    else if k == 11 { FloatWord(w, h.intercept[0]); assert ws[11] == EncodeFloat(h.intercept[0]); }
    else if k == 12 { FloatWord(w, h.slope[1]); assert ws[12] == EncodeFloat(h.slope[1]); }
    else if k == 13 { FloatWord(w, h.intercept[1]); assert ws[13] == EncodeFloat(h.intercept[1]); }
    else if k == 14 { FloatWord(w, h.slope[2]); assert ws[14] == EncodeFloat(h.slope[2]); }
    else { FloatWord(w, h.intercept[2]); assert ws[15] == EncodeFloat(h.intercept[2]); }
  }

  /** The axis pairs are interleaved: slope[n] is the float at 42 + 8n and
      intercept[n] the float at 46 + 8n, and both lists hold exactly three. */
  lemma AxisOffsets(file: seq<byte>)
    requires DecodeHeader(file).0.Ok?
    ensures |file| >= FixedSpan
    ensures |DecodeHeader(file).0.value.slope| == 3 && |DecodeHeader(file).0.value.intercept| == 3
    ensures forall n :: 0 <= n < 3 ==>
              DecodeHeader(file).0.value.slope[n] == Float32At(file, 42 + 8 * n) &&
              DecodeHeader(file).0.value.intercept[n] == Float32At(file, 46 + 8 * n)
  {
  }

  /** The read-count diagnostic: once the fixed part is present, the file
      position after decoding equals 70 + textCount exactly when the declared
      count lies between 0 and the bytes that follow. A count of -1, or one
      beyond the file, reads to the end of the file; a count below -1 is
      refused with the position left at 70. */
  lemma ReadCountCheck(file: seq<byte>)
    requires |file| >= FixedSpan
    ensures DecodeHeader(file).1 == ByteCount(file) <==>
              0 <= DeclaredTextCount(file) <= |file| - FixedSpan
    ensures DeclaredTextCount(file) == -1 || DeclaredTextCount(file) > |file| - FixedSpan ==>
              DecodeHeader(file).1 == |file|
    ensures DeclaredTextCount(file) < -1 ==> DecodeHeader(file).1 == FixedSpan
  {
  }

  /** A declared text count below -1 makes the trailer read, and so the
      decode, fail with that count; no header is returned. */
  lemma InvalidTextCount(file: seq<byte>)
    requires |file| >= FixedSpan && DeclaredTextCount(file) < -1
    ensures DecodeHeader(file).0 == Err(InvalidReadLength(DeclaredTextCount(file)))
  {
  }

  /** The text of a decoded header is as long as declared when the count fits
      the file, and is whatever remains after the fixed part when the count is
      -1 or reaches past the end: a trailer cut short is not an error. */
  lemma TextLength(file: seq<byte>)
    requires DecodeHeader(file).0.Ok?
    ensures |file| >= FixedSpan && DeclaredTextCount(file) >= -1
    ensures 0 <= DeclaredTextCount(file) <= |file| - FixedSpan ==>
              |DecodeHeader(file).0.value.text| == DeclaredTextCount(file)
    ensures DeclaredTextCount(file) == -1 || DeclaredTextCount(file) > |file| - FixedSpan ==>
              |DecodeHeader(file).0.value.text| == |file| - FixedSpan
  {
  }

  /** A file that ends inside the fixed part fails with the truncation of the
      field it ends in, and no header. */
  lemma CutInFixedPart(h: HeaderInfo, k: nat)
    requires WellFormed(h) && k < FixedSpan
    ensures DecodeHeader(EncodeHeader(h)[..k]) == (Err(TruncatedAt(k)), k)
  {
  }

  /** The bytes of a prefix of a text are the prefix of its bytes. */
  lemma EncodeAsciiPrefix(text: string, m: nat)
    requires forall i :: 0 <= i < |text| ==> text[i] as int < 0x80
    requires m <= |text|
    ensures EncodeAscii(text)[..m] == EncodeAscii(text[..m])
  {
  }

  /** A file cut inside its text still decodes, with the text shortened to
      what is left. */
  lemma CutInText(h: HeaderInfo, k: nat)
    requires WellFormed(h) && FixedSpan <= k < FixedSpan + |h.text|
    ensures DecodeHeader(EncodeHeader(h)[..k]) == (Ok(h.(text := h.text[..k - FixedSpan])), k)
  {
    var file := EncodeHeader(h);
    var cut := file[..k];
    var short := h.text[..k - FixedSpan];
    assert file + [] == file;
    EncodedParts(h, []);
    SliceOfSlice(file, 0, k, 0, 2);
    SliceOfSlice(file, 0, k, 2, FixedSpan);
    DecodeEncodedFixedFields(cut, h);
    assert DeclaredTextCount(cut) == |h.text|;
    assert Trailer(cut) == file[FixedSpan..FixedSpan + |h.text|][..k - FixedSpan];
    EncodeAsciiPrefix(h.text, k - FixedSpan);
    DecodeEncodeAscii(short);
    assert FixedFields(cut, short) == FixedFields(cut, h.text).(text := short);
  }

  /** A trailer byte above 0x7F makes the decode fail, pointing at the first
      such byte. */
  lemma NonAsciiTrailer(file: seq<byte>, i: nat)
    requires |file| >= FixedSpan && DeclaredTextCount(file) >= -1
    requires i < |Trailer(file)| && Trailer(file)[i] >= 0x80
    ensures DecodeHeader(file).0.Err? && DecodeHeader(file).0.error.InvalidEncoding?
    ensures DecodeHeader(file).0.error.position <= i
    ensures Trailer(file)[DecodeHeader(file).0.error.position] >= 0x80
  {
  }

  /** A sample header: id 1, a 2 x 3 grid with one tower and 100 steps,
      spacings 1.0, 1.0 and 0.05, mean speed 8.0 at hub height 90.0 above a
      bottom at 0.0, slopes 0.1, 0.2, 0.3 and intercepts 1.0, 2.0, 3.0, and
      the text "TEST". The floats are their binary32 bit patterns. */
  function SampleHeader(): (h: HeaderInfo)
    ensures WellFormed(h)
  {
    assert Pow256(4) == 0x1_0000_0000;
    HeaderInfo(
      1, 2, 3, 1, 100,
      FloatBits(4, 0x3F80_0000), FloatBits(4, 0x3F80_0000), FloatBits(4, 0x3D4C_CCCD),
      FloatBits(4, 0x4100_0000), FloatBits(4, 0x42B4_0000), FloatBits(4, 0),
      [FloatBits(4, 0x3DCC_CCCD), FloatBits(4, 0x3E4C_CCCD), FloatBits(4, 0x3E99_999A)],
      [FloatBits(4, 0x3F80_0000), FloatBits(4, 0x4000_0000), FloatBits(4, 0x4040_0000)],
      "TEST")
  }

  /** The sample header's bytes, followed by anything, decode to exactly its
      fields, over a span of 74 bytes. */
  lemma SampleDecodes(rest: seq<byte>)
    ensures |EncodeHeader(SampleHeader())| == 74
    ensures DecodeHeader(EncodeHeader(SampleHeader()) + rest) == (Ok(SampleHeader()), 74)
  {
    DecodeEncodeHeader(SampleHeader(), rest);
  }
}
