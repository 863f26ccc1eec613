# BTS header decoder

This project models the header reader of a BTS wind-field file. A BTS
header is a fixed run of little-endian fields:

- a 2-byte file id;
- four 4-byte counts (z and y grid points, tower points, time steps);
- six 4-byte floats: the z/y/t spacings, then the mean speed, hub height
  and grid bottom height;
- three interleaved (slope, intercept) float pairs, one per axis;
- a 4-byte text length, followed by that many ASCII bytes of text.

The model has four modules.

- `LittleEndian` (`little_endian.dfy`): unsigned and two's-complement values
  of byte strings, least significant byte first, with their encoders. It
  proves that decoding and encoding are inverse in both directions.
- `ByteReader` (`byte_reader.dfy`): the two primitive readers `bytesToInt`
  and `bytesToFloat`.
  - The open file is a `Reader` class: the file's contents plus a mutable
    position `pos`.
  - `Read` is the `read(n)` of a file opened with `open(path, "rb")`. It
    returns fewer bytes at the end of the file, and everything left when n
    is -1. A count below -1 raises `ValueError` in Python's buffered binary
    reader; the model fails with `InvalidReadLength(n)` and reads nothing.
  - The width lookup, the read and the unpacking are separate steps. Each
    has its own failure: `UnsupportedWidth`, `TruncatedInput`,
    `InvalidReadLength`, or `InvalidEncoding` for the text.
- `BtsHeader` (`bts_header.dfy`): `readHeader` as an imperative method
  (`ReadHeader`). It threads one `Reader` through the field reads:
  - The list comprehensions become loops (`ReadInt32s`, `ReadFloat32s`).
  - The slope/intercept lists start as three placeholders. They are filled
    in place by the per-axis loop (`ReadSlopeIntercept`).
  - The method is proved equal to `DecodeHeader`, a function that reads
    every field from its offset. That proof covers the result and the
    final file position (the position the read-count diagnostic prints).
- `HeaderProperties` (`header_properties.dfy`): a header writer
  (`EncodeHeader`) and the whole-file properties:
  - the round trip in both directions;
  - the interleaved axis offsets;
  - the read-count check;
  - truncation inside the fixed fields or inside the text;
  - non-ASCII text;
  - a sample header (id 1, text "TEST") that decodes over 74 bytes.

Modelling choices:

- Bytes are integers in [0, 256).
- Integers are decoded as little-endian two's complement. The source uses
  the host's native `struct` byte order; the model fixes little-endian.
- Floats are kept as their uninterpreted bit pattern (`FloatBits`): the
  width and the unsigned little-endian value of the bytes.
- Width 1 in the integer reader uses the `"c"` format. The source yields
  the raw byte there, so the model returns `RawByte`.

A declared text length that reaches past the end of the file is not
reported as `TruncatedInput`. The trailer is whatever `read(textCount)`
returns:

- A count larger than what is left returns the remaining bytes, and the
  header decodes with a shorter text (`CutInText`, `TextLength`).
- A count of -1 reads to the end of the file.
- A count below -1 raises `ValueError` in the read; the model fails with
  `InvalidReadLength` and the position stays at 70 (`InvalidTextCount`).
- Otherwise only a non-ASCII byte makes the trailer fail.

## Model

| member | source | states |
|---|---|---|
| LittleEndian.Signed | btsHeader.py:8-9 | the signed formats decode to a value in [-256^n/2, 256^n/2), equal to the unsigned value when below the midpoint and to it minus 256^n otherwise |
| LittleEndian.EncodeSignedOfSigned | btsHeader.py:8-9 | re-encoding a decoded two's-complement field gives back its bytes |
| LittleEndian.SignedOfEncodeSigned | btsHeader.py:8-9 | decoding the encoding of any in-range value gives the value back |
| LittleEndian.SignedIsNegativeIffSignBit | btsHeader.py:8-9 | a field decodes negative exactly when the top bit of its last byte is set |
| LittleEndian.InRangeWidths | btsHeader.py:8-9 | the 2- and 4-byte formats span [-0x8000, 0x8000) and [-0x8000_0000, 0x8000_0000) |
| LittleEndian.Unsigned | btsHeader.py:13-14 | the bit pattern of an n-byte field is below 256^n |
| LittleEndian.EncodeUnsignedOfUnsigned | btsHeader.py:13-14 | re-encoding a bit pattern gives back the field's bytes |
| LittleEndian.UnsignedOfEncodeUnsigned | btsHeader.py:13-14 | decoding the encoding of a pattern gives the pattern back |
| ByteReader.ReadSpan | btsHeader.py:47 | a read of n bytes returns the bytes at the position: n of them when they are there, all that is left when fewer remain or when n is -1; a count below -1 fails with InvalidReadLength(n) |
| ByteReader.ReadSpanConcat | btsHeader.py:38-47 | two successive reads return the same bytes as one read of their total length, also when the file ends first |
| ByteReader.DecodeInt | btsHeader.py:8-9 | width 1 gives the raw byte, and the other widths a value in the signed range of that width |
| ByteReader.DecodeIntRoundTrip | btsHeader.py:8-9 | a decoded integer field re-encodes to its bytes |
| ByteReader.DecodeFloat | btsHeader.py:13-14 | a float field decodes to a pattern of the field's width, below 256^width |
| ByteReader.DecodeFloatRoundTrip | btsHeader.py:13-14 | a decoded float field re-encodes to its bytes |
| ByteReader.UnpackInt | btsHeader.py:9 | unpacking succeeds exactly when the buffer holds `width` bytes, and otherwise fails with TruncatedInput(width, bytes present) |
| ByteReader.UnpackFloat | btsHeader.py:14 | the same for the float formats |
| ByteReader.Reader.constructor | btsHeader.py:36 | opening the file puts the position at byte 0 |
| ByteReader.Reader.Read | btsHeader.py:47 | the result is ReadSpan at the old position; a successful read moves the position past the returned bytes, a refused count leaves it unchanged |
| ByteReader.Reader.ReadInt | btsHeader.py:7-9 | an unsupported width fails with the position unchanged; a field that fits returns DecodeInt of bytes [pos, pos+width) and advances by width; a short field fails with TruncatedInput and leaves the position at the end |
| ByteReader.Reader.ReadFloat | btsHeader.py:12-14 | the same three outcomes for the float formats |
| BtsHeader.AsciiPrefix | btsHeader.py:48 | the length of the longest all-ASCII prefix; the byte after it, if any, is above 0x7F |
| BtsHeader.DecodeAscii | btsHeader.py:48 | decoding succeeds exactly when every byte is below 0x80, one character per byte; otherwise InvalidEncoding names the first offending byte |
| BtsHeader.DecodeHeader | btsHeader.py:35-67 | TruncatedInput exactly when the file is shorter than the 70 fixed bytes; InvalidReadLength exactly when they are present and the text count is below -1; otherwise success exactly when the trailer is ASCII; three slopes and three intercepts; on success the position is 70 + the text length |
| BtsHeader.Filled | btsHeader.py:41-45 | once every placeholder slot is filled, the list holds the filled values in order |
| BtsHeader.ReadInt32s | btsHeader.py:38 | the loop for the four counts returns the 4-byte integers at pos, pos+4, …, or the truncation of the first field cut short, with the whole file read |
| BtsHeader.ReadFloat32s | btsHeader.py:39-40 | the loop for the spacings and reference values returns the floats at pos, pos+4, …, or the truncation of the first field cut short |
| BtsHeader.ReadSlopeIntercept | btsHeader.py:41-45 | the per-axis loop returns three slopes and three intercepts, slope[n] from pos+8n and intercept[n] from pos+8n+4, with no placeholder left, and advances 24 bytes; otherwise it fails like the field reads |
| BtsHeader.ReadFixedFields | btsHeader.py:37-45 | reads the fields before the text count from the start of the file. They equal the offset table's fields exactly when the file holds 66 bytes; otherwise the result is the truncation of the field the file ends in |
| BtsHeader.ReadHeader | btsHeader.py:35-67 | the header and the final file position are exactly DecodeHeader of the file |
| HeaderProperties.EncodeFloat | btsHeader.py:13-14 | a float field's bytes have the field's width |
| HeaderProperties.DecodeEncodeFloat | btsHeader.py:13-14 | decoding a float field's bytes gives the field back |
| HeaderProperties.EncodeAscii | btsHeader.py:48 | the bytes of an ASCII text are its character codes, one per character |
| HeaderProperties.DecodeEncodeAscii | btsHeader.py:48 | decoding the bytes of an ASCII text gives the text back |
| HeaderProperties.EncodeAsciiOfDecoded | btsHeader.py:48 | encoding a decoded text gives back its bytes |
| HeaderProperties.EncodeHeader | btsHeader.py:37-47 | the writer of a well-formed header produces 70 + text-length bytes |
| HeaderProperties.DecodeEncodeHeader | btsHeader.py:35-67 | a file that starts with a header's bytes decodes to that header whatever follows, and decoding stops after the text |
| HeaderProperties.EncodeDecodeHeader | btsHeader.py:35-67 | when the declared length fits the file, the decoded header is well-formed, and re-encoding it reproduces the consumed bytes byte for byte |
| HeaderProperties.DecodedWellFormed | btsHeader.py:37-48 | a decoded header whose declared length fits the file has in-range integers, 4-byte floats, three axes and an ASCII text of the declared length |
| HeaderProperties.DecodeEncodedFixedFields | btsHeader.py:37-46 | the fixed fields of a file that starts with a header's fixed bytes are that header's fields, and its text count is the header's text length |
| HeaderProperties.EmptyText | btsHeader.py:46-48 | a header with an empty text spans exactly 70 bytes and decodes with text "" |
| HeaderProperties.AxisOffsets | btsHeader.py:41-45 | slope[n] is the float at 42+8n and intercept[n] the float at 46+8n, three of each |
| HeaderProperties.ReadCountCheck | btsHeader.py:46-51 | the final position equals byteCount = 70 + textCount exactly when 0 <= textCount <= bytes after offset 70; for a count of -1 or one past the file it is the end of the file; for a count below -1 it stays at 70 |
| HeaderProperties.InvalidTextCount | btsHeader.py:46-47 | a text count below -1 makes decoding fail with InvalidReadLength of that count |
| HeaderProperties.TextLength | btsHeader.py:46-47 | a decoded header had a text count of at least -1; its text has the declared length when that fits the file, and is everything after offset 70 when the count is -1 or reaches past the end |
| HeaderProperties.CutInFixedPart | btsHeader.py:36-46 | a header cut inside its first 70 bytes fails with the truncation of the field it ends in, and no header |
| HeaderProperties.CutInText | btsHeader.py:46-48 | a header cut inside its text still decodes, with the text shortened to what is left |
| HeaderProperties.NonAsciiTrailer | btsHeader.py:47-48 | when the read accepts the text count, a trailer byte above 0x7F makes decoding fail with InvalidEncoding at or before it |
| HeaderProperties.SampleHeader | btsHeader.py:17-32 | the sample header (id 1, 2 x 3 grid, text "TEST") is well-formed |
| HeaderProperties.SampleDecodes | btsHeader.py:35-67 | the sample header's bytes decode to exactly its fields over 74 bytes |

## Left out

- `report` (btsHeader.py:70-85): printing the header with formatted floats is presentation only.
- `main` and the argument parser (btsHeader.py:88-99): command-line plumbing.
- Opening and closing the file (btsHeader.py:36): the file is an in-memory byte sequence, given to the `Reader` constructor.
- The `checkReadCount` print (btsHeader.py:50-51): this is output. Only its arithmetic is kept: `ReadHeader` returns the final position, and `ReadCountCheck` compares it with 70 + textCount.
- Numeric meaning of the half, single and double formats: floats stay bit patterns. The model says nothing about rounding, NaN or infinities.
- Host byte order and alignment of `struct`: the model fixes little-endian with no padding.
- The exception types: failures are a tagged `Result`. The model does not distinguish `KeyError`, `struct.error`, `ValueError` and `UnicodeDecodeError` beyond the `UnsupportedWidth`, `TruncatedInput`, `InvalidReadLength` and `InvalidEncoding` tags.
- Width 1 of the integer reader: the `"c"` format yields a one-byte `bytes` object. It is modelled as `RawByte(b)`, which the header never reads.
