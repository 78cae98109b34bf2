# compact-encoding, modelled in Dafny

compact-encoding is a binary codec library for JavaScript. Each codec is
a triple `preencode / encode / decode` that works on a shared cursor
`{ start, end, buffer }`:

- `preencode(state, v)` adds v's encoded size to `end`;
- the caller allocates `end` zero bytes;
- `encode(state, v)` stores v at `start` and moves `start` past it;
- `decode(state)` reads at `start` and moves `start` past what it read.

This project models the codecs of `index.js`: `uint`, `int`, `buffer`,
`raw`, `uint32array`, `string`, `bool`, `fixed32`, `fixed64`, `fixed(n)`
and `array(enc)`. It also models the order-preserving integer codecs
`lexint.js` and `signed-lexint.js`.

Every operation that moves the cursor or writes the buffer is a `method`
that takes a `Cursor.State`, a class whose `buffer` is an `array<byte>`
and whose own methods `PutByte`, `PutBytes` and `SetBytes` do the byte
stores. Each one is proved against a pure function of the old state:

- `XParse(buf, at)` is what a decode returns, and where it leaves the
  cursor;
- `XBytes(v)` is what an encode stores;
- `Overlay(buf, at, bs)` is the buffer after bs is stored at `at`. Stores
  past the end of a `Uint8Array` are dropped, as they are in JavaScript.

The proved properties are about those functions:

- round trips: decoding what was encoded gives the value back, and moves
  the cursor past exactly its size. For `uint`, `int`, `buffer`, `raw`,
  `bool`, `fixed`, `string`, `lexint` and `array` this holds at any cursor
  position, whatever bytes follow. The exceptions are the source's own:
  - an `int` below -2^52 loses its sign to JS rounding;
  - an array of more than 1048576 elements encodes but does not decode;
  - `uint32array` fails for 63 words whose prefix needs padding;
  - `signed-lexint` round-trips only at start 0 of a region of exactly
    its size. From any other start a negative number comes back as a
    wrong, positive one (`SignedLexint.NegativeAwayFromStartDecodes`);
- sizes: `preencode` counts exactly the bytes `encode` stores;
- error paths: a truncated `uint`, `buffer` or `fixed` throws, and so do
  the `lexint` tags 252 to 254 cut short and an over-long array. A
  truncated `string` can decode to U+FFFD and a truncated `lexint` tag 251
  gives NaN (both under Findings). A truncated `uint32array` throws only
  when its words are 4-aligned; otherwise the missing bytes read as zeros;
- for `lexint` and `signed-lexint`, byte-wise order of encodings equals
  numeric order.

Modules, one per file:

- `Wire` (wire.dfy): little- and big-endian byte layouts, `Overlay`,
  lexicographic order and byte inversion.
- `Cursor` (cursor.dfy): the state class, the error kinds and the
  primitive stores.
- `CompactUint` (uint.dfy): `uint` and `int`.
- `CompactBytes` (bytes.dfy): `buffer`, `raw`, `bool` and `fixed`.
- `CompactString` (string.dfy): `string`, with UTF-8 written out.
- `CompactTyped` (typed.dfy): `uint32array`.
- `CompactArray` (array.dfy): `array(enc)` over a codec datatype, and the
  top-level `encode(enc, v)` / `decode(enc, buf)` helpers.
- `Lexint` (lexint.dfy) and `SignedLexint` (signed_lexint.dfy).

Characters are Unicode scalar values. `string` encodes them as in
section 3.9 of the Unicode Standard. It decodes as the WHATWG Encoding
Standard's UTF-8 decoder does: every maximal ill-formed subpart becomes
U+FFFD. This matches Node's `Buffer.toString('utf-8')`.

## Model

| member | source | states |
|---|---|---|
| Wire.LE | index.js:299-335 | the little-endian form of n has exactly k bytes |
| Wire.LERoundTrip | index.js:294-322 | reading back k little-endian bytes gives n, for every n below 256^k |
| Wire.FromLEOfLE | index.js:299-335 | a value wider than k bytes is stored modulo 256^k |
| Wire.BERoundTrip | lexint.js:79-94 | reading back k big-endian bytes gives n, for every n below 256^k |
| Wire.SplitLE | index.js:319-335 | the 8-byte form is the low 32-bit word's 4 bytes, then the high word's |
| Wire.Overlay | index.js:9 | storing keeps the buffer's length; byte i is the stored byte for the indices bs covers from `at` on, otherwise the old byte |
| Wire.OverlayAppend | index.js:56-58 | storing a then, right after it, b is storing a + b |
| Wire.StoredSlice | index.js:66 | bs is stored at `at` exactly when the slice of buf of the same length starting at `at` equals bs |
| Wire.StoredSplit | index.js:247 | a stored concatenation splits into its two halves, stored one after the other |
| Wire.OverlayStored | index.js:77-78 | after bs is stored where it fits, bs can be read back there |
| Wire.LexLess | test.js:440 | `Buffer.compare(a, b) < 0`: the first differing byte decides, unsigned, and a proper prefix sorts first |
| Wire.Subarray | index.js:66 | `subarray(s, e)` clips the range to the buffer: at most e - s bytes, exactly `buf[s..e]` when e is within it, empty when s is past it |
| Wire.LexLessIrreflexive | lexint.js:1-5 | no byte string sorts strictly before itself |
| Wire.LexLessWitness | lexint.js:1-5 | when neither is a prefix of the other, a byte string that sorts first has a smaller byte at some index after an equal prefix |
| Wire.BEOrder | lexint.js:38-50 | for equal widths, big-endian byte order is numeric order |
| Wire.PrefixOrder | lexint.js:33-50 | a smaller tag, or equal tags and a smaller body, sorts first |
| Wire.Flip | signed-lexint.js:15 | `b ^ 0xff` is 255 - b |
| Wire.Invert | signed-lexint.js:14-16 | each byte of the result is the inverse of the same byte of the input |
| Wire.InvertReversesOrder | signed-lexint.js:13-17 | inverting two byte strings, neither a prefix of the other, reverses their order |
| Cursor.State.constructor | index.d.ts:21-25 | `state(start, end, buffer)` holds exactly the given fields |
| Cursor.State.PutByte | index.js:9 | `buffer[start++] = v` stores v at the old start when it fits, drops it otherwise, and moves start by 1 |
| Cursor.State.PutBytes | index.js:299-335 | a run of such stores stores the whole run and moves start by its length |
| Cursor.State.SetBytes | index.js:57 | `buffer.set(bs, start)` copies all of bs when it fits, else throws a RangeError and changes nothing |
| CompactUint.UintSize | index.js:5-7 | 1 byte up to 0xfc, 3 up to 0xffff, 5 up to 0xffffffff, 9 above |
| CompactUint.UintParse | index.js:14-21 | 'Out of bounds' with the cursor unmoved when start is at or past `buffer.length`; a first byte up to 0xfc is the value; tags 0xfd, 0xfe, 0xff take 2, 4, 8 little-endian bytes, and when those run past `buffer.length` (index.js:294-322) the throw leaves the cursor just past the tag |
| CompactUint.UintBytes | index.js:8-13 | the encoding has the length preencode counts; a single byte exactly for n <= 0xfc, which is n itself; otherwise tag 0xfd, 0xfe or 0xff by width |
| CompactUint.UintRoundTrip | index.js:4-22 | for every safe integer n, decoding where `UintBytes(n)` is stored gives n and moves past exactly its size |
| CompactUint.UintParseTagged | index.js:17-20 | a tag followed by a little-endian value decodes to that value, even at a wider width than needed |
| CompactUint.UintTruncated | index.js:15 | every proper prefix of an encoding fails with 'Out of bounds' |
| CompactUint.UintExamples | test.js:4-26 | 42, 4200 and 2^53-1 encode to the bytes the test expects |
| CompactUint.UintPreencode | index.js:5-7 | end grows by the size of n's encoding |
| CompactUint.Encode16 | index.js:299-303 | stores 0xfd and n in 2 little-endian bytes, which is n's encoding |
| CompactUint.Encode32 | index.js:311-317 | stores 0xfe and n in 4 little-endian bytes |
| CompactUint.Encode64 | index.js:324-335 | stores 0xff and n in 8 little-endian bytes, the high word from `Math.floor(n / 2^32)` |
| CompactUint.UintEncode | index.js:8-13 | stores `UintBytes(n)` at start and advances start by its length |
| CompactUint.DecodeWide | index.js:294-322 | 'Out of bounds' when w bytes do not remain in the buffer, else their little-endian value |
| CompactUint.UintDecode | index.js:14-21 | result and new start are `UintParse` of the buffer at the old start |
| CompactUint.ZigZagEncode | index.js:40-43 | n < 0 maps to `(2 * -n) - 1` rounded as a JS number, 0 to 0, n > 0 to 2n |
| CompactUint.ToDouble | index.js:42 | the JS number nearest x: x itself up to 2^53, above that an even neighbour at most 1 away |
| CompactUint.ZigZagDecode | index.js:36-38 | 0 stays 0, an even code m is m / 2, an odd code m is -(m + 1) / 2 |
| CompactUint.ZigZagRoundTrip | index.js:36-43 | decoding the ZigZag form gives the integer back for every n from -2^52 to 2^53-1, where JS computes it exactly |
| CompactUint.ZigZagSignLost | index.js:40-43 | below -2^52, `(2 * -n) - 1` rounds to an even code, so n decodes as the positive -n or -n-1 |
| CompactUint.ZigZagSignExample | index.js:36-43 | -(2^52+1) is stored as 2^53, which decodes to +2^52 |
| CompactUint.ZigZagOnto | index.js:36-43 | every code up to 2^53 is the ZigZag form of its decoding, so the mapping is a bijection between [-2^52, 2^52] and [0, 2^53] |
| CompactUint.ZigZagMagnitude | index.js:40-43 | where the arithmetic is exact (from -2^52 on), a smaller magnitude gets a strictly smaller code, at most twice the magnitude |
| CompactUint.IntParse | index.js:31-33 | the uint decode's error and cursor, or its value through zigzagDecode |
| CompactUint.IntExample | test.js:31-50 | -4200 is 8399 on the wire, stored as 0xfd 0xcf 0x20 |
| CompactUint.IntRoundTrip | index.js:24-34 | decoding where `int` stored i gives i back, for every i from -2^52 to 2^53-1 |
| CompactUint.IntPreencode | index.js:25-27 | end grows by the uint size of the ZigZag form |
| CompactUint.IntEncode | index.js:28-30 | stores the uint encoding of the ZigZag form |
| CompactUint.IntDecode | index.js:31-33 | result and new start are `IntParse` at the old start |
| CompactBytes.BufferSize | index.js:46-53 | a uint prefix plus the byte count for any buffer, empty included; 1 for null |
| CompactBytes.BufferParse | index.js:63-69 | a prefix error passes through; length 0 is null; otherwise the cursor moves past the declared bytes, and 'Out of bounds' is thrown there when the buffer holds fewer |
| CompactBytes.BufferBytes | index.js:54-62 | the encoding has the length preencode counts: null is one 0 byte, otherwise the length prefix and the bytes |
| CompactBytes.BufferRoundTrip | index.js:45-70 | decoding gives back the bytes, except that null and the empty buffer both decode to null |
| CompactBytes.BufferPrefixParses | index.js:64 | the stored prefix decodes to the byte count |
| CompactBytes.BufferBodyStored | index.js:66 | the payload is found right after the prefix |
| CompactBytes.BufferTruncated | index.js:63-69 | every proper prefix of a non-empty buffer's encoding fails to decode |
| CompactBytes.BufferPreencode | index.js:46-53 | end grows by the encoding's size |
| CompactBytes.BufferEncode | index.js:54-62 | throws a RangeError only when the payload does not fit; on success stores the encoding and advances by its size; on a throw the prefix is already stored |
| CompactBytes.BufferDecode | index.js:63-69 | result and new start are `BufferParse` at the old start |
| CompactBytes.RawParse | index.js:80-84 | `subarray(start, end)` clipped to the buffer, empty when the ends cross; the cursor becomes end and it never throws |
| CompactBytes.RawRoundTrip | index.js:72-85 | decoding up to end gives back exactly the bytes stored, and start reaches end |
| CompactBytes.RawPreencode | index.js:73-75 | end grows by the byte count |
| CompactBytes.RawEncode | index.js:76-79 | stores the bytes when they fit, else throws a RangeError |
| CompactBytes.RawDecode | index.js:80-84 | returns the bytes between start and end, and start becomes end |
| CompactBytes.BoolParse | index.js:156-159 | 'Out of bounds' with the cursor unmoved at or past `byteLength`; otherwise true exactly for the byte 1, one byte on |
| CompactBytes.BoolRoundTrip | index.js:149-160 | decoding the stored 1 or 0 gives the boolean back |
| CompactBytes.BoolPreencode | index.js:150-152 | end grows by 1 |
| CompactBytes.BoolEncode | index.js:153-155 | stores 1 for true and 0 for false |
| CompactBytes.BoolDecode | index.js:156-159 | 'Out of bounds' at the buffer's end, else whether the byte is 1 |
| CompactBytes.FixedParse | index.js:268-272 | the next n bytes; when fewer remain, 'Out of bounds' with the cursor already moved by n (n = 0 never throws) |
| CompactBytes.FixedRoundTrip | index.js:259-274 | decoding n bytes where n were stored gives them back |
| CompactBytes.FixedPreencode | index.js:261-263 | end grows by n |
| CompactBytes.FixedEncode | index.js:264-267 | stores the bytes when they fit, else throws a RangeError |
| CompactBytes.FixedDecode | index.js:268-272 | the next n bytes, or 'Out of bounds' when fewer remain (this also covers fixed32 and fixed64) |
| CompactString.CharBytes | index.js:131 | one character takes 1 to 4 bytes, by code point range |
| CompactString.Utf8 | index.js:131 | a string's UTF-8 form is between its length and four times its length |
| CompactString.Text | index.js:143 | `toString('utf-8')`: decode one character at a time, each ill-formed subpart becoming U+FFFD |
| CompactString.Accepted | index.js:143 | how many bytes of an ill-formed sequence are one maximal subpart |
| CompactString.DecodeChar | index.js:143 | each decoding step consumes at least one byte and no more than remain |
| CompactString.DecodeCharBytes | index.js:143 | decoding the UTF-8 bytes of any character gives that character and uses all of its bytes |
| CompactString.TextOfUtf8 | index.js:135-145 | decoding the UTF-8 form of any string gives the string |
| CompactString.Utf8Append | index.js:131 | UTF-8 of a concatenation is the concatenation of the UTF-8 forms |
| CompactString.Utf8Ascii | index.js:131 | an ASCII string takes one byte per character |
| CompactString.Utf8Examples | test.js:297-317 | the test's emoji takes four bytes and 'høsten er fin' takes 14 |
| CompactString.Fitting | index.js:138 | what a partial write stores is a prefix of the UTF-8 form no longer than the room left |
| CompactString.FittingMaximal | index.js:138 | a partial write stops at a whole character that would not fit |
| CompactString.StrSize | index.js:130-134 | the uint size of the UTF-8 length plus that length |
| CompactString.StrParse | index.js:141-146 | the uint prefix, then the rest of the decode from the cursor after it |
| CompactString.StrAfterPrefix | index.js:142-145 | a prefix error passes through; otherwise the cursor moves past the declared bytes, the bytes of them the buffer holds are decoded, and 'Out of bounds' is thrown only when the text's UTF-8 length differs from the declared one |
| CompactString.StrBytes | index.js:130-140 | the encoding has the length preencode counts |
| CompactString.StrPrefixParses | index.js:142 | the stored prefix decodes to the UTF-8 byte length |
| CompactString.StrBodyStored | index.js:143 | the UTF-8 bytes follow the prefix |
| CompactString.StrBodyDecodes | index.js:143-145 | the body decodes to the string and passes the length re-check |
| CompactString.StrRoundTrip | index.js:129-147 | decoding where a string was encoded gives it back and moves past exactly its size |
| CompactString.StrExamples | test.js:297-317 | the test's two strings have the test's bytes and sizes |
| CompactString.StrTruncatedAccepted | index.js:141-146 | the as-written decoder accepts a 2-byte prefix of "€"'s encoding as "\u{FFFD}" and leaves start past the buffer's end |
| CompactString.StrParseChecked | index.js:141-146 | the corrected decoder only succeeds within the buffer |
| CompactString.StrCheckedRoundTrip | index.js:129-147 | the corrected decoder gives back every encoded string |
| CompactString.StrCheckedTruncated | index.js:141-146 | the corrected decoder rejects every proper prefix of an encoding |
| CompactString.StrPreencode | index.js:130-134 | end grows by the encoding's size |
| CompactString.WriteText | index.js:138 | `buffer.write` throws a RangeError past the end, else stores the whole characters that fit |
| CompactString.StrEncode | index.js:135-140 | throws a RangeError exactly when the prefix leaves start past the buffer, and then start has moved past the prefix only; otherwise start moves by the full size even after a partial write, and when everything fits the encoding is stored |
| CompactString.StrDecode | index.js:141-146 | result and new start are `StrParse` at the old start |
| CompactString.StrDecodeChecked | index.js:141-146 | result and new start are the corrected `StrParseChecked` |
| CompactTyped.Size | index.js:88-92 | the uint size of 4n, the pad that aligns the end after it, and 4n bytes of words |
| CompactTyped.Pad | index.js:96 | the padding is below 4 and brings the position to a multiple of 4 |
| CompactTyped.WordsBytes | index.js:99-101 | n words take 4n little-endian bytes |
| CompactTyped.WordsOfWordsBytes | index.js:99-126 | reading 32-bit words back from their bytes gives the words |
| CompactTyped.OrLow | index.js:97 | OR-ing a pad into a byte whose low two bits are clear adds the pad |
| CompactTyped.EncodeEffect | index.js:93-103 | the encoder completes exactly when the padded image fits the buffer |
| CompactTyped.EncodeLayout | index.js:93-103 | the stored image has the size preencode counts, and is what encode stores when it fits |
| CompactTyped.PrefixTakesPad | index.js:97 | OR-ing the pad into the prefix's low byte makes it the prefix of 4n + pad |
| CompactTyped.PadKeepsWidth | index.js:95-97 | adding the pad does not change the prefix width, except at 63 words |
| CompactTyped.Parse | index.js:104-126 | the uint prefix, then the rest of the decode from the cursor after it |
| CompactTyped.AfterPrefix | index.js:105-112 | a prefix error passes through; otherwise `l >>> 2` words after `l & 3` pad bytes |
| CompactTyped.WordsAt | index.js:109-125 | the cursor moves past the words first; an aligned view of words past the buffer throws a RangeError; otherwise the words, with zeros for bytes past the buffer in the unaligned copy |
| CompactTyped.OffsetIrrelevant | index.js:114-125 | the zero-copy view and the aligned copy read the same words |
| CompactTyped.RoundTrip | index.js:87-127 | when the image fits, decode gives the words back at every offset of the backing memory, unless there are 63 words and the pad is non-zero |
| CompactTyped.ImageRead | index.js:104-126 | reading a stored image gives the words and moves past the image |
| CompactTyped.HeadParses | index.js:105-108 | the prefix decodes to 4n + pad |
| CompactTyped.SixtyThreeWords | index.js:95-97 | 63 zero words are stored behind the prefix byte 0xff, which decodes as an empty array ending at byte 9 of 256 |
| CompactTyped.ZeroWords | index.js:99-101 | zero words are stored as zero bytes |
| CompactTyped.Preencode | index.js:88-92 | end grows by the prefix, the padding and 4n |
| CompactTyped.Encode | index.js:93-103 | status, buffer and start are `EncodeEffect` of the old state |
| CompactTyped.PrefixAndPad | index.js:94-98 | stores the prefix with the pad OR-ed in, then the zero padding |
| CompactTyped.OrPad | index.js:97 | ORs the pad into the prefix's low byte |
| CompactTyped.PadZeros | index.js:98 | stores pad zero bytes and advances start by pad |
| CompactTyped.Decode | index.js:104-126 | result and new start are `Parse` at the old start and the buffer's offset |
| CompactTyped.ReadWords | index.js:109-125 | reads len words at start and advances by 4 len, or throws a RangeError |
| CompactTyped.CorrectedHead | index.js:95-97 | a prefix wide enough for 4n + 3 keeps the payload 4-aligned |
| CompactTyped.CorrectedRoundTrip | index.js:87-127 | with the prefix width fixed before the pad, decode gives back every word array |
| CompactTyped.PrefixFields | index.js:106-108 | the prefix's upper bits are the word count and its low two bits are the pad |
| CompactTyped.PreencodeCorrected | index.js:88-92 | the corrected size pass counts the corrected image |
| CompactTyped.EncodeCorrected | index.js:93-103 | the corrected encoder completes exactly when its image fits, and stores that image |
| Lexint.LexSize | lexint.js:7-17 | 1 byte below 251, 2 below 256, 3 below 2^16, 4 below 2^24, 5 below 2^32 |
| Lexint.Parse | lexint.js:64-95 | a missing flag gives undefined; a flag below 251 is the value; 251 reads one unchecked byte (NaN when missing); 252, 253, 254 read 2, 3, 4 big-endian bytes and throw a RangeError when those pass the buffer's end; 255 gives the floating tier |
| Lexint.LexBytes | lexint.js:26-50 | the encoding's length is preencode's count: the tag byte plus 0 to 4 payload bytes |
| Lexint.FirstByteFixesLength | lexint.js:33-50 | the tag byte alone determines the encoding's length and is never 0xff below 2^32 |
| Lexint.PrefixFree | lexint.js:33-50 | no encoding is a proper prefix of another |
| Lexint.Order | lexint.js:26-50 | for a < b below 2^32, a's encoding sorts strictly before b's |
| Lexint.BigTierSortsLast | lexint.js:51-61 | every number below 2^32 sorts before anything of the 0xff tier |
| Lexint.RoundTrip | lexint.js:64-95 | decoding an encoding gives the number back, and start moves by its size |
| Lexint.TruncatedDataViewTiers | lexint.js:78-95 | tags 252-254 cut short throw a RangeError |
| Lexint.UncheckedTiers | lexint.js:66-76 | a lone 251 decodes to NaN and an empty buffer to undefined, without throwing |
| Lexint.ParseChecked | lexint.js:64-108 | the corrected decoder checks every read |
| Lexint.CheckedTruncationSafe | lexint.js:64-108 | every proper prefix of an encoding is rejected by the corrected decoder |
| Lexint.Decode | lexint.js:64-108 | result and new start are `Parse` at the old start |
| Lexint.Preencode | lexint.js:7-24 | end grows by the encoding's size |
| Lexint.EncodeEffect | lexint.js:26-50 | the encoder completes exactly when start <= end, end - start <= the buffer length (the DataView checks only its length), and the DataView window (anchored at the buffer's base, of length end - start) holds the multi-byte store; when it completes, the encoding is stored |
| Lexint.TopLevelFits | lexint.js:26-50 | at start 0 in a buffer sized by preencode, encode stores exactly the encoding |
| Lexint.WindowRejectsAfterOneByte | lexint.js:30-31 | from start 1, every number from 256 on throws a RangeError even in a buffer of exact size |
| Lexint.WindowFits | lexint.js:30-49 | the DataView store fits when the tier stores no more than one payload byte, or when `2 * start + size <= end` |
| Lexint.ViewSet | lexint.js:40-49 | a DataView store succeeds exactly when it fits the window |
| Lexint.StoreThenView | lexint.js:43-46 | the plain byte is stored, then the view store succeeds exactly when it fits |
| Lexint.Encode | lexint.js:26-62 | status, buffer and start are `EncodeEffect` of the old state |
| Lexint.EncodeAnchored | lexint.js:26-50 | with the window laid from the cursor, encode completes exactly when the encoding fits before end within the buffer, or when it is a 1- or 2-byte encoding (no DataView store) and start <= end <= the buffer length; when it completes, the encoding is stored |
| SignedLexint.SignedSize | signed-lexint.js:3-7 | the sign byte plus the lexint size of the magnitude |
| SignedLexint.SignedBytes | signed-lexint.js:9-18 | the encoding has the size preencode counts |
| SignedLexint.Order | signed-lexint.js:3-28 | for a < b with magnitudes below 2^32, a's encoding sorts strictly before b's |
| SignedLexint.InvertRange | signed-lexint.js:14-16 | inverting a range changes only that range, byte by byte |
| SignedLexint.InvertStored | signed-lexint.js:13-17 | inverting a stored value's bytes stores the inverted value |
| SignedLexint.EncodeEffect | signed-lexint.js:9-18 | the sign byte, then lexint's encode of the magnitude, whose throw ends it; for a negative number, after success, every absolute index from 1 to end - 1 is inverted |
| SignedLexint.EncodeSmallAtStart | signed-lexint.js:9-18 | at start 0 in a buffer of exact size, every magnitude below 256 is stored as its encoding |
| SignedLexint.EncodeThrowsFrom256 | signed-lexint.js:11-12 | every magnitude from 256 on throws a RangeError, even at start 0 in a buffer of exact size |
| SignedLexint.DecodeEffect | signed-lexint.js:20-28 | a sign byte of 0 (or a missing one) inverts absolute indices 1 to end - 1 in place, then lexint decodes after the sign byte and the value is negated |
| SignedLexint.NegativeAwayFromStart | signed-lexint.js:11-17 | a negative number encoded at any start from 1 on, when encode completes: the buffer is the stored value with absolute indices 1 to end - 1 inverted, so its own sign byte becomes 255, every byte from index 1 up to it is flipped, and only byte 0 is kept |
| SignedLexint.NegativeAwayFromStartDecodes | signed-lexint.js:20-28 | such a number from -250 to -5 decodes as a positive number: 255 + n, or -n when end leaves the magnitude byte un-inverted |
| SignedLexint.SignFlipExample | signed-lexint.js:9-28 | -5 encoded at index 1 of [7, 0, 0] with end 3 is stored as [7, 255, 250], which decodes as 250 |
| SignedLexint.RoundTrip | signed-lexint.js:20-28 | decoding an encoding gives the number back and leaves the magnitude bytes un-inverted in the buffer |
| SignedLexint.Preencode | signed-lexint.js:3-7 | end grows by the sign byte and the magnitude's size |
| SignedLexint.InvertInPlace | signed-lexint.js:14-16 | the loop inverts exactly the in-buffer bytes of the range |
| SignedLexint.Encode | signed-lexint.js:9-18 | status, buffer and start are the as-written `EncodeEffect` |
| SignedLexint.Decode | signed-lexint.js:20-28 | result, new start and the buffer (inverted in place) are `DecodeEffect` |
| SignedLexint.EncodeCorrected | signed-lexint.js:9-18 | with the window from the cursor and the inversion limited to the value's bytes, any value that fits is stored as its encoding at any start |
| CompactArray.Typed | index.js:239-274 | the values each codec encodes: numbers and lengths safe integers, a fixed block of exactly n bytes, arrays of any length |
| CompactArray.Recoverable | index.js:36-43 | the values decoding can give back: arrays of at most 1048576 elements (index.js:251) and ints from -2^52 on |
| CompactArray.Size | index.js:241-244 | the bytes preencode counts: each codec's size, and for an array the count's size plus the elements' sizes |
| CompactArray.Bytes | index.js:245-248 | a value's encoding has the size preencode counts |
| CompactArray.BytesAll | index.js:247 | the elements' encodings together have the summed size |
| CompactArray.CanonicalAll | index.js:252-254 | decoding keeps the element count |
| CompactArray.Parse | index.js:249-255 | each codec's decode, with its error and its cursor |
| CompactArray.ParseArray | index.js:249-255 | a count error passes through; a count above 1048576 throws 'Array is too big' just past the count; then the elements |
| CompactArray.ParseAll | index.js:253 | count elements one after the other; the first that throws ends the decode with its error and cursor |
| CompactArray.RoundTrip | index.js:239-257 | for every codec and every value it encodes whose arrays are within the decoder's ceiling and whose ints are at least -2^52, decoding where its encoding is stored gives the value back (empty buffers as null) and moves past exactly its size |
| CompactArray.UintCase | index.js:4-22 | the uint codec as an element round-trips |
| CompactArray.IntCase | index.js:24-34 | the int codec as an element round-trips from -2^52 on |
| CompactArray.BoolCase | index.js:149-160 | the bool codec as an element round-trips |
| CompactArray.BufferCase | index.js:45-70 | the buffer codec as an element round-trips |
| CompactArray.StrCase | index.js:129-147 | the string codec as an element round-trips |
| CompactArray.FixedCase | index.js:259-274 | the fixed codec as an element round-trips |
| CompactArray.ArrayRoundTrip | index.js:239-257 | an array of at most 1048576 elements decodes to its elements and moves past the count and all elements |
| CompactArray.ArrayTooLong | index.js:241-251 | an array longer than 1048576 elements, which preencode and encode accept, throws 'Array is too big' on decode, just past its count |
| CompactArray.RoundTripAll | index.js:253 | decoding count elements in a row gives each back in order |
| CompactArray.ArrayCeiling | index.js:251 | a count above 1048576 throws 'Array is too big' right after the count |
| CompactArray.ArrayEncodeExample | test.js:388-398 | [true, false, true] takes 4 bytes: 3, 1, 0, 1 |
| CompactArray.ArrayDecodeExample | test.js:400-408 | the test's buffer decodes to [false, false, true, true] at 4, and fails at its end |
| CompactArray.ErrorEndsAll | index.js:253 | an element that throws ends the array's decode with its error |
| CompactArray.Preencode | index.js:241-244 | end grows by the value's size |
| CompactArray.Encode | index.js:245-248 | when the encoding fits, stores it; whenever it completes, start moves by the size |
| CompactArray.EncodeArray | index.js:245-248 | stores the count and then each element in order, and moves by their total size |
| CompactArray.Decode | index.js:249-255 | result and new start are `Parse` at the old start |
| CompactArray.DecodeArray | index.js:249-255 | result and new start are `ParseArray` at the old start |
| CompactArray.DecodeElements | index.js:252-254 | the loop decodes count elements as `ParseAll` does, stopping at the first error |
| CompactArray.EncodeValue | index.d.ts:172-175 | `encode(enc, v)` returns a fresh buffer holding exactly v's encoding |
| CompactArray.DecodeValue | index.d.ts:176 | `decode(enc, buf)` decodes from the start of buf |
| CompactArray.TopRoundTrip | index.d.ts:172-176 | `decode(enc, encode(enc, v))` gives v back whenever its arrays are within the ceiling and its ints at least -2^52 |

## Left out

- CompactArray.Encode: a `fixed(n)` element must hold exactly n bytes
  (`CompactArray.Typed`). `fixed(n).encode` (index.js:264-267) writes a
  block of any length and still advances by n; `CompactBytes.FixedEncode`
  models that on its own, but the array composition does not.
- The `lexint` tier for numbers from 2^32 up (tag 0xff, an exponent and a
  6-byte floating mantissa, lexint.js:18-23, 51-61 and 97-106). It is
  floating-point arithmetic on `Math.log`. Encoders require numbers below
  2^32, and the decoder reports the tier as `BigTier` without its value.
- Lexint.Parse: after the 0xff tag the model stops. The cursor is left
  just past the tag, and the decode never throws there. The source decodes
  an exponent by recursion (lexint.js:98), which can throw a RangeError in
  its DataView tiers. It then reads 6 more bytes, so its cursor ends
  further on.
- SignedLexint.DecodeEffect: the same for the 0xff tier, through
  `Lexint.Parse`.
- `from`, `fromCodec` and `fromAbstractEncoder` (index.js:194-237). They
  wrap codecs the library does not define, so their behaviour is that of
  foreign code.
- Host endianness (index.js:1-2, 100, 116, 124, 276-292). The model is a
  little-endian host, where `hostToLE32` and `LEToHost32` never run.
- Typed-array aliasing. `uint32array.decode` may return a view that shares
  memory with the buffer; the model returns the words as values.
- Numbers are unbounded integers. Codec values are required to be safe
  integers (below 2^53). `-0` and non-integer numbers are not modelled.
  The one rounding inside that range, `(2 * -n) - 1` in `zigzagEncode`,
  is modelled by `CompactUint.ToDouble`.
- CompactUint.UintParse: `decode64` adds its two words in JS numbers,
  which round above 2^53; the model returns the exact value. Every value
  a safe-integer encode stores reads back exactly either way.
- CompactUint.IntRoundTrip: holds from -2^52 on only. Below that the
  source loses the sign, as `CompactUint.ZigZagSignLost` states.
- CompactTyped.WordsAt: takes the memory behind the buffer to end where
  the buffer ends. A Node Buffer cut from a shared pool does not: an
  aligned view of words past the buffer's end reads the pool's next bytes
  instead of throwing a RangeError. Those bytes are unknown here, so the
  model throws.
- CompactTyped.Decode and CompactTyped.ReadWords: the same assumption
  about the backing memory, through `WordsAt`.
- Lexint.EncodeEffect: the same assumption. A DataView of `end - start`
  bytes from the buffer's offset throws here once it passes the buffer's
  end. In a pooled buffer it throws only past the pool's end, and its
  stores beyond the buffer land in memory the model does not hold.
- Lexint.Encode and SignedLexint.Encode: the same assumption, through
  `Lexint.EncodeEffect`.
- CompactTyped.Preencode and CompactTyped.Encode: require fewer than 2^29
  words. From 2^29 words on, `b.length << 2` wraps at 32 bits, and that
  is not modelled.
- Strings with lone surrogates. Dafny strings hold Unicode scalar values
  only, so Node's replacement of lone surrogates on write is not modelled.
- Node's `Buffer.byteLength`, `Buffer.write` and `Buffer.toString` are
  foreign code. They are modelled by their documented behaviour: UTF-8 by
  section 3.9 of the Unicode Standard, decoding by the WHATWG Encoding
  Standard, and a partial write that stops at a whole character.
- The codecs of test.js that are absent from index.js (float64, int16array,
  json and others). Only the tests of codecs index.js defines are
  modelled.
- `array(enc)` composes `uint`, `int`, `bool`, `buffer`, `string`, `fixed`
  and nested arrays. `raw`, `uint32array`, `lexint` and `signed-lexint`
  are modelled on their own but not as array elements.
- CompactArray.Encode: when the encoding does not fit, the buffer contents
  after a throw are not stated. Only the cursor movement on completion is.
- CompactArray.EncodeArray: likewise, the partially stored elements after
  a throw are not stated.
- Lexint.EncodeEffect: the contract states only the completing case.
  The bytes a throwing encode has already stored (the tag, and for tag
  253 the high byte) are given by the definition alone.

## Findings

| source | as written | input that shows it | evidently intended | confidence | as-written member | corrected member |
|---|---|---|---|---|---|---|
| index.js:95-97 | the prefix width is chosen for 4n, then the pad is OR-ed into it; for 63 words 0xfc OR 3 = 0xff becomes the 8-byte tag | 63 zero words at start 0: stored as 0xff and zeros, decoded as an empty array ending at byte 9 | the prefix encodes 4n + pad and decodes back to n words | not executed | CompactTyped.SixtyThreeWords | CompactTyped.CorrectedRoundTrip |
| lexint.js:30-31 | the DataView starts at the buffer's byteOffset but has length end - start, and offsets are absolute | encoding 256 at start 1 of a 4-byte buffer with end 4 (as signed-lexint always does) throws a RangeError | the view covers the bytes from the cursor to end | not executed | Lexint.WindowRejectsAfterOneByte | Lexint.EncodeAnchored |
| signed-lexint.js:11-17 | the magnitude goes through lexint's window from start 1, and the inversion runs over absolute indices 1..end-1 | any number with magnitude 256 or more, e.g. -256, in a buffer of exact size throws a RangeError; -5 encoded at index 1 of [7, 0, 0] gives [7, 255, 250], which decodes as 250 | sign byte then the (inverted) magnitude at the cursor | not executed | SignedLexint.EncodeThrowsFrom256, SignedLexint.NegativeAwayFromStart, SignedLexint.SignFlipExample | SignedLexint.EncodeCorrected |
| lexint.js:66-76 | the tag and the tag-251 payload byte are read without a bounds check | the 1-byte buffer [251] decodes to NaN; an empty buffer decodes to undefined (test.js:481-483 expects a throw) | a short buffer throws | not executed | Lexint.UncheckedTiers | Lexint.CheckedTruncationSafe |
| index.js:141-146 | the length re-check compares the byte length of the decoded text, which counts U+FFFD as 3 bytes | [3, 0xe2] decodes to "\u{FFFD}" with start at 4, past the buffer | a body shorter than the prefix says throws 'Out of bounds' | not executed | CompactString.StrTruncatedAccepted | CompactString.StrCheckedTruncated |
