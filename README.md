# ByteArray: a cursor-based reader over an in-memory byte buffer

This project models `ByteArray` from `src/byte-array.js` of binary-tools in Dafny.
`ByteArray` wraps a Node.js `Buffer` and holds three fields: a cursor `offset`, the buffer `buf` and a default byte order `endian`.
Each read decodes bytes at the cursor and moves the cursor past what it consumed:

- fixed-width numbers: 1, 2, 4 or 8 bytes, little- or big-endian, unsigned or two's-complement;
- characters;
- strings, UTF strings and byte ranges of a caller-given length;
- lines that end at a delimiter or a maximum count.

The cursor setters do no bounds checking.

Files:

- `byte_order.dfy` (module `ByteOrder`): the byte-combination arithmetic. It defines `LittleEndian`, `BigEndian`, `Unsigned` and the two's-complement view `ToSigned`. Lemmas relate them: reversal, injectivity, splitting into words, the explicit 2/4/8-byte formulas, and how the sign follows from the top byte.
- `node_buffer.dfy` (module `NodeBuffer`): the Node built-ins the class relies on.
  - `TextRange`/`ToText` model how `Buffer.toString(enc, start, end)` clamps its range.
  - `CopyInto` models `Buffer.copy` into a zero-filled `Buffer.alloc` target.
  - `FromCharCode` models `String.fromCharCode` on a signed byte.
  - Text decoding is a caller-supplied `Decoder`, applied only to a non-empty range.
- `reader.dfy` (module `Reader`): the class `ByteArray`, with one method per source method.
  - `ScanLine` is the specification function of `readLine`, with its lemmas.
  - `CharOf` gives the character `readChar` yields.
  - `OrderOf` maps an endian string to a byte order: only `"LE"` is little-endian, and every other value is big-endian. This is the test `endian == 'LE'` at src/byte-array.js:112.
- `options.dfy` (module `Options`): `Option`, which stands for a JavaScript argument that may be omitted (`None`).
- `examples.dfy` (module `ReaderExamples`): a client that derives the documented examples from the contracts alone:
  - `01 02 03 04` reads as `0x04030201` under `"LE"` and as `0x01020304` under `"BE"` or `"be"`;
  - `FF FE` reads as Int16 `-257`;
  - `readLine(5, '\0')` over `"AB\0CD"` returns `"AB"` and leaves the cursor at 3;
  - resetting the cursor and reading again in the same byte order gives the same value.

Quirks of the code that the model keeps:

- `readChar` passes the signed byte to `String.fromCharCode`. Bytes 0x80..0xFF therefore become U+FF80..U+FFFF, not code points 128..255. One consequence (`UnmatchableDelimiter`): a `readLine` delimiter with a code in 0x80..0xFF7F can never match.
- `readString` decodes only those bytes of `[offset, offset + length)` that lie inside the buffer, because `toString` cuts the end at the buffer length. It still advances the cursor by the full `length`.
- `readUTFString` decodes `4 * length + 1` bytes but advances by only `4 * length`. The model keeps this off-by-one (`UtfStringDecodesNextByte`).
- `readByteArray` asks `copy` for `length + 1` source bytes. `copy` stops at the end of the target, so the extra byte has no effect (`CopyIsCutAtTarget`). Bytes past the end of the buffer stay zero.

## Model

| member | source | states |
|---|---|---|
| `ByteOrder.LittleEndian` | src/byte-array.js:111-163 | the little-endian value of n bytes is below 256^n |
| `ByteOrder.BigEndian` | src/byte-array.js:111-163 | the big-endian value of n bytes is below 256^n |
| `ByteOrder.Unsigned` | src/byte-array.js:120-127 | the unsigned value of n bytes in either order is below 256^n |
| `ByteOrder.ToSigned` | src/byte-array.js:97-102 | the two's-complement view of a width-byte value lies in [-2^(8w-1), 2^(8w-1)) and differs from the unsigned value by 0 or 256^width, which determines it uniquely |
| `ByteOrder.BigEndianIsReversedLittleEndian` | src/byte-array.js:111-114 | big-endian reading is little-endian reading of the reversed bytes |
| `ByteOrder.LittleEndianInjective` | src/byte-array.js:120-127 | equal-width byte strings with the same little-endian value are equal |
| `ByteOrder.BigEndianInjective` | src/byte-array.js:120-127 | equal-width byte strings with the same big-endian value are equal |
| `ByteOrder.LittleEndianSplit` | src/byte-array.js:156-163 | a little-endian value is its low k bytes plus 256^k times the rest |
| `ByteOrder.BigEndianSplit` | src/byte-array.js:156-163 | a big-endian value is its first k bytes times 256^(n-k) plus the rest |
| `ByteOrder.SignExtendsTopByte` | src/byte-array.js:129-136 | the signed value is the low bytes unsigned plus the top byte read as a signed byte, weighted by 256^(n-1) |
| `ByteOrder.SignOfMostSignificantByte` | src/byte-array.js:147-154 | in either byte order, a signed read is negative exactly when its most significant byte is 0x80 or more |
| `ByteOrder.Bytes16` | src/byte-array.js:120-127 | readUInt16's value is b0 + 256·b1 little-endian and 256·b0 + b1 big-endian |
| `ByteOrder.Bytes32` | src/byte-array.js:138-145 | readUInt32's value is the four-byte positional sum, least or most significant byte first |
| `ByteOrder.Bytes64` | src/byte-array.js:156-163 | readUInt64's value is the low 32-bit word plus 2^32 times the high word, in either order |
| `NodeBuffer.TextRange` | src/byte-array.js:190 | the decoded range starts at max(start, 0), is contiguous in buf, and reaches min(end, buffer length); it is empty exactly when that end is at or before that start |
| `NodeBuffer.ToText` | src/byte-array.js:190 | an empty range decodes to the empty string |
| `NodeBuffer.CopyInto` | src/byte-array.js:207-208 | the target keeps its length; byte i is the source byte at sourceStart + i when that is before sourceEnd and inside the source, else 0 |
| `NodeBuffer.CopyIsCutAtTarget` | src/byte-array.js:208 | requesting source bytes beyond the target's length leaves the copied result unchanged |
| `NodeBuffer.FromCharCode` | src/byte-array.js:184 | the character is the 16-bit code unit congruent to the signed byte modulo 2^16 |
| `Reader.CharOf` | src/byte-array.js:183-185 | bytes below 0x80 map to their own code and bytes 0x80..0xFF to code b + 0xFF00 |
| `Reader.OrderOf` | src/byte-array.js:111-112 | an endian string selects little-endian exactly when it is "LE"; every other string, "le" included, selects big-endian |
| `Reader.ByteArray.OrderFor` | src/byte-array.js:111-112 | an omitted endian argument falls back to the instance's endian; the order is little-endian exactly when the endian in force is "LE" |
| `Reader.ScanLine` | src/byte-array.js:214-224 | a line consumes at most max bytes and no more than remain, and consumes either exactly as many bytes as it returns characters or one more |
| `Reader.ScanLineText` | src/byte-array.js:214-224 | the returned characters are those of the consumed bytes in order, none equal to the delimiter; an extra consumed byte is the delimiter; otherwise exactly max characters were read |
| `Reader.ScanLineFirst` | src/byte-array.js:217-220 | one loop step: reading the delimiter ends the line with one more byte consumed; any other character is appended and the scan continues on the next byte with one fewer character allowed |
| `Reader.ScanLineDefined` | src/byte-array.js:214-224 | readLine stays inside the buffer exactly when max bytes remain or the delimiter occurs within the first max remaining bytes |
| `Reader.UnmatchableDelimiter` | src/byte-array.js:184 | a delimiter coded 0x80..0xFF7F never ends a line, so the line always reads max bytes |
| `Reader.UtfStringDecodesNextByte` | src/byte-array.js:199-201 | the UTF decode range has 4·length + 1 bytes, the last being the byte under the cursor after the read |
| `Reader.ByteArray.constructor` | src/byte-array.js:11-15 | the cursor starts at 0, the buffer is the one given, and the endian is the one given or "LE" |
| `Reader.ByteArray.IsEof` | src/byte-array.js:22-24 | true exactly when the cursor is at or past the buffer length |
| `Reader.ByteArray.ResetOffset` | src/byte-array.js:30-32 | the cursor becomes 0 and nothing else changes |
| `Reader.ByteArray.SetOffset` | src/byte-array.js:39-41 | the cursor becomes the given value, unchecked, and nothing else changes |
| `Reader.ByteArray.ShiftOffset` | src/byte-array.js:48-50 | the cursor moves by delta, unchecked, and nothing else changes |
| `Reader.ByteArray.GetOffset` | src/byte-array.js:57-59 | returns the cursor |
| `Reader.ByteArray.SetEndian` | src/byte-array.js:66-68 | only the default endian changes |
| `Reader.ByteArray.GetEndian` | src/byte-array.js:75-77 | returns the default endian |
| `Reader.ByteArray.GetLength` | src/byte-array.js:84-86 | returns the buffer length |
| `Reader.ByteArray.GetBuffer` | src/byte-array.js:93-95 | returns the buffer |
| `Reader.ByteArray.ReadInt8` | src/byte-array.js:97-102 | needs the cursor inside the buffer; returns the byte as a signed value in [-128, 128) and advances by 1 |
| `Reader.ByteArray.ReadUInt8` | src/byte-array.js:104-109 | needs the cursor inside the buffer; returns the byte at the cursor and advances by 1 |
| `Reader.ByteArray.ReadInt16` | src/byte-array.js:111-118 | needs 2 bytes at the cursor; returns their two's-complement value in [-2^15, 2^15), in the per-call or default order ("LE" little, anything else big), and advances by 2 |
| `Reader.ByteArray.ReadUInt16` | src/byte-array.js:120-127 | needs 2 bytes at the cursor; returns their unsigned value in [0, 2^16) in the per-call or default order, and advances by 2 |
| `Reader.ByteArray.ReadInt32` | src/byte-array.js:129-136 | the same for 4 bytes, with a signed range of [-2^31, 2^31) |
| `Reader.ByteArray.ReadUInt32` | src/byte-array.js:138-145 | the same for 4 bytes, unsigned in [0, 2^32) |
| `Reader.ByteArray.ReadInt64` | src/byte-array.js:147-154 | the same for 8 bytes, as an unbounded integer in [-2^63, 2^63) |
| `Reader.ByteArray.ReadUInt64` | src/byte-array.js:156-163 | the same for 8 bytes, as an unbounded integer in [0, 2^64) |
| `Reader.ByteArray.ReadFloat` | src/byte-array.js:165-172 | needs 4 bytes at the cursor; returns the 32-bit pattern in the chosen order and advances by 4 |
| `Reader.ByteArray.ReadDouble` | src/byte-array.js:174-181 | needs 8 bytes at the cursor; returns the 64-bit pattern in the chosen order and advances by 8 |
| `Reader.ByteArray.ReadChar` | src/byte-array.js:183-185 | needs the cursor inside the buffer; returns CharOf of the byte (signed char code) and advances by 1 |
| `Reader.ByteArray.ReadString` | src/byte-array.js:187-194 | length ≤ 0 gives "" and keeps the cursor; otherwise decodes the clamped range [offset, offset + length) in the given encoding (default utf8) and advances by length |
| `Reader.ByteArray.ReadUTFString` | src/byte-array.js:196-204 | length ≤ 0 gives "" and keeps the cursor; otherwise decodes the clamped range of 4·length + 1 bytes as utf8 and advances by 4·length |
| `Reader.ByteArray.ReadByteArray` | src/byte-array.js:206-212 | returns exactly length bytes, buf[offset + i] where the buffer has it and 0 beyond (exactly buf[offset..offset+length] when in range), and advances by length |
| `Reader.ByteArray.ReadLine` | src/byte-array.js:214-224 | the delimiter defaults to '\n' when omitted; needs the reads to stay inside the buffer; returns ScanLine's text and advances the cursor by exactly ScanLine's consumed count |
| `Reader.ByteArray.ReadLineUntil` | src/byte-array.js:215-223 | the readChar loop with a given delimiter: returns ScanLine's text and advances the cursor by exactly ScanLine's consumed count |
| `Reader.ByteArray.ReadNullTerminatedString` | src/byte-array.js:226-237 | readLine with max MAX_STRING_LEN (the class constant 255) and delimiter NUL; the result never has more than 255 characters |

## Left out

- `src/file.js` (`File.load`) is not part of this model. It is one asynchronous whole-file read plus error wrapping, which is I/O. A buffer is simply passed to the constructor.
- Range errors are modelled as preconditions, not as exception values. This covers a numeric read, `readChar` or `readLine` past the buffer, and `Buffer.alloc`/`Buffer.copy` given a negative length or a cursor outside the buffer.
- `Reader.ByteArray.ReadLine`: requires that every byte it reads lies inside the buffer. In the source, a line that runs off the end throws after the cursor has already moved past the bytes read so far. That partial cursor movement is not modelled.
- `Reader.ByteArray.ReadFloat`: returns the IEEE-754 bit pattern, not the decoded single-precision number, because floating point is not modelled.
- `Reader.ByteArray.ReadDouble`: returns the IEEE-754 bit pattern, not the decoded double, for the same reason.
- Text decoding is abstract. `ReadString` and `ReadUTFString` take a `Decoder` parameter. Node's error for an unknown encoding name is not modelled.
- `Reader.ByteArray.ReadLine`: the delimiter is a single `char`. JavaScript `==` also compares a character with multi-character strings (never equal) and with non-strings (by coercion), and those cases are not modelled.
- `Reader.OrderOf`: the endian is a string, compared with "LE" exactly. JavaScript's loose `==` also accepts non-string values (an object whose string form is "LE" reads little-endian, and `setEndian(undefined)` or `setEndian(null)` makes every later read without an explicit endian big-endian); these non-string values are not modelled.
- Lengths and offsets are integers. JavaScript truthiness of `!length` for NaN, fractions and non-numbers is not modelled, and neither is the double-precision limit of JavaScript numbers.
- `Reader.ByteArray.GetBuffer`: returns the buffer as an immutable value. The source returns the `Buffer` object itself, so aliasing and mutation through that reference are not modelled. `ReadByteArray` likewise returns a fresh value rather than a new `Buffer` object.
- `Reader.ByteArray.ReadByteArray`: requires the cursor to lie in `[0, |buf|]` even when `length` is 0. This follows the `copy` argument check of current Node versions; some older versions accept a cursor past the end when nothing is copied.
