# LSB steganography codec, modelled in Dafny

This project models the codec at the core of the KaizenBreach image
steganography tool, `src/lib/steganography.ts`. The codec hides a text
message in the least significant bits of an image's RGBA pixel bytes.

- **Capacity.** The capacity of a `width x height` image is
  `floor(3 * width * height / 8) - 100` characters (module `Capacity`). The
  encoder tab compares the message length against it; it displays a
  non-positive capacity as 0.
- **Encoding** (module `Encoder`, with `BitCodec` and `BitLayout`):
  - Every UTF-16 code unit of the message becomes its binary digits (`toString(2)`),
    left-padded to at least eight digits (`padStart(8, "0")`).
  - Eight zero digits are appended as a terminator.
  - The message is refused when the bit string is longer than three quarters of
    the buffer; the buffer is then left as it was.
  - Otherwise bit `i` is written into the low bit of byte `4 * (i / 3) + i % 3`:
    a cursor walks the buffer in place and steps over every alpha byte
    (index `3 mod 4`).
- **Decoding** (module `Decoder`):
  - The low bit of every colour byte is read in index order.
  - Reading stops after the first completed, aligned group of eight that is all
    zero, or at the end of the buffer.
  - The last eight bits read are dropped (`slice(0, -8)`).
  - The rest is parsed in groups of eight digits, the last group possibly shorter.
  - Every group becomes one character code.
- **Round trip** (module `RoundTrip`) ties the two together:
  - A message of one-byte codes without NUL comes back unchanged from any buffer
    large enough for it.
  - A NUL cuts the message short.
  - A code above 255 comes back garbled, because `padStart` never truncates:
    U+0100 is written as nine digits and read back as U+0080.
  - Any message of one-byte codes within the advertised capacity passes the
    encoder's size check. The capacity counts characters, not digits, so a
    message of wider code units can be within it and still be refused
    (`RoundTrip.WideCodesWithinCapacityRefused`).

The pixel buffer is an `array<bv8>`. Encoding and decoding are methods with
loops over it, and each is proved against a specification function on
sequences: `Embed` for what the write loop leaves in the buffer, and
`Truncate`, `DropTerminator` and `Chars` for what the read loop collects and
the conversion loop yields. The size check `bits > 0.75 * length` is stated in
integers as `4 * bits > 3 * length`; the two agree for all naturals.

The decoder has no failure path:
- A buffer without an aligned zero group is read to its end, its last eight
  bits are dropped, and the rest is decoded all the same
  (`Decoder.DecodedWithoutTerminator`).
- The buffer's length is never checked. One with fewer than eight colour bytes
  decodes to the empty message (`Decoder.EmptyWhenFewerThanEightColourBytes`).

## Model

| member | source | states |
|---|---|---|
| Capacity.Capacity | src/lib/steganography.ts:7-11 | the capacity c is the floor of 3wh/8 less 100: 8(c+100) <= 3wh < 8(c+101) |
| Capacity.CapacityOfEmptyImage | src/lib/steganography.ts:7-11 | an image with zero width or height has capacity -100, never positive |
| Capacity.CapacityMonotone | src/lib/steganography.ts:7-11 | a larger image in both dimensions never has a smaller capacity |
| Capacity.CapacityExamples | src/lib/steganography.ts:7-11 | a 4x4 image has capacity -94, a 100x100 image 3650 |
| BitCodec.CharBits | src/lib/steganography.ts:37 | `toString(2).padStart(8, "0")` of one code; characterised by CharBitsOfByte, CharBitsOfWideCode and CharBitsIsZeros |
| BitCodec.FromBits | src/lib/steganography.ts:123 | `parseInt(group, 2)`, most significant digit first; its value is below 2^length, and FromBitsOfBinary shows it inverts `toString(2)` |
| BitCodec.Payload | src/lib/steganography.ts:35-39 | the concatenated digits of every code, in message order; characterised by PayloadConcat and PayloadLayout |
| BitCodec.Bitstream | src/lib/steganography.ts:34-41 | the payload followed by "00000000"; characterised by BitstreamLayout |
| BitCodec.Chars | src/lib/steganography.ts:121-124 | one code per group of up to eight digits; characterised by CharsLength, CharsChunks and CharsOfPayload |
| BitCodec.Binary | src/lib/steganography.ts:37 | `toString(2)` yields at least one digit |
| BitCodec.PadStart | src/lib/steganography.ts:37 | `padStart` gives at least the target length and never shortens its input |
| BitCodec.FromBitsOfBinary | src/lib/steganography.ts:37 | parsing the binary digits of c as base 2 gives c back |
| BitCodec.BinaryLength | src/lib/steganography.ts:37 | c has at most n binary digits exactly when c < 2^n |
| BitCodec.CharBitsOfByte | src/lib/steganography.ts:37 | a code below 256 becomes exactly eight digits that parse back to it |
| BitCodec.CharBitsOfWideCode | src/lib/steganography.ts:37 | a code of 256 or more becomes more than eight digits, because padding never truncates |
| BitCodec.CharBitsIsZeros | src/lib/steganography.ts:37-41 | among one-byte codes, only 0 is written as the all-zero terminator group |
| BitCodec.PayloadConcat | src/lib/steganography.ts:35-39 | the digits of a concatenation are the concatenated digits of its parts |
| BitCodec.PayloadLayout | src/lib/steganography.ts:35-39 | for one-byte messages, the payload has 8 bits per character, and group k holds the digits of character k |
| BitCodec.BitstreamLayout | src/lib/steganography.ts:34-41 | for one-byte messages, the bit string has length 8(n+1), group k holds character k, and the last group is "00000000" |
| BitCodec.CharOf | src/lib/steganography.ts:123 | a group of at most eight digits parses to a code below 256 |
| BitCodec.CharsLength | src/lib/steganography.ts:121-124 | the conversion loop yields one character per group of eight bits, rounding up |
| BitCodec.CharsChunks | src/lib/steganography.ts:121-124 | character k is the parse of bits 8k to 8k+7, cut at the end of the input |
| BitCodec.CharsOfPayload | src/lib/steganography.ts:121-124 | converting the payload of a one-byte message back gives the message |
| BitLayout.IsAlpha | src/lib/steganography.ts:53 | the alpha byte of each pixel, index 3 mod 4; AlphaTest ties it to the loops' skip test |
| BitLayout.AlphaTest | src/lib/steganography.ts:98 | the skip test `(index + 1) % 4 === 0` holds exactly for alpha bytes |
| BitLayout.ColorCount | src/lib/steganography.ts:51-55 | the number of colour bytes below an index; closed form in ColorCountFormula |
| BitLayout.Pos | src/lib/steganography.ts:51-55 | the byte that carries bit i; characterised by PosIsColorByte, PosOfColorCount, PosInBounds and PosIncreasing |
| BitLayout.Lsb | src/lib/steganography.ts:104 | `byte & 1` as a digit; BitByte and SetLsb are stated in its terms |
| BitLayout.Lsbs | src/lib/steganography.ts:96-106 | the low bits of the colour bytes in index order, what the read loop sees; LsbsAt gives bit k, ReadStep one loop turn |
| BitLayout.LsbsAt | src/lib/steganography.ts:104 | bit k read is the low bit of the colour byte Pos(k), which lies inside the buffer |
| BitLayout.Embed | src/lib/steganography.ts:48-65 | the buffer after the write loop; characterised by EmbedFrame, EmbedWritesBit and RoundTrip.LsbsOfEmbed |
| BitLayout.ColorCountFormula | src/lib/steganography.ts:51-55 | the first n bytes hold 3(n/4) + n%4 colour bytes |
| BitLayout.PosIsColorByte | src/lib/steganography.ts:51-64 | bit i goes to byte 4(i/3)+i%3, which is never alpha and has exactly i colour bytes before it |
| BitLayout.PosOfColorCount | src/lib/steganography.ts:96-106 | every colour byte carries a bit: the bit position and the colour-byte count are inverse |
| BitLayout.PosInBounds | src/lib/steganography.ts:51-64 | bit i lies inside a buffer exactly when the buffer has more than i colour bytes |
| BitLayout.PosIncreasing | src/lib/steganography.ts:51-64 | bits are placed at strictly increasing indices |
| BitLayout.ColorCountBound | src/lib/steganography.ts:43 | at least three quarters of any buffer are colour bytes, so an accepted bit string fits |
| BitLayout.BitByte | src/lib/steganography.ts:57 | the parsed digit as a byte has that digit as its low bit |
| BitLayout.SetLsb | src/lib/steganography.ts:62 | clearing the low bit with 0xFE and or-ing in the bit leaves the written bit as the low bit |
| BitLayout.SetLsbChangesLowBitOnly | src/lib/steganography.ts:62 | writing the low bit keeps the upper seven bits and moves the value by at most one |
| BitLayout.EmbedKeeps | src/lib/steganography.ts:51-65 | unfolding helper for Embed: the branch where a byte carries no written bit and keeps its value (the frame property proper is Encoder.EmbedFrame) |
| BitLayout.EmbedSets | src/lib/steganography.ts:51-65 | unfolding helper for Embed: the branch where a colour byte takes its written bit (the property proper is Encoder.EmbedWritesBit) |
| Encoder.TooLong | src/lib/steganography.ts:43 | `binaryMessage.length > data.length * 0.75` in integers; TooLongForByteMessage and CapacitySafety say when it holds |
| Encoder.BuildBitstream | src/lib/steganography.ts:34-41 | the loop builds the concatenated padded digits of every character followed by the terminator |
| Encoder.Encode | src/lib/steganography.ts:34-65 | refuses exactly when 4 * bits > 3 * length and then leaves the buffer unchanged; otherwise the buffer is the original with the bit string embedded |
| Encoder.WriteBits | src/lib/steganography.ts:48-65 | the write loop leaves the buffer equal to the original with the bits embedded in the colour bytes |
| Encoder.WriteStep | src/lib/steganography.ts:51-64 | each loop turn writes in bounds, at the colour byte of bit i, extends the embedding by one bit and leaves the cursor at the next turn's start |
| Encoder.CursorSkipsAlpha | src/lib/steganography.ts:53-55 | the alpha skip brings the cursor exactly onto byte 4(i/3)+i%3 |
| Encoder.EmbedStep | src/lib/steganography.ts:57-62 | writing bit i changes only byte Pos(i) of the buffer |
| Encoder.EmbedNext | src/lib/steganography.ts:57-62 | writing bit i into a byte not yet written extends the embedding by one bit |
| Encoder.EmbedWritesBit | src/lib/steganography.ts:57-62 | bit i of an accepted stream lands in bounds at a colour byte, whose low bit it becomes and whose upper bits are kept |
| Encoder.EmbedFrame | src/lib/steganography.ts:51-65 | the length is kept, no byte moves by more than one, and alpha bytes and bytes past the last written index are untouched |
| Encoder.TooLongForByteMessage | src/lib/steganography.ts:43-46 | for one-byte messages, refusal happens exactly when 32(n+1) > 3 * length |
| Encoder.TooLongExample | src/lib/steganography.ts:43-46 | a 400-byte buffer (10x10) refuses a 40-character message |
| Decoder.Truncate | src/lib/steganography.ts:96-115 | the read loop's stop rule; characterised both ways by TruncateAtFirstZeroGroup and TruncateWithoutZeroGroup |
| Decoder.DropTerminator | src/lib/steganography.ts:119 | `slice(0, -8)`: all but the last eight bits, nothing when fewer; DropTerminatorOfBitstream applies it to an encoded stream |
| Decoder.Decoded | src/lib/steganography.ts:92-124 | what decoding a buffer yields; RoundTrip, NulEndsMessage, EmptyWhenFirstGroupZero and DecodedWithoutTerminator say what it is |
| Decoder.ReadStep | src/lib/steganography.ts:103-106 | reading a colour byte appends its low bit, the next bit of the buffer's LSB sequence |
| Decoder.SkipStep | src/lib/steganography.ts:98-101 | unfolding helper for ColorCount: an alpha byte adds no bit, one turn of the loop's `continue` branch |
| Decoder.CollectBits | src/lib/steganography.ts:92-115 | the read loop collects the colour-byte LSBs up to and including the first aligned zero group, or all of them |
| Decoder.TruncateAfterScan | src/lib/steganography.ts:96-115 | a scan past k groups, none of them zero, keeps them all and continues on the rest |
| Decoder.TruncateAtGroup | src/lib/steganography.ts:108-113 | the scan stops right after the first zero group k, keeping 8k+8 bits |
| Decoder.TruncateToEnd | src/lib/steganography.ts:96-115 | a scan that reaches the end without a zero group keeps every bit |
| Decoder.TruncateAtFirstZeroGroup | src/lib/steganography.ts:108-113 | when some aligned group is zero, the scan keeps exactly the bits up to the first such group |
| Decoder.TruncateWithoutZeroGroup | src/lib/steganography.ts:96-115 | when no aligned group is zero, the scan keeps all bits |
| Decoder.CharsStep | src/lib/steganography.ts:121-124 | the characters from bit i on are the group at i, then the characters after it |
| Decoder.BitsToChars | src/lib/steganography.ts:117-124 | the conversion loop yields one code per group of eight bits, in order |
| Decoder.Decode | src/lib/steganography.ts:92-124 | decoding the buffer yields the characters of the collected bits without the last eight |
| Decoder.EmptyWhenFirstGroupZero | src/lib/steganography.ts:108-124 | when the first eight colour-byte LSBs are zero the message is empty |
| Decoder.EmptyWhenFewerThanEightColourBytes | src/lib/steganography.ts:96-124 | a buffer with fewer than eight colour bytes decodes to the empty message |
| Decoder.DecodedWithoutTerminator | src/lib/steganography.ts:96-124 | a buffer with no aligned zero group still decodes, to all bits read but the last eight |
| RoundTrip.LsbOfEmbed | src/lib/steganography.ts:48-65 | bit k read back from an embedded buffer is written bit k, or the buffer's own bit past the written ones |
| RoundTrip.LsbsOfEmbed | src/lib/steganography.ts:48-65 | the decoder reads back the written bits, then the untouched LSBs of the colour bytes after them |
| RoundTrip.TruncateBitstream | src/lib/steganography.ts:108-113 | for a one-byte message without NUL, the scan stops exactly at the end of its terminator |
| RoundTrip.DropTerminatorOfBitstream | src/lib/steganography.ts:119 | dropping the last eight bits of the bit string leaves the payload |
| RoundTrip.RoundTrip | src/lib/steganography.ts:34-124 | decoding an encoded buffer gives the message back, for one-byte messages without NUL that pass the size check |
| RoundTrip.EmptyMessageRoundTrip | src/lib/steganography.ts:34-124 | encoding and decoding the empty message gives the empty message |
| RoundTrip.NulEndsMessage | src/lib/steganography.ts:108-113 | a NUL in the message ends it: what comes back is the part before the first NUL |
| RoundTrip.BitstreamAtNul | src/lib/steganography.ts:36-41 | the bit string of a message with a NUL starts with the bit string of the part before it |
| RoundTrip.PayloadOfNul | src/lib/steganography.ts:37 | a NUL character is written as the terminator group |
| RoundTrip.CapacitySafety | src/lib/steganography.ts:7-11 | a one-byte message no longer than the capacity always passes the size check on its 4wh-byte buffer |
| RoundTrip.PayloadOfWideCodes | src/lib/steganography.ts:35-39 | codes of 256 or more take at least nine digits each in the payload |
| RoundTrip.WideCodesWithinCapacityRefused | src/lib/steganography.ts:43-46 | 3650 wide code units are within the capacity of a 100x100 image, as computed at lines 7-11, yet the size check refuses their bit string |
| RoundTrip.WideCodeGarbled | src/lib/steganography.ts:37 | U+0100 is encoded and then decoded as U+0080 |
| RoundTrip.BitstreamOfWideCode | src/lib/steganography.ts:37 | the bit string of U+0100 is a one followed by sixteen zeros |
| RoundTrip.TruncateOneThenZeros | src/lib/steganography.ts:108-113 | reading a one and sixteen zeros, the scan stops after the second group |
| RoundTrip.CharsOfOneThenZeros | src/lib/steganography.ts:121-124 | a one and fifteen zeros without the terminator parse to the single code 128 |

## Left out

- Canvas handling, `drawImage`, `getImageData`, `putImageData`, `toDataURL` and the Promise plumbing (src/lib/steganography.ts:18-32, 67-70, 76-91) are browser I/O. The model takes the pixel bytes as an array and returns an outcome instead of resolving or rejecting.
- The "Canvas context not available" rejection depends on the browser, not on the inputs, and is not modelled.
- The printable-character test after decoding (lines 126-133) is not modelled: both of its branches resolve the same string, so it does not change the result.
- JavaScript numbers are floating point. `width * height * 3 / 8` and `data.length * 0.75` are modelled as exact integer arithmetic, which agrees for every image size a canvas can hold.
- Characters are UTF-16 code units (`CharCode`, below 65536). There is no model of surrogate pairs or of string encodings.
- The buffer's bytes are `bv8`. The clamping of `Uint8ClampedArray` never triggers, because every value written is already a byte.
- The user interface files around the codec are not part of this model.
- RoundTrip.RoundTrip: holds only for messages whose codes are below 256 and that contain no NUL. RoundTrip.NulEndsMessage and RoundTrip.WideCodeGarbled show what happens otherwise.
