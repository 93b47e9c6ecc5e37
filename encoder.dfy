/**
 * The embedding core of `encodeMessage`: build the bit string of the message,
 * refuse it when it is longer than three quarters of the buffer, and otherwise
 * write it, one bit per colour byte, into the buffer in place.
 */
module Encoder {
  import opened BitCodec
  import opened BitLayout

  datatype Outcome = Encoded | MessageTooLong

  /** The size check: `binaryMessage.length > data.length * 0.75`, in integers. */
  predicate TooLong(bitCount: nat, len: nat)
  {
    4 * bitCount > 3 * len
  }

  /** Concatenates the padded digits of each character, then appends "00000000". */
  method BuildBitstream(message: seq<CharCode>) returns (bits: seq<Bit>)
    ensures bits == Bitstream(message)
  {
    bits := [];
    for i := 0 to |message|
      invariant bits == Payload(message[..i])
    {
      PayloadPrefix(message, i);
      bits := bits + CharBits(message[i]);
    }
    assert message[..|message|] == message;
    bits := bits + Terminator;
  }

  /**
   * Writing bit i of the stream changes only the byte at Pos(i), which had not
   * been written before.
   */
  lemma EmbedStep(d: seq<bv8>, bits: seq<Bit>, i: nat)
    requires i < |bits| && Pos(i) < |d|
    ensures Embed(d, bits[..i + 1]) == Embed(d, bits[..i])[Pos(i) := SetLsb(d[Pos(i)], bits[i])]
  {
    var lhs := Embed(d, bits[..i + 1]);
    var rhs := Embed(d, bits[..i])[Pos(i) := SetLsb(d[Pos(i)], bits[i])];
    PosIsColorByte(i);
    forall j | 0 <= j < |d|
      ensures lhs[j] == rhs[j]
    {
      if !IsAlpha(j) && j != Pos(i) {
        PosOfColorCount(j);
      }
    }
  }

  /**
   * One turn of the write loop, from cursor c with bits 0 to i-1 written: the
   * alpha skip brings the cursor to p, the colour byte of bit i, inside the
   * buffer and untouched so far; writing `(byte & 0xFE) | bit` there writes
   * one more bit, and p + 1 is the next turn's cursor.
   */
  lemma WriteStep(original: seq<bv8>, bits: seq<Bit>, i: nat, c: int, p: int, current: seq<bv8>)
    requires !TooLong(|bits|, |original|) && i < |bits|
    requires c == Cursor(i) && p == (if (c + 1) % 4 == 0 then c + 1 else c)
    requires current == Embed(original, bits[..i])
    ensures 0 <= p < |current| && p + 1 == Cursor(i + 1)
    ensures current[p := (current[p] & 0xFE) | BitByte(bits[i])] == Embed(original, bits[..i + 1])
  {
    CursorSkipsAlpha(i);
    ColorCountBound(|original|);
    PosInBounds(i, |original|);
    EmbedNext(original, bits, i, current);
  }

  /** Writing bit i into the byte at Pos(i), which still holds its original value, extends the embedding by one bit. */
  lemma EmbedNext(original: seq<bv8>, bits: seq<Bit>, i: nat, current: seq<bv8>)
    requires i < |bits| && Pos(i) < |original|
    requires current == Embed(original, bits[..i])
    ensures current[Pos(i) := (current[Pos(i)] & 0xFE) | BitByte(bits[i])] == Embed(original, bits[..i + 1])
  {
    PosIsColorByte(i);
    EmbedKeeps(original, bits[..i], Pos(i));
    EmbedStep(original, bits, i);
  }

  /**
   * The write cursor at the top of iteration i, before the alpha skip: one
   * past the previous bit's byte, which lands on an alpha byte after every
   * third bit.
   */
  ghost function Cursor(i: nat): int
  {
    if 0 < i && i % 3 == 0 then Pos(i) - 1 else Pos(i)
  }

  /** The skip test moves the cursor onto Pos(i); one step past it is the next cursor. */
  lemma CursorSkipsAlpha(i: nat)
    ensures (if (Cursor(i) + 1) % 4 == 0 then Cursor(i) + 1 else Cursor(i)) == Pos(i)
    ensures Cursor(i + 1) == Pos(i) + 1
  {
    var q, r := i / 3, i % 3;
    assert i == 3 * q + r && Pos(i) == 4 * q + r;
    if r == 0 && q > 0 {
      assert Cursor(i) + 1 == 4 * q;
      assert (4 * q) % 4 == 0;
    } else {
      assert Cursor(i) + 1 == 4 * q + r + 1;
      assert (4 * q + r + 1) % 4 == r + 1;
    }
    if r == 2 {
      assert i + 1 == 3 * (q + 1);
      assert (i + 1) / 3 == q + 1 && (i + 1) % 3 == 0;
    } else {
      assert i + 1 == 3 * q + (r + 1);
      assert (i + 1) / 3 == q && (i + 1) % 3 == r + 1;
    }
  }

  /**
   * The TypeScript `encodeMessage` on the image's byte array. On success the
   * buffer is the input with the bit stream written into the colour bytes; on
   * "Message too long" it is untouched.
   */
  method Encode(data: array<bv8>, message: seq<CharCode>) returns (outcome: Outcome)
    modifies data
    ensures outcome == MessageTooLong <==> TooLong(|Bitstream(message)|, data.Length)
    ensures outcome == MessageTooLong ==> data[..] == old(data[..])
    ensures outcome == Encoded ==> data[..] == Embed(old(data[..]), Bitstream(message))
  {
    var bits := BuildBitstream(message);
    if TooLong(|bits|, data.Length) {
      return MessageTooLong;
    }
    WriteBits(data, bits);
    return Encoded;
  }

  /**
   * The write loop of `encodeMessage`: a cursor walks the buffer, steps over
   * each alpha byte it meets, and puts bit i into the low bit of the byte it
   * stands on.
   */
  method WriteBits(data: array<bv8>, bits: seq<Bit>)
    requires !TooLong(|bits|, data.Length)
    modifies data
    ensures data[..] == Embed(old(data[..]), bits)
  {
    ghost var original := data[..];
    var dataIndex := 0;
    for i := 0 to |bits|
      invariant dataIndex == Cursor(i)
      invariant data[..] == Embed(original, bits[..i])
    {
      ghost var cursor := dataIndex;
      if (dataIndex + 1) % 4 == 0 {
        dataIndex := dataIndex + 1;
      }
      WriteStep(original, bits, i, cursor, dataIndex, data[..]);
      data[dataIndex] := (data[dataIndex] & 0xFE) | BitByte(bits[i]);
      dataIndex := dataIndex + 1;
    }
    assert bits[..|bits|] == bits;
  }

  /** Bit i of an accepted stream lands in the colour byte Pos(i), inside the buffer, upper bits kept. */
  lemma EmbedWritesBit(d: seq<bv8>, bits: seq<Bit>, i: nat)
    requires !TooLong(|bits|, |d|)
    requires i < |bits|
    ensures Pos(i) < |d| && !IsAlpha(Pos(i))
    ensures Lsb(Embed(d, bits)[Pos(i)]) == bits[i]
    ensures Embed(d, bits)[Pos(i)] & 0xFE == d[Pos(i)] & 0xFE
  {
    ColorCountBound(|d|);
    PosInBounds(i, |d|);
    PosIsColorByte(i);
    SetLsbChangesLowBitOnly(d[Pos(i)], bits[i]);
  }

  /**
   * What embedding may change: the length stays, no byte moves by more than
   * one, alpha bytes and bytes past the last written index are untouched.
   */
  lemma EmbedFrame(d: seq<bv8>, bits: seq<Bit>, j: nat)
    requires j < |d|
    ensures |Embed(d, bits)| == |d|
    ensures Embed(d, bits)[j] & 0xFE == d[j] & 0xFE
    ensures -1 <= Embed(d, bits)[j] as int - d[j] as int <= 1
    ensures IsAlpha(j) ==> Embed(d, bits)[j] == d[j]
    ensures (bits == [] || j > Pos(|bits| - 1)) ==> Embed(d, bits)[j] == d[j]
  {
    if !IsAlpha(j) && bits != [] && j > Pos(|bits| - 1) {
      PosOfColorCount(j);
    }
  }

  /** For a one-byte message, the size check fails exactly when 32 * (|message| + 1) exceeds three times the buffer length. */
  lemma TooLongForByteMessage(message: seq<CharCode>, len: nat)
    requires IsByteMessage(message)
    ensures TooLong(|Bitstream(message)|, len) <==> 32 * (|message| + 1) > 3 * len
  {
    BitstreamLayout(message);
  }

  /** A 10x10 image (400 bytes) refuses a 40-character message: 328 bits exceed 300. */
  lemma TooLongExample(message: seq<CharCode>)
    requires IsByteMessage(message) && |message| == 40
    ensures TooLong(|Bitstream(message)|, 400)
  {
    BitstreamLayout(message);
  }
}
