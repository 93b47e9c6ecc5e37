/**
 * What encoding and decoding promise together: the bits the decoder reads
 * back from an encoded buffer are the bits the encoder wrote, so a message
 * of one-byte codes without a NUL character comes back unchanged, and a
 * message within the advertised capacity always passes the size check.
 */
module RoundTrip {
  import opened BitCodec
  import opened BitLayout
  import opened Seqs
  import Capacity
  import opened Encoder
  import opened Decoder

  /** Bit k read back from an embedded buffer: the written bit k, or the buffer's own past the written ones. */
  lemma LsbOfEmbed(d: seq<bv8>, bits: seq<Bit>, k: nat)
    requires k < ColorCount(|d|)
    ensures |Lsbs(Embed(d, bits))| == ColorCount(|d|)
    ensures Lsbs(Embed(d, bits))[k] == if k < |bits| then bits[k] else Lsbs(d)[k]
    ensures |bits| <= ColorCount(|d|) ==> Lsbs(Embed(d, bits))[k] == (bits + Lsbs(d)[|bits|..])[k]
  {
    PosInBounds(k, |d|);
    PosIsColorByte(k);
    if k < |bits| {
      EmbedSets(d, bits, Pos(k));
    } else {
      EmbedKeeps(d, bits, Pos(k));
    }
  }

  /** The decoder reads back the written bits first, then the untouched low bits of the colour bytes after them. */
  lemma LsbsOfEmbed(d: seq<bv8>, bits: seq<Bit>)
    requires |bits| <= ColorCount(|d|)
    ensures Lsbs(Embed(d, bits)) == bits + Lsbs(d)[|bits|..]
  {
    var l, r := Lsbs(Embed(d, bits)), bits + Lsbs(d)[|bits|..];
    assert |l| == |r|;
    forall k | 0 <= k < |l|
      ensures l[k] == r[k]
    {
      LsbOfEmbed(d, bits, k);
    }
  }

  /** No character of the message is NUL. */
  predicate NoNul(message: seq<CharCode>)
  {
    forall k :: 0 <= k < |message| ==> message[k] != 0
  }

  /**
   * For a message of one-byte codes without NUL, the scan reading any bits
   * that start with its bit string stops right after the terminator.
   */
  lemma TruncateBitstream(message: seq<CharCode>, rest: seq<Bit>)
    requires IsByteMessage(message) && NoNul(message)
    ensures Truncate(Bitstream(message) + rest) == Bitstream(message)
  {
    var b := Bitstream(message);
    var s := b + rest;
    var n := |message|;
    BitstreamLayout(message);
    forall g: nat | g < n
      ensures !ZeroGroup(s, g)
    {
      SliceBeforeSuffix(b, rest, 8 * g, 8 * g + 8);
      CharBitsIsZeros(message[g]);
    }
    SliceBeforeSuffix(b, rest, 8 * n, 8 * n + 8);
    assert b[8 * n..8 * n + 8] == b[8 * n..];
    TruncateAtGroup(s, n);
    assert s[..8 * n + 8] == b;
  }

  /** Dropping the last eight bits of the bit string leaves the payload. */
  lemma DropTerminatorOfBitstream(message: seq<CharCode>)
    ensures DropTerminator(Bitstream(message)) == Payload(message)
  {
  }

  /**
   * Decoding a buffer that holds the encoding of a message of one-byte codes
   * without NUL, in a buffer large enough for it, gives the message back.
   */
  lemma RoundTrip(d: seq<bv8>, message: seq<CharCode>)
    requires IsByteMessage(message) && NoNul(message)
    requires !TooLong(|Bitstream(message)|, |d|)
    ensures Decoded(Embed(d, Bitstream(message))) == message
  {
    var bits := Bitstream(message);
    ColorCountBound(|d|);
    LsbsOfEmbed(d, bits);
    TruncateBitstream(message, Lsbs(d)[|bits|..]);
    DropTerminatorOfBitstream(message);
    CharsOfPayload(message);
  }

  /** Encoding the empty message and decoding the buffer gives the empty message. */
  lemma EmptyMessageRoundTrip(d: seq<bv8>)
    requires !TooLong(8, |d|)
    ensures Decoded(Embed(d, Bitstream([]))) == []
  {
    RoundTrip(d, []);
  }

  /**
   * A NUL character is written as the terminator group, so decoding stops
   * there: what comes back is the part of the message before the first NUL.
   */
  lemma NulEndsMessage(d: seq<bv8>, before: seq<CharCode>, after: seq<CharCode>)
    requires IsByteMessage(before + [0] + after) && NoNul(before)
    requires !TooLong(|Bitstream(before + [0] + after)|, |d|)
    ensures Decoded(Embed(d, Bitstream(before + [0] + after))) == before
  {
    var message := before + [0] + after;
    var bits := Bitstream(message);
    ColorCountBound(|d|);
    LsbsOfEmbed(d, bits);
    var tail, unwritten := Payload(after) + Terminator, Lsbs(d)[|bits|..];
    var rest := tail + unwritten;
    BitstreamAtNul(before, after);
    AppendAssociative(Bitstream(before), tail, unwritten);
    PrefixIsByteMessage(before, message);
    TruncateBitstream(before, rest);
    DropTerminatorOfBitstream(before);
    CharsOfPayload(before);
  }

  /** The bit string of a message with a NUL is the bit string of the part before it, then more bits. */
  lemma BitstreamAtNul(before: seq<CharCode>, after: seq<CharCode>)
    ensures Bitstream(before + [0] + after) == Bitstream(before) + (Payload(after) + Terminator)
  {
    var p, q := Payload(before), Payload(after);
    assert before + [0] + after == before + ([0] + after);
    PayloadConcat(before, [0] + after);
    PayloadConcat([0], after);
    PayloadOfNul();
    calc {
      Bitstream(before + [0] + after);
      (p + (Terminator + q)) + Terminator;
      { AppendAssociative(p, Terminator, q); }
      ((p + Terminator) + q) + Terminator;
      { AppendAssociative(p + Terminator, q, Terminator); }
      (p + Terminator) + (q + Terminator);
    }
  }

  /** A NUL character is written as eight zero bits, the terminator. */
  lemma PayloadOfNul()
    ensures Payload([0]) == Terminator
  {
    CharBitsIsZeros(0);
    assert [0][1..] == [];
  }

  lemma PrefixIsByteMessage(a: seq<CharCode>, m: seq<CharCode>)
    requires IsByteMessage(m) && |a| <= |m| && m[..|a|] == a
    ensures IsByteMessage(a)
  {
    forall k | 0 <= k < |a|
      ensures a[k] < 256
    {
      assert a[k] == m[k];
    }
  }

  /**
   * The capacity shown to the user is safe: a message of one-byte codes no
   * longer than the capacity of a width x height image always passes the
   * size check on its RGBA buffer of 4 * width * height bytes.
   */
  lemma CapacitySafety(width: nat, height: nat, message: seq<CharCode>)
    requires IsByteMessage(message)
    requires |message| <= Capacity.Capacity(width, height)
    ensures !TooLong(|Bitstream(message)|, 4 * (width * height))
  {
    PayloadLength(message);
  }

  /** Codes of 256 or more take at least nine digits each. */
  lemma {:induction false} PayloadOfWideCodes(message: seq<CharCode>)
    requires forall k :: 0 <= k < |message| ==> message[k] >= 256
    ensures |Payload(message)| >= 9 * |message|
  {
    if message != [] {
      CharBitsOfWideCode(message[0]);
      PayloadOfWideCodes(message[1..]);
    }
  }

  /**
   * The capacity counts characters, not digits, so it is safe only for
   * one-byte codes: 3650 code units of 256 or more are within the capacity of
   * a 100x100 image, yet their bit string is refused by the size check.
   */
  lemma WideCodesWithinCapacityRefused(message: seq<CharCode>)
    requires |message| == 3650
    requires forall k :: 0 <= k < |message| ==> message[k] >= 256
    ensures |message| <= Capacity.Capacity(100, 100)
    ensures TooLong(|Bitstream(message)|, 4 * (100 * 100))
  {
    Capacity.CapacityExamples();
    PayloadOfWideCodes(message);
  }

  /**
   * A code above 255 is not cut to eight digits, so the groups slip: the
   * character U+0100 is written as nine digits, "100000000", and what the
   * decoder reads back is the single character U+0080.
   */
  lemma WideCodeGarbled(d: seq<bv8>)
    requires !TooLong(|Bitstream([256])|, |d|)
    ensures Decoded(Embed(d, Bitstream([256]))) == [128]
  {
    var bits := Bitstream([256]);
    BitstreamOfWideCode();
    ColorCountBound(|d|);
    LsbsOfEmbed(d, bits);
    TruncateOneThenZeros(Lsbs(d)[|bits|..]);
    CharsOfOneThenZeros();
  }

  /** The bit string of U+0100 is a one followed by sixteen zeros. */
  lemma BitstreamOfWideCode()
    ensures Bitstream([256]) == [1] + Zeros(16)
  {
    assert Pow2(8) == 256;
    BinaryOfPower(8);
    CharBitsOfWideCode(256);
    assert Payload([256]) == [1] + Zeros(8) by {
      assert [256][1..] == [];
    }
    TerminatorIsZero();
    var l, r := ([1] + Zeros(8)) + Zeros(8), [1] + Zeros(16);
    assert |l| == |r|;
    forall t | 0 <= t < |l|
      ensures l[t] == r[t]
    {
      if 0 < t <= 8 {
        assert l[t] == Zeros(8)[t - 1];
      } else if t > 8 {
        assert l[t] == Zeros(8)[t - 9];
      }
    }
  }

  /** Reading a one and sixteen zeros, the scan stops after the second group. */
  lemma TruncateOneThenZeros(rest: seq<Bit>)
    ensures Truncate([1] + Zeros(16) + rest) == [1] + Zeros(15)
  {
    var s := [1] + Zeros(16) + rest;
    TerminatorIsZero();
    assert !ZeroGroup(s, 0) by {
      assert s[0..8][0] == 1;
    }
    assert ZeroGroup(s, 1) by {
      var g := s[8..16];
      forall t | 0 <= t < 8
        ensures g[t] == Terminator[t]
      {
        assert g[t] == Zeros(16)[t + 7];
      }
    }
    TruncateAtGroup(s, 1);
    var l, r := s[..16], [1] + Zeros(15);
    forall t | 0 <= t < 16
      ensures l[t] == r[t]
    {
      if t > 0 {
        assert l[t] == Zeros(16)[t - 1] && r[t] == Zeros(15)[t - 1];
      }
    }
  }

  /** Dropping the terminator from a one and fifteen zeros leaves the group of 128. */
  lemma CharsOfOneThenZeros()
    ensures Chars(DropTerminator([1] + Zeros(15))) == [128]
  {
    var first := [1] + Zeros(7);
    var l := DropTerminator([1] + Zeros(15));
    forall t | 0 <= t < 8
      ensures l[t] == first[t]
    {
      if t > 0 {
        assert l[t] == Zeros(15)[t - 1] && first[t] == Zeros(7)[t - 1];
      }
    }
    assert l == first;
    FromBitsOfPower(7);
    assert Pow2(7) == 128;
    assert first[..8] == first && first[8..] == [];
  }
}
