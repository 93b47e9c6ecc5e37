/**
 * The extraction core of `decodeMessage`: read the least significant bit of
 * every colour byte in index order, stop after the first aligned group of
 * eight that is all zero, drop the last eight bits read and parse the rest in
 * groups of eight. There is no failure: a buffer without a zero group is read
 * to its end and decoded all the same.
 */
module Decoder {
  import opened BitCodec
  import opened BitLayout
  import opened Seqs

  /** Group g (bits 8g to 8g+7) of s is present and equal to the terminator. */
  predicate ZeroGroup(s: seq<Bit>, g: nat)
  {
    8 * g + 8 <= |s| && s[8 * g..8 * g + 8] == Terminator
  }

  /** None of the groups 0 to k-1 of s is a zero group. */
  ghost predicate NoZeroGroupBefore(s: seq<Bit>, k: nat)
  {
    forall g: nat :: g < k ==> !ZeroGroup(s, g)
  }

  /** No group of s is a zero group. */
  ghost predicate NoZeroGroup(s: seq<Bit>)
  {
    forall g: nat :: !ZeroGroup(s, g)
  }

  /** The bits the reading loop has collected when it stops. */
  function Truncate(s: seq<Bit>): seq<Bit>
    decreases |s|
  {
    if |s| < 8 then s
    else if s[..8] == Terminator then s[..8]
    else s[..8] + Truncate(s[8..])
  }

  /** `slice(0, -8)`: every bit but the last eight, and nothing when fewer than eight were read. */
  function DropTerminator(bits: seq<Bit>): seq<Bit>
  {
    if |bits| >= 8 then bits[..|bits| - 8] else []
  }

  /** The message that decoding the buffer d yields. */
  function Decoded(d: seq<bv8>): seq<CharCode>
  {
    Chars(DropTerminator(Truncate(Lsbs(d))))
  }

  /** Dropping the first group renumbers the remaining groups. */
  lemma ZeroGroupAfterFirst(s: seq<Bit>, g: nat)
    requires |s| >= 8
    ensures ZeroGroup(s, g + 1) == ZeroGroup(s[8..], g)
  {
    if 8 * g + 16 <= |s| {
      SliceOfSuffix(s, 8, 8 * g, 8 * g + 8);
    }
  }

  /**
   * A scan that has passed k whole groups, none of them zero, has kept all of
   * them and leaves the rest of the bits to Truncate.
   */
  lemma {:induction false} TruncateAfterScan(s: seq<Bit>, k: nat)
    requires 8 * k <= |s|
    requires NoZeroGroupBefore(s, k)
    ensures Truncate(s) == s[..8 * k] + Truncate(s[8 * k..])
  {
    if k == 0 {
      assert s[0..] == s && s[..0] == [];
    } else {
      var rest := s[8..];
      TruncateFirstGroup(s);
      NoZeroGroupAfterFirst(s, k - 1);
      TruncateAfterScan(rest, k - 1);
      assert rest[8 * (k - 1)..] == s[8 * k..];
      PrefixSplit(s, 8, 8 * (k - 1));
      AppendAssociative(s[..8], rest[..8 * (k - 1)], Truncate(s[8 * k..]));
    }
  }

  /** A first group that is not zero is kept, and the scan goes on after it. */
  lemma TruncateFirstGroup(s: seq<Bit>)
    requires |s| >= 8 && !ZeroGroup(s, 0)
    ensures Truncate(s) == s[..8] + Truncate(s[8..])
  {
    assert s[0..8] == s[..8];
  }

  /** Passing the first group keeps the remaining groups free of zero groups. */
  lemma NoZeroGroupAfterFirst(s: seq<Bit>, k: nat)
    requires |s| >= 8 && NoZeroGroupBefore(s, k + 1)
    ensures NoZeroGroupBefore(s[8..], k)
  {
    forall g: nat | g < k
      ensures !ZeroGroup(s[8..], g)
    {
      ZeroGroupAfterFirst(s, g);
    }
  }

  /** The scan stops right after the first zero group, k, keeping 8 * k + 8 bits. */
  lemma TruncateAtGroup(s: seq<Bit>, k: nat)
    requires NoZeroGroupBefore(s, k) && ZeroGroup(s, k)
    ensures Truncate(s) == s[..8 * k + 8]
  {
    TruncateAfterScan(s, k);
    var rest := s[8 * k..];
    assert rest[..8] == s[8 * k..8 * k + 8];
    PrefixSplit(s, 8 * k, 8);
  }

  /** A scan that reaches the end of the bits without a zero group keeps them all. */
  lemma TruncateToEnd(s: seq<Bit>, k: nat)
    requires 8 * k <= |s| < 8 * k + 8
    requires NoZeroGroupBefore(s, k)
    ensures Truncate(s) == s
  {
    TruncateAfterScan(s, k);
    assert s[..8 * k] + s[8 * k..] == s;
  }

  /** Any zero group has a first one before or at it. */
  lemma {:induction false} FirstZeroGroup(s: seq<Bit>, g: nat) returns (m: nat)
    requires ZeroGroup(s, g)
    ensures m <= g && ZeroGroup(s, m) && NoZeroGroupBefore(s, m)
    decreases g
  {
    if NoZeroGroupBefore(s, g) {
      m := g;
    } else {
      var g': nat :| g' < g && ZeroGroup(s, g');
      m := FirstZeroGroup(s, g');
    }
  }

  /**
   * With an aligned all-zero group, the scan stops right after the first one,
   * group m: it keeps 8 * m + 8 bits and saw no zero group before.
   */
  lemma TruncateAtFirstZeroGroup(s: seq<Bit>) returns (m: nat)
    requires !NoZeroGroup(s)
    ensures ZeroGroup(s, m) && NoZeroGroupBefore(s, m)
    ensures Truncate(s) == s[..8 * m + 8]
  {
    var g: nat :| ZeroGroup(s, g);
    m := FirstZeroGroup(s, g);
    TruncateAtGroup(s, m);
  }

  /** Without an aligned all-zero group the scan reads everything. */
  lemma TruncateWithoutZeroGroup(s: seq<Bit>)
    requires NoZeroGroup(s)
    ensures Truncate(s) == s
  {
    TruncateToEnd(s, |s| / 8);
  }

  /** One more bit completes a group exactly when it reaches the next multiple of eight. */
  lemma GroupCompletes(k: nat, n: nat)
    requires 8 * k <= n < 8 * k + 8
    ensures (n + 1) % 8 == 0 <==> n + 1 == 8 * k + 8
  {
  }

  /** An alpha byte adds no bit. */
  lemma SkipStep(j: nat)
    requires (j + 1) % 4 == 0
    ensures ColorCount(j + 1) == ColorCount(j)
  {
  }

  /** The scan passes one more group that is not the terminator. */
  lemma NoZeroGroupExtend(s: seq<Bit>, k: nat)
    requires NoZeroGroupBefore(s, k)
    requires 8 * k + 8 <= |s| && s[8 * k..8 * k + 8] != Terminator
    ensures NoZeroGroupBefore(s, k + 1)
  {
  }

  /** Reading colour byte j, after the bits of the colour bytes before it, extends the bits read by one. */
  lemma ReadStep(d: seq<bv8>, j: nat, bits: seq<Bit>)
    requires j < |d| && (j + 1) % 4 != 0
    requires |bits| == ColorCount(j) <= |Lsbs(d)| && bits == Lsbs(d)[..|bits|]
    ensures |bits| + 1 == ColorCount(j + 1) <= |Lsbs(d)|
    ensures bits + [Lsb(d[j])] == Lsbs(d)[..|bits| + 1]
  {
    AlphaTest(j);
    PosOfColorCount(j);
    PosInBounds(ColorCount(j), |d|);
    LsbsAt(d, ColorCount(j));
    PrefixExtend(Lsbs(d), |bits|);
  }

  /**
   * The reading loop of `decodeMessage`: collect the LSB of every colour byte
   * until a completed group of eight is all zero, or the buffer ends.
   */
  method CollectBits(data: array<bv8>) returns (bits: seq<Bit>)
    ensures bits == Truncate(Lsbs(data[..]))
  {
    ghost var s := Lsbs(data[..]);
    ghost var groups, found := 0, false;
    bits := [];
    var current := 0;
    while current < data.Length
      invariant 0 <= current <= data.Length
      invariant |bits| == ColorCount(current) <= |s|
      invariant bits == s[..|bits|]
      invariant 8 * groups <= |bits| < 8 * groups + 8
      invariant NoZeroGroupBefore(s, groups)
      invariant !found
    {
      if (current + 1) % 4 == 0 {
        SkipStep(current);
        current := current + 1;
        continue;
      }
      ReadStep(data[..], current, bits);
      GroupCompletes(groups, |bits|);
      bits := bits + [Lsb(data[current])];
      current := current + 1;
      if |bits| % 8 == 0 {
        assert bits[|bits| - 8..] == s[8 * groups..8 * groups + 8];
        if bits[|bits| - 8..] == Terminator {
          found := true;
          break;
        }
        NoZeroGroupExtend(s, groups);
        groups := groups + 1;
      }
    }
    if found {
      TruncateAtGroup(s, groups);
    } else {
      assert bits == s;
      TruncateToEnd(s, groups);
    }
  }

  /** The characters from bit i on: the group at i, then the characters after it. */
  lemma CharsStep(clean: seq<Bit>, i: nat)
    requires i < |clean|
    ensures Chars(clean[i..]) == [CharOf(clean[i..Min(i + 8, |clean|)])] + Chars(clean[Min(i + 8, |clean|)..])
  {
    var r := clean[i..];
    assert r[..Min(8, |r|)] == clean[i..Min(i + 8, |clean|)];
    assert r[Min(8, |r|)..] == clean[Min(i + 8, |clean|)..];
  }

  /** The conversion loop of `decodeMessage`: one character code per group of up to eight bits. */
  method BitsToChars(clean: seq<Bit>) returns (message: seq<CharCode>)
    ensures message == Chars(clean)
  {
    message := [];
    var i := 0;
    while i < |clean|
      invariant 0 <= i
      invariant Chars(clean) == message + Chars(clean[Min(i, |clean|)..])
    {
      var group := clean[i..Min(i + 8, |clean|)];
      CharsStep(clean, i);
      AppendAssociative(message, [CharOf(group)], Chars(clean[Min(i + 8, |clean|)..]));
      message := message + [CharOf(group)];
      i := i + 8;
    }
  }

  /**
   * The TypeScript `decodeMessage` on the image's byte array: collect the bits,
   * drop the terminator group and turn the rest into character codes.
   */
  method Decode(data: array<bv8>) returns (message: seq<CharCode>)
    ensures message == Decoded(data[..])
  {
    var bits := CollectBits(data);
    message := BitsToChars(DropTerminator(bits));
  }

  /** When the first eight colour-byte LSBs are all zero the message is empty. */
  lemma EmptyWhenFirstGroupZero(d: seq<bv8>)
    requires ColorCount(|d|) >= 8
    requires Lsbs(d)[..8] == Terminator
    ensures Decoded(d) == []
  {
  }

  /** A buffer with fewer than eight colour bytes decodes to the empty message. */
  lemma EmptyWhenFewerThanEightColourBytes(d: seq<bv8>)
    requires ColorCount(|d|) < 8
    ensures Decoded(d) == []
  {
    assert |Lsbs(d)| < 8;
  }

  /**
   * A buffer with no aligned zero group is still decoded: every bit read but
   * the last eight is parsed.
   */
  lemma DecodedWithoutTerminator(d: seq<bv8>)
    requires NoZeroGroup(Lsbs(d))
    ensures Decoded(d) == Chars(DropTerminator(Lsbs(d)))
  {
    TruncateWithoutZeroGroup(Lsbs(d));
  }
}
