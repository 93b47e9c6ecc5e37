/**
 * The text-to-bits conversion of the codec: a character code becomes its
 * binary digits (`toString(2)`), left-padded with zeros to eight digits
 * (`padStart(8, "0")`), and a group of binary digits becomes a number again
 * (`parseInt(group, 2)`). A bit is one character of the binary string.
 */
module BitCodec {
  import opened Seqs

  /** One binary digit, the character '0' or '1' of the TypeScript's bit strings. */
  type Bit = b: int | 0 <= b <= 1

  /** A UTF-16 code unit, what `charCodeAt` returns and `fromCharCode` takes. */
  type CharCode = c: int | 0 <= c < 0x1_0000

  function Pow2(n: nat): (p: nat)
    ensures p >= 1
  {
    if n == 0 then 1 else 2 * Pow2(n - 1)
  }

  lemma {:induction false} Pow2Monotone(m: nat, n: nat)
    requires m <= n
    ensures Pow2(m) <= Pow2(n)
  {
    if m < n { Pow2Monotone(m, n - 1); }
  }

  /** `n` zero digits: the terminator when n is 8, padding otherwise. */
  function Zeros(n: nat): (z: seq<Bit>)
    ensures |z| == n
    ensures forall k :: 0 <= k < n ==> z[k] == 0
  {
    seq(n, _ => 0)
  }

  /** The "00000000" group that ends the bit string. */
  const Terminator: seq<Bit> := [0, 0, 0, 0, 0, 0, 0, 0]

  lemma TerminatorIsZero()
    ensures Terminator == Zeros(8)
    ensures FromBits(Terminator) == 0
  {
    assert Terminator == Zeros(8);
    FromBitsLeadingZeros(8, []);
    assert Zeros(8) + [] == Zeros(8);
  }

  /** `c.toString(2)`: the binary digits of c, most significant first, without leading zeros. */
  function Binary(c: nat): (s: seq<Bit>)
    ensures |s| >= 1
  {
    if c < 2 then [c] else Binary(c / 2) + [c % 2]
  }

  /** `s.padStart(n, "0")`: never shortens a string that is already n digits or longer. */
  function PadStart(s: seq<Bit>, n: nat): (p: seq<Bit>)
    ensures |p| >= n && |p| >= |s|
  {
    if |s| < n then Zeros(n - |s|) + s else s
  }

  /** The eight (or more) digits the encoder emits for one character code. */
  function CharBits(c: nat): seq<Bit>
  {
    PadStart(Binary(c), 8)
  }

  /** `parseInt(s, 2)` of a string of binary digits, most significant first. */
  function FromBits(s: seq<Bit>): (v: nat)
    ensures v < Pow2(|s|)
  {
    if s == [] then 0 else 2 * FromBits(s[..|s| - 1]) + s[|s| - 1]
  }

  lemma {:induction false} FromBitsOfBinary(c: nat)
    ensures FromBits(Binary(c)) == c
  {
    if c >= 2 {
      FromBitsOfBinary(c / 2);
      var s := Binary(c / 2) + [c % 2];
      assert s[..|s| - 1] == Binary(c / 2);
    }
  }

  lemma {:induction false} FromBitsLeadingZeros(k: nat, s: seq<Bit>)
    ensures FromBits(Zeros(k) + s) == FromBits(s)
    decreases |s|, k
  {
    if s == [] {
      assert Zeros(k) + s == Zeros(k);
      if k > 0 {
        assert Zeros(k)[..k - 1] == Zeros(k - 1);
        FromBitsLeadingZeros(k - 1, []);
        assert Zeros(k - 1) + [] == Zeros(k - 1);
      }
    } else {
      var t := Zeros(k) + s;
      assert t[..|t| - 1] == Zeros(k) + s[..|s| - 1];
      FromBitsLeadingZeros(k, s[..|s| - 1]);
    }
  }

  /** A one followed by n zeros, split before its last digit. */
  lemma OneZerosSplit(n: nat)
    requires n > 0
    ensures [1] + Zeros(n) == ([1] + Zeros(n - 1)) + [0]
  {
    var l, r := [1] + Zeros(n), ([1] + Zeros(n - 1)) + [0];
    assert |l| == |r|;
    forall t | 0 <= t < |l|
      ensures l[t] == r[t]
    {
      if t > 0 && t < n {
        assert l[t] == Zeros(n)[t - 1] && r[t] == Zeros(n - 1)[t - 1];
      }
    }
  }

  /** 2^n is written as a one followed by n zeros. */
  lemma {:induction false} BinaryOfPower(n: nat)
    ensures Binary(Pow2(n)) == [1] + Zeros(n)
  {
    if n > 0 {
      BinaryOfPower(n - 1);
      var p := Pow2(n - 1);
      assert Pow2(n) == 2 * p && (2 * p) / 2 == p && (2 * p) % 2 == 0;
      OneZerosSplit(n);
    }
  }

  /** A one followed by n zeros is the binary number 2^n. */
  lemma {:induction false} FromBitsOfPower(n: nat)
    ensures FromBits([1] + Zeros(n)) == Pow2(n)
  {
    if n > 0 {
      FromBitsOfPower(n - 1);
      OneZerosSplit(n);
      var s := ([1] + Zeros(n - 1)) + [0];
      assert s[..|s| - 1] == [1] + Zeros(n - 1);
    }
  }

  /** `toString(2)` has at most n digits exactly when the code is below 2^n. */
  lemma {:induction false} BinaryLength(c: nat, n: nat)
    requires n >= 1
    ensures |Binary(c)| <= n <==> c < Pow2(n)
  {
    if c >= 2 {
      if n == 1 {
        assert |Binary(c / 2)| >= 1;
      } else {
        BinaryLength(c / 2, n - 1);
      }
    } else {
      Pow2Monotone(1, n);
    }
  }

  /** A code of one byte becomes exactly eight digits. */
  lemma CharBitsLength(c: nat)
    requires c < 256
    ensures |CharBits(c)| == 8
  {
    BinaryLength(c, 8);
  }

  /** A code of one byte becomes exactly eight digits that parse back to it. */
  lemma CharBitsOfByte(c: nat)
    requires c < 256
    ensures |CharBits(c)| == 8
    ensures FromBits(CharBits(c)) == c
  {
    CharBitsLength(c);
    FromBitsOfBinary(c);
    FromBitsLeadingZeros(8 - |Binary(c)|, Binary(c));
  }

  /** `padStart` does not truncate: a code above 255 yields more than eight digits. */
  lemma CharBitsOfWideCode(c: nat)
    requires c >= 256
    ensures |CharBits(c)| > 8
  {
    BinaryLength(c, 8);
  }

  /** Among one-byte codes, only 0 is written as the all-zero terminator group. */
  lemma CharBitsIsZeros(c: nat)
    requires c < 256
    ensures CharBits(c) == Terminator <==> c == 0
  {
    CharBitsOfByte(c);
    TerminatorIsZero();
    if c == 0 {
      assert Binary(0) == [0];
      assert CharBits(0) == Zeros(7) + [0];
    }
  }

  /** The concatenated digits of every character code of the message, in order. */
  function Payload(message: seq<CharCode>): seq<Bit>
  {
    if message == [] then [] else CharBits(message[0]) + Payload(message[1..])
  }

  /** The encoder's bit string: the payload followed by the "00000000" terminator. */
  function Bitstream(message: seq<CharCode>): seq<Bit>
  {
    Payload(message) + Terminator
  }

  predicate IsByteMessage(message: seq<CharCode>)
  {
    forall k :: 0 <= k < |message| ==> message[k] < 256
  }

  lemma {:induction false} PayloadAppend(message: seq<CharCode>, c: CharCode)
    ensures Payload(message + [c]) == Payload(message) + CharBits(c)
  {
    if message == [] {
      assert [c][1..] == [];
    } else {
      assert (message + [c])[1..] == message[1..] + [c];
      PayloadAppend(message[1..], c);
    }
  }

  /** The payload of a prefix one character longer: the encoding loop's step. */
  lemma PayloadPrefix(message: seq<CharCode>, i: nat)
    requires i < |message|
    ensures Payload(message[..i + 1]) == Payload(message[..i]) + CharBits(message[i])
  {
    assert message[..i + 1] == message[..i] + [message[i]];
    PayloadAppend(message[..i], message[i]);
  }

  /** The payload of two messages one after the other is the two payloads one after the other. */
  lemma {:induction false} PayloadConcat(a: seq<CharCode>, b: seq<CharCode>)
    ensures Payload(a + b) == Payload(a) + Payload(b)
    decreases |b|
  {
    if b == [] {
      assert a + b == a;
    } else {
      var init, last := b[..|b| - 1], b[|b| - 1];
      assert b == init + [last];
      assert a + b == (a + init) + [last];
      PayloadConcat(a, init);
      PayloadAppend(a + init, last);
      PayloadAppend(init, last);
    }
  }

  /** For a message of one-byte codes, the payload has eight digits per character. */
  lemma {:induction false} PayloadLength(message: seq<CharCode>)
    requires IsByteMessage(message)
    ensures |Payload(message)| == 8 * |message|
  {
    if message != [] {
      CharBitsLength(message[0]);
      PayloadLength(message[1..]);
    }
  }

  /** For a message of one-byte codes, group k of the payload holds the digits of character k. */
  lemma {:induction false} PayloadGroup(message: seq<CharCode>, k: nat)
    requires IsByteMessage(message) && k < |message|
    ensures |Payload(message)| == 8 * |message|
    ensures Payload(message)[8 * k..8 * k + 8] == CharBits(message[k])
  {
    PayloadLength(message);
    CharBitsLength(message[0]);
    var rest := message[1..];
    var head, tail := CharBits(message[0]), Payload(rest);
    if k == 0 {
      assert Payload(message)[..8] == head;
    } else {
      assert IsByteMessage(rest) && rest[k - 1] == message[k];
      PayloadGroup(rest, k - 1);
      var lo := 8 * (k - 1);
      SliceAfterPrefix(head, tail, lo + 8, lo + 16);
      assert Payload(message) == head + tail;
    }
  }

  /** The layout of the payload of a one-byte message, every group at once. */
  lemma PayloadLayout(message: seq<CharCode>)
    requires IsByteMessage(message)
    ensures |Payload(message)| == 8 * |message|
    ensures forall k :: 0 <= k < |message| ==> Payload(message)[8 * k..8 * k + 8] == CharBits(message[k])
  {
    PayloadLength(message);
    forall k | 0 <= k < |message|
      ensures Payload(message)[8 * k..8 * k + 8] == CharBits(message[k])
    {
      PayloadGroup(message, k);
    }
  }

  /** For a message of one-byte codes the bit string is 8 * (|message| + 1) digits, ending in the terminator. */
  lemma BitstreamLayout(message: seq<CharCode>)
    requires IsByteMessage(message)
    ensures |Bitstream(message)| == 8 * (|message| + 1)
    ensures forall k :: 0 <= k < |message| ==> Bitstream(message)[8 * k..8 * k + 8] == CharBits(message[k])
    ensures Bitstream(message)[8 * |message|..] == Terminator
  {
    PayloadLayout(message);
    var p := Payload(message);
    var b := p + Terminator;
    forall k | 0 <= k < |message|
      ensures b[8 * k..8 * k + 8] == CharBits(message[k])
    {
      assert b[8 * k..8 * k + 8] == p[8 * k..8 * k + 8];
    }
  }

  /**
   * String.fromCharCode of each 8-digit group, as the decoder's final loop does
   * with `slice(i, i + 8)`: a last group shorter than eight digits is parsed as it is.
   */
  function Chars(bits: seq<Bit>): seq<CharCode>
    decreases |bits|
  {
    if bits == [] then []
    else
      var n := Min(8, |bits|);
      [CharOf(bits[..n])] + Chars(bits[n..])
  }

  /** `String.fromCharCode(parseInt(group, 2))` for a group of at most eight digits. */
  function CharOf(group: seq<Bit>): (c: CharCode)
    requires |group| <= 8
    ensures c < 256
  {
    Pow2Monotone(|group|, 8);
    FromBits(group)
  }

  /** Chars yields one code per started group of eight digits. */
  lemma {:induction false} CharsLength(bits: seq<Bit>)
    ensures |Chars(bits)| == (|bits| + 7) / 8
    decreases |bits|
  {
    if bits != [] {
      CharsLength(bits[Min(8, |bits|)..]);
    }
  }

  /** Code k of Chars is the value of digits 8k to 8k+7, or of the shorter rest at the end. */
  lemma {:induction false} CharsAt(bits: seq<Bit>, k: nat)
    requires 8 * k < |bits|
    ensures |Chars(bits)| == (|bits| + 7) / 8
    ensures Chars(bits)[k] == CharOf(bits[8 * k..Min(8 * k + 8, |bits|)])
  {
    CharsLength(bits);
    var n := Min(8, |bits|);
    var rest := bits[n..];
    if k > 0 {
      CharsAt(rest, k - 1);
      var lo, hi := 8 * (k - 1), Min(8 * (k - 1) + 8, |rest|);
      assert n == 8 && Min(lo + 16, |bits|) == hi + 8;
      SliceOfSuffix(bits, 8, lo, hi);
    }
  }

  /** Chars yields one code per started group of eight digits, each the value of its group. */
  lemma CharsChunks(bits: seq<Bit>)
    ensures |Chars(bits)| == (|bits| + 7) / 8
    ensures forall k :: 0 <= k < |Chars(bits)| ==>
      Chars(bits)[k] == CharOf(bits[8 * k..Min(8 * k + 8, |bits|)])
  {
    CharsLength(bits);
    forall k | 0 <= k < |Chars(bits)|
      ensures Chars(bits)[k] == CharOf(bits[8 * k..Min(8 * k + 8, |bits|)])
    {
      CharsAt(bits, k);
    }
  }

  /** Parsing the payload of a one-byte message group by group gives the message back. */
  lemma {:induction false} CharsOfPayload(message: seq<CharCode>)
    requires IsByteMessage(message)
    ensures Chars(Payload(message)) == message
  {
    if message != [] {
      CharBitsOfByte(message[0]);
      var p := Payload(message);
      assert p[..8] == CharBits(message[0]);
      assert p[8..] == Payload(message[1..]);
      CharsOfPayload(message[1..]);
    }
  }
}
