/**
 * Where the bits go in an RGBA buffer. Bytes come in groups of four (red,
 * green, blue, alpha); the codec uses the least significant bit of every
 * colour byte, in index order, and never touches an alpha byte (index
 * congruent to 3 modulo 4). Bytes are those of a `Uint8ClampedArray`.
 */
module BitLayout {
  import opened BitCodec

  /** An alpha byte, skipped by both the writer and the reader. */
  predicate IsAlpha(j: nat)
  {
    j % 4 == 3
  }

  /** The loops' skip test `(index + 1) % 4 === 0` picks out exactly the alpha bytes. */
  lemma AlphaTest(j: nat)
    ensures (j + 1) % 4 == 0 <==> IsAlpha(j)
  {
  }

  /**
   * The number of colour bytes among the indices below n. For a colour byte j
   * this is also the number of the bit it carries.
   */
  function ColorCount(n: nat): nat
  {
    if n == 0 then 0
    else if IsAlpha(n - 1) then ColorCount(n - 1)
    else ColorCount(n - 1) + 1
  }

  /** Three colour bytes in every whole pixel, plus the leading bytes of a partial one. */
  lemma {:induction false} ColorCountFormula(n: nat)
    ensures ColorCount(n) == 3 * (n / 4) + n % 4
  {
    if n > 0 {
      ColorCountFormula(n - 1);
      var q, r := (n - 1) / 4, (n - 1) % 4;
      assert n - 1 == 4 * q + r;
      if r == 3 {
        assert n / 4 == q + 1 && n % 4 == 0;
      } else {
        assert n / 4 == q && n % 4 == r + 1;
      }
    }
  }

  /** The index of the colour byte that carries bit i: `4 * (i / 3) + i % 3`. */
  function Pos(i: nat): nat
  {
    4 * (i / 3) + i % 3
  }

  /** Bit i goes to a colour byte, and that byte carries bit number i. */
  lemma PosIsColorByte(i: nat)
    ensures !IsAlpha(Pos(i))
    ensures ColorCount(Pos(i)) == i
  {
    var q, r := i / 3, i % 3;
    assert Pos(i) == 4 * q + r && r < 3;
    assert Pos(i) / 4 == q && Pos(i) % 4 == r;
    ColorCountFormula(Pos(i));
  }

  /** Every colour byte carries some bit: Pos and ColorCount are inverse on colour bytes. */
  lemma PosOfColorCount(j: nat)
    requires !IsAlpha(j)
    ensures Pos(ColorCount(j)) == j
  {
    ColorCountFormula(j);
  }

  /** At least three quarters of any buffer are colour bytes. */
  lemma ColorCountBound(len: nat)
    ensures 3 * len <= 4 * ColorCount(len)
  {
    ColorCountFormula(len);
  }

  /** Bit i lies inside a buffer exactly when the buffer has more than i colour bytes. */
  lemma PosInBounds(i: nat, len: nat)
    ensures Pos(i) < len <==> i < ColorCount(len)
  {
    ColorCountFormula(len);
    var q, r := len / 4, len % 4;
    assert len == 4 * q + r;
    if i / 3 < q {
      assert Pos(i) + 1 <= 4 * q;
    } else if i / 3 > q {
      assert Pos(i) >= 4 * q + 4;
    }
  }

  /** Bits are placed in increasing index order. */
  lemma PosIncreasing(i: nat, i': nat)
    requires i < i'
    ensures Pos(i) < Pos(i')
  {
    if i / 3 < i' / 3 {
      assert Pos(i) < 4 * (i / 3) + 4 <= 4 * (i' / 3);
    }
  }

  /** `data[j] & 1`. */
  function Lsb(b: bv8): Bit
  {
    if b & 1 == 0 then 0 else 1
  }

  /** `parseInt(binaryMessage[i])`: the digit as a byte value, 0 or 1. */
  function BitByte(bit: Bit): (v: bv8)
    ensures Lsb(v) == bit
  {
    if bit == 0 then 0 else 1
  }

  /** `(currentByte & 0xFE) | bit`. */
  function SetLsb(b: bv8, bit: Bit): (r: bv8)
    ensures Lsb(r) == bit
  {
    (b & 0xFE) | BitByte(bit)
  }

  /** Setting the low bit keeps the upper seven bits and moves the value by at most one. */
  lemma SetLsbChangesLowBitOnly(b: bv8, bit: Bit)
    ensures SetLsb(b, bit) & 0xFE == b & 0xFE
    ensures -1 <= SetLsb(b, bit) as int - b as int <= 1
  {
  }

  /** The least significant bits of the colour bytes, in index order. */
  function Lsbs(d: seq<bv8>): (s: seq<Bit>)
  {
    seq(ColorCount(|d|), k requires 0 <= k < ColorCount(|d|) =>
      PosInBounds(k, |d|); Lsb(d[Pos(k)]))
  }

  /** Bit k read is the low bit of the colour byte at Pos(k). */
  lemma LsbsAt(d: seq<bv8>, k: nat)
    requires k < ColorCount(|d|)
    ensures Pos(k) < |d| && Lsbs(d)[k] == Lsb(d[Pos(k)])
  {
    PosInBounds(k, |d|);
  }

  /**
   * The buffer after bits have been written: colour byte j takes bit
   * ColorCount(j) in its least significant bit when there is such a bit;
   * every other byte is as before.
   */
  function Embed(d: seq<bv8>, bits: seq<Bit>): seq<bv8>
  {
    seq(|d|, j requires 0 <= j < |d| =>
      if !IsAlpha(j) && ColorCount(j) < |bits| then SetLsb(d[j], bits[ColorCount(j)]) else d[j])
  }

  /** A byte that carries no bit of the stream keeps its value. */
  lemma EmbedKeeps(d: seq<bv8>, bits: seq<Bit>, j: nat)
    requires j < |d| && (IsAlpha(j) || ColorCount(j) >= |bits|)
    ensures Embed(d, bits)[j] == d[j]
  {
  }

  /** A colour byte whose bit is in the stream takes that bit. */
  lemma EmbedSets(d: seq<bv8>, bits: seq<Bit>, j: nat)
    requires j < |d| && !IsAlpha(j) && ColorCount(j) < |bits|
    ensures Embed(d, bits)[j] == SetLsb(d[j], bits[ColorCount(j)])
  {
  }
}
