/** Facts about sequences in general that the codec's proofs rely on. */
module Seqs {

  function Min(a: int, b: int): int { if a <= b then a else b }

  /** A slice that lies past the first part of a concatenation is a slice of the second part. */
  lemma SliceAfterPrefix<T>(a: seq<T>, b: seq<T>, lo: nat, hi: nat)
    requires |a| <= lo <= hi <= |a| + |b|
    ensures (a + b)[lo..hi] == b[lo - |a|..hi - |a|]
  {
    var l, r := (a + b)[lo..hi], b[lo - |a|..hi - |a|];
    assert |l| == |r|;
    forall t | 0 <= t < |l|
      ensures l[t] == r[t]
    {
      assert l[t] == (a + b)[lo + t];
    }
  }

  /** A slice of a suffix is a slice of the whole, shifted. */
  lemma SliceOfSuffix<T>(s: seq<T>, n: nat, lo: nat, hi: nat)
    requires lo <= hi && n + hi <= |s|
    ensures s[n..][lo..hi] == s[n + lo..n + hi]
  {
    var l, r := s[n..][lo..hi], s[n + lo..n + hi];
    assert |l| == |r|;
    forall t | 0 <= t < |l|
      ensures l[t] == r[t]
    {
    }
  }

  /** A prefix one element longer is the prefix with that element appended. */
  lemma PrefixExtend<T>(s: seq<T>, n: nat)
    requires n < |s|
    ensures s[..n] + [s[n]] == s[..n + 1]
  {
  }

  /** Concatenation is associative. */
  lemma AppendAssociative<T>(a: seq<T>, b: seq<T>, c: seq<T>)
    ensures (a + b) + c == a + (b + c)
  {
  }

  /** A slice that lies inside the first part of a concatenation is a slice of the first part. */
  lemma SliceBeforeSuffix<T>(a: seq<T>, b: seq<T>, lo: nat, hi: nat)
    requires lo <= hi <= |a|
    ensures (a + b)[lo..hi] == a[lo..hi]
  {
    var l, r := (a + b)[lo..hi], a[lo..hi];
    assert |l| == |r|;
    forall t | 0 <= t < |l|
      ensures l[t] == r[t]
    {
      assert l[t] == (a + b)[lo + t];
    }
  }

  /** The first a elements followed by the next b elements are the first a + b elements. */
  lemma PrefixSplit<T>(s: seq<T>, a: nat, b: nat)
    requires a + b <= |s|
    ensures s[..a] + s[a..][..b] == s[..a + b]
  {
    var l, r := s[..a] + s[a..][..b], s[..a + b];
    assert |l| == |r|;
    forall t | 0 <= t < |l|
      ensures l[t] == r[t]
    {
      if t >= a {
        assert l[t] == s[a..][t - a];
      }
    }
  }
}
