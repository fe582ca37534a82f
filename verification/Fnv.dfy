// The seed of the NFT picture: a 32-bit FNV-1a hash of the token id
// (crates/crypto-core/src/nft_image.rs).
module Fnv {

  const OFFSET: bv32 := 2166136261

  // wrapping_mul by the FNV prime: bit-vector multiplication drops the carry.
  function TimesPrime(x: bv32): bv32
  {
    x * 16777619
  }

  // Multiplication by the inverse of the prime modulo 2^32.
  function OverPrime(x: bv32): bv32
  {
    x * 899433627
  }

  // One round: xor in the byte, then multiply.
  function Absorb(h: bv32, b: bv8): bv32
  {
    TimesPrime(h ^ (b as bv32))
  }

  function Unabsorb(h: bv32, b: bv8): bv32
  {
    OverPrime(h) ^ (b as bv32)
  }

  // What the loop computes on a whole byte string, as a left fold.
  function HashFrom(h: bv32, s: seq<bv8>): bv32
    decreases |s|
  {
    if s == [] then h else Absorb(HashFrom(h, s[..|s| - 1]), s[|s| - 1])
  }

  function Hash(s: seq<bv8>): bv32
  {
    HashFrom(OFFSET, s)
  }

  method FnvHash(s: seq<bv8>) returns (h: bv32)
    ensures h == Hash(s)
  {
    hide TimesPrime;
    h := OFFSET;
    for i := 0 to |s|
      invariant h == HashFrom(OFFSET, s[..i])
    {
      assert s[..i + 1][..i] == s[..i];
      h := h ^ (s[i] as bv32);
      h := TimesPrime(h);
    }
    assert s[..|s|] == s;
  }

  // The 32-bit FNV-1a hash, with its published constants: the empty string hashes to the
  // offset basis, and a byte more is xored in before multiplying by the prime.
  lemma HashIsFnv1a(s: seq<bv8>, b: bv8)
    ensures Hash([]) == 0x811C_9DC5
    ensures Hash(s + [b]) == TimesPrime(Hash(s) ^ (b as bv32))
  {
    hide TimesPrime;
    assert (s + [b])[..|s|] == s;
  }

  lemma PrimeIsFnv(x: bv32)
    ensures TimesPrime(x) == x * 0x0100_0193
  {
  }

  // The two products below are 1 * x modulo 2^32, because the prime is odd and
  // 899433627 is its inverse.
  lemma InverseProducts(x: bv32)
    ensures OverPrime(x * 16777619) == x
    ensures TimesPrime(x * 899433627) == x
  {
  }

  lemma OverUndoesTimes(x: bv32)
    ensures OverPrime(TimesPrime(x)) == x
  {
    hide OverPrime;
    InverseProducts(x);
  }

  lemma TimesUndoesOver(x: bv32)
    ensures TimesPrime(OverPrime(x)) == x
  {
    hide TimesPrime;
    InverseProducts(x);
  }

  // For a fixed byte a round is a bijection on the 32-bit states: Unabsorb is its
  // inverse on both sides.
  lemma AbsorbIsABijection(h: bv32, b: bv8)
    ensures Unabsorb(Absorb(h, b), b) == h
    ensures Absorb(Unabsorb(h, b), b) == h
  {
    hide TimesPrime, OverPrime;
    OverUndoesTimes(h ^ (b as bv32));
    TimesUndoesOver(h);
  }

  // For a fixed state a round tells any two bytes apart.
  lemma AbsorbIsInjectiveInTheByte(h: bv32, b: bv8, c: bv8)
    requires Absorb(h, b) == Absorb(h, c)
    ensures b == c
  {
    hide TimesPrime, OverPrime;
    OverUndoesTimes(h ^ (b as bv32));
    OverUndoesTimes(h ^ (c as bv32));
  }

  // Absorbing the same suffix never merges two different states.
  lemma {:induction false} SuffixKeepsStatesApart(g: bv32, h: bv32, s: seq<bv8>)
    requires HashFrom(g, s) == HashFrom(h, s)
    ensures g == h
    decreases |s|
  {
    hide Absorb, Unabsorb;
    if s == [] {
    } else {
      var p, b := s[..|s| - 1], s[|s| - 1];
      AbsorbIsABijection(HashFrom(g, p), b);
      AbsorbIsABijection(HashFrom(h, p), b);
      SuffixKeepsStatesApart(g, h, p);
    }
  }

  lemma {:induction false} HashOfConcatenation(h: bv32, s: seq<bv8>, t: seq<bv8>)
    ensures HashFrom(h, s + t) == HashFrom(HashFrom(h, s), t)
    decreases |t|
  {
    if t == [] {
      assert s + t == s;
    } else {
      var p := t[..|t| - 1];
      assert (s + t)[..|s + t| - 1] == s + p;
      HashOfConcatenation(h, s, p);
    }
  }

  // Two strings of equal length that differ in exactly one byte get different
  // hashes, hence different seeds.
  lemma OneByteApartMeansDifferentHash(s: seq<bv8>, t: seq<bv8>, i: nat)
    requires |s| == |t| && i < |s|
    requires s[i] != t[i]
    requires forall j | 0 <= j < |s| && j != i :: s[j] == t[j]
    ensures Hash(s) != Hash(t)
  {
    hide Absorb, Unabsorb;
    var before, after := s[..i], s[i + 1..];
    assert s == (before + [s[i]]) + after;
    assert t == (before + [t[i]]) + after;
    var h := HashFrom(OFFSET, before);
    HashOfConcatenation(OFFSET, before + [s[i]], after);
    HashOfConcatenation(OFFSET, before + [t[i]], after);
    assert (before + [s[i]])[..i] == before && (before + [t[i]])[..i] == before;
    if Hash(s) == Hash(t) {
      SuffixKeepsStatesApart(Absorb(h, s[i]), Absorb(h, t[i]), after);
      AbsorbIsInjectiveInTheByte(h, s[i], t[i]);
    }
  }
}
