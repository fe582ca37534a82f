// crates/crypto-core/src/xrpl_wallet.rs: 256-bit arithmetic over big-endian byte arrays,
// modulo the order of secp256k1.
module Scalar256 {
  import opened Prelude

  type Bytes32 = s: seq<byte> | |s| == 32 witness seq(32, i => 0)

  function Pow256(n: nat): (r: nat)
    ensures r > 0
  {
    if n == 0 then 1 else 256 * Pow256(n - 1)
  }

  // The number that big-endian bytes denote.
  function Value(s: seq<byte>): nat
  {
    if s == [] then 0 else s[0] as nat * Pow256(|s| - 1) + Value(s[1..])
  }

  lemma ProductGrows(a: nat, b: nat, p: nat)
    requires a <= b
    ensures a * p <= b * p
  {
  }

  lemma {:induction false} ValueIsBounded(s: seq<byte>)
    ensures Value(s) < Pow256(|s|)
  {
    if s != [] {
      ValueIsBounded(s[1..]);
      ProductGrows(s[0] as nat, 255, Pow256(|s| - 1));
    }
  }

  // A more significant byte decides.
  lemma {:induction false} FirstDifferenceDecides(l: seq<byte>, r: seq<byte>, i: nat)
    requires i < |l| == |r| && l[..i] == r[..i] && l[i] > r[i]
    ensures Value(l) > Value(r)
  {
    var p := Pow256(|l| - 1);
    if i == 0 {
      ValueIsBounded(r[1..]);
      ProductGrows(r[0] as nat + 1, l[0] as nat, p);
      assert (r[0] as nat + 1) * p == r[0] as nat * p + p;
    } else {
      assert l[0] == l[..i][0] == r[..i][0] == r[0];
      assert l[1..][..i - 1] == l[..i][1..] == r[..i][1..] == r[1..][..i - 1];
      FirstDifferenceDecides(l[1..], r[1..], i - 1);
    }
  }

  lemma {:induction false} ValueIsInjective(l: seq<byte>, r: seq<byte>)
    requires |l| == |r| && Value(l) == Value(r)
    ensures l == r
  {
    if l != [] {
      if l[0] > r[0] {
        FirstDifferenceDecides(l, r, 0);
      } else if l[0] < r[0] {
        FirstDifferenceDecides(r, l, 0);
      } else {
        ValueIsInjective(l[1..], r[1..]);
        assert l == [l[0]] + l[1..] && r == [r[0]] + r[1..];
      }
    }
  }

  // ----- The loops -----

  method BytesGe(left: Bytes32, right: Bytes32) returns (ge: bool)
    ensures ge <==> Value(left) >= Value(right)
  {
    for i := 0 to 32
      invariant left[..i] == right[..i]
    {
      if left[i] > right[i] {
        FirstDifferenceDecides(left, right, i);
        return true;
      }
      if left[i] < right[i] {
        FirstDifferenceDecides(right, left, i);
        return false;
      }
    }
    assert left == left[..32] && right == right[..32];
    return true;
  }

  method IsZero256(value: Bytes32) returns (zero: bool)
    ensures zero <==> Value(value) == 0
  {
    zero := forall i | 0 <= i < 32 :: value[i] == 0;
    AllZeroIffValueZero(value);
  }

  lemma {:induction false} AllZeroIffValueZero(s: seq<byte>)
    ensures (forall i | 0 <= i < |s| :: s[i] == 0) <==> Value(s) == 0
  {
    if s != [] {
      AllZeroIffValueZero(s[1..]);
      assert forall i | 1 <= i < |s| :: s[i] == s[1..][i - 1];
      if s[0] != 0 {
        ProductGrows(1, s[0] as nat, Pow256(|s| - 1));
      }
    }
  }

  lemma Head(s: seq<byte>, rest: seq<byte>)
    requires s != [] && s[1..] == rest
    ensures Value(s) == s[0] as nat * Pow256(|rest|) + Value(rest)
    ensures Pow256(|s|) == 256 * Pow256(|rest|)
  {
  }

  lemma ColumnSum(l: nat, r: nat, carry: nat, o: nat, carry': nat, p: nat, vl: nat, vr: nat, vo: nat)
    requires l + r + carry == o + 256 * carry' && vo + carry * p == vl + vr
    ensures (o * p + vo) + carry' * (256 * p) == (l * p + vl) + (r * p + vr)
  {
    assert (l + r + carry) * p == l * p + r * p + carry * p;
    assert (o + 256 * carry') * p == o * p + carry' * (256 * p);
  }

  // The columns from i on are added: their carry is still to be passed on.
  ghost predicate Summed(left: Bytes32, right: Bytes32, out: Bytes32, i: nat, carry: nat)
    requires i <= 32
  {
    carry <= 1 && Value(out[i..]) + carry * Pow256(32 - i) == Value(left[i..]) + Value(right[i..])
  }

  lemma SumColumn(left: Bytes32, right: Bytes32, out: Bytes32, i: nat, o: byte, carry: nat, carry': nat)
    requires i < 32 && Summed(left, right, out, i + 1, carry) && carry' <= 1
    requires left[i] as nat + right[i] as nat + carry == o as nat + 256 * carry'
    ensures Summed(left, right, out[i := o], i, carry')
  {
    Head(left[i..], left[i + 1..]);
    Head(right[i..], right[i + 1..]);
    Head(out[i := o][i..], out[i + 1..]);
    hide Value, Pow256;
    ColumnSum(left[i] as nat, right[i] as nat, carry, o as nat, carry', Pow256(31 - i),
              Value(left[i + 1..]), Value(right[i + 1..]), Value(out[i + 1..]));
  }

  method Add256(left: Bytes32, right: Bytes32) returns (sum: Bytes32, carried: bool)
    ensures Value(sum) + (if carried then Pow256(32) else 0) == Value(left) + Value(right)
  {
    var out := new byte[32](_ => 0);
    var carry: nat := 0;   // u16
    assert Summed(left, right, out[..], 32, 0);
    hide Summed;
    for i := 32 downto 0
      invariant carry <= 1 && Summed(left, right, out[..], i, carry)
    {
      var s := left[i] as nat + right[i] as nat + carry;
      SumColumn(left, right, out[..], i, (s % 256) as byte, carry, s / 256);
      out[i] := (s % 256) as byte;
      carry := s / 256;
    }
    sum, carried := out[..], carry != 0;
    AllSummed(left, right, sum, carry);
  }

  lemma AllSummed(left: Bytes32, right: Bytes32, sum: Bytes32, carry: nat)
    requires Summed(left, right, sum, 0, carry)
    ensures Value(sum) + (if carry != 0 then Pow256(32) else 0) == Value(left) + Value(right)
  {
    assert left[0..] == left && right[0..] == right && sum[0..] == sum;
  }

  lemma ColumnDifference(l: nat, r: nat, borrow: nat, o: nat, borrow': nat, p: nat, vl: nat, vr: nat, vo: nat)
    requires l + 256 * borrow' == o + r + borrow && vo + vr == vl + borrow * p
    ensures (o * p + vo) + (r * p + vr) == (l * p + vl) + borrow' * (256 * p)
  {
    assert (l + 256 * borrow') * p == l * p + borrow' * (256 * p);
    assert (o + r + borrow) * p == o * p + r * p + borrow * p;
  }

  // The columns from i on are subtracted: their borrow is still to be taken.
  ghost predicate Subtracted(left: Bytes32, right: Bytes32, out: Bytes32, i: nat, borrow: nat)
    requires i <= 32
  {
    borrow <= 1 && Value(out[i..]) + Value(right[i..]) == Value(left[i..]) + borrow * Pow256(32 - i)
  }

  lemma DifferenceColumn(left: Bytes32, right: Bytes32, out: Bytes32, i: nat, o: byte, borrow: nat, borrow': nat)
    requires i < 32 && Subtracted(left, right, out, i + 1, borrow) && borrow' <= 1
    requires left[i] as nat + 256 * borrow' == o as nat + right[i] as nat + borrow
    ensures Subtracted(left, right, out[i := o], i, borrow')
  {
    Head(left[i..], left[i + 1..]);
    Head(right[i..], right[i + 1..]);
    Head(out[i := o][i..], out[i + 1..]);
    hide Value, Pow256;
    ColumnDifference(left[i] as nat, right[i] as nat, borrow, o as nat, borrow', Pow256(31 - i),
                     Value(left[i + 1..]), Value(right[i + 1..]), Value(out[i + 1..]));
  }

  // Subtraction modulo 2^256.
  method Sub256(left: Bytes32, right: Bytes32) returns (difference: Bytes32)
    ensures Value(difference) == Value(left) - Value(right) + if Value(left) < Value(right) then Pow256(32) else 0
  {
    var out := new byte[32](_ => 0);
    var borrow: nat := 0;   // i16
    assert Subtracted(left, right, out[..], 32, 0);
    hide Subtracted;
    for i := 32 downto 0
      invariant borrow <= 1 && Subtracted(left, right, out[..], i, borrow)
    {
      var diff: int := left[i] as int - right[i] as int - borrow;
      if diff < 0 {
        DifferenceColumn(left, right, out[..], i, (diff + 256) as byte, borrow, 1);
        out[i] := (diff + 256) as byte;
        borrow := 1;
      } else {
        DifferenceColumn(left, right, out[..], i, diff as byte, borrow, 0);
        out[i] := diff as byte;
        borrow := 0;
      }
    }
    difference := out[..];
    AllSubtracted(left, right, difference, borrow);
  }

  lemma AllSubtracted(left: Bytes32, right: Bytes32, difference: Bytes32, borrow: nat)
    requires Subtracted(left, right, difference, 0, borrow)
    ensures Value(difference) == Value(left) - Value(right) + if Value(left) < Value(right) then Pow256(32) else 0
  {
    hide Value, Pow256;
    assert left[0..] == left && right[0..] == right && difference[0..] == difference;
    ValueIsBounded(difference);
    ValueIsBounded(left);
    ValueIsBounded(right);
  }

  // ----- The order of secp256k1, section 2.4.1 of SEC 2 -----

  const N: nat := 0xFFFFFFFF_FFFFFFFF_FFFFFFFF_FFFFFFFE_BAAEDCE6_AF48A03B_BFD25E8C_D0364141

  const SECP256K1_ORDER: Bytes32 := [
    0xff, 0xff, 0xff, 0xff, 0xff, 0xff, 0xff, 0xff, 0xff, 0xff, 0xff, 0xff, 0xff, 0xff, 0xff, 0xfe,
    0xba, 0xae, 0xdc, 0xe6, 0xaf, 0x48, 0xa0, 0x3b, 0xbf, 0xd2, 0x5e, 0x8c, 0xd0, 0x36, 0x41, 0x41]

  lemma ConcatStep(a0: nat, p: nat, va: nat, q: nat, pq: nat, vab: nat, vb: nat)
    requires pq == p * q && vab == va * q + vb
    ensures a0 * pq + vab == (a0 * p + va) * q + vb
    ensures 256 * pq == (256 * p) * q
  {
    assert (a0 * p + va) * q == a0 * (p * q) + va * q;
  }

  lemma {:induction false} ValueOfConcat(a: seq<byte>, b: seq<byte>)
    ensures Value(a + b) == Value(a) * Pow256(|b|) + Value(b)
    ensures Pow256(|a| + |b|) == Pow256(|a|) * Pow256(|b|)
  {
    if a == [] {
      assert a + b == b;
    } else {
      ValueOfConcat(a[1..], b);
      assert (a + b)[1..] == a[1..] + b;
      ConcatStep(a[0] as nat, Pow256(|a| - 1), Value(a[1..]), Pow256(|b|), Pow256(|a| - 1 + |b|), Value(a[1..] + b), Value(b));
    }
  }

  lemma ValueOfFourBytes(b: seq<byte>)
    requires |b| == 4
    ensures Value(b) == 0x1000000 * b[0] as nat + 0x10000 * b[1] as nat + 0x100 * b[2] as nat + b[3] as nat
    ensures Pow256(4) == 0x1_0000_0000
  {
    assert Pow256(1) == 0x100 && Pow256(2) == 0x10000 && Pow256(3) == 0x1000000;
    var b1, b2, b3 := b[1..], b[2..], b[3..];
    assert b1[1..] == b2 && b2[1..] == b3 && b3[1..] == [];
    assert Value(b3) == b[3] as nat;
    assert Value(b2) == 0x100 * b[2] as nat + Value(b3);
    assert Value(b1) == 0x10000 * b[1] as nat + Value(b2);
  }

  // The value of the first k four-byte words.
  function Words(s: seq<byte>, k: nat): nat
    requires 4 * k <= |s|
  {
    Value(s[..4 * k])
  }

  lemma NoWords(s: seq<byte>)
    ensures Words(s, 0) == 0 && Pow256(0) == 1
  {
  }

  lemma NextWord(s: seq<byte>, k: nat)
    requires 4 * k + 4 <= |s|
    ensures Words(s, k + 1) == Words(s, k) * 0x1_0000_0000 + 0x1000000 * s[4 * k] as nat + 0x10000 * s[4 * k + 1] as nat
        + 0x100 * s[4 * k + 2] as nat + s[4 * k + 3] as nat
    ensures Pow256(4 * k + 4) == Pow256(4 * k) * 0x1_0000_0000
  {
    var word := s[4 * k..4 * k + 4];
    assert s[..4 * (k + 1)] == s[..4 * k] + word;
    ValueOfConcat(s[..4 * k], word);
    ValueOfFourBytes(word);
  }

  // The order's value, word by word.
  lemma OrderWords2()
    ensures Words(SECP256K1_ORDER, 2) == 0xFFFFFFFF_FFFFFFFF && Pow256(8) == 0x1_00000000_00000000
  {
    NoWords(SECP256K1_ORDER);
    hide Words, Value;
    NextWord(SECP256K1_ORDER, 0);
    NextWord(SECP256K1_ORDER, 1);
  }

  lemma OrderWords4()
    ensures Words(SECP256K1_ORDER, 4) == 0xFFFFFFFF_FFFFFFFF_FFFFFFFF_FFFFFFFE && Pow256(16) == 0x1_00000000_00000000_00000000_00000000
  {
    OrderWords2();
    hide Words, Value;
    NextWord(SECP256K1_ORDER, 2);
    NextWord(SECP256K1_ORDER, 3);
  }

  lemma OrderWords6()
    ensures Words(SECP256K1_ORDER, 6) == 0xFFFFFFFF_FFFFFFFF_FFFFFFFF_FFFFFFFE_BAAEDCE6_AF48A03B && Pow256(24) == 0x1_00000000_00000000_00000000_00000000_00000000_00000000
  {
    OrderWords4();
    hide Words, Value;
    NextWord(SECP256K1_ORDER, 4);
    NextWord(SECP256K1_ORDER, 5);
  }

  lemma OrderWords8()
    ensures Words(SECP256K1_ORDER, 8) == 0xFFFFFFFF_FFFFFFFF_FFFFFFFF_FFFFFFFE_BAAEDCE6_AF48A03B_BFD25E8C_D0364141 && Pow256(32) == 0x1_00000000_00000000_00000000_00000000_00000000_00000000_00000000_00000000
  {
    OrderWords6();
    hide Words, Value;
    NextWord(SECP256K1_ORDER, 6);
    NextWord(SECP256K1_ORDER, 7);
  }

  lemma OrderBytesDenoteN()
    ensures Value(SECP256K1_ORDER) == N
    ensures N < Pow256(32) < 2 * N
  {
    OrderWords8();
    hide Value, Pow256;
    assert SECP256K1_ORDER[..32] == SECP256K1_ORDER;
  }

  // ----- Scalars modulo N -----

  datatype ScalarError = TweakOutOfRange | ParentOutOfRange | ChildIsZero

  method IsLessThanOrder(value: Bytes32) returns (less: bool)
    ensures less <==> Value(value) < N
  {
    OrderBytesDenoteN();
    var ge := BytesGe(value, SECP256K1_ORDER);
    less := !ge;
  }

  method IsNonzeroLessThanOrder(value: Bytes32) returns (valid: bool)
    ensures valid <==> 0 < Value(value) < N
  {
    var zero := IsZero256(value);
    if zero {
      return false;
    }
    valid := IsLessThanOrder(value);
  }

  // The sum of two scalars modulo N, for exactly the operands that BIP-32 admits.
  method AddSecp256k1ScalarsModOrder(left: Bytes32, right: Bytes32) returns (r: Result<Bytes32, ScalarError>)
    ensures r.Ok? <==> Value(left) < N && 0 < Value(right) < N && (Value(left) + Value(right)) % N != 0
    ensures r.Ok? ==> Value(r.value) == (Value(left) + Value(right)) % N
    ensures r == Err(TweakOutOfRange) <==> Value(left) >= N
    ensures r == Err(ParentOutOfRange) <==> Value(left) < N && !(0 < Value(right) < N)
  {
    hide Value, Pow256;
    OrderBytesDenoteN();
    var tweakOk := IsLessThanOrder(left);
    if !tweakOk {
      return Err(TweakOutOfRange);
    }
    var parentOk := IsNonzeroLessThanOrder(right);
    if !parentOk {
      return Err(ParentOutOfRange);
    }
    var sum, carry := Add256(left, right);
    ValueIsBounded(sum);
    var ge := BytesGe(sum, SECP256K1_ORDER);
    var reduced := sum;
    if carry || ge {
      reduced := Sub256(sum, SECP256K1_ORDER);
    }
    assert Value(reduced) == (Value(left) + Value(right)) % N;
    var zero := IsZero256(reduced);
    if zero {
      return Err(ChildIsZero);
    }
    r := Ok(reduced);
  }
}
