// crates/crypto-core/src/xrpl_wallet.rs: the private key at m/44'/144'/0'/0/0, against
// the child key derivation of BIP-32.
module Derivation {
  import opened Prelude
  import opened Scalar256

  type Bytes64 = s: seq<byte> | |s| == 64 witness seq(64, i => 0)

  const HARDENED_OFFSET: nat := 0x8000_0000
  const XRP_BIP44_PATH: seq<nat> := [HARDENED_OFFSET + 44, HARDENED_OFFSET + 144, HARDENED_OFFSET, 0, 0]

  // "Bitcoin seed"
  const BIP32_MASTER_KEY: seq<byte> := [0x42, 0x69, 0x74, 0x63, 0x6f, 0x69, 0x6e, 0x20, 0x73, 0x65, 0x65, 0x64]

  // The cryptographic functions: HMAC-SHA512 of key and data, and the compressed public
  // key of a private key, serP(point(k)) in BIP-32.
  datatype Crypto = Crypto(hmacSha512: (seq<byte>, seq<byte>) -> Bytes64, serP: nat -> seq<byte>)

  // ----- BIP-32, on numbers -----

  // serN: the n low-order bytes of k, most significant first.
  function Ser(k: nat, n: nat): (s: seq<byte>)
    ensures |s| == n
  {
    if n == 0 then [] else Ser(k / 256, n - 1) + [(k % 256) as byte]
  }

  lemma {:induction false} SerOfValue(s: seq<byte>)
    ensures Ser(Value(s), |s|) == s
  {
    if s != [] {
      var init, last := s[..|s| - 1], s[|s| - 1];
      LastByte(init, last);
      SerOfValue(init);
      assert s == init + [last];
      hide Value;
    }
  }

  lemma LastByte(init: seq<byte>, last: byte)
    ensures Value(init + [last]) / 256 == Value(init) && Value(init + [last]) % 256 == last as nat
  {
    assert Pow256(1) == 256 * Pow256(0) && Pow256(0) == 1;
    assert Value([last]) == last as nat;
    hide Value, Pow256;
    ValueOfConcat(init, [last]);
  }

  // Ser writes numbers that fit without loss.
  lemma {:induction false} ValueOfSer(k: nat, n: nat)
    requires k < Pow256(n)
    ensures Value(Ser(k, n)) == k
  {
    if n > 0 {
      assert Pow256(n) == 256 * Pow256(n - 1);
      ValueOfSer(k / 256, n - 1);
      LastByte(Ser(k / 256, n - 1), (k % 256) as byte);
    }
  }

  // An extended private key.
  datatype XPrv = XPrv(k: nat, chainCode: Bytes32)

  function CkdData(cr: Crypto, parent: XPrv, index: nat): seq<byte>
  {
    (if index >= HARDENED_OFFSET then [0] + Ser(parent.k, 32) else cr.serP(parent.k)) + Ser(index, 4)
  }

  // parse256 of the left half of the HMAC: what is added to the parent's key.
  function Tweak(cr: Crypto, parent: XPrv, index: nat): nat
  {
    Value(cr.hmacSha512(parent.chainCode, CkdData(cr, parent, index))[..32])
  }

  // CKDpriv, section "Private parent key -> private child key".
  function CkdPriv(cr: Crypto, parent: XPrv, index: nat): Option<XPrv>
  {
    var i := cr.hmacSha512(parent.chainCode, CkdData(cr, parent, index));
    var k := (Tweak(cr, parent, index) + parent.k) % N;
    if Tweak(cr, parent, index) >= N || k == 0 then None else Some(XPrv(k, i[32..]))
  }

  // Section "Master key generation".
  function MasterKey(cr: Crypto, seed: seq<byte>): Option<XPrv>
  {
    var i := cr.hmacSha512(BIP32_MASTER_KEY, seed);
    if 0 < Value(i[..32]) < N then Some(XPrv(Value(i[..32]), i[32..])) else None
  }

  // The data of the HMAC in the terms of the standard: for a hardened index a zero byte,
  // the 32-byte key and the 4-byte index, otherwise the public key and the index.
  lemma CkdDataIsBip32(cr: Crypto, parent: XPrv, index: nat)
    requires 0 < parent.k < N && index <= 0xFFFF_FFFF
    ensures var data := CkdData(cr, parent, index);
      && (index >= 0x8000_0000 ==> |data| == 37 && data[0] == 0 && Value(data[1..33]) == parent.k)
      && (index < 0x8000_0000 ==> |data| == |cr.serP(parent.k)| + 4 && data[..|data| - 4] == cr.serP(parent.k))
      && Value(data[|data| - 4..]) == index
  {
    hide Value, Pow256, Ser;
    SerFits(parent.k, index);
    var data := CkdData(cr, parent, index);
    assert data[|data| - 4..] == Ser(index, 4);
    if index >= 0x8000_0000 {
      assert data[1..33] == Ser(parent.k, 32);
    } else {
      assert data[..|data| - 4] == cr.serP(parent.k);
    }
  }

  // The child in the terms of the standard: the left half of the HMAC is added to the
  // key modulo n, the right half is the new chain code, and a left half of n or more or
  // a zero key is refused.
  lemma CkdPrivIsBip32(cr: Crypto, parent: XPrv, index: nat)
    ensures var i := cr.hmacSha512(parent.chainCode, CkdData(cr, parent, index));
      var left := Value(i[..32]);
      CkdPriv(cr, parent, index)
      == if left >= N || (left + parent.k) % N == 0 then None else Some(XPrv((left + parent.k) % N, i[32..]))
  {
    hide CkdData, Value;
  }

  lemma SerFits(k: nat, index: nat)
    requires k < N && index <= 0xFFFF_FFFF
    ensures Value(Ser(k, 32)) == k && Value(Ser(index, 4)) == index
  {
    OrderBytesDenoteN();
    FourBytes();
    hide Value, Ser, Pow256;
    ValueOfSer(k, 32);
    ValueOfSer(index, 4);
  }

  lemma FourBytes()
    ensures Pow256(4) == 0x1_0000_0000
  {
    assert Pow256(2) == 256 * Pow256(1) && Pow256(1) == 256 * Pow256(0);
    assert Pow256(4) == 256 * Pow256(3) && Pow256(3) == 256 * Pow256(2);
  }

  // The constants: the HMAC key of the master, and the path m/44'/144'/0'/0/0.
  lemma DerivationConstants()
    ensures |BIP32_MASTER_KEY| == |"Bitcoin seed"|
    ensures forall i | 0 <= i < |BIP32_MASTER_KEY| :: BIP32_MASTER_KEY[i] as int == "Bitcoin seed"[i] as int
    ensures XRP_BIP44_PATH == [0x8000_002C, 0x8000_0090, 0x8000_0000, 0, 0]
  {
  }

  // The key that a path leads to.
  function Descend(cr: Crypto, root: Option<XPrv>, path: seq<nat>): Option<XPrv>
  {
    if path == [] then root
    else
      match Descend(cr, root, path[..|path| - 1])
      case None => None
      case Some(parent) => CkdPriv(cr, parent, path[|path| - 1])
  }

  // Every key on the way is a valid private key.
  lemma {:induction false} DescendantsAreValidKeys(cr: Crypto, seed: seq<byte>, path: seq<nat>, i: nat)
    requires i <= |path| && Descend(cr, MasterKey(cr, seed), path).Some?
    ensures Descend(cr, MasterKey(cr, seed), path[..i]).Some?
    ensures 0 < Descend(cr, MasterKey(cr, seed), path[..i]).value.k < N
    decreases |path|
  {
    if i < |path| {
      assert path[..|path| - 1][..i] == path[..i];
      DescendantsAreValidKeys(cr, seed, path[..|path| - 1], i);
    } else {
      assert path[..i] == path;
      if path != [] {
        assert Descend(cr, MasterKey(cr, seed), path[..|path| - 1]).Some?;
      }
    }
  }

  function SumOfTweaks(cr: Crypto, root: XPrv, path: seq<nat>): nat
    requires Descend(cr, Some(root), path).Some?
  {
    if path == [] then 0
    else
      var init := path[..|path| - 1];
      SumOfTweaks(cr, root, init) + Tweak(cr, Descend(cr, Some(root), init).value, path[|path| - 1])
  }

  lemma ModAdds(a: nat, b: nat)
    ensures ((a % N) + b) % N == (a + b) % N
  {
    var q := a / N;
    assert a == q * N + a % N;
    ModPlusMultiple((a % N) + b, q);
  }

  lemma {:induction false} ModPlusMultiple(x: nat, q: nat)
    ensures (x + q * N) % N == x % N
  {
    if q > 0 {
      ModPlusMultiple(x, q - 1);
      assert x + q * N == (x + (q - 1) * N) + N;
    }
  }

  // key is root plus sum, modulo N.
  predicate SumsTo(key: nat, root: nat, sum: nat)
  {
    key == (root + sum) % N
  }

  lemma OneTweak(cr: Crypto, root: XPrv, path: seq<nat>)
    requires path != [] && Descend(cr, Some(root), path).Some?
    ensures var init := path[..|path| - 1];
      && Descend(cr, Some(root), init).Some?
      && var tweak := Tweak(cr, Descend(cr, Some(root), init).value, path[|path| - 1]);
         && SumsTo(Descend(cr, Some(root), path).value.k, Descend(cr, Some(root), init).value.k, tweak)
         && SumOfTweaks(cr, root, path) == SumOfTweaks(cr, root, init) + tweak
  {
    hide Tweak;
  }

  lemma AddOneTweak(key: nat, before: nat, root: nat, sum: nat, tweak: nat)
    requires SumsTo(before, root, sum) && SumsTo(key, before, tweak)
    ensures SumsTo(key, root, sum + tweak)
  {
    ModAdds(root + sum, tweak);
    assert root + sum + tweak == root + (sum + tweak);
  }

  lemma NoTweak(root: nat)
    requires root < N
    ensures SumsTo(root, root, 0)
  {
  }

  // The derived key is the root key plus all tweaks, modulo N.
  lemma {:induction false} DerivedKeyIsRootPlusTweaks(cr: Crypto, root: XPrv, path: seq<nat>)
    requires root.k < N && Descend(cr, Some(root), path).Some?
    ensures SumsTo(Descend(cr, Some(root), path).value.k, root.k, SumOfTweaks(cr, root, path))
  {
    hide SumsTo, Tweak;
    if path == [] {
      NoTweak(root.k);
    } else {
      var init := path[..|path| - 1];
      OneTweak(cr, root, path);
      hide Descend, SumOfTweaks;
      DerivedKeyIsRootPlusTweaks(cr, root, init);
      AddOneTweak(Descend(cr, Some(root), path).value.k, Descend(cr, Some(root), init).value.k, root.k,
        SumOfTweaks(cr, root, init), Tweak(cr, Descend(cr, Some(root), init).value, path[|path| - 1]));
    }
  }

  // ----- The code -----

  datatype DerivationError =
    | InvalidMasterKey | InvalidParentKey | InvalidChildKey | BadScalar(error: ScalarError)

  // SigningKey::from_bytes accepts a key exactly when it lies in 1..N-1.
  method IsValidSecp256k1PrivateKey(key: Bytes32) returns (valid: bool)
    ensures valid <==> 0 < Value(key) < N
  {
    valid := IsNonzeroLessThanOrder(key);
  }

  method DeriveBip32PrivateChild(cr: Crypto, parentKey: Bytes32, parentChainCode: Bytes32, index: nat)
    returns (r: Result<(Bytes32, Bytes32), DerivationError>)
    requires index <= U32_MAX
    ensures var parent := XPrv(Value(parentKey), parentChainCode);
      if 0 < parent.k < N && CkdPriv(cr, parent, index).Some? then
        r.Ok? && CkdPriv(cr, parent, index) == Some(XPrv(Value(r.value.0), r.value.1))
      else r.Err?
  {
    ghost var parent := XPrv(Value(parentKey), parentChainCode);
    hide Value, Pow256, Ser;
    var data: seq<byte> := [];
    if index >= HARDENED_OFFSET {
      data := [0] + parentKey;
      SerOfValue(parentKey);
    } else {
      var valid := IsValidSecp256k1PrivateKey(parentKey);
      if !valid {
        return Err(InvalidParentKey);
      }
      data := cr.serP(Value(parentKey));
    }
    data := data + Ser(index, 4);
    assert data == CkdData(cr, parent, index);
    hide CkdData;
    var derived := cr.hmacSha512(parentChainCode, data);
    var tweak: Bytes32 := derived[..32];
    var childChainCode: Bytes32 := derived[32..];
    var child := AddSecp256k1ScalarsModOrder(tweak, parentKey);
    if child.Err? {
      return Err(BadScalar(child.error));
    }
    var valid := IsValidSecp256k1PrivateKey(child.value);
    if !valid {
      return Err(InvalidChildKey);
    }
    r := Ok((child.value, childChainCode));
  }

  // The derivation loop, for any path.
  method DerivePrivateKey(cr: Crypto, seed: seq<byte>, path: seq<nat>) returns (r: Result<Bytes32, DerivationError>)
    requires forall i | 0 <= i < |path| :: path[i] <= U32_MAX
    ensures match Descend(cr, MasterKey(cr, seed), path)
            case None => r.Err?
            case Some(x) => r.Ok? && Value(r.value) == x.k
  {
    hide Value, Pow256;
    var master := cr.hmacSha512(BIP32_MASTER_KEY, seed);
    var privateKey: Bytes32, chainCode: Bytes32 := master[..32], master[32..];
    var valid := IsValidSecp256k1PrivateKey(privateKey);
    if !valid {
      NoMasterNoKey(cr, seed, path);
      return Err(InvalidMasterKey);
    }
    for i := 0 to |path|
      invariant 0 < Value(privateKey) < N
      invariant Descend(cr, MasterKey(cr, seed), path[..i]) == Some(XPrv(Value(privateKey), chainCode))
    {
      assert path[..i + 1][..i] == path[..i];
      var child := DeriveBip32PrivateChild(cr, privateKey, chainCode, path[i]);
      if child.Err? {
        DeadEnd(cr, MasterKey(cr, seed), path, i + 1);
        return Err(child.error);
      }
      privateKey, chainCode := child.value.0, child.value.1;
      ghost var upTo := path[..i + 1];
      assert Descend(cr, MasterKey(cr, seed), upTo).value.k < N;
    }
    assert path[..|path|] == path;
    r := Ok(privateKey);
  }

  lemma {:induction false} DeadEnd(cr: Crypto, root: Option<XPrv>, path: seq<nat>, i: nat)
    requires i <= |path| && Descend(cr, root, path[..i]) == None
    ensures Descend(cr, root, path) == None
    decreases |path|
  {
    if i < |path| {
      assert path[..|path| - 1][..i] == path[..i];
      DeadEnd(cr, root, path[..|path| - 1], i);
    } else {
      assert path[..i] == path;
    }
  }

  lemma NoMasterNoKey(cr: Crypto, seed: seq<byte>, path: seq<nat>)
    requires MasterKey(cr, seed) == None
    ensures Descend(cr, MasterKey(cr, seed), path) == None
  {
    DeadEnd(cr, MasterKey(cr, seed), path, 0);
  }

  method DeriveXrpBip44PrivateKey(cr: Crypto, seed: Bytes64) returns (r: Result<Bytes32, DerivationError>)
    ensures match Descend(cr, MasterKey(cr, seed), XRP_BIP44_PATH)
            case None => r.Err?
            case Some(x) => r.Ok? && Value(r.value) == x.k
  {
    r := DerivePrivateKey(cr, seed, XRP_BIP44_PATH);
  }
}
