// crates/desktop-client/src/state.rs: the registry through which a locally signed XRPL
// blob is submitted once, by the wallet it was signed for.
module BlobRegistry {
  import opened Prelude
  import opened Text

  // Times are instants of one clock.
  type Time = int

  datatype Record = Record(
    txBlobHash: string,
    signingIntent: string,
    walletAddress: string,
    createdAt: Time,
    expiresAt: Time,
    requestId: Option<string>,
    consumed: bool)

  type Registry = map<string, Record>

  datatype StateError =
    | NoWalletAddress | ApprovalAlreadyExpired                                    // register
    | WalletLocked | NotBound | AlreadySubmitted | ApprovalExpired | OtherWallet  // consume

  // The arguments of a registration, and the two moments at which it reads the clock.
  datatype Registration = Registration(
    blobHash: string, signingIntent: string, walletAddress: string, expiresAt: Time,
    requestId: Option<string>, now: Time, pruneNow: Time)

  function RecordOf(g: Registration): Record
  {
    Record(g.blobHash, g.signingIntent, g.walletAddress, g.now, g.expiresAt, g.requestId, false)
  }

  function RegistrationError(g: Registration): Option<StateError>
  {
    if Trim(g.walletAddress) == "" then Some(NoWalletAddress)
    else if g.expiresAt <= g.now then Some(ApprovalAlreadyExpired)
    else None
  }

  function Register(m: Registry, g: Registration): (Result<Record, StateError>, Registry)
  {
    match RegistrationError(g)
    case Some(e) => (Err(e), m)
    case None =>
      var kept := map h | h in m && !m[h].consumed && m[h].expiresAt > g.pruneNow :: m[h];
      (Ok(RecordOf(g)), kept[g.blobHash := RecordOf(g)])
  }

  function Consume(m: Registry, wallet: Option<string>, blobHash: string, now: Time): (Result<Record, StateError>, Registry)
  {
    if wallet.None? then (Err(WalletLocked), m)
    else if blobHash !in m then (Err(NotBound), m)
    else if m[blobHash].consumed then (Err(AlreadySubmitted), m)
    else if m[blobHash].expiresAt <= now then (Err(ApprovalExpired), m)
    else if !EqIgnoreAsciiCase(m[blobHash].walletAddress, wallet.value) then (Err(OtherWallet), m)
    else (Ok(m[blobHash].(consumed := true)), m[blobHash := m[blobHash].(consumed := true)])
  }

  class AppState {
    var session: Option<string>
    var keypair: Option<string>
    var vaultedIdentity: Option<string>
    var xrplWallet: Option<string>      // the classic address of the wallet in memory
    var signedXrplTransactions: Registry

    constructor ()
      ensures session == keypair == vaultedIdentity == xrplWallet == None && signedXrplTransactions == map[]
    {
      session, keypair, vaultedIdentity, xrplWallet := None, None, None, None;
      signedXrplTransactions := map[];
    }

    method ClearSession()
      modifies this
      ensures session == keypair == vaultedIdentity == xrplWallet == None && signedXrplTransactions == map[]
    {
      session := None;
      keypair := None;
      vaultedIdentity := None;
      xrplWallet := None;
      signedXrplTransactions := map[];
    }

    // init_vaulted_identity_from_mnemonic, with what it derives from the mnemonic given.
    method InitVaultedIdentity(identity: string, legacyKeypair: string, wallet: string)
      modifies this`vaultedIdentity, this`keypair, this`xrplWallet
      ensures vaultedIdentity == Some(identity) && keypair == Some(legacyKeypair) && xrplWallet == Some(wallet)
    {
      vaultedIdentity := Some(identity);
      keypair := Some(legacyKeypair);
      xrplWallet := Some(wallet);
    }

    method RegisterSignedXrplTxBlob(g: Registration) returns (r: Result<Record, StateError>)
      modifies this`signedXrplTransactions
      ensures (r, signedXrplTransactions) == Register(old(signedXrplTransactions), g)
    {
      if Trim(g.walletAddress) == "" {
        return Err(NoWalletAddress);
      }
      if g.expiresAt <= g.now {
        return Err(ApprovalAlreadyExpired);
      }
      var record := Record(g.blobHash, g.signingIntent, g.walletAddress, g.now, g.expiresAt, g.requestId, false);
      signedXrplTransactions := map h | h in signedXrplTransactions
        && !signedXrplTransactions[h].consumed && signedXrplTransactions[h].expiresAt > g.pruneNow :: signedXrplTransactions[h];
      signedXrplTransactions := signedXrplTransactions[record.txBlobHash := record];
      r := Ok(record);
    }

    method ConsumeSignedXrplTxBlob(blobHash: string, now: Time) returns (r: Result<Record, StateError>)
      modifies this`signedXrplTransactions
      ensures (r, signedXrplTransactions) == Consume(old(signedXrplTransactions), xrplWallet, blobHash, now)
    {
      if xrplWallet.None? {
        return Err(WalletLocked);
      }
      if blobHash !in signedXrplTransactions {
        return Err(NotBound);
      }
      var record := signedXrplTransactions[blobHash];
      if record.consumed {
        return Err(AlreadySubmitted);
      }
      if record.expiresAt <= now {
        return Err(ApprovalExpired);
      }
      if !EqIgnoreAsciiCase(record.walletAddress, xrplWallet.value) {
        return Err(OtherWallet);
      }
      record := record.(consumed := true);
      signedXrplTransactions := signedXrplTransactions[blobHash := record];
      r := Ok(record);
    }
  }

  // What a registration answers and leaves: it is accepted for a named wallet and an
  // approval that has not expired, recorded unspent with everything it was given, and no
  // other approval is dropped unless it is spent or expired.
  lemma RegistrationAnswers(m: Registry, g: Registration)
    ensures var (r, m') := Register(m, g);
      && (r == Err(NoWalletAddress) <==> Blank(g.walletAddress))
      && (r == Err(ApprovalAlreadyExpired) <==> !Blank(g.walletAddress) && g.expiresAt <= g.now)
      && (r.Ok? <==> !Blank(g.walletAddress) && g.now < g.expiresAt)
      && (r.Ok? ==>
            && g.blobHash in m' && r.value == m'[g.blobHash]
            && r.value == Record(g.blobHash, g.signingIntent, g.walletAddress, g.now, g.expiresAt, g.requestId, false)
            && forall h | h != g.blobHash ::
                 && (h in m' <==> h in m && !m[h].consumed && g.pruneNow < m[h].expiresAt)
                 && (h in m' ==> m'[h] == m[h]))
      && (r.Err? ==> m' == m)
  {
    BlankIffTrimmedAway(g.walletAddress);
    hide Trim, Blank;
  }

  lemma BlankIffTrimmedAway(s: string)
    ensures Trim(s) == "" <==> Blank(s)
  {
    TrimIsBetweenBlanks(s);
    hide IsWhitespace;
    if Trim(s) == "" {
      var before, after :| s == before + Trim(s) + after && Blank(before) && Blank(after);
      assert s == before + after;
    } else {
      hide Trim;
      var before, after :| s == before + Trim(s) + after && Blank(before) && Blank(after);
      assert s[|before|] == Trim(s)[0];
    }
  }

  // What a consumption answers and leaves: the first failing check names the error, and
  // only a success changes the registry, in one flag of one record.
  lemma ConsumptionAnswers(m: Registry, wallet: Option<string>, h: string, now: Time)
    ensures var (r, m') := Consume(m, wallet, h, now);
      && (r == Err(WalletLocked) <==> wallet.None?)
      && (r == Err(NotBound) <==> wallet.Some? && h !in m)
      && (r == Err(AlreadySubmitted) <==> wallet.Some? && h in m && m[h].consumed)
      && (r == Err(ApprovalExpired) <==> wallet.Some? && h in m && !m[h].consumed && m[h].expiresAt <= now)
      && (r == Err(OtherWallet) <==>
            && wallet.Some? && h in m && !m[h].consumed && now < m[h].expiresAt
            && !SameLetters(m[h].walletAddress, wallet.value))
      && (r.Ok? <==>
            && wallet.Some? && h in m && !m[h].consumed && now < m[h].expiresAt
            && SameLetters(m[h].walletAddress, wallet.value))
      && m' == (if r.Ok? then m[h := m[h].(consumed := true)] else m)
      && (r.Ok? ==> r.value == m[h].(consumed := true))
  {
    hide EqIgnoreAsciiCase, SameLetters;
    if wallet.Some? && h in m {
      EqIgnoreAsciiCaseIff(m[h].walletAddress, wallet.value);
    }
  }

  // ----- Runs -----

  datatype Event =
    | DoRegister(g: Registration)
    | DoConsume(blobHash: string, now: Time)
    | SetWallet(address: string)
    | Clear

  datatype State = State(wallet: Option<string>, registry: Registry)

  function Next(s: State, e: Event): State
  {
    match e
    case DoRegister(g) => s.(registry := Register(s.registry, g).1)
    case DoConsume(h, now) => s.(registry := Consume(s.registry, s.wallet, h, now).1)
    case SetWallet(address) => s.(wallet := Some(address))
    case Clear => State(None, map[])
  }

  function StateAt(es: seq<Event>, n: nat): State
    requires n <= |es|
  {
    if n == 0 then State(None, map[]) else Next(StateAt(es, n - 1), es[n - 1])
  }

  predicate IsRegistration(e: Event, h: string)
  {
    e.DoRegister? && e.g.blobHash == h && RegistrationError(e.g).None?
  }

  predicate IsConsumption(s: State, e: Event, h: string)
  {
    e.DoConsume? && e.blobHash == h && Consume(s.registry, s.wallet, h, e.now).0.Ok?
  }

  predicate Registers(es: seq<Event>, i: int, h: string)
  {
    0 <= i < |es| && IsRegistration(es[i], h)
  }

  predicate Consumes(es: seq<Event>, i: int, h: string)
  {
    0 <= i < |es| && IsConsumption(StateAt(es, i), es[i], h)
  }

  lemma RegisterOnRecord(m: Registry, g: Registration, h: string)
    ensures var m' := Register(m, g).1;
      && (g.blobHash == h && RegistrationError(g).None? ==> h in m' && m'[h] == RecordOf(g))
      && (!(g.blobHash == h && RegistrationError(g).None?) && h in m' ==> h in m && m'[h] == m[h])
      && (h in m && h !in m' ==> m[h].consumed || m[h].expiresAt <= g.pruneNow)
  {
    hide RegistrationError, RecordOf;
  }

  lemma ConsumeOnRecord(m: Registry, wallet: Option<string>, blobHash: string, now: Time, h: string)
    ensures var m' := Consume(m, wallet, blobHash, now).1;
      var spent := blobHash == h && Consume(m, wallet, blobHash, now).0.Ok?;
      && m'.Keys == m.Keys
      && (spent ==> h in m && !m[h].consumed)
      && (h in m ==> m'[h] == m[h].(consumed := m[h].consumed || spent))
  {
    hide EqIgnoreAsciiCase;
  }

  // What one event does to the record of one blob.
  lemma RecordStep(s: State, e: Event, h: string)
    ensures var m, m' := s.registry, Next(s, e).registry;
      && (IsRegistration(e, h) ==> h in m' && m'[h] == RecordOf(e.g))
      && (e.Clear? ==> h !in m')
      && (IsConsumption(s, e, h) ==> h in m && h in m' && !m[h].consumed)
      && (!IsRegistration(e, h) && h in m' ==>
            h in m && m'[h] == m[h].(consumed := m[h].consumed || IsConsumption(s, e, h)))
      && (h in m && h !in m' && !e.Clear? ==>
            e.DoRegister? && (m[h].consumed || m[h].expiresAt <= e.g.pruneNow))
  {
    hide Register, Consume, RegistrationError, RecordOf;
    match e
    case DoRegister(g) => RegisterOnRecord(s.registry, g, h);
    case DoConsume(blobHash, now) => ConsumeOnRecord(s.registry, s.wallet, blobHash, now, h);
    case SetWallet(_) =>
    case Clear =>
  }

  // Event i is the latest registration of h before event n, and no clear came after it.
  ghost predicate Latest(es: seq<Event>, n: nat, h: string, i: int)
    requires n <= |es|
  {
    i < n && Registers(es, i, h) && forall k | i < k < n :: !es[k].Clear? && !Registers(es, k, h)
  }

  ghost predicate ConsumedSince(es: seq<Event>, n: nat, h: string, i: int)
    requires n <= |es|
  {
    exists k | i < k < n :: Consumes(es, k, h)
  }

  // A later registration, of any blob, found the approval given at i expired.
  ghost predicate PrunedSince(es: seq<Event>, n: nat, i: int, expiresAt: Time)
    requires n <= |es|
  {
    exists k | i < k < n && 0 <= k :: es[k].DoRegister? && es[k].g.pruneNow >= expiresAt
  }

  // What the registry holds for h, told by the history alone.
  ghost predicate RegistryIsHistory(es: seq<Event>, n: nat, h: string)
    requires n <= |es|
  {
    var m := StateAt(es, n).registry;
    if h in m then
      exists i :: Latest(es, n, h, i) && m[h] == RecordOf(es[i].g).(consumed := ConsumedSince(es, n, h, i))
    else
      forall i :: Latest(es, n, h, i) ==> ConsumedSince(es, n, h, i) || PrunedSince(es, n, i, es[i].g.expiresAt)
  }

  lemma {:induction false} RegistryFollowsHistory(es: seq<Event>, n: nat, h: string)
    requires n <= |es|
    ensures RegistryIsHistory(es, n, h)
  {
    hide Next, IsConsumption, RegistrationError;
    if n > 0 {
      assert StateAt(es, n) == Next(StateAt(es, n - 1), es[n - 1]);
      hide StateAt;
      RegistryFollowsHistory(es, n - 1, h);
      hide RegistryIsHistory;
      RecordStep(StateAt(es, n - 1), es[n - 1], h);
      if Registers(es, n - 1, h) {
        NewestIsLatest(es, n, h);
      } else if es[n - 1].Clear? {
        ClearForgets(es, n, h);
      } else if h in StateAt(es, n - 1).registry {
        RecordedStep(es, n, h);
      } else {
        UnrecordedStep(es, n, h);
      }
    }
  }

  lemma NewestIsLatest(es: seq<Event>, n: nat, h: string)
    requires 0 < n <= |es| && Registers(es, n - 1, h)
    requires h in StateAt(es, n).registry && StateAt(es, n).registry[h] == RecordOf(es[n - 1].g)
    ensures RegistryIsHistory(es, n, h)
  {
    hide StateAt, IsRegistration, IsConsumption;
    assert Latest(es, n, h, n - 1) && !ConsumedSince(es, n, h, n - 1);
  }

  lemma ClearForgets(es: seq<Event>, n: nat, h: string)
    requires 0 < n <= |es| && es[n - 1].Clear? && h !in StateAt(es, n).registry
    ensures RegistryIsHistory(es, n, h)
  {
    hide StateAt, IsConsumption, RegistrationError;
    forall i ensures !Latest(es, n, h, i) {
      assert es[n - 1].Clear?;
    }
  }

  lemma LatestStep(es: seq<Event>, n: nat, h: string, i: int)
    requires 0 < n <= |es| && !Registers(es, n - 1, h) && !es[n - 1].Clear?
    ensures Latest(es, n, h, i) <==> Latest(es, n - 1, h, i)
    ensures Latest(es, n, h, i) ==>
      (ConsumedSince(es, n, h, i) <==> ConsumedSince(es, n - 1, h, i) || Consumes(es, n - 1, h))
  {
    hide Consumes, IsRegistration;
    if Latest(es, n, h, i) && Consumes(es, n - 1, h) {
      assert i < n - 1;
    }
  }

  lemma RecordedStep(es: seq<Event>, n: nat, h: string)
    requires 0 < n <= |es| && RegistryIsHistory(es, n - 1, h)
    requires !Registers(es, n - 1, h) && !es[n - 1].Clear?
    requires StateAt(es, n) == Next(StateAt(es, n - 1), es[n - 1]) && h in StateAt(es, n - 1).registry
    ensures RegistryIsHistory(es, n, h)
  {
    RecordStep(StateAt(es, n - 1), es[n - 1], h);
    assert Consumes(es, n - 1, h) == IsConsumption(StateAt(es, n - 1), es[n - 1], h);
    var m, m' := StateAt(es, n - 1).registry, StateAt(es, n).registry;
    hide StateAt, Next, IsRegistration, IsConsumption;
    var i :| Latest(es, n - 1, h, i) && m[h] == RecordOf(es[i].g).(consumed := ConsumedSince(es, n - 1, h, i));
    LatestStep(es, n, h, i);
    hide ConsumedSince;
    if h in m' {
      assert m'[h] == RecordOf(es[i].g).(consumed := ConsumedSince(es, n, h, i));
    } else {
      LatestIsUnique(es, n, h, i);
      if !m[h].consumed {
        assert es[n - 1].DoRegister? && es[n - 1].g.pruneNow >= es[i].g.expiresAt;
        assert PrunedSince(es, n, i, es[i].g.expiresAt);
      }
    }
  }

  lemma UnrecordedStep(es: seq<Event>, n: nat, h: string)
    requires 0 < n <= |es| && RegistryIsHistory(es, n - 1, h)
    requires !Registers(es, n - 1, h) && !es[n - 1].Clear?
    requires h !in StateAt(es, n - 1).registry && h !in StateAt(es, n).registry
    ensures RegistryIsHistory(es, n, h)
  {
    hide StateAt, IsConsumption, RegistrationError;
    forall i | Latest(es, n, h, i)
      ensures ConsumedSince(es, n, h, i) || PrunedSince(es, n, i, es[i].g.expiresAt)
    {
      LatestStep(es, n, h, i);
      if !ConsumedSince(es, n - 1, h, i) {
        var k :| i < k < n - 1 && 0 <= k && es[k].DoRegister? && es[k].g.pruneNow >= es[i].g.expiresAt;
      }
    }
  }

  lemma LatestIsUnique(es: seq<Event>, n: nat, h: string, i: int)
    requires n <= |es| && Latest(es, n, h, i)
    ensures forall j :: Latest(es, n, h, j) ==> j == i
  {
  }

  ghost predicate ClockNeverStepsBack(es: seq<Event>)
  {
    && (forall i | 0 <= i < |es| && es[i].DoRegister? :: es[i].g.now <= es[i].g.pruneNow)
    && (forall i, j | 0 <= i < j < |es| && es[i].DoRegister? && es[j].DoConsume? :: es[i].g.pruneNow <= es[j].now)
  }

  // Event j may spend the approval registered at i.
  ghost predicate Spends(es: seq<Event>, j: nat, h: string, i: int)
    requires j < |es| && es[j].DoConsume?
  {
    && Latest(es, j, h, i) && !ConsumedSince(es, j, h, i)
    && es[i].g.expiresAt > es[j].now
    && StateAt(es, j).wallet.Some? && EqIgnoreAsciiCase(es[i].g.walletAddress, StateAt(es, j).wallet.value)
  }

  // Whatever the clock does, a success spends the latest registration since the last
  // clear: not yet spent, unexpired and made for the current wallet.
  lemma ConsumeSpendsLatest(es: seq<Event>, j: nat, h: string)
    requires j < |es| && Consumes(es, j, h)
    ensures exists i :: Spends(es, j, h, i)
  {
    RegistryFollowsHistory(es, j, h);
    var m := StateAt(es, j).registry;
    var i :| Latest(es, j, h, i) && m[h] == RecordOf(es[i].g).(consumed := ConsumedSince(es, j, h, i));
    assert Spends(es, j, h, i);
  }

  // With a clock that does not step back it succeeds exactly then, although registering
  // forgets spent and expired approvals.
  lemma ConsumeSucceedsIff(es: seq<Event>, j: nat, h: string)
    requires j < |es| && es[j].DoConsume? && es[j].blobHash == h && ClockNeverStepsBack(es)
    ensures Consumes(es, j, h) <==> exists i :: Spends(es, j, h, i)
  {
    if Consumes(es, j, h) {
      ConsumeSpendsLatest(es, j, h);
    }
    if i :| Spends(es, j, h, i) {
      RegistryFollowsHistory(es, j, h);
      LatestIsUnique(es, j, h, i);
      assert !PrunedSince(es, j, i, es[i].g.expiresAt);
    }
  }

  // Between two successful consumes of one blob lies a successful registration of it.
  lemma RegistrationBetweenConsumes(es: seq<Event>, j1: nat, j2: nat, h: string)
    requires j1 < j2 < |es| && Consumes(es, j1, h) && Consumes(es, j2, h)
    ensures exists i | j1 < i < j2 :: Registers(es, i, h)
  {
    ConsumeSpendsLatest(es, j2, h);
    var i :| Spends(es, j2, h, i);
    SpentIsLater(es, j1, j2, h, i);
  }

  // The approval a success spends was given after every earlier success.
  lemma SpentIsLater(es: seq<Event>, j1: nat, j2: nat, h: string, i: int)
    requires j1 < j2 < |es| && Consumes(es, j1, h) && es[j2].DoConsume? && Spends(es, j2, h, i)
    ensures j1 < i < j2 && Registers(es, i, h)
  {
    assert Consumes(es, j1, h) && !ConsumedSince(es, j2, h, i);
    hide StateAt, IsRegistration, EqIgnoreAsciiCase;
    assert i != j1;
  }

  function CountConsumes(es: seq<Event>, n: nat, h: string): nat
    requires n <= |es|
  {
    if n == 0 then 0 else CountConsumes(es, n - 1, h) + if Consumes(es, n - 1, h) then 1 else 0
  }

  function CountRegisters(es: seq<Event>, n: nat, h: string): nat
    requires n <= |es|
  {
    if n == 0 then 0 else CountRegisters(es, n - 1, h) + if Registers(es, n - 1, h) then 1 else 0
  }

  // A blob is never submitted more often than it was approved; an approval still open
  // counts as unused.
  lemma {:induction false} ConsumesNeverExceedRegistrations(es: seq<Event>, n: nat, h: string)
    requires n <= |es|
    ensures var m := StateAt(es, n).registry;
      CountConsumes(es, n, h) + (if h in m && !m[h].consumed then 1 else 0) <= CountRegisters(es, n, h)
  {
    if n > 0 {
      ConsumesNeverExceedRegistrations(es, n - 1, h);
      RecordStep(StateAt(es, n - 1), es[n - 1], h);
      assert Consumes(es, n - 1, h) == IsConsumption(StateAt(es, n - 1), es[n - 1], h);
      assert Registers(es, n - 1, h) == IsRegistration(es[n - 1], h);
      assert StateAt(es, n) == Next(StateAt(es, n - 1), es[n - 1]);
      hide StateAt, Next, IsConsumption, IsRegistration;
    }
  }
}
