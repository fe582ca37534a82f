// crates/oracle/src/sync.rs: the periodic job that brings NFT owners in the database in
// line with the ledger, oldest row first.
module OwnerSync {
  import opened Prelude

  type UserId = string
  type NftId = string
  type TokenId = string
  type Wallet = string

  datatype User = User(id: UserId, walletAddress: Wallet)

  datatype NftRow = NftRow(
    tokenId: TokenId, ownerId: UserId, active: bool, updatedAt: nat, encryptedAesKey: string)

  datatype SyncAction =
    | NoChange
    | OwnerUpdated(oldWallet: Wallet, newWallet: Wallet)
    | NotFoundOnXrpl
    | NewOwnerNotRegistered(address: Wallet)

  datatype SyncError = CallFailed

  datatype SyncStats = SyncStats(
    total: nat, updated: nat, unchangedOwners: nat, notFound: nat, unregisteredOwners: nat, errors: nat)

  type Users = seq<User>
  type Ledger = map<TokenId, Wallet>   // each token has at most one owner
  type Nfts = map<NftId, NftRow>

  predicate UniqueUsers(users: Users)
  {
    forall i, j | 0 <= i < j < |users| ::
      users[i].id != users[j].id && users[i].walletAddress != users[j].walletAddress
  }

  predicate Owns(ledger: Ledger, token: TokenId, wallet: Wallet)
  {
    token in ledger && ledger[token] == wallet
  }

  function FindById(users: Users, id: UserId): (r: Option<User>)
    ensures r.Some? ==> r.value in users && r.value.id == id
    ensures r.None? ==> forall u | u in users :: u.id != id
  {
    if users == [] then None else if users[0].id == id then Some(users[0]) else FindById(users[1..], id)
  }

  function FindByWallet(users: Users, wallet: Wallet): (r: Option<User>)
    ensures r.Some? ==> r.value in users && r.value.walletAddress == wallet
    ensures r.None? ==> forall u | u in users :: u.walletAddress != wallet
  {
    if users == [] then None
    else if users[0].walletAddress == wallet then Some(users[0]) else FindByWallet(users[1..], wallet)
  }

  // ----- What one synchronisation should do, were no call to fail -----

  // The registered user who owns the token on the ledger.
  function LedgerOwner(users: Users, ledger: Ledger, token: TokenId): Option<User>
  {
    if token in ledger then FindByWallet(users, ledger[token]) else None
  }

  function Verdict(users: Users, ledger: Ledger, token: TokenId, owner: User): SyncAction
  {
    match LedgerOwner(users, ledger, token)
    case None => NotFoundOnXrpl
    case Some(u) => if u == owner then NoChange else OwnerUpdated(owner.walletAddress, u.walletAddress)
  }

  function Touch(nfts: Nfts, id: NftId, now: nat): Nfts
  {
    if id in nfts then nfts[id := nfts[id].(updatedAt := now)] else nfts
  }

  function SetOwner(nfts: Nfts, id: NftId, owner: UserId, now: nat): Nfts
  {
    if id in nfts then nfts[id := nfts[id].(ownerId := owner, active := true, updatedAt := now)] else nfts
  }

  // What the action writes, at time now.
  function Apply(users: Users, ledger: Ledger, nfts: Nfts, id: NftId, token: TokenId, action: SyncAction, now: nat): Nfts
  {
    var owner := LedgerOwner(users, ledger, token);
    if action.NoChange? then Touch(nfts, id, now)
    else if action.OwnerUpdated? && owner.Some? then SetOwner(nfts, id, owner.value.id, now)
    else nfts
  }

  // The outcomes of synchronising one row. Without a failed call the verdict is reached
  // and applied to this row alone; with one, either nothing was written, or the owner
  // was already brought in line.
  ghost predicate Synced(
      users: Users, ledger: Ledger, id: NftId, token: TokenId, ownerId: UserId,
      before: Nfts, after: Nfts, now: nat, r: Result<SyncAction, SyncError>)
  {
    match r
    case Ok(action) =>
      && FindById(users, ownerId).Some?
      && action == Verdict(users, ledger, token, FindById(users, ownerId).value)
      && after == Apply(users, ledger, before, id, token, action, now)
    case Err(_) =>
      || after == before
      || (LedgerOwner(users, ledger, token).Some?
          && after == SetOwner(before, id, LedgerOwner(users, ledger, token).value.id, now))
  }

  // An error-free synchronisation of a stored row: its owner becomes the ledger's owner
  // if that one is registered and stays otherwise; no key, token or other row changes,
  // and the branch for a new owner who is not registered is never taken.
  lemma SyncedRowFollowsLedger(
      users: Users, ledger: Ledger, id: NftId, before: Nfts, after: Nfts, now: nat, r: Result<SyncAction, SyncError>)
    requires UniqueUsers(users) && id in before
    requires Synced(users, ledger, id, before[id].tokenId, before[id].ownerId, before, after, now, r) && r.Ok?
    ensures after.Keys == before.Keys
    ensures forall x | x in before && x != id :: after[x] == before[x]
    ensures after[id].tokenId == before[id].tokenId && after[id].encryptedAesKey == before[id].encryptedAesKey
    ensures forall u | u in users && Owns(ledger, before[id].tokenId, u.walletAddress) :: after[id].ownerId == u.id
    ensures (forall u | u in users :: !Owns(ledger, before[id].tokenId, u.walletAddress)) <==> r.value == NotFoundOnXrpl
    ensures r.value == NotFoundOnXrpl ==> after == before
    ensures r.value != NotFoundOnXrpl ==> after[id].updatedAt == now && after[id].active == (before[id].active || r.value.OwnerUpdated?)
    ensures !r.value.NewOwnerNotRegistered?
    // A change reports the wallet of the user it was taken from and the ledger's wallet.
    ensures r.value.OwnerUpdated? ==>
      && Owns(ledger, before[id].tokenId, r.value.newWallet)
      && exists u | u in users :: u.id == before[id].ownerId && u.walletAddress == r.value.oldWallet
    ensures r.value == NoChange ==> after[id].ownerId == before[id].ownerId
  {
    forall u | u in users && Owns(ledger, before[id].tokenId, u.walletAddress) ensures after[id].ownerId == u.id {
      WalletsIdentifyUsers(users, u);
    }
  }

  lemma WalletsIdentifyUsers(users: Users, u: User)
    requires UniqueUsers(users) && u in users
    ensures FindByWallet(users, u.walletAddress) == Some(u)
  {
    var v := FindByWallet(users, u.walletAddress).value;
    var i :| 0 <= i < |users| && users[i] == u;
    var j :| 0 <= j < |users| && users[j] == v;
  }

  // ----- Oldest first -----

  // What SELECT ... WHERE status = 'active' ORDER BY updated_at ASC LIMIT limit may return.
  ghost predicate IsOldestBatch(nfts: Nfts, limit: nat, batch: seq<NftId>)
  {
    && |batch| <= limit
    && (forall id | id in batch :: id in nfts && nfts[id].active)
    && (forall i, j | 0 <= i < j < |batch| ::
          batch[i] != batch[j] && nfts[batch[i]].updatedAt <= nfts[batch[j]].updatedAt)
    && (forall x | x in nfts && nfts[x].active && x !in batch ::
          |batch| == limit && forall id | id in batch :: nfts[id].updatedAt <= nfts[x].updatedAt)
  }

  function ActiveIds(nfts: Nfts): set<NftId>
  {
    set id | id in nfts && nfts[id].active
  }

  lemma OldestExists(nfts: Nfts, s: set<NftId>)
    requires s != {} && s <= nfts.Keys
    ensures exists id :: id in s && forall o | o in s :: nfts[id].updatedAt <= nfts[o].updatedAt
  {
    var x :| x in s;
    if s - {x} != {} {
      OldestExists(nfts, s - {x});
      var y :| y in s - {x} && forall o | o in s - {x} :: nfts[y].updatedAt <= nfts[o].updatedAt;
      assert forall o | o in s :: o == x || o in s - {x};
      if nfts[x].updatedAt < nfts[y].updatedAt {
        assert forall o | o in s :: nfts[x].updatedAt <= nfts[o].updatedAt;
      } else {
        assert forall o | o in s :: nfts[y].updatedAt <= nfts[o].updatedAt;
      }
    } else {
      assert forall o | o in s :: o == x by {
        forall o | o in s ensures o == x {
          assert o !in s - {x};
        }
      }
    }
  }

  // The active rows are split into a batch in order of time and younger ones.
  ghost predicate OldestFirst(nfts: Nfts, batch: seq<NftId>, rest: set<NftId>)
  {
    && rest <= ActiveIds(nfts)
    && (forall id | id in nfts && nfts[id].active :: id in batch <==> id !in rest)
    && (forall id | id in batch :: id in nfts && nfts[id].active)
    && (forall i, j | 0 <= i < j < |batch| ::
          batch[i] != batch[j] && nfts[batch[i]].updatedAt <= nfts[batch[j]].updatedAt)
    && (forall id, x | id in batch && x in rest :: nfts[id].updatedAt <= nfts[x].updatedAt)
  }

  lemma TakeOldest(nfts: Nfts, batch: seq<NftId>, rest: set<NftId>, id: NftId)
    requires OldestFirst(nfts, batch, rest)
    requires id in rest && forall o | o in rest :: nfts[id].updatedAt <= nfts[o].updatedAt
    ensures OldestFirst(nfts, batch + [id], rest - {id})
  {
  }

  // ----- One cycle, seen from the order of the rows -----

  // A row keeps its token, its key and its status; if it is not bumped, all of it.
  ghost predicate RowKept(nfts: Nfts, nfts': Nfts, bumped: set<NftId>, id: NftId)
    requires id in nfts && id in nfts'
  {
    && nfts'[id].tokenId == nfts[id].tokenId
    && nfts'[id].encryptedAesKey == nfts[id].encryptedAesKey
    && nfts'[id].active == nfts[id].active
    && (id !in bumped ==> nfts'[id] == nfts[id])
  }

  ghost predicate DistinctTimes(nfts: Nfts, ids: set<NftId>)
  {
    forall x, y | x in ids && y in ids && x in nfts && y in nfts && x != y :: nfts[x].updatedAt != nfts[y].updatedAt
  }

  // The batch is processed: the rows in bumped get times later than `since`, before which
  // the cycle started, and no other row moves.
  ghost predicate CycleStep(nfts: Nfts, nfts': Nfts, limit: nat, batch: seq<NftId>, bumped: set<NftId>, since: nat)
  {
    && IsOldestBatch(nfts, limit, batch)
    && nfts'.Keys == nfts.Keys
    && (forall id | id in bumped :: id in batch)
    && (forall id | id in nfts :: RowKept(nfts, nfts', bumped, id))
    && (forall id | id in nfts :: nfts[id].updatedAt <= since)
    && (forall id | id in bumped && id in nfts' :: since < nfts'[id].updatedAt)
    && DistinctTimes(nfts', bumped)
  }

  class XrplSyncService {
    const batchSize: nat
    const users: Users
    const ledger: Ledger
    const fails: nat -> bool         // whether the n-th database or ledger call fails
    var calls: nat
    var nfts: Nfts
    var clock: nat                   // no row carries a later time
    var auditLog: seq<(UserId, TokenId)>

    ghost predicate Valid()
      reads this
    {
      UniqueUsers(users) && forall id | id in nfts :: nfts[id].updatedAt <= clock
    }

    method CallSucceeds() returns (ok: bool)
      modifies this`calls
      ensures ok == !fails(old(calls)) && calls == old(calls) + 1
    {
      ok := !fails(calls);
      calls := calls + 1;
    }

    // Asks the ledger about every known wallet in turn.
    method FindNftOwnerOnXrpl(token: TokenId) returns (r: Result<Option<Wallet>, SyncError>)
      modifies this`calls
      ensures calls >= old(calls)
      ensures r.Ok? ==> r.value == (match LedgerOwner(users, ledger, token) case None => None case Some(u) => Some(u.walletAddress))
      ensures r.Err? ==> exists c | old(calls) <= c < calls :: fails(c)
    {
      var listed := CallSucceeds();
      if !listed {
        return Err(CallFailed);
      }
      for i := 0 to |users|
        invariant calls >= old(calls)
        invariant forall j | 0 <= j < i :: !Owns(ledger, token, users[j].walletAddress)
      {
        var answered := CallSucceeds();
        if !answered {
          return Err(CallFailed);
        }
        if Owns(ledger, token, users[i].walletAddress) {
          assert FindByWallet(users, ledger[token]).Some?;
          return Ok(Some(users[i].walletAddress));
        }
      }
      r := Ok(None);
    }

    method SyncSingleNft(id: NftId, token: TokenId, ownerId: UserId) returns (r: Result<SyncAction, SyncError>)
      requires Valid()
      modifies this`calls, this`nfts, this`clock, this`auditLog
      ensures Valid() && calls >= old(calls) && clock >= old(clock)
      ensures nfts != old(nfts) || (r.Ok? && !r.value.NotFoundOnXrpl?) ==> clock > old(clock)
      ensures Synced(users, ledger, id, token, ownerId, old(nfts), nfts, clock, r)
      ensures auditLog == old(auditLog) +
        if r.Ok? && r.value.OwnerUpdated? then [(LedgerOwner(users, ledger, token).value.id, token)] else []
      ensures r.Err? ==> FindById(users, ownerId).None? || exists c | old(calls) <= c < calls :: fails(c)
    {
      var ok := CallSucceeds();
      var owner := FindById(users, ownerId);
      if !ok || owner.None? {
        return Err(CallFailed);
      }
      ok := CallSucceeds();
      if !ok {
        return Err(CallFailed);
      }
      WalletsIdentifyUsers(users, owner.value);
      if Owns(ledger, token, owner.value.walletAddress) {
        ok := CallSucceeds();
        if !ok {
          return Err(CallFailed);
        }
        clock := clock + 1;
        nfts := Touch(nfts, id, clock);
        return Ok(NoChange);
      }
      var found := FindNftOwnerOnXrpl(token);
      if found.Err? {
        return Err(CallFailed);
      }
      if found.value.None? {
        return Ok(NotFoundOnXrpl);
      }
      r := RecordNewOwner(id, token, owner.value.walletAddress, found.value.value);
    }

    // The branch of sync_single_nft that follows a transfer seen on the ledger.
    method RecordNewOwner(id: NftId, token: TokenId, oldWallet: Wallet, newWallet: Wallet)
      returns (r: Result<SyncAction, SyncError>)
      requires Valid()
      modifies this`calls, this`nfts, this`clock, this`auditLog
      ensures Valid() && calls >= old(calls) && clock >= old(clock)
      ensures nfts != old(nfts) || (r.Ok? && FindByWallet(users, newWallet).Some?) ==> clock > old(clock)
      ensures FindByWallet(users, newWallet).None? ==> nfts == old(nfts) && auditLog == old(auditLog)
      ensures FindByWallet(users, newWallet).Some? && r.Ok? ==>
        var owner := FindByWallet(users, newWallet).value.id;
        && r.value == OwnerUpdated(oldWallet, newWallet)
        && nfts == SetOwner(old(nfts), id, owner, clock) && auditLog == old(auditLog) + [(owner, token)]
      ensures FindByWallet(users, newWallet).Some? && r.Err? ==>
        var owner := FindByWallet(users, newWallet).value.id;
        (nfts == old(nfts) || nfts == SetOwner(old(nfts), id, owner, clock)) && auditLog == old(auditLog)
      ensures FindByWallet(users, newWallet).None? && r.Ok? ==> r.value == NewOwnerNotRegistered(newWallet)
      ensures r.Err? ==> exists c | old(calls) <= c < calls :: fails(c)
    {
      var ok := CallSucceeds();
      if !ok {
        return Err(CallFailed);
      }
      var newOwner := FindByWallet(users, newWallet);
      if newOwner.None? {
        return Ok(NewOwnerNotRegistered(newWallet));
      }
      ok := CallSucceeds();
      if !ok {
        return Err(CallFailed);
      }
      clock := clock + 1;
      nfts := SetOwner(nfts, id, newOwner.value.id, clock);
      ok := CallSucceeds();
      if !ok {
        return Err(CallFailed);
      }
      auditLog := auditLog + [(newOwner.value.id, token)];
      r := Ok(OwnerUpdated(oldWallet, newWallet));
    }

    method SelectOldest() returns (batch: seq<NftId>)
      ensures IsOldestBatch(nfts, batchSize, batch)
    {
      batch := [];
      var rest := ActiveIds(nfts);
      while rest != {} && |batch| < batchSize
        invariant |batch| <= batchSize && OldestFirst(nfts, batch, rest)
        decreases rest
      {
        OldestExists(nfts, rest);
        var id :| id in rest && forall o | o in rest :: nfts[id].updatedAt <= nfts[o].updatedAt;
        TakeOldest(nfts, batch, rest, id);
        batch := batch + [id];
        rest := rest - {id};
      }
    }

    method SyncCycle() returns (r: Result<SyncStats, SyncError>, ghost batch: seq<NftId>, ghost bumped: set<NftId>)
      requires Valid()
      modifies this`calls, this`nfts, this`clock, this`auditLog
      ensures Valid()
      ensures r.Err? ==> nfts == old(nfts) && batch == []
      ensures r.Ok? ==> CycleStep(old(nfts), nfts, batchSize, batch, bumped, old(clock))
      ensures r.Ok? ==> r.value.total == |batch| == Handled(r.value) && r.value.unregisteredOwners == 0
      ensures r.Ok? && r.value.errors == 0 ==> forall id | id in batch :: Settled(users, ledger, old(nfts), nfts, bumped, id)
      ensures r.Ok? && r.value.errors == 0 ==> CountsFates(users, ledger, old(nfts), batch, r.value)
      ensures |auditLog| == |old(auditLog)| + if r.Ok? then r.value.updated else 0
    {
      batch, bumped := [], {};
      var ok := CallSucceeds();
      if !ok {
        return Err(CallFailed), batch, bumped;
      }
      var ids := SelectOldest();
      batch := ids;
      NothingProcessed(users, ledger, nfts, batchSize, ids, clock);
      assert forall j | 0 <= j < |ids| :: ids[j] in ids;
      hide Valid;
      var stats;
      stats, bumped := SyncBatch(ids, nfts, clock);
      AllProcessed(users, ledger, old(nfts), nfts, batchSize, ids, bumped, old(clock), clock, stats.errors == 0);
      r := Ok(stats);
    }

    // The loop of sync_cycle over the rows that the query returned.
    method SyncBatch(ids: seq<NftId>, rows: Nfts, ghost since: nat) returns (stats: SyncStats, ghost bumped: set<NftId>)
      requires Valid() && Processed(users, ledger, rows, nfts, batchSize, ids, {}, 0, since, clock, true)
      requires forall j | 0 <= j < |ids| :: ids[j] in rows
      modifies this`calls, this`nfts, this`clock, this`auditLog
      ensures Valid() && Processed(users, ledger, rows, nfts, batchSize, ids, bumped, |ids|, since, clock, stats.errors == 0)
      ensures stats.total == |ids| == Handled(stats) && stats.unregisteredOwners == 0
      ensures stats.errors == 0 ==> CountsFates(users, ledger, rows, ids, stats)
      ensures |auditLog| == |old(auditLog)| + stats.updated
    {
      hide Valid, Synced, Processed, LedgerOwner, FindById, CountFate, FateOf;
      NoFates(users, ledger, rows);
      stats := SyncStats(|ids|, 0, 0, 0, 0, 0);
      bumped := {};
      for i := 0 to |ids|
        invariant Valid() && Processed(users, ledger, rows, nfts, batchSize, ids, bumped, i, since, clock, stats.errors == 0)
        invariant stats.total == |ids| && stats.unregisteredOwners == 0 && Handled(stats) == i
        invariant stats.errors == 0 ==> CountsFates(users, ledger, rows, ids[..i], stats)
        invariant |auditLog| == |old(auditLog)| + stats.updated
      {
        var id := ids[i];
        ghost var was, clockWas := nfts, clock;
        var outcome := SyncSingleNft(id, rows[id].tokenId, rows[id].ownerId);
        bumped := RowDone(users, ledger, rows, was, nfts, batchSize, ids, bumped, i, since, clockWas, clock, outcome, stats.errors == 0);
        if outcome.Ok? {
          OutcomeTellsFate(users, ledger, rows, id, was, nfts, clock, outcome.value);
          OneMoreFate(users, ledger, rows, ids[..i], id, stats, outcome);
        }
        assert ids[..i + 1] == ids[..i] + [id];
        stats := Tally(stats, outcome);
      }
      assert ids[..|ids|] == ids;
    }
  }

  // What a row's owner is, told by the ledger: somebody else, the same, or nobody known.
  datatype Fate = Stale | Current | Unheld

  function FateOf(users: Users, ledger: Ledger, row: NftRow): Fate
  {
    match LedgerOwner(users, ledger, row.tokenId)
    case None => Unheld
    case Some(u) => if u.id == row.ownerId then Current else Stale
  }

  function CountFate(f: Fate, users: Users, ledger: Ledger, rows: Nfts, ids: seq<NftId>): nat
  {
    if ids == [] then 0
    else
      var last := ids[|ids| - 1];
      CountFate(f, users, ledger, rows, ids[..|ids| - 1])
      + if last in rows && FateOf(users, ledger, rows[last]) == f then 1 else 0
  }

  // The counters of an error-free cycle: as many updates as stale owners in the batch, as
  // many unchanged as current ones, as many not found as unheld tokens.
  ghost predicate CountsFates(users: Users, ledger: Ledger, rows: Nfts, ids: seq<NftId>, stats: SyncStats)
  {
    && stats.updated == CountFate(Stale, users, ledger, rows, ids)
    && stats.unchangedOwners == CountFate(Current, users, ledger, rows, ids)
    && stats.notFound == CountFate(Unheld, users, ledger, rows, ids)
  }

  lemma NoFates(users: Users, ledger: Ledger, rows: Nfts)
    ensures forall f :: CountFate(f, users, ledger, rows, []) == 0
  {
  }

  lemma OutcomeTellsFate(
      users: Users, ledger: Ledger, rows: Nfts, id: NftId, was: Nfts, nfts: Nfts, clock: nat, action: SyncAction)
    requires UniqueUsers(users) && id in rows
    requires Synced(users, ledger, id, rows[id].tokenId, rows[id].ownerId, was, nfts, clock, Ok(action))
    ensures action == NoChange <==> FateOf(users, ledger, rows[id]) == Current
    ensures action.OwnerUpdated? <==> FateOf(users, ledger, rows[id]) == Stale
    ensures action == NotFoundOnXrpl <==> FateOf(users, ledger, rows[id]) == Unheld
    ensures !action.NewOwnerNotRegistered?
  {
    var holder, owner := LedgerOwner(users, ledger, rows[id].tokenId), FindById(users, rows[id].ownerId).value;
    if holder.Some? && holder.value.id == owner.id {
      IdsIdentifyUsers(users, holder.value, owner);
    }
  }

  lemma IdsIdentifyUsers(users: Users, u: User, v: User)
    requires UniqueUsers(users) && u in users && v in users && u.id == v.id
    ensures u == v
  {
    var i :| 0 <= i < |users| && users[i] == u;
    var j :| 0 <= j < |users| && users[j] == v;
  }

  lemma OneMoreFate(
      users: Users, ledger: Ledger, rows: Nfts, ids: seq<NftId>, id: NftId, stats: SyncStats, outcome: Result<SyncAction, SyncError>)
    requires id in rows && outcome.Ok? && !outcome.value.NewOwnerNotRegistered?
    requires outcome.value == NoChange <==> FateOf(users, ledger, rows[id]) == Current
    requires outcome.value.OwnerUpdated? <==> FateOf(users, ledger, rows[id]) == Stale
    requires outcome.value == NotFoundOnXrpl <==> FateOf(users, ledger, rows[id]) == Unheld
    ensures CountsFates(users, ledger, rows, ids, stats) ==> CountsFates(users, ledger, rows, ids + [id], Tally(stats, outcome))
  {
    hide FateOf;
    assert (ids + [id])[..|ids|] == ids;
  }

  function Tally(s: SyncStats, outcome: Result<SyncAction, SyncError>): SyncStats
  {
    match outcome
    case Ok(NoChange) => s.(unchangedOwners := s.unchangedOwners + 1)
    case Ok(OwnerUpdated(_, _)) => s.(updated := s.updated + 1)
    case Ok(NotFoundOnXrpl) => s.(notFound := s.notFound + 1)
    case Ok(NewOwnerNotRegistered(_)) => s.(unregisteredOwners := s.unregisteredOwners + 1)
    case Err(_) => s.(errors := s.errors + 1)
  }

  // The sum of the five outcome counters.
  function Handled(s: SyncStats): nat
  {
    s.updated + s.unchangedOwners + s.notFound + s.unregisteredOwners + s.errors
  }

  // After an error-free pass a row has a fresh time and the ledger's owner, unless that
  // owner is not registered; then the row is as it was.
  ghost predicate Settled(users: Users, ledger: Ledger, rows: Nfts, nfts: Nfts, bumped: set<NftId>, id: NftId)
  {
    && id in rows && id in nfts
    && var owner := LedgerOwner(users, ledger, rows[id].tokenId);
       (id in bumped <==> owner.Some?) && (owner.Some? ==> nfts[id].ownerId == owner.value.id)
  }

  // The state in which a cycle stands before row i of its batch.
  ghost predicate Processed(
      users: Users, ledger: Ledger, rows: Nfts, nfts: Nfts, limit: nat, ids: seq<NftId>, bumped: set<NftId>,
      i: nat, since: nat, clock: nat, errorFree: bool)
  {
    && i <= |ids| && CycleStep(rows, nfts, limit, ids, bumped, since) && since <= clock
    && (forall id | id in bumped :: id in ids[..i])
    && (forall id | id in nfts :: nfts[id].updatedAt <= clock)
    && (errorFree ==> forall id | id in ids[..i] :: Settled(users, ledger, rows, nfts, bumped, id))
  }

  lemma NothingProcessed(users: Users, ledger: Ledger, rows: Nfts, limit: nat, ids: seq<NftId>, clock: nat)
    requires IsOldestBatch(rows, limit, ids) && forall id | id in rows :: rows[id].updatedAt <= clock
    ensures Processed(users, ledger, rows, rows, limit, ids, {}, 0, clock, clock, true)
  {
  }

  lemma AllProcessed(
      users: Users, ledger: Ledger, rows: Nfts, nfts: Nfts, limit: nat, ids: seq<NftId>, bumped: set<NftId>,
      since: nat, clock: nat, errorFree: bool)
    requires Processed(users, ledger, rows, nfts, limit, ids, bumped, |ids|, since, clock, errorFree)
    ensures CycleStep(rows, nfts, limit, ids, bumped, since)
    ensures errorFree ==> forall id | id in ids :: Settled(users, ledger, rows, nfts, bumped, id)
  {
    assert ids[..|ids|] == ids;
  }

  // One step of the loop, for a row that has not been touched yet.
  lemma RowStepMeans(
      users: Users, ledger: Ledger, rows: Nfts, was: Nfts, nfts: Nfts, id: NftId, clockWas: nat, clock: nat,
      outcome: Result<SyncAction, SyncError>)
    requires id in rows && rows[id].active && id in was && was[id] == rows[id] && was[id].updatedAt <= clockWas <= clock
    requires Synced(users, ledger, id, rows[id].tokenId, rows[id].ownerId, was, nfts, clock, outcome)
    requires nfts != was || (outcome.Ok? && !outcome.value.NotFoundOnXrpl?) ==> clockWas < clock
    ensures id in nfts && nfts == was[id := nfts[id]]
    ensures nfts[id].tokenId == was[id].tokenId && nfts[id].encryptedAesKey == was[id].encryptedAesKey && nfts[id].active
    ensures nfts != was ==> nfts[id].updatedAt == clock && clockWas < clock
    ensures outcome.Ok? ==> !outcome.value.NewOwnerNotRegistered?
    ensures outcome.Ok? ==>
      var owner := LedgerOwner(users, ledger, rows[id].tokenId);
      (nfts != was <==> owner.Some?) && (owner.Some? ==> nfts[id].ownerId == owner.value.id)
  {
    if outcome.Ok? && !outcome.value.NotFoundOnXrpl? {
      assert nfts[id].updatedAt == clock;
    }
  }

  // Synchronising row i touches that row alone, and settles it unless a call fails.
  lemma RowDone(
      users: Users, ledger: Ledger, rows: Nfts, was: Nfts, nfts: Nfts, limit: nat, ids: seq<NftId>, bumped: set<NftId>,
      i: nat, since: nat, clockWas: nat, clock: nat, outcome: Result<SyncAction, SyncError>, errorFree: bool)
    returns (bumped': set<NftId>)
    requires i < |ids| && Processed(users, ledger, rows, was, limit, ids, bumped, i, since, clockWas, errorFree)
    requires clockWas <= clock && ids[i] in rows
    requires Synced(users, ledger, ids[i], rows[ids[i]].tokenId, rows[ids[i]].ownerId, was, nfts, clock, outcome)
    requires nfts != was || (outcome.Ok? && !outcome.value.NotFoundOnXrpl?) ==> clockWas < clock
    ensures Processed(users, ledger, rows, nfts, limit, ids, bumped', i + 1, since, clock, errorFree && outcome.Ok?)
    ensures outcome.Ok? ==> !outcome.value.NewOwnerNotRegistered?
  {
    hide Synced, CycleStep, Settled, LedgerOwner;
    var id := ids[i];
    bumped' := if nfts != was then bumped + {id} else bumped;
    RowIsUntouched(rows, was, limit, ids, bumped, i, since, clockWas);
    RowStepMeans(users, ledger, rows, was, nfts, id, clockWas, clock, outcome);
    assert ids[..i + 1] == ids[..i] + [id];
    if nfts != was {
      RowMoved(rows, was, nfts, limit, ids, bumped, id, since, clockWas, clock);
    }
    if errorFree && outcome.Ok? {
      AllStaySettled(users, ledger, rows, was, nfts, ids[..i], bumped, id);
    }
  }

  lemma RowIsUntouched(
      rows: Nfts, was: Nfts, limit: nat, ids: seq<NftId>, bumped: set<NftId>, i: nat, since: nat, clock: nat)
    requires i < |ids| && CycleStep(rows, was, limit, ids, bumped, since)
    requires forall id | id in bumped :: id in ids[..i]
    requires forall id | id in was :: was[id].updatedAt <= clock
    ensures ids[i] !in ids[..i] && ids[i] !in bumped && ids[i] in rows && rows[ids[i]].active
    ensures ids[i] in was && was[ids[i]] == rows[ids[i]] && was[ids[i]].updatedAt <= clock
  {
    assert RowKept(rows, was, bumped, ids[i]);
  }

  lemma AllStaySettled(
      users: Users, ledger: Ledger, rows: Nfts, was: Nfts, nfts: Nfts, done: seq<NftId>, bumped: set<NftId>, id: NftId)
    requires id !in done && id !in bumped && id in nfts && nfts == was[id := nfts[id]]
    requires forall x | x in done :: Settled(users, ledger, rows, was, bumped, x)
    requires id in rows && var owner := LedgerOwner(users, ledger, rows[id].tokenId);
      (nfts != was <==> owner.Some?) && (owner.Some? ==> nfts[id].ownerId == owner.value.id)
    ensures forall x | x in done + [id] ::
      Settled(users, ledger, rows, nfts, if nfts != was then bumped + {id} else bumped, x)
  {
    forall x | x in done + [id]
      ensures Settled(users, ledger, rows, nfts, if nfts != was then bumped + {id} else bumped, x)
    {
      if x in done {
        assert Settled(users, ledger, rows, was, bumped, x) && x != id;
      }
    }
  }

  lemma RowMoved(
      rows: Nfts, was: Nfts, nfts: Nfts, limit: nat, ids: seq<NftId>, bumped: set<NftId>, id: NftId,
      since: nat, clockWas: nat, clock: nat)
    requires CycleStep(rows, was, limit, ids, bumped, since) && since <= clockWas < clock && id in ids && id !in bumped
    requires id in nfts && nfts == was[id := nfts[id]]
    requires nfts[id].tokenId == was[id].tokenId && nfts[id].encryptedAesKey == was[id].encryptedAesKey && nfts[id].active
    requires nfts[id].updatedAt == clock
    requires forall x | x in was :: was[x].updatedAt <= clockWas
    ensures CycleStep(rows, nfts, limit, ids, bumped + {id}, since)
    ensures forall x | x in nfts :: nfts[x].updatedAt <= clock
  {
    forall x | x in rows ensures RowKept(rows, nfts, bumped + {id}, x) {
      assert RowKept(rows, was, bumped, x);
    }
    hide RowKept, IsOldestBatch;
  }
}
