// How long an NFT waits for its turn in the synchroniser's round-robin, and which NFTs
// wait for ever. A row that is not found on the ledger, or whose calls fail, keeps its
// old time, and with it its place at the head of the queue.
module SyncFairness {
  import opened Prelude
  import opened OwnerSync

  // The cycles of a run in which exactly the rows in `stuck` are never given a fresh time.
  function BumpedBy(batch: seq<NftId>, stuck: set<NftId>): set<NftId>
  {
    set id | id in batch && id !in stuck
  }

  ghost predicate IsSchedule(run: seq<Nfts>, batches: seq<seq<NftId>>, limit: nat, stuck: set<NftId>)
  {
    && |run| == |batches| + 1
    && forall i | 0 <= i < |batches| :: IsCycle(run[i], run[i + 1], limit, batches[i], stuck)
  }

  ghost predicate IsCycle(nfts: Nfts, nfts': Nfts, limit: nat, batch: seq<NftId>, stuck: set<NftId>)
  {
    exists since: nat :: CycleStep(nfts, nfts', limit, batch, BumpedBy(batch, stuck), since)
  }

  // The active rows that may be served before x.
  function Ahead(nfts: Nfts, x: NftId): set<NftId>
    requires x in nfts
  {
    set y | y in nfts && nfts[y].active && y != x && nfts[y].updatedAt <= nfts[x].updatedAt
  }

  function SetOf(batch: seq<NftId>): set<NftId>
  {
    set id | id in batch
  }

  lemma {:induction false} DistinctSeqSize(batch: seq<NftId>)
    requires forall i, j | 0 <= i < j < |batch| :: batch[i] != batch[j]
    ensures |SetOf(batch)| == |batch|
  {
    if batch != [] {
      var last := |batch| - 1;
      DistinctSeqSize(batch[..last]);
      assert SetOf(batch) == SetOf(batch[..last]) + {batch[last]};
    }
  }

  lemma SubsetSize(a: set<NftId>, b: set<NftId>)
    requires a <= b
    ensures |a| <= |b|
  {
    assert b == a + (b - a);
  }

  // A row that is passed over sees a full batch of rows served before it; those that get
  // a fresh time fall behind it, the stuck ones stay.
  lemma PassedOver(nfts: Nfts, nfts': Nfts, limit: nat, batch: seq<NftId>, stuck: set<NftId>, x: NftId)
    requires IsCycle(nfts, nfts', limit, batch, stuck) && x in nfts && nfts[x].active && x !in batch
    ensures x in nfts' && nfts'[x] == nfts[x]
    ensures SetOf(batch) <= Ahead(nfts, x) && |SetOf(batch)| == limit
    ensures Ahead(nfts', x) == Ahead(nfts, x) - BumpedBy(batch, stuck)
  {
    DistinctSeqSize(batch);
    var since: nat :| CycleStep(nfts, nfts', limit, batch, BumpedBy(batch, stuck), since);
    assert RowKept(nfts, nfts', BumpedBy(batch, stuck), x);
    forall y | y in nfts ensures y in Ahead(nfts', x) <==> y in Ahead(nfts, x) && y !in BumpedBy(batch, stuck) {
      assert RowKept(nfts, nfts', BumpedBy(batch, stuck), y);
    }
  }

  lemma QueueShortens(nfts: Nfts, nfts': Nfts, limit: nat, batch: seq<NftId>, stuck: set<NftId>, x: NftId)
    requires IsCycle(nfts, nfts', limit, batch, stuck) && x in nfts && nfts[x].active && x !in batch
    ensures x in nfts' && nfts'[x] == nfts[x]
    ensures Ahead(nfts', x) * stuck == Ahead(nfts, x) * stuck
    ensures limit <= |Ahead(nfts, x)|
    ensures |Ahead(nfts', x)| + limit <= |Ahead(nfts, x)| + |Ahead(nfts, x) * stuck|
  {
    hide IsCycle, Ahead, SetOf, BumpedBy;
    PassedOver(nfts, nfts', limit, batch, stuck, x);
    var ahead, served := Ahead(nfts, x), SetOf(batch);
    BumpedAreServed(batch, stuck);
    RemovalSize(ahead, served, stuck);
    assert (ahead - (served - stuck)) * stuck == ahead * stuck;
  }

  lemma BumpedAreServed(batch: seq<NftId>, stuck: set<NftId>)
    ensures BumpedBy(batch, stuck) == SetOf(batch) - stuck
  {
  }

  lemma RemovalSize(ahead: set<NftId>, served: set<NftId>, stuck: set<NftId>)
    requires served <= ahead
    ensures |served| <= |ahead| && |ahead - (served - stuck)| + |served| <= |ahead| + |ahead * stuck|
  {
    SubsetSize(served, ahead);
    SubsetSize(served * stuck, ahead * stuck);
    assert served == (served - stuck) + served * stuck;
    assert ahead == (ahead - (served - stuck)) + (served - stuck);
  }

  lemma OneCycleSpent(ahead: nat, ahead': nat, limit: nat, s: nat, n: nat)
    requires s < limit <= ahead < limit + n * (limit - s) && ahead' + limit <= ahead + s
    ensures n > 0 && ahead' < limit + (n - 1) * (limit - s)
  {
    if n == 0 {
      assert false;
    }
    assert n * (limit - s) == (n - 1) * (limit - s) + (limit - s);
  }

  // With fewer stuck rows ahead of it than a batch holds, a row is served no later than
  // cycle n, as soon as n cycles of progress exhaust the queue before it.
  lemma {:induction false} ServedWithin(
      run: seq<Nfts>, batches: seq<seq<NftId>>, limit: nat, stuck: set<NftId>, x: NftId, k: nat, n: nat)
    requires IsSchedule(run, batches, limit, stuck) && k + n < |batches|
    requires x in run[k] && run[k][x].active
    requires var s := |Ahead(run[k], x) * stuck|; s < limit && |Ahead(run[k], x)| < limit + n * (limit - s)
    ensures exists c | k <= c <= k + n :: x in batches[c]
    decreases n
  {
    hide CycleStep;
    if x !in batches[k] {
      assert IsCycle(run[k], run[k + 1], limit, batches[k], stuck);
      QueueShortens(run[k], run[k + 1], limit, batches[k], stuck, x);
      var s := |Ahead(run[k], x) * stuck|;
      OneCycleSpent(|Ahead(run[k], x)|, |Ahead(run[k + 1], x)|, limit, s, n);
      hide IsCycle, Ahead;
      ServedWithin(run, batches, limit, stuck, x, k + 1, n - 1);
    }
  }

  function ActiveCount(nfts: Nfts): nat
  {
    |ActiveIds(nfts)|
  }

  lemma QueueIsShorterThanTable(nfts: Nfts, x: NftId)
    requires x in nfts && nfts[x].active
    ensures |Ahead(nfts, x)| < ActiveCount(nfts)
  {
    SubsetSize(Ahead(nfts, x), ActiveIds(nfts) - {x});
  }

  // When every selected row ends in a fresh time, each of N active rows is served within
  // m cycles, for any m with m * batch size >= N.
  lemma EveryRowServedWithinOneRound(run: seq<Nfts>, batches: seq<seq<NftId>>, limit: nat, x: NftId, m: nat)
    requires IsSchedule(run, batches, limit, {}) && m <= |batches|
    requires x in run[0] && run[0][x].active && ActiveCount(run[0]) <= m * limit
    ensures exists c | 0 <= c < m :: x in batches[c]
  {
    QueueIsShorterThanTable(run[0], x);
    assert Ahead(run[0], x) * {} == {};
    assert m > 0 && limit > 0;
    assert m * limit == limit + (m - 1) * limit;
    ServedWithin(run, batches, limit, {}, x, 0, m - 1);
  }

  // The stuck rows strictly older than x.
  function StuckBefore(nfts: Nfts, stuck: set<NftId>, x: NftId): set<NftId>
    requires x in nfts
  {
    set y | y in nfts && nfts[y].active && y in stuck && nfts[y].updatedAt < nfts[x].updatedAt
  }

  // A batch's worth of older stuck rows starves x.
  lemma {:induction false} StarvedAt(
      run: seq<Nfts>, batches: seq<seq<NftId>>, limit: nat, stuck: set<NftId>, x: NftId, k: nat)
    requires IsSchedule(run, batches, limit, stuck) && k < |batches|
    requires x in run[0] && run[0][x].active && limit <= |StuckBefore(run[0], stuck, x)|
    ensures x in run[k] && run[k][x] == run[0][x] && StuckBefore(run[k], stuck, x) == StuckBefore(run[0], stuck, x)
    ensures x !in batches[k]
  {
    if k > 0 {
      StarvedAt(run, batches, limit, stuck, x, k - 1);
      assert IsCycle(run[k - 1], run[k], limit, batches[k - 1], stuck);
      StuckRowsStay(run[k - 1], run[k], limit, batches[k - 1], stuck, x);
    }
    assert IsCycle(run[k], run[k + 1], limit, batches[k], stuck);
    NotServedBeforeOlder(run[k], run[k + 1], limit, batches[k], stuck, x);
  }

  lemma StuckRowsStay(nfts: Nfts, nfts': Nfts, limit: nat, batch: seq<NftId>, stuck: set<NftId>, x: NftId)
    requires IsCycle(nfts, nfts', limit, batch, stuck) && x in nfts && nfts[x].active && x !in batch
    ensures x in nfts' && nfts'[x] == nfts[x] && StuckBefore(nfts', stuck, x) == StuckBefore(nfts, stuck, x)
  {
    var bumped := BumpedBy(batch, stuck);
    var since: nat :| CycleStep(nfts, nfts', limit, batch, bumped, since);
    assert RowKept(nfts, nfts', bumped, x);
    forall y | y in nfts ensures y in StuckBefore(nfts', stuck, x) <==> y in StuckBefore(nfts, stuck, x) {
      assert RowKept(nfts, nfts', bumped, y);
    }
  }

  lemma NotServedBeforeOlder(nfts: Nfts, nfts': Nfts, limit: nat, batch: seq<NftId>, stuck: set<NftId>, x: NftId)
    requires IsCycle(nfts, nfts', limit, batch, stuck) && x in nfts && nfts[x].active
    requires limit <= |StuckBefore(nfts, stuck, x)|
    ensures x !in batch
  {
    if x in batch {
      DistinctSeqSize(batch);
      assert StuckBefore(nfts, stuck, x) <= SetOf(batch) - {x};
      SubsetSize(StuckBefore(nfts, stuck, x), SetOf(batch) - {x});
    }
  }

  lemma {:induction false} ProductAtLeast(n: nat, k: nat)
    requires 0 < k
    ensures n <= n * k
  {
    if n > 0 {
      ProductAtLeast(n - 1, k);
      assert n * k == (n - 1) * k + k;
    }
  }

  // Exactly which rows are ever served: over at least as many cycles as there are active
  // rows, with distinct initial times, x has its turn if and only if fewer rows than a
  // batch holds are both stuck and older than x.
  lemma ServedIffFewStuckAhead(run: seq<Nfts>, batches: seq<seq<NftId>>, limit: nat, stuck: set<NftId>, x: NftId)
    requires IsSchedule(run, batches, limit, stuck) && ActiveCount(run[0]) <= |batches|
    requires x in run[0] && run[0][x].active && DistinctTimes(run[0], ActiveIds(run[0]))
    ensures (exists c | 0 <= c < |batches| :: x in batches[c]) <==> |StuckBefore(run[0], stuck, x)| < limit
  {
    assert StuckBefore(run[0], stuck, x) == Ahead(run[0], x) * stuck;
    var s := |Ahead(run[0], x) * stuck|;
    QueueIsShorterThanTable(run[0], x);
    hide IsSchedule, Ahead, StuckBefore, ActiveCount;
    if s < limit {
      var n := |batches| - 1;
      ProductAtLeast(n, limit - s);
      ServedWithin(run, batches, limit, stuck, x, 0, n);
    } else {
      forall c | 0 <= c < |batches| ensures x !in batches[c] {
        StarvedAt(run, batches, limit, stuck, x, c);
      }
    }
  }

  // The rows whose token belongs to nobody registered: burned, or held by a stranger.
  function Unregistered(users: Users, ledger: Ledger, nfts: Nfts): set<NftId>
  {
    set id | id in nfts && LedgerOwner(users, ledger, nfts[id].tokenId).None?
  }

  // In error-free cycles these are the stuck rows, cycle after cycle.
  lemma ErrorFreeCyclesLeaveUnregisteredStuck(
      users: Users, ledger: Ledger, rows: Nfts, nfts: Nfts, limit: nat, batch: seq<NftId>, bumped: set<NftId>, since: nat)
    requires CycleStep(rows, nfts, limit, batch, bumped, since)
    requires forall id | id in batch :: Settled(users, ledger, rows, nfts, bumped, id)
    ensures IsCycle(rows, nfts, limit, batch, Unregistered(users, ledger, rows))
    ensures Unregistered(users, ledger, nfts) == Unregistered(users, ledger, rows)
  {
    assert bumped == BumpedBy(batch, Unregistered(users, ledger, rows)) by {
      forall id | id in batch ensures id in bumped <==> id !in Unregistered(users, ledger, rows) {
        assert Settled(users, ledger, rows, nfts, bumped, id);
      }
    }
    assert CycleStep(rows, nfts, limit, batch, BumpedBy(batch, Unregistered(users, ledger, rows)), since);
    forall id | id in rows ensures nfts[id].tokenId == rows[id].tokenId {
      assert RowKept(rows, nfts, bumped, id);
    }
  }

  // ----- Owners converge -----

  ghost predicate ErrorFreeCycle(users: Users, ledger: Ledger, rows: Nfts, nfts: Nfts, limit: nat, batch: seq<NftId>)
  {
    exists bumped: set<NftId>, since: nat ::
      && CycleStep(rows, nfts, limit, batch, bumped, since)
      && forall id | id in batch :: Settled(users, ledger, rows, nfts, bumped, id)
  }

  // A run of cycles without a failed call, while users and ledger stay as they are.
  ghost predicate ErrorFreeRun(users: Users, ledger: Ledger, run: seq<Nfts>, batches: seq<seq<NftId>>, limit: nat)
  {
    && |run| == |batches| + 1
    && forall i | 0 <= i < |batches| :: ErrorFreeCycle(users, ledger, run[i], run[i + 1], limit, batches[i])
  }

  // The row's owner is the registered owner of its token on the ledger.
  predicate InLine(users: Users, ledger: Ledger, nfts: Nfts, id: NftId)
  {
    && id in nfts
    && var owner := LedgerOwner(users, ledger, nfts[id].tokenId);
       owner.Some? && nfts[id].ownerId == owner.value.id
  }

  // What an error-free cycle does to one row: served, its owner comes in line; passed
  // over, it stays as it is.
  lemma CycleOnRow(users: Users, ledger: Ledger, rows: Nfts, nfts: Nfts, limit: nat, batch: seq<NftId>, x: NftId)
    requires ErrorFreeCycle(users, ledger, rows, nfts, limit, batch) && x in rows
    ensures IsCycle(rows, nfts, limit, batch, Unregistered(users, ledger, rows))
    ensures Unregistered(users, ledger, nfts) == Unregistered(users, ledger, rows)
    ensures x in nfts && nfts[x].tokenId == rows[x].tokenId && nfts[x].active == rows[x].active
    ensures x !in batch ==> nfts[x] == rows[x]
    ensures x in batch && x !in Unregistered(users, ledger, rows) ==> InLine(users, ledger, nfts, x)
  {
    var bumped: set<NftId>, since: nat :|
      && CycleStep(rows, nfts, limit, batch, bumped, since)
      && forall id | id in batch :: Settled(users, ledger, rows, nfts, bumped, id);
    ErrorFreeCyclesLeaveUnregisteredStuck(users, ledger, rows, nfts, limit, batch, bumped, since);
    assert RowKept(rows, nfts, bumped, x);
    assert x in batch ==> Settled(users, ledger, rows, nfts, bumped, x);
  }

  lemma {:induction false} RunOnRow(
      users: Users, ledger: Ledger, run: seq<Nfts>, batches: seq<seq<NftId>>, limit: nat, x: NftId, j: nat)
    requires ErrorFreeRun(users, ledger, run, batches, limit) && j <= |batches| && x in run[0]
    ensures x in run[j] && run[j][x].tokenId == run[0][x].tokenId && run[j][x].active == run[0][x].active
    ensures Unregistered(users, ledger, run[j]) == Unregistered(users, ledger, run[0])
    ensures (forall i | 0 <= i < j :: x !in batches[i]) ==> run[j][x] == run[0][x]
  {
    if j > 0 {
      RunOnRow(users, ledger, run, batches, limit, x, j - 1);
      CycleOnRow(users, ledger, run[j - 1], run[j], limit, batches[j - 1], x);
    }
  }

  // An error-free run is one in which exactly the unregistered rows are stuck.
  lemma ErrorFreeRunIsSchedule(
      users: Users, ledger: Ledger, run: seq<Nfts>, batches: seq<seq<NftId>>, limit: nat, x: NftId)
    requires ErrorFreeRun(users, ledger, run, batches, limit) && x in run[0]
    ensures IsSchedule(run, batches, limit, Unregistered(users, ledger, run[0]))
  {
    forall i | 0 <= i < |batches|
      ensures IsCycle(run[i], run[i + 1], limit, batches[i], Unregistered(users, ledger, run[0]))
    {
      RunOnRow(users, ledger, run, batches, limit, x, i);
      CycleOnRow(users, ledger, run[i], run[i + 1], limit, batches[i], x);
    }
  }

  // Once in line, a row stays in line.
  lemma {:induction false} StaysInLine(
      users: Users, ledger: Ledger, run: seq<Nfts>, batches: seq<seq<NftId>>, limit: nat, x: NftId, i: nat, j: nat)
    requires ErrorFreeRun(users, ledger, run, batches, limit) && i <= j <= |batches|
    requires InLine(users, ledger, run[i], x)
    ensures InLine(users, ledger, run[j], x)
  {
    if i < j {
      StaysInLine(users, ledger, run, batches, limit, x, i, j - 1);
      CycleOnRow(users, ledger, run[j - 1], run[j], limit, batches[j - 1], x);
    }
  }

  // Convergence: an active row with fewer older stuck rows than a batch holds has its
  // ledger owner after as many cycles as there are active rows, and from then on.
  lemma OwnersConverge(
      users: Users, ledger: Ledger, run: seq<Nfts>, batches: seq<seq<NftId>>, limit: nat, x: NftId, j: nat)
    requires ErrorFreeRun(users, ledger, run, batches, limit) && ActiveCount(run[0]) <= j <= |batches|
    requires x in run[0] && run[0][x].active && DistinctTimes(run[0], ActiveIds(run[0]))
    requires LedgerOwner(users, ledger, run[0][x].tokenId).Some?
    requires |StuckBefore(run[0], Unregistered(users, ledger, run[0]), x)| < limit
    ensures InLine(users, ledger, run[j], x)
  {
    var stuck := Unregistered(users, ledger, run[0]);
    ErrorFreeRunIsSchedule(users, ledger, run, batches, limit, x);
    assert StuckBefore(run[0], stuck, x) == Ahead(run[0], x) * stuck;
    QueueIsShorterThanTable(run[0], x);
    var n := ActiveCount(run[0]) - 1;
    var s := |Ahead(run[0], x) * stuck|;
    assert x !in stuck;
    hide IsSchedule, Ahead, StuckBefore, ActiveCount, Unregistered, InLine, ErrorFreeCycle, LedgerOwner;
    ProductAtLeast(n, limit - s);
    ServedWithin(run, batches, limit, stuck, x, 0, n);
    var c :| 0 <= c <= n && x in batches[c];
    RunOnRow(users, ledger, run, batches, limit, x, c);
    CycleOnRow(users, ledger, run[c], run[c + 1], limit, batches[c], x);
    StaysInLine(users, ledger, run, batches, limit, x, c + 1, j);
  }

  // Exactly which stale rows are ever corrected: with at least as many error-free cycles
  // as there are active rows, those with fewer older stuck rows than a batch holds.
  lemma StaleOwnerCorrectedIff(
      users: Users, ledger: Ledger, run: seq<Nfts>, batches: seq<seq<NftId>>, limit: nat, x: NftId)
    requires ErrorFreeRun(users, ledger, run, batches, limit) && ActiveCount(run[0]) <= |batches|
    requires x in run[0] && run[0][x].active && DistinctTimes(run[0], ActiveIds(run[0]))
    requires LedgerOwner(users, ledger, run[0][x].tokenId).Some? && !InLine(users, ledger, run[0], x)
    ensures InLine(users, ledger, run[|batches|], x)
      <==> |StuckBefore(run[0], Unregistered(users, ledger, run[0]), x)| < limit
  {
    var stuck := Unregistered(users, ledger, run[0]);
    if |StuckBefore(run[0], stuck, x)| < limit {
      OwnersConverge(users, ledger, run, batches, limit, x, |batches|);
    } else {
      ErrorFreeRunIsSchedule(users, ledger, run, batches, limit, x);
      forall c | 0 <= c < |batches| ensures x !in batches[c] {
        StarvedAt(run, batches, limit, stuck, x, c);
      }
      RunOnRow(users, ledger, run, batches, limit, x, |batches|);
    }
  }

  // ----- A row that waits for ever -----

  // The token of "a" is burned; the token of "b" was transferred to a registered user.
  const WAITING_USERS: Users := [User("u", "w"), User("v", "z")]

  const WAITING_LEDGER: Ledger := map["t" := "w"]

  const WAITING_ROWS: Nfts := map[
    "a" := NftRow("burned", "v", true, 0, "key"),
    "b" := NftRow("t", "v", true, 1, "key")]

  // With batches of one, "a" is selected in every cycle and "b" in none: for any number
  // of error-free cycles "b" keeps the owner it no longer has.
  lemma BurnedTokenStarvesTransfer(n: nat)
    ensures var run, batches := seq(n + 1, _ => WAITING_ROWS), seq(n, _ => ["a"]);
      && ErrorFreeRun(WAITING_USERS, WAITING_LEDGER, run, batches, 1)
      && (forall c | 0 <= c < n :: "b" !in batches[c])
      && LedgerOwner(WAITING_USERS, WAITING_LEDGER, WAITING_ROWS["b"].tokenId) == Some(User("u", "w"))
      && run[n]["b"].ownerId == "v"
  {
    assert LedgerOwner(WAITING_USERS, WAITING_LEDGER, "burned") == None;
    assert IsOldestBatch(WAITING_ROWS, 1, ["a"]);
    assert CycleStep(WAITING_ROWS, WAITING_ROWS, 1, ["a"], {}, 1);
    assert Settled(WAITING_USERS, WAITING_LEDGER, WAITING_ROWS, WAITING_ROWS, {}, "a");
    assert ErrorFreeCycle(WAITING_USERS, WAITING_LEDGER, WAITING_ROWS, WAITING_ROWS, 1, ["a"]);
  }
}
