// What the storage node answers (crates/storage-node/src/main.rs): under which
// conditions, told by the disk and the other requests alone, a PUT, GET or DELETE ends
// in which response, and that it does end.
module FragmentOutcomes {
  import opened Prelude
  import opened StorageKeys
  import opened FragmentStore

  // Request id arrives in step i and is still known, served or answered, after step j.
  ghost predicate Served(run: seq<Node>, events: seq<Event>, i: nat, j: nat, id: nat, op: Op)
  {
    && IsRun(run, events) && |run| == |events| + 1 && i < j <= |events|
    && events[i] == Arrive(op) && id == run[i].arrived && id in run[j].reqs
  }

  predicate IsStepOf(e: Event, id: nat)
  {
    e.Act? && e.id == id
  }

  // No file-system call of the request itself fails.
  predicate Unfailing(events: seq<Event>, i: nat, j: nat, id: nat)
  {
    i <= j <= |events| && forall m | i <= m < j && IsStepOf(events[m], id) :: !events[m].fault
  }

  // No DELETE other than request id takes the key's file away.
  ghost predicate KeptByOthers(run: seq<Node>, events: seq<Event>, i: nat, j: nat, id: nat, key: string)
  {
    && i <= j <= |events| && |run| == |events| + 1
    && forall m | i <= m < j :: Removes(run[m], events[m], key) ==> events[m].id == id
  }

  lemma ArrivalMoves(s: Node, op: Op, s': Node)
    requires Moves(s, Arrive(op), s')
    ensures s.arrived !in s.reqs && s'.reqs == s.reqs[s.arrived := Request(op, Start)] && s'.disk == s.disk
  {
  }

  lemma CrashDropsRequests(s: Node, e: Event, s': Node)
    requires Moves(s, e, s') && e.Crash?
    ensures s'.reqs == map[]
  {
  }

  // One step of a reachable node.
  ghost predicate Moves(s: Node, e: Event, s': Node)
  {
    Inv(s) && Step(s, e) == Some(s')
  }

  lemma RunMoves(run: seq<Node>, events: seq<Event>, m: nat)
    requires m < |events| && IsRun(run, events)
    ensures Moves(run[m], events[m], run[m + 1])
  {
    InvAlongRun(run, events, m);
    hide Step, Inv, ForeignCleanup;
  }

  // The request stands with its operation at every instant in between,
  lemma InService(run: seq<Node>, events: seq<Event>, i: nat, j: nat, id: nat, op: Op, m: nat)
    requires i < m <= j && Served(run, events, i, j, id, op)
    ensures id in run[m].reqs && run[m].reqs[id].op == op && (m == i + 1 ==> run[m].reqs[id].pc == Start)
  {
    hide Moves, IdHistory;
    RunsHaveIdHistory(run, events);
    RunMoves(run, events, i);
    ArrivalMoves(run[i], op, run[i + 1]);
    hide IsRun;
    RequestKeepsItsOp(run, i + 1, m, j, id);
    RequestKeepsItsOp(run, i + 1, i + 1, j, id);
  }

  // and no crash comes in between.
  lemma InServiceStep(run: seq<Node>, events: seq<Event>, i: nat, j: nat, id: nat, op: Op, m: nat)
    requires i <= m < j && Served(run, events, i, j, id, op)
    ensures Moves(run[m], events[m], run[m + 1]) && !events[m].Crash?
  {
    hide Moves;
    RunMoves(run, events, m);
    InService(run, events, i, j, id, op, m + 1);
    hide IsRun;
    if events[m].Crash? {
      CrashDropsRequests(run[m], events[m], run[m + 1]);
    }
  }

  // The file under the key stays where it is and as it is through one step.
  lemma FileStays(s: Node, e: Event, s': Node, key: string)
    requires Moves(s, e, s') && ValidKey(key) && key in s.disk.names
    requires !Removes(s, e, key) && !e.Crash?
    ensures key in s'.disk.names && s'.disk.names[key] == s.disk.names[key]
    ensures s.disk.names[key] in s.disk.data && s.disk.names[key] in s'.disk.data
    ensures s'.disk.data[s.disk.names[key]] == s.disk.data[s.disk.names[key]]
  {
    KeyStep(s, e, s', key);
    DiskOf(s);
    hide Step, Inv;
    assert KeyStepOk(s, e, s', key) && DiskInv(s.disk);
  }

  lemma DiskOf(s: Node)
    requires Inv(s)
    ensures DiskInv(s.disk)
  {
  }

  // A step that is not the request's own leaves it as it is.
  lemma OthersLeaveRequest(s: Node, e: Event, s': Node, id: nat)
    requires Moves(s, e, s') && id in s.reqs && !e.Crash? && !IsStepOf(e, id)
    ensures id in s'.reqs && s'.reqs[id] == s.reqs[id]
  {
  }

  // ----- GET -----

  // Where a GET of a key that holds these bytes may stand.
  ghost predicate ReadsHeld(s: Node, id: nat, key: string, bytes: Bytes)
  {
    && id in s.reqs && s.reqs[id].op == Get(key) && Holds(s, key, bytes)
    && match s.reqs[id].pc
       case Start => true
       case GetStat => true
       case GetOpen => true
       case GetRead(ino, got) => ino == s.disk.names[key] && got <= bytes
       case Done(r) => r == GetOk(bytes)
       case _ => false
  }

  lemma ReadsHeldStep(s: Node, e: Event, s': Node, id: nat, key: string, bytes: Bytes)
    requires Moves(s, e, s') && ValidKey(key) && ReadsHeld(s, id, key, bytes)
    requires !Removes(s, e, key) && !e.Crash? && (IsStepOf(e, id) ==> !e.fault)
    ensures ReadsHeld(s', id, key, bytes)
  {
    hide Inv;
    FileStays(s, e, s', key);
    if IsStepOf(e, id) {
      ValidatorAcceptsExactlyValidKeys(key);
      hide ValidateStorageKey, ValidKey;
    } else {
      OthersLeaveRequest(s, e, s', id);
      hide Step, Inv;
    }
  }

  // A GET of a key that holds these bytes, and of which no DELETE takes the file away
  // while it is served.
  ghost predicate GetsHeld(run: seq<Node>, events: seq<Event>, i: nat, j: nat, id: nat, key: string, bytes: Bytes)
  {
    && Served(run, events, i, j, id, Get(key)) && ValidKey(key) && Holds(run[i], key, bytes)
    && Unfailing(events, i, j, id) && KeptByOthers(run, events, i, j, id, key)
  }

  lemma {:induction false} ReadsHeldAlong(
      run: seq<Node>, events: seq<Event>, i: nat, j: nat, id: nat, key: string, bytes: Bytes, m: nat)
    requires i < m <= j && GetsHeld(run, events, i, j, id, key, bytes)
    ensures ReadsHeld(run[m], id, key, bytes)
  {
    hide IsRun, Moves, Removes;
    InService(run, events, i, j, id, Get(key), m);
    InServiceStep(run, events, i, j, id, Get(key), m - 1);
    if m == i + 1 {
      ArrivalRemovesNothing(run[i], events[i], key);
      FileStays(run[i], events[i], run[m], key);
    } else {
      ReadsHeldAlong(run, events, i, j, id, key, bytes, m - 1);
      OnlyDeletesRemove(run[m - 1], events[m - 1], id, key);
      hide ReadsHeld;
      ReadsHeldStep(run[m - 1], events[m - 1], run[m], id, key, bytes);
    }
  }

  lemma ArrivalRemovesNothing(s: Node, e: Event, key: string)
    requires e.Arrive?
    ensures !Removes(s, e, key)
  {
  }

  lemma OnlyDeletesRemove(s: Node, e: Event, id: nat, key: string)
    requires id in s.reqs && !s.reqs[id].op.Delete?
    ensures Removes(s, e, key) ==> e.id != id
  {
  }

  // It is answered with this file, whatever other requests do.
  lemma GetReturnsHeldFile(
      run: seq<Node>, events: seq<Event>, i: nat, j: nat, id: nat, key: string, bytes: Bytes)
    requires GetsHeld(run, events, i, j, id, key, bytes) && run[j].reqs[id].pc.Done?
    ensures run[j].reqs[id].pc == Done(GetOk(bytes))
  {
    ReadsHeldAlong(run, events, i, j, id, key, bytes, j);
  }

  // The key has no file at any instant of the service.
  ghost predicate Missing(run: seq<Node>, i: nat, j: nat, key: string)
  {
    i <= j < |run| && forall m | i <= m <= j :: key !in run[m].disk.names
  }

  // Where a GET or a DELETE of a key without a file may stand.
  ghost predicate FindsNothing(s: Node, id: nat, key: string)
  {
    && id in s.reqs && s.reqs[id].op in {Get(key), Delete(key)} && key !in s.disk.names
    && match s.reqs[id].pc
       case Start => true
       case GetStat => s.reqs[id].op.Get?
       case DelStat => s.reqs[id].op.Delete?
       case Done(r) => r == NotFound
       case _ => false
  }

  lemma FindsNothingStep(s: Node, e: Event, s': Node, id: nat, key: string)
    requires Moves(s, e, s') && ValidKey(key) && FindsNothing(s, id, key)
    requires key !in s'.disk.names && !e.Crash?
    ensures FindsNothing(s', id, key)
  {
    hide Inv;
    if IsStepOf(e, id) {
      ValidatorAcceptsExactlyValidKeys(key);
      hide ValidateStorageKey, ValidKey;
    } else {
      OthersLeaveRequest(s, e, s', id);
      hide Moves;
    }
  }

  lemma {:induction false} FindsNothingAlong(
      run: seq<Node>, events: seq<Event>, i: nat, j: nat, id: nat, op: Op, m: nat)
    requires i < m <= j && Served(run, events, i, j, id, op) && !op.Put? && ValidKey(op.key) && Missing(run, i, j, op.key)
    ensures FindsNothing(run[m], id, op.key)
  {
    hide IsRun, Moves;
    InService(run, events, i, j, id, op, m);
    if m > i + 1 {
      InServiceStep(run, events, i, j, id, op, m - 1);
      FindsNothingAlong(run, events, i, j, id, op, m - 1);
      hide FindsNothing;
      FindsNothingStep(run[m - 1], events[m - 1], run[m], id, op.key);
    }
  }

  // A GET or a DELETE of a key that has no file while it is served finds nothing.
  lemma MissingFileIsNotFound(run: seq<Node>, events: seq<Event>, i: nat, j: nat, id: nat, op: Op)
    requires Served(run, events, i, j, id, op) && !op.Put? && ValidKey(op.key) && Missing(run, i, j, op.key)
    requires run[j].reqs[id].pc.Done?
    ensures run[j].reqs[id].pc == Done(NotFound)
  {
    hide IsRun;
    FindsNothingAlong(run, events, i, j, id, op, j);
  }

  // ----- Keys that are not valid -----

  lemma RejectsStep(s: Node, e: Event, s': Node, id: nat)
    requires Moves(s, e, s') && !e.Crash? && id in s.reqs && !ValidKey(s.reqs[id].op.key)
    requires s.reqs[id].pc in {Start, Done(BadRequest)}
    ensures id in s'.reqs && s'.reqs[id].pc in {Start, Done(BadRequest)}
  {
    hide Inv;
    if IsStepOf(e, id) {
      ValidatorAcceptsExactlyValidKeys(s.reqs[id].op.key);
      hide ValidateStorageKey, ValidKey;
    } else {
      OthersLeaveRequest(s, e, s', id);
      hide Moves;
    }
  }

  // Any request with a key that is not valid ends in BadRequest.
  lemma {:induction false} InvalidKeyIsBadRequest(
      run: seq<Node>, events: seq<Event>, i: nat, j: nat, id: nat, op: Op, m: nat)
    requires i < m <= j && !ValidKey(op.key) && Served(run, events, i, j, id, op)
    ensures id in run[m].reqs && run[m].reqs[id].pc in {Start, Done(BadRequest)}
  {
    hide IsRun, Moves, ValidKey;
    InService(run, events, i, j, id, op, m);
    if m > i + 1 {
      InServiceStep(run, events, i, j, id, op, m - 1);
      InService(run, events, i, j, id, op, m - 1);
      InvalidKeyIsBadRequest(run, events, i, j, id, op, m - 1);
      RejectsStep(run[m - 1], events[m - 1], run[m], id);
    }
  }

  // ----- DELETE -----

  // Where a DELETE of a key with a file may stand.
  ghost predicate DeletesHeld(s: Node, id: nat, key: string)
  {
    && id in s.reqs && s.reqs[id].op == Delete(key)
    && match s.reqs[id].pc
       case Start => key in s.disk.names
       case DelStat => key in s.disk.names
       case DelUnlink => key in s.disk.names
       case DelIndex => true
       case Done(r) => r == DeleteOk
       case _ => false
  }

  lemma DeletesHeldStep(s: Node, e: Event, s': Node, id: nat, key: string)
    requires Moves(s, e, s') && ValidKey(key) && DeletesHeld(s, id, key)
    requires (Removes(s, e, key) ==> e.id == id) && !e.Crash? && (IsStepOf(e, id) ==> !e.fault)
    ensures DeletesHeld(s', id, key)
  {
    hide Inv;
    if IsStepOf(e, id) {
      ValidatorAcceptsExactlyValidKeys(key);
      hide ValidateStorageKey, ValidKey;
    } else {
      OthersLeaveRequest(s, e, s', id);
      if key in s.disk.names {
        FileStays(s, e, s', key);
      }
      hide Moves;
    }
  }

  // A DELETE of a key with a file, which no other DELETE takes away.
  ghost predicate DeletesAlone(run: seq<Node>, events: seq<Event>, i: nat, j: nat, id: nat, key: string)
  {
    && Served(run, events, i, j, id, Delete(key)) && ValidKey(key) && key in run[i].disk.names
    && Unfailing(events, i, j, id) && KeptByOthers(run, events, i, j, id, key)
  }

  lemma {:induction false} DeletesHeldAlong(
      run: seq<Node>, events: seq<Event>, i: nat, j: nat, id: nat, key: string, m: nat)
    requires i < m <= j && DeletesAlone(run, events, i, j, id, key)
    ensures DeletesHeld(run[m], id, key)
  {
    hide IsRun, Moves, Removes;
    InService(run, events, i, j, id, Delete(key), m);
    InServiceStep(run, events, i, j, id, Delete(key), m - 1);
    if m == i + 1 {
      ArrivalRemovesNothing(run[i], events[i], key);
      FileStays(run[i], events[i], run[m], key);
    } else {
      DeletesHeldAlong(run, events, i, j, id, key, m - 1);
      hide DeletesHeld;
      DeletesHeldStep(run[m - 1], events[m - 1], run[m], id, key);
    }
  }

  // It succeeds.
  lemma DeleteOfHeldFileSucceeds(run: seq<Node>, events: seq<Event>, i: nat, j: nat, id: nat, key: string)
    requires DeletesAlone(run, events, i, j, id, key) && run[j].reqs[id].pc.Done?
    ensures run[j].reqs[id].pc == Done(DeleteOk)
  {
    hide IsRun;
    DeletesHeldAlong(run, events, i, j, id, key, j);
  }

  // ----- PUT to a key that holds a file -----

  // Where a PUT to a key that holds these bytes may stand.
  ghost predicate ComparesHeld(s: Node, id: nat, key: string, bytes: Bytes)
  {
    && id in s.reqs && s.reqs[id].op.Put? && s.reqs[id].op.key == key && Holds(s, key, bytes)
    && match s.reqs[id].pc
       case Start => true
       case PutStat => true
       case PutOpen => true
       case PutRead(ino, got) => ino == s.disk.names[key] && got <= bytes
       case PutIndex => s.reqs[id].op.body == bytes
       case Done(r) => r == if s.reqs[id].op.body == bytes then PutOk else Conflict
       case _ => false
  }

  lemma ComparesHeldStep(s: Node, e: Event, s': Node, id: nat, key: string, bytes: Bytes)
    requires Moves(s, e, s') && ValidKey(key) && ComparesHeld(s, id, key, bytes)
    requires !Removes(s, e, key) && !e.Crash? && (IsStepOf(e, id) ==> !e.fault)
    ensures ComparesHeld(s', id, key, bytes)
  {
    hide Inv;
    FileStays(s, e, s', key);
    if IsStepOf(e, id) {
      ValidatorAcceptsExactlyValidKeys(key);
      hide ValidateStorageKey, ValidKey;
    } else {
      OthersLeaveRequest(s, e, s', id);
      hide Moves;
    }
  }

  // A PUT to a key that holds these bytes, which no DELETE takes away meanwhile.
  ghost predicate PutsToHeld(run: seq<Node>, events: seq<Event>, i: nat, j: nat, id: nat, op: Op, bytes: Bytes)
  {
    && op.Put? && Served(run, events, i, j, id, op) && ValidKey(op.key) && Holds(run[i], op.key, bytes)
    && Unfailing(events, i, j, id) && KeptByOthers(run, events, i, j, id, op.key)
  }

  lemma {:induction false} ComparesHeldAlong(
      run: seq<Node>, events: seq<Event>, i: nat, j: nat, id: nat, op: Op, bytes: Bytes, m: nat)
    requires i < m <= j && PutsToHeld(run, events, i, j, id, op, bytes)
    ensures ComparesHeld(run[m], id, op.key, bytes)
  {
    hide IsRun, Moves, Removes;
    InService(run, events, i, j, id, op, m);
    InServiceStep(run, events, i, j, id, op, m - 1);
    if m == i + 1 {
      ArrivalRemovesNothing(run[i], events[i], op.key);
      FileStays(run[i], events[i], run[m], op.key);
    } else {
      ComparesHeldAlong(run, events, i, j, id, op, bytes, m - 1);
      OnlyDeletesRemove(run[m - 1], events[m - 1], id, op.key);
      hide ComparesHeld;
      ComparesHeldStep(run[m - 1], events[m - 1], run[m], id, op.key, bytes);
    }
  }

  // It succeeds when its body is what the key holds, and is a conflict otherwise.
  lemma PutToHeldKeyCompares(run: seq<Node>, events: seq<Event>, i: nat, j: nat, id: nat, op: Op, bytes: Bytes)
    requires PutsToHeld(run, events, i, j, id, op, bytes) && run[j].reqs[id].pc.Done?
    ensures run[j].reqs[id].pc == Done(if op.body == bytes then PutOk else Conflict)
  {
    hide IsRun;
    ComparesHeldAlong(run, events, i, j, id, op, bytes, j);
    InService(run, events, i, j, id, op, j);
  }

  // ----- PUT, with a temporary name of its own -----

  // No other upload in flight uses this temporary name.
  predicate TempQuiet(s: Node, id: nat, stamp: string)
  {
    forall o | o in s.reqs && o != id && s.reqs[o].op.Put? && !s.reqs[o].pc.Done? :: s.reqs[o].op.stamp != stamp
  }

  lemma TempNamesDiffer(a: string, b: string)
    requires a != b
    ensures TempName(a) != TempName(b)
  {
    assert TempName(a)[|TEMP_PREFIX|..] == a && TempName(b)[|TEMP_PREFIX|..] == b;
  }

  // Which names one step of a request adds to the directory.
  lemma AddedNames(s: Node, e: Event, s': Node, name: string)
    requires Moves(s, e, s') && !e.Crash? && name !in s.disk.names && name in s'.disk.names
    ensures e.Act? && e.id in s.reqs && s.reqs[e.id].op.Put? && !s.reqs[e.id].pc.Done?
    ensures name == TempName(s.reqs[e.id].op.stamp) || ValidKey(name)
  {
    if e.Act? {
      RequestOf(s, e.id);
      hide Inv;
    }
  }

  lemma RequestOf(s: Node, id: nat)
    requires Inv(s)
    ensures id in s.reqs ==> RequestInv(s.disk, s.reqs[id])
  {
  }

  lemma OthersLeaveTemp(s: Node, e: Event, s': Node, id: nat, stamp: string)
    requires Moves(s, e, s') && !e.Crash? && !IsStepOf(e, id) && TempQuiet(s, id, stamp)
    requires TempName(stamp) !in s.disk.names
    ensures TempName(stamp) !in s'.disk.names
  {
    hide Moves, ValidKey;
    if TempName(stamp) in s'.disk.names {
      AddedNames(s, e, s', TempName(stamp));
      TempNamesAreNotKeys(stamp);
      TempNamesDiffer(s.reqs[e.id].op.stamp, stamp);
    }
  }

  // Where such a PUT may stand. If the key is free and only this PUT may fill it, it has
  // no way to a conflict.
  ghost predicate Stores(s: Node, id: nat, op: Op, free: bool)
  {
    && op.Put? && id in s.reqs && s.reqs[id].op == op
    && var held := op.key in s.disk.names;
       match s.reqs[id].pc
       case Start => TempName(op.stamp) !in s.disk.names && !(free && held)
       case PutStat => TempName(op.stamp) !in s.disk.names && !(free && held)
       case PutCreate => TempName(op.stamp) !in s.disk.names && !(free && held)
       case PutWrite(_, _) => !(free && held)
       case PutSync(_) => !(free && held)
       case PutLink(_) => !(free && held)
       case PutUnlink => held
       case PutCheck => held
       case PutOpen => held && !free
       case PutRead(ino, _) => held && !free
       case PutIndex => true
       case Done(r) => r == PutOk || (r == Conflict && held && !free)
       case _ => false
  }

  lemma StoresOwnStep(s: Node, e: Event, s': Node, id: nat, op: Op, free: bool)
    requires Moves(s, e, s') && IsStepOf(e, id) && !e.fault && ValidKey(op.key) && Stores(s, id, op, free)
    requires RequestInv(s.disk, s.reqs[id])
    requires op.key in s.disk.names ==> op.key in s'.disk.names
    ensures Stores(s', id, op, free)
  {
    hide Inv, ActGet, ActDelete;
    ValidatorAcceptsExactlyValidKeys(op.key);
    TempNamesAreNotKeys(op.stamp);
    hide ValidateStorageKey, ValidKey;
  }

  lemma StoresOtherStep(s: Node, e: Event, s': Node, id: nat, op: Op, free: bool)
    requires Moves(s, e, s') && !e.Crash? && !IsStepOf(e, id) && Stores(s, id, op, free)
    requires TempQuiet(s, id, op.stamp)
    requires op.key in s.disk.names ==> op.key in s'.disk.names
    requires free && op.key in s'.disk.names ==> op.key in s.disk.names
    ensures Stores(s', id, op, free)
  {
    OthersLeaveRequest(s, e, s', id);
    if TempName(op.stamp) !in s.disk.names {
      OthersLeaveTemp(s, e, s', id, op.stamp);
    }
    hide Moves, TempQuiet;
  }

  // A PUT whose temporary name is not in use when it arrives, and not taken by another
  // upload while it is served, and of whose key no DELETE takes the file away.
  ghost predicate PutsApart(run: seq<Node>, events: seq<Event>, i: nat, j: nat, id: nat, op: Op)
  {
    && op.Put? && Served(run, events, i, j, id, op) && ValidKey(op.key)
    && Unfailing(events, i, j, id) && KeptByOthers(run, events, i, j, id, op.key)
    && TempName(op.stamp) !in run[i].disk.names
    && forall m | i < m < j :: TempQuiet(run[m], id, op.stamp)
  }

  // The key is free when it arrives, and no other upload fills it.
  ghost predicate FreeForIt(run: seq<Node>, events: seq<Event>, i: nat, j: nat, id: nat, key: string)
  {
    && i < j <= |events| && |run| == |events| + 1 && key !in run[i].disk.names
    && forall m | i <= m < j && key !in run[m].disk.names && !IsStepOf(events[m], id) ::
         var n := m + 1; key !in run[n].disk.names
  }

  lemma {:induction false} StoresAlong(
      run: seq<Node>, events: seq<Event>, i: nat, j: nat, id: nat, op: Op, free: bool, m: nat)
    requires i < m <= j && PutsApart(run, events, i, j, id, op) && (free ==> FreeForIt(run, events, i, j, id, op.key))
    ensures Stores(run[m], id, op, free)
  {
    hide IsRun, Moves, Removes, ValidKey;
    InService(run, events, i, j, id, op, m);
    InServiceStep(run, events, i, j, id, op, m - 1);
    var s, e, s' := run[m - 1], events[m - 1], run[m];
    if m == i + 1 {
      ArrivalMoves(s, op, s');
    } else {
      StoresAlong(run, events, i, j, id, op, free, m - 1);
      OnlyDeletesRemove(s, e, id, op.key);
      if op.key in s.disk.names {
        FileStays(s, e, s', op.key);
      }
      hide Stores;
      if IsStepOf(e, id) {
        ReachedRequest(s, e, s', id);
        StoresOwnStep(s, e, s', id, op, free);
      } else {
        assert TempQuiet(s, id, op.stamp);
        StoresOtherStep(s, e, s', id, op, free);
      }
    }
  }

  lemma ReachedRequest(s: Node, e: Event, s': Node, id: nat)
    requires Moves(s, e, s') && id in s.reqs
    ensures RequestInv(s.disk, s.reqs[id])
  {
    RequestOf(s, id);
  }

  // It ends in success, or in a conflict with a file that is there.
  lemma PutStoresOrConflicts(run: seq<Node>, events: seq<Event>, i: nat, j: nat, id: nat, op: Op)
    requires PutsApart(run, events, i, j, id, op) && run[j].reqs[id].pc.Done?
    ensures run[j].reqs[id].pc == Done(PutOk) || (run[j].reqs[id].pc == Done(Conflict) && op.key in run[j].disk.names)
  {
    hide IsRun;
    StoresAlong(run, events, i, j, id, op, false, j);
  }

  // To a key that is free for it, it ends in success.
  lemma PutToFreeKeySucceeds(run: seq<Node>, events: seq<Event>, i: nat, j: nat, id: nat, op: Op)
    requires PutsApart(run, events, i, j, id, op) && FreeForIt(run, events, i, j, id, op.key)
    requires run[j].reqs[id].pc.Done?
    ensures run[j].reqs[id].pc == Done(PutOk)
  {
    hide IsRun;
    StoresAlong(run, events, i, j, id, op, true, j);
  }

  // ----- Every request can be answered -----

  function HeldLength(d: Disk, key: string): nat
  {
    if key in d.names && d.names[key] in d.data then |d.data[d.names[key]]| else 0
  }

  function ReadLeft(d: Disk, ino: Inode, got: Bytes): nat
  {
    if ino in d.data && |got| < |d.data[ino]| then |d.data[ino]| - |got| else 0
  }

  // How many more steps of its own a request can need, were nothing else to happen.
  function StepsLeft(d: Disk, q: Request): nat
  {
    var held := HeldLength(d, q.op.key);
    var body := if q.op.Put? then |q.op.body| else 0;
    match q.pc
    case Done(_) => 0
    case Start => held + body + 9
    case PutStat => held + body + 8
    case PutCreate => body + 7
    case PutWrite(_, w) => (if w < body then body - w else 0) + 6
    case PutSync(_) => 5
    case PutLink(_) => 4
    case PutUnlink => 3
    case PutCheck => 2
    case PutOpen => held + 3
    case PutRead(ino, got) => ReadLeft(d, ino, got) + 2
    case PutIndex => 1
    case PutCleanup => 1
    case GetStat => held + 3
    case GetOpen => held + 2
    case GetRead(ino, got) => ReadLeft(d, ino, got) + 1
    case DelStat => 3
    case DelUnlink => 2
    case DelIndex => 1
  }

  lemma WriteWorks(d: Disk, q: Request, fault: bool, n: nat, d': Disk, pc': Pc)
    requires q.op.Put? && ActWrite(d, q.op, q.pc, fault, n) == Some((d', pc'))
    ensures StepsLeft(d', q.(pc := pc')) < StepsLeft(d, q)
  {
    hide HeldLength, ReadLeft;
  }

  lemma PutWorks(d: Disk, index: map<string, nat>, q: Request, fault: bool, n: nat, x: Effect)
    requires q.op.Put? && ActPut(d, index, q.op, q.pc, fault, n) == Some(x)
    ensures StepsLeft(x.disk, q.(pc := x.pc)) < StepsLeft(d, q)
  {
    if ActWrite(d, q.op, q.pc, fault, n).Some? {
      var w := ActWrite(d, q.op, q.pc, fault, n).value;
      WriteWorks(d, q, fault, n, w.0, w.1);
      hide StepsLeft;
    }
  }

  lemma GetWorks(d: Disk, q: Request, fault: bool, n: nat, pc': Pc)
    requires q.op.Get? && ActGet(d, q.op, q.pc, fault, n) == Some(pc')
    ensures StepsLeft(d, q.(pc := pc')) < StepsLeft(d, q)
  {
  }

  // Every step of a request, failing or not, brings it closer to its answer.
  lemma OwnStepWorks(s: Node, e: Event, s': Node, id: nat)
    requires Step(s, e) == Some(s') && IsStepOf(e, id)
    ensures id in s.reqs && id in s'.reqs && s'.reqs[id].op == s.reqs[id].op
    ensures StepsLeft(s'.disk, s'.reqs[id]) < StepsLeft(s.disk, s.reqs[id])
  {
    hide ValidateStorageKey, ActPut, ActGet, HeldLength, ReadLeft;
    var q := s.reqs[id];
    if q.op.Put? && !q.pc.Start? {
      PutWorks(s.disk, s.index, q, e.fault, e.n, ActOn(s.disk, s.index, q, e.fault, e.n).value);
      hide StepsLeft;
    } else if q.op.Get? && !q.pc.Start? {
      GetWorks(s.disk, q, e.fault, e.n, s'.reqs[id].pc);
      hide StepsLeft;
    }
  }

  lemma FreshInode(used: set<Inode>) returns (n: nat)
    ensures forall i | i in used :: i < n
  {
    if used == {} {
      n := 0;
    } else {
      var i :| i in used;
      var m := FreshInode(used - {i});
      n := if m <= i then i + 1 else m;
      forall k | k in used ensures k < n {
        assert k == i || k in used - {i};
      }
    }
  }

  // A request that has not been answered always has a next step, and no call has to fail
  // for it.
  lemma NeverStuck(s: Node, id: nat) returns (n: nat, s': Node)
    requires id in s.reqs && !s.reqs[id].pc.Done? && RequestInv(s.disk, s.reqs[id])
    ensures Step(s, Act(id, false, n)) == Some(s')
  {
    n := FreshInode(s.disk.data.Keys);
    assert n !in s.disk.data;
    hide ValidateStorageKey, ValidKey;
    var x := ActOn(s.disk, s.index, s.reqs[id], false, n);
    s' := Node(x.value.disk, x.value.index, s.reqs[id := s.reqs[id].(pc := x.value.pc)], s.arrived);
  }

  lemma ExtendRun(run: seq<Node>, events: seq<Event>, e: Event, s': Node)
    requires IsRun(run, events) && Step(run[|events|], e) == Some(s') && !ForeignCleanup(run[|events|], e)
    ensures IsRun(run + [s'], events + [e])
  {
    var r, es := run + [s'], events + [e];
    hide Step, ForeignCleanup, Init;
    forall i | 0 <= i < |es| ensures Step(r[i], es[i]) == Some(r[i + 1]) && !ForeignCleanup(r[i], es[i]) {
      if i < |events| {
        assert r[i] == run[i] && r[i + 1] == run[i + 1] && es[i] == events[i];
      }
    }
  }

  lemma DistinctAfter(s: Node, e: Event, s': Node, id: nat)
    requires Step(s, e) == Some(s') && IsStepOf(e, id) && DistinctTemps(s)
    ensures DistinctTemps(s')
  {
    MovesOnly(s, e, s', id);
    hide Step;
  }

  lemma MovesOnly(s: Node, e: Event, s': Node, id: nat)
    requires Step(s, e) == Some(s') && IsStepOf(e, id)
    ensures id in s.reqs && !s.reqs[id].pc.Done? && id in s'.reqs && s'.reqs[id].op == s.reqs[id].op
    ensures s'.reqs == s.reqs[id := s'.reqs[id]]
  {
  }

  // Left to itself, every request that has arrived is answered: any run in which the
  // uploads in flight use distinct temporary names goes on, by unfailing steps of the
  // request alone, to its answer.
  lemma {:induction false} FinishesAlone(run: seq<Node>, events: seq<Event>, id: nat)
    returns (run': seq<Node>, events': seq<Event>)
    requires IsRun(run, events) && id in run[|events|].reqs && DistinctTemps(run[|events|])
    ensures IsRun(run', events') && run <= run' && events <= events'
    ensures forall m | |events| <= m < |events'| :: IsStepOf(events'[m], id) && !events'[m].fault
    ensures id in run'[|events'|].reqs && run'[|events'|].reqs[id].pc.Done?
    decreases StepsLeft(run[|events|].disk, run[|events|].reqs[id])
  {
    var s := run[|events|];
    if s.reqs[id].pc.Done? {
      run', events' := run, events;
    } else {
      InvAlongRun(run, events, |events|);
      RequestOf(s, id);
      hide Inv, RequestInv;
      var n, s' := NeverStuck(s, id);
      var e := Act(id, false, n);
      DistinctTempsExcludeForeignCleanup(s, e);
      ExtendRun(run, events, e, s');
      DistinctAfter(s, e, s', id);
      OwnStepWorks(s, e, s', id);
      hide IsRun, Step, DistinctTemps, StepsLeft, ForeignCleanup;
      run', events' := FinishesAlone(run + [s'], events + [e], id);
      assert run <= run + [s'] && events <= events + [e];
      forall m | |events| <= m < |events'| ensures IsStepOf(events'[m], id) && !events'[m].fault {
        if m == |events| {
          assert events'[m] == (events + [e])[m];
        }
      }
    }
  }

  // ----- The index, step by step -----

  // What one step of a request does to the index: an answered upload records the length
  // of its body, an answered DELETE forgets its key, and nothing else touches it.
  ghost predicate IndexedAs(q: Request, index: map<string, nat>, pc': Pc, index': map<string, nat>)
  {
    match pc'
    case Done(PutOk) => q.op.Put? && index' == index[q.op.key := |q.op.body|]
    case Done(DeleteOk) => index' == index - {q.op.key}
    case _ => index' == index
  }

  lemma WriteLeavesIndex(d: Disk, q: Request, fault: bool, n: nat, d': Disk, pc': Pc)
    requires q.op.Put? && ActWrite(d, q.op, q.pc, fault, n) == Some((d', pc'))
    ensures pc' != Done(PutOk) && pc' != Done(DeleteOk)
  {
  }

  lemma IndexFollowsAnswers(s: Node, e: Event, s': Node)
    requires Step(s, e) == Some(s') && e.Act?
    ensures e.id in s.reqs && e.id in s'.reqs && IndexedAs(s.reqs[e.id], s.index, s'.reqs[e.id].pc, s'.index)
  {
    hide ValidateStorageKey, ActWrite;
    var q := s.reqs[e.id];
    if q.op.Put? && ActWrite(s.disk, q.op, q.pc, e.fault, e.n).Some? {
      var w := ActWrite(s.disk, q.op, q.pc, e.fault, e.n).value;
      WriteLeavesIndex(s.disk, q, e.fault, e.n, w.0, w.1);
    }
  }

  // A restart takes stock of the directory, file by file.
  lemma RestartIndexesDirectory(s: Node, e: Event, s': Node, k: string)
    requires Step(s, e) == Some(s') && e.Crash?
    ensures k in s'.index <==> k in s'.disk.names && s'.disk.names[k] in s'.disk.data
    ensures k in s'.index ==> s'.index[k] == |s'.disk.data[s'.disk.names[k]]|
  {
  }
}
