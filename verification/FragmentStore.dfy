// crates/storage-node/src/main.rs: the storage node as a state machine.
//
// Any number of PUT, GET and DELETE requests run at once over one flat directory. Every
// file-system call is one step; a fault makes that one call fail. A crash drops every
// request, tears every file that has not been synced, may lose directory entries, and
// reloads the index from the directory that is left.
module FragmentStore {
  import opened Prelude
  import opened StorageKeys

  type Bytes = seq<byte>
  type Inode = nat

  // ----- The disk -----

  datatype Disk = Disk(
    names: map<string, Inode>,   // the directory
    data: map<Inode, Bytes>,     // file contents; an inode outlives its names
    synced: set<Inode>)          // inodes whose contents survive a crash
  {
    function Create(name: string, ino: Inode): Disk
    {
      Disk(names[name := ino], data[ino := []], synced - {ino})
    }

    function Append(ino: Inode, bytes: Bytes): Disk
      requires ino in data
    {
      Disk(names, data[ino := data[ino] + bytes], synced - {ino})
    }

    function Sync(ino: Inode): Disk
    {
      Disk(names, data, synced + {ino})
    }

    function HardLink(existing: string, name: string): Disk
      requires existing in names
    {
      Disk(names[name := names[existing]], data, synced)
    }

    function Unlink(name: string): Disk
    {
      Disk(names - {name}, data, synced)
    }

    // What a crash leaves: an unsynced file may hold anything afterwards, and since the
    // directory itself is never synced, any of its entries may be lost.
    function Crash(torn: map<Inode, Bytes>, lost: set<string>): Disk
    {
      Disk(names - lost, map i | i in data :: if i in synced || i !in torn then data[i] else torn[i], synced)
    }
  }

  // ----- Requests -----

  datatype Op =
    | Put(key: string, body: Bytes, stamp: string)
    | Get(key: string)
    | Delete(key: string)

  datatype Response =
    | PutOk | GetOk(bytes: Bytes) | DeleteOk
    | BadRequest | NotFound | Conflict | ServerError

  // The next file-system call (or index update) of a request.
  datatype Pc =
    | Start                                  // the key is not yet validated
    | PutStat                                // symlink_metadata(path)
    | PutOpen                                // fs::read(path): open
    | PutRead(ino: Inode, got: Bytes)        // fs::read(path): read until the end
    | PutCreate                              // open(temp, create_new)
    | PutWrite(ino: Inode, written: nat)     // write_all
    | PutSync(ino: Inode)                    // sync_all
    | PutLink(ino: Inode)                    // hard_link(temp, path)
    | PutUnlink                              // remove_file(temp)
    | PutCheck                               // symlink_metadata(path) once more
    | PutCleanup                             // remove_file(temp) after an error
    | PutIndex                               // fragments.insert
    | GetStat
    | GetOpen
    | GetRead(ino: Inode, got: Bytes)
    | DelStat
    | DelUnlink                              // remove_file(path)
    | DelIndex                               // fragments.remove
    | Done(response: Response)

  datatype Request = Request(op: Op, pc: Pc)

  datatype Node = Node(
    disk: Disk,
    index: map<string, nat>,                 // key -> recorded size
    reqs: map<nat, Request>,
    arrived: nat)                            // how many requests ever arrived

  datatype Event =
    | Arrive(op: Op)
    | Act(id: nat, fault: bool, n: nat)      // n: bytes moved beyond the first, or the inode allotted
    | Crash(torn: map<Inode, Bytes>, lost: set<string>)

  // What a request becomes, and what it does to the disk and the index.
  datatype Effect = Effect(disk: Disk, index: map<string, nat>, pc: Pc)

  // Reads at least one byte and at most n + 1, or reports the end of the file.
  function ReadMore(content: Bytes, got: Bytes, n: nat): Bytes
  {
    if |got| < |content| then got + content[|got|..|got| + Min(n + 1, |content| - |got|)] else got
  }

  // A step that changes neither the disk nor the index.
  function MoveTo(d: Disk, index: map<string, nat>, pc: Pc): Option<Effect>
  {
    Some(Effect(d, index, pc))
  }

  // put_fragment, from the first look at its path
  function ActPut(d: Disk, index: map<string, nat>, op: Op, pc: Pc, fault: bool, n: nat): Option<Effect>
    requires op.Put?
  {
    var present := op.key in d.names && !fault;
    match pc
    case PutStat => MoveTo(d, index, if present then PutOpen else PutCreate)
    case PutOpen => MoveTo(d, index, if present then PutRead(d.names[op.key], []) else Done(ServerError))
    case PutRead(ino, got) =>
      if ino !in d.data then None
      else if fault then MoveTo(d, index, Done(ServerError))
      else if |got| < |d.data[ino]| then MoveTo(d, index, PutRead(ino, ReadMore(d.data[ino], got, n)))
      else if got == op.body then MoveTo(d, index, PutIndex)
      else MoveTo(d, index, Done(Conflict))
    case PutCheck => MoveTo(d, index, if present then PutIndex else PutCleanup)
    case PutIndex => Some(Effect(d, index[op.key := |op.body|], Done(PutOk)))
    case _ =>
      (match ActWrite(d, op, pc, fault, n)
       case None => None
       case Some(x) => Some(Effect(x.0, index, x.1)))
  }

  // atomic_write_new_fragment, up to the removal of its temporary file
  function ActWrite(d: Disk, op: Op, pc: Pc, fault: bool, n: nat): Option<(Disk, Pc)>
    requires op.Put?
  {
    var temp := TempName(op.stamp);
    match pc
    case PutCreate =>
      if fault then Some((d, PutCleanup))
      else if temp in d.names then Some((d, Done(Conflict)))
      else if n in d.data then None
      else Some((d.Create(temp, n), PutWrite(n, 0)))
    case PutWrite(ino, w) =>
      if ino !in d.data then None
      else if fault then Some((d, PutCleanup))
      else if w >= |op.body| then Some((d, PutSync(ino)))
      else
        var w' := w + Min(n + 1, |op.body| - w);
        Some((d.Append(ino, op.body[w..w']), PutWrite(ino, w')))
    case PutSync(ino) => Some(if fault then (d, PutCleanup) else (d.Sync(ino), PutLink(ino)))
    case PutLink(_) =>
      if fault || temp !in d.names then Some((d, PutCleanup))
      else if op.key in d.names then Some((d, Done(Conflict)))
      else Some((d.HardLink(temp, op.key), PutUnlink))
    case PutUnlink =>
      if fault || temp !in d.names then Some((d, PutCleanup)) else Some((d.Unlink(temp), PutCheck))
    case PutCleanup => Some((if fault then d else d.Unlink(temp), Done(ServerError)))
    case _ => None
  }

  // get_fragment
  function ActGet(d: Disk, op: Op, pc: Pc, fault: bool, n: nat): Option<Pc>
  {
    var present := op.key in d.names && !fault;
    match pc
    case GetStat => Some(if present then GetOpen else Done(NotFound))
    case GetOpen => Some(if present then GetRead(d.names[op.key], []) else Done(NotFound))
    case GetRead(ino, got) =>
      if ino !in d.data then None
      else if fault then Some(Done(NotFound))
      else if |got| < |d.data[ino]| then Some(GetRead(ino, ReadMore(d.data[ino], got, n)))
      else Some(Done(GetOk(got)))
    case _ => None
  }

  // delete_fragment
  function ActDelete(d: Disk, index: map<string, nat>, op: Op, pc: Pc, fault: bool): Option<Effect>
  {
    var present := op.key in d.names && !fault;
    match pc
    case DelStat => Some(Effect(d, index, if present then DelUnlink else Done(NotFound)))
    case DelUnlink =>
      Some(if present then Effect(d.Unlink(op.key), index, DelIndex) else Effect(d, index, Done(NotFound)))
    case DelIndex => Some(Effect(d, index - {op.key}, Done(DeleteOk)))
    case _ => None
  }

  ghost function ActOn(d: Disk, index: map<string, nat>, q: Request, fault: bool, n: nat): Option<Effect>
    requires !q.pc.Done?
  {
    if q.pc.Start? && ValidateStorageKey(q.op.key).Err? then Some(Effect(d, index, Done(BadRequest)))
    else
      match q.op
      case Put(_, _, _) => if q.pc.Start? then Some(Effect(d, index, PutStat)) else ActPut(d, index, q.op, q.pc, fault, n)
      case Get(_) =>
        if q.pc.Start? then Some(Effect(d, index, GetStat))
        else
          (match ActGet(d, q.op, q.pc, fault, n)
           case None => None
           case Some(pc) => Some(Effect(d, index, pc)))
      case Delete(_) => if q.pc.Start? then Some(Effect(d, index, DelStat)) else ActDelete(d, index, q.op, q.pc, fault)
  }

  // load_existing_fragments: every file of the directory, whatever its name.
  function LoadIndex(d: Disk): map<string, nat>
  {
    map k | k in d.names && d.names[k] in d.data :: |d.data[d.names[k]]|
  }

  ghost function Step(s: Node, e: Event): Option<Node>
  {
    match e
    case Arrive(op) =>
      Some(s.(reqs := s.reqs[s.arrived := Request(op, Start)], arrived := s.arrived + 1))
    case Act(id, fault, n) =>
      if id !in s.reqs || s.reqs[id].pc.Done? then None
      else
        (match ActOn(s.disk, s.index, s.reqs[id], fault, n)
         case None => None
         case Some(x) => Some(Node(x.disk, x.index, s.reqs[id := s.reqs[id].(pc := x.pc)], s.arrived)))
    case Crash(torn, lost) =>
      var d := s.disk.Crash(torn, lost);
      Some(Node(d, LoadIndex(d), map[], s.arrived))
  }

  // ----- Runs -----

  // A node that has just started: no request, every fragment on disk durable.
  ghost predicate Init(s: Node)
  {
    && s.reqs == map[]
    && s.index == LoadIndex(s.disk)
    && s.disk.names.Values <= s.disk.data.Keys
    && s.disk.synced <= s.disk.data.Keys
    && forall k | k in s.disk.names && ValidKey(k) :: s.disk.names[k] in s.disk.synced
  }

  // The upload whose temporary file exists, or that has just published it.
  predicate OwnsTemp(q: Request)
  {
    q.op.Put? && (q.pc.PutWrite? || q.pc.PutSync? || q.pc.PutLink? || q.pc.PutUnlink?)
  }

  // The clean-up after a failed create_new removes a temporary file that another
  // upload in flight is using.
  predicate ForeignCleanup(s: Node, e: Event)
  {
    && e.Act? && e.id in s.reqs && s.reqs[e.id].pc.PutCleanup? && s.reqs[e.id].op.Put?
    && exists id | id in s.reqs && id != e.id ::
      OwnsTemp(s.reqs[id]) && s.reqs[id].op.stamp == s.reqs[e.id].op.stamp
  }

  // The uploads in flight use distinct temporary names.
  predicate DistinctTemps(s: Node)
  {
    forall a, b | a in s.reqs && b in s.reqs && a != b && s.reqs[a].op.Put? && s.reqs[b].op.Put?
      && !s.reqs[a].pc.Done? && !s.reqs[b].pc.Done? ::
      s.reqs[a].op.stamp != s.reqs[b].op.stamp
  }

  lemma DistinctTempsExcludeForeignCleanup(s: Node, e: Event)
    requires DistinctTemps(s)
    ensures !ForeignCleanup(s, e)
  {
  }

  ghost predicate IsRun(run: seq<Node>, events: seq<Event>)
  {
    && |run| == |events| + 1
    && Init(run[0])
    && forall i | 0 <= i < |events| ::
      Step(run[i], events[i]) == Some(run[i + 1]) && !ForeignCleanup(run[i], events[i])
  }

  // ----- The inductive invariant -----

  ghost predicate DiskInv(d: Disk)
  {
    && d.names.Values <= d.data.Keys
    && d.synced <= d.data.Keys
    && forall k | k in d.names && ValidKey(k) :: d.names[k] in d.synced
  }

  ghost predicate PcFitsOp(q: Request)
  {
    match q.pc
    case Done(_) => true
    case Start => true
    case GetStat => q.op.Get? case GetOpen => q.op.Get? case GetRead(_, _) => q.op.Get?
    case DelStat => q.op.Delete? case DelUnlink => q.op.Delete? case DelIndex => q.op.Delete?
    case _ => q.op.Put?
  }

  ghost predicate RequestInv(d: Disk, q: Request)
  {
    && PcFitsOp(q)
    && (!q.pc.Start? && q.pc != Done(BadRequest) ==> ValidKey(q.op.key))
    && match q.pc
       case PutWrite(ino, w) =>
         && ino in d.data && ino !in d.synced
         && TempName(q.op.stamp) in d.names && d.names[TempName(q.op.stamp)] == ino
         && w <= |q.op.body| && d.data[ino] == q.op.body[..w]
       case PutSync(ino) =>
         && ino in d.data && ino !in d.synced
         && TempName(q.op.stamp) in d.names && d.names[TempName(q.op.stamp)] == ino
         && d.data[ino] == q.op.body
       case PutLink(ino) =>
         && ino in d.data && ino in d.synced
         && TempName(q.op.stamp) in d.names && d.names[TempName(q.op.stamp)] == ino
         && d.data[ino] == q.op.body
       case PutUnlink => TempName(q.op.stamp) in d.names
       case PutRead(ino, got) => ino in d.data && ino in d.synced && got <= d.data[ino]
       case GetRead(ino, got) => ino in d.data && ino in d.synced && got <= d.data[ino]
       case _ => true
  }

  // Two uploads never use the same temporary file, nor write the same inode.
  ghost predicate Apart(p: Request, q: Request)
  {
    OwnsTemp(p) && OwnsTemp(q) ==>
      && p.op.stamp != q.op.stamp
      && ((p.pc.PutWrite? || p.pc.PutSync?) && (q.pc.PutWrite? || q.pc.PutSync?) ==> p.pc.ino != q.pc.ino)
  }

  ghost predicate Inv(s: Node)
  {
    && DiskInv(s.disk)
    && (forall id | id in s.reqs :: id < s.arrived && RequestInv(s.disk, s.reqs[id]))
    && (forall a, b | a in s.reqs && b in s.reqs && a != b :: Apart(s.reqs[a], s.reqs[b]))
  }

  lemma InitSatisfiesInv(s: Node)
    requires Init(s)
    ensures Inv(s)
  {
  }

  lemma InvStep(s: Node, e: Event, s': Node)
    requires Inv(s) && Step(s, e) == Some(s') && !ForeignCleanup(s, e)
    ensures Inv(s')
  {
    match e
    case Arrive(op) =>
    case Crash(_, _) =>
    case Act(id, fault, n) =>
      var q := s.reqs[id];
      var x := ActOn(s.disk, s.index, q, fault, n).value;
      ActKeepsDiskInv(s, id, fault, n, x);
      ActKeepsOwnInv(s, id, fault, n, x);
      forall o | o in s.reqs && o != id
        ensures RequestInv(x.disk, s.reqs[o]) && Apart(s.reqs[o], q.(pc := x.pc)) && Apart(q.(pc := x.pc), s.reqs[o])
      {
        ActKeepsOtherInv(s, id, o, fault, n, x);
      }
  }

  lemma ActKeepsDiskInv(s: Node, id: nat, fault: bool, n: nat, x: Effect)
    requires Inv(s) && id in s.reqs && !s.reqs[id].pc.Done?
    requires ActOn(s.disk, s.index, s.reqs[id], fault, n) == Some(x)
    ensures DiskInv(x.disk)
  {
    if s.reqs[id].op.Put? {
      TempNamesAreNotKeys(s.reqs[id].op.stamp);
    }
  }

  lemma ActKeepsOwnInv(s: Node, id: nat, fault: bool, n: nat, x: Effect)
    requires Inv(s) && id in s.reqs && !s.reqs[id].pc.Done?
    requires ActOn(s.disk, s.index, s.reqs[id], fault, n) == Some(x)
    ensures RequestInv(x.disk, s.reqs[id].(pc := x.pc))
  {
    var q := s.reqs[id];
    ValidatorAcceptsExactlyValidKeys(q.op.key);
    if q.op.Put? && ActWrite(s.disk, q.op, q.pc, fault, n).Some? {
      WriteKeepsOwnInv(s.disk, q, fault, n, x.disk, x.pc);
    }
  }

  lemma WriteKeepsOwnInv(d: Disk, q: Request, fault: bool, n: nat, d': Disk, pc': Pc)
    requires DiskInv(d) && RequestInv(d, q) && q.op.Put?
    requires ActWrite(d, q.op, q.pc, fault, n) == Some((d', pc'))
    ensures RequestInv(d', q.(pc := pc'))
  {
    TempNamesAreNotKeys(q.op.stamp);
  }

  lemma ActKeepsOtherInv(s: Node, id: nat, o: nat, fault: bool, n: nat, x: Effect)
    requires Inv(s) && id in s.reqs && o in s.reqs && o != id && !s.reqs[id].pc.Done?
    requires ActOn(s.disk, s.index, s.reqs[id], fault, n) == Some(x)
    requires !ForeignCleanup(s, Act(id, fault, n))
    ensures RequestInv(x.disk, s.reqs[o])
    ensures Apart(s.reqs[o], s.reqs[id].(pc := x.pc)) && Apart(s.reqs[id].(pc := x.pc), s.reqs[o])
  {
    var p, q := s.reqs[o], s.reqs[id];
    assert Apart(p, q) && RequestInv(s.disk, p) && RequestInv(s.disk, q);
    if p.op.Put? {
      TempNamesAreNotKeys(p.op.stamp);
    }
    if q.op.Put? && ActWrite(s.disk, q.op, q.pc, fault, n).Some? {
      WriteKeepsOtherInv(s.disk, p, q, fault, n, x.disk, x.pc);
    }
  }

  lemma WriteKeepsOtherInv(d: Disk, p: Request, q: Request, fault: bool, n: nat, d': Disk, pc': Pc)
    requires DiskInv(d) && RequestInv(d, p) && RequestInv(d, q) && Apart(p, q) && q.op.Put?
    requires ActWrite(d, q.op, q.pc, fault, n) == Some((d', pc'))
    requires q.pc.PutCleanup? && OwnsTemp(p) ==> p.op.stamp != q.op.stamp
    ensures RequestInv(d', p) && Apart(p, q.(pc := pc')) && Apart(q.(pc := pc'), p)
  {
    if p.op.Put? {
      TempNamesAreNotKeys(p.op.stamp);
      if TempName(p.op.stamp) == TempName(q.op.stamp) {
        assert p.op.stamp == TempName(p.op.stamp)[|TEMP_PREFIX|..];
        assert q.op.stamp == TempName(q.op.stamp)[|TEMP_PREFIX|..];
      }
    }
  }

  // ----- One step, seen from one key -----

  ghost predicate Holds(s: Node, key: string, bytes: Bytes)
  {
    key in s.disk.names && s.disk.names[key] in s.disk.data && s.disk.data[s.disk.names[key]] == bytes
  }

  // The step in which a DELETE of the key takes its file away.
  ghost predicate Removes(s: Node, e: Event, key: string)
  {
    && e.Act? && e.id in s.reqs && s.reqs[e.id] == Request(Delete(key), DelUnlink)
    && key in s.disk.names && !e.fault
  }

  // A crash in which the directory entry of the key is lost.
  predicate Loses(s: Node, e: Event, key: string)
  {
    e.Crash? && key in e.lost && key in s.disk.names
  }

  // The step in which a PUT publishes its temporary file under the key.
  ghost predicate Publishes(s: Node, e: Event, key: string, bytes: Bytes)
  {
    && e.Act? && e.id in s.reqs && s.reqs[e.id].pc.PutLink? && s.reqs[e.id].op.Put?
    && s.reqs[e.id].op.key == key && s.reqs[e.id].op.body == bytes
  }

  // A file under a valid key stays as it is until a DELETE removes it or a crash loses
  // its entry, and a new one is the whole body of the PUT that publishes it.
  ghost predicate KeyStepOk(s: Node, e: Event, s': Node, key: string)
  {
    if key in s.disk.names && s.disk.names[key] in s.disk.data then
      if Removes(s, e, key) || Loses(s, e, key) then key !in s'.disk.names
      else
        && key in s'.disk.names && s'.disk.names[key] == s.disk.names[key]
        && Holds(s', key, s.disk.data[s.disk.names[key]])
    else
      key in s'.disk.names ==> exists b :: Publishes(s, e, key, b) && Holds(s', key, b)
  }

  lemma KeyStep(s: Node, e: Event, s': Node, key: string)
    requires Inv(s) && Step(s, e) == Some(s') && ValidKey(key)
    ensures KeyStepOk(s, e, s', key)
  {
    SyncedDataStays(s, e, s');
    match e
    case Arrive(_) =>
    case Crash(_, _) =>
    case Act(id, fault, n) =>
      var q := s.reqs[id];
      if q.op.Put? {
        TempNamesAreNotKeys(q.op.stamp);
      }
      var x := ActOn(s.disk, s.index, q, fault, n).value;
      ActOnNames(s.disk, s.index, q, fault, n, x, key);
      if key !in s.disk.names && key in x.disk.names {
        assert Publishes(s, e, key, q.op.body) && Holds(s', key, q.op.body);
      }
  }

  // Only publishing adds a key, and only a DELETE takes one away.
  lemma ActOnNames(d: Disk, index: map<string, nat>, q: Request, fault: bool, n: nat, x: Effect, key: string)
    requires DiskInv(d) && RequestInv(d, q) && !q.pc.Done? && ValidKey(key)
    requires ActOn(d, index, q, fault, n) == Some(x)
    requires q.op.Put? ==> TempName(q.op.stamp) != key
    ensures key in d.names && !(q == Request(Delete(key), DelUnlink) && !fault) ==>
      key in x.disk.names && x.disk.names[key] == d.names[key]
    ensures key in d.names && q == Request(Delete(key), DelUnlink) && !fault ==> key !in x.disk.names
    ensures key !in d.names && key in x.disk.names ==>
      && q.pc.PutLink? && q.op.Put? && q.op.key == key
      && x.disk.names[key] in x.disk.data && x.disk.data[x.disk.names[key]] == q.op.body
  {
  }

  lemma SyncedDataStays(s: Node, e: Event, s': Node)
    requires Inv(s) && Step(s, e) == Some(s')
    ensures forall i | i in s.disk.synced ::
      i in s'.disk.synced && i in s'.disk.data && s'.disk.data[i] == s.disk.data[i]
  {
    if e.Act? {
      assert RequestInv(s.disk, s.reqs[e.id]);
    }
  }

  // ----- Whole runs -----

  lemma {:induction false} InvAlongRun(run: seq<Node>, events: seq<Event>, j: nat)
    requires IsRun(run, events) && j <= |events|
    ensures Inv(run[j])
  {
    if j == 0 {
      InitSatisfiesInv(run[0]);
    } else {
      InvAlongRun(run, events, j - 1);
      InvStep(run[j - 1], events[j - 1], run[j]);
    }
  }

  // What every run has at each of its steps, for one valid key.
  ghost predicate KeyHistory(run: seq<Node>, events: seq<Event>, key: string)
  {
    && |run| == |events| + 1
    && (forall i | 0 <= i < |run| :: run[i].disk.names.Values <= run[i].disk.data.Keys)
    && (forall i | 0 <= i < |events| :: KeyStepOk(run[i], events[i], run[i + 1], key))
  }

  lemma RunsHaveKeyHistory(run: seq<Node>, events: seq<Event>, key: string)
    requires IsRun(run, events) && ValidKey(key)
    ensures KeyHistory(run, events, key)
  {
    forall i | 0 <= i < |run| ensures run[i].disk.names.Values <= run[i].disk.data.Keys {
      InvAlongRun(run, events, i);
    }
    forall i | 0 <= i < |events| ensures KeyStepOk(run[i], events[i], run[i + 1], key) {
      InvAlongRun(run, events, i);
      KeyStep(run[i], events[i], run[i + 1], key);
    }
  }

  ghost predicate Uploads(s: Node, key: string, bytes: Bytes)
  {
    exists id :: id in s.reqs && s.reqs[id].op.Put? && s.reqs[id].op.key == key && s.reqs[id].op.body == bytes
  }

  // The bytes are an initial file of this key, or the whole body of a PUT to this key.
  ghost predicate Origin(run: seq<Node>, j: nat, key: string, bytes: Bytes)
    requires j < |run|
  {
    Holds(run[0], key, bytes) || exists i | 0 <= i <= j :: Uploads(run[i], key, bytes)
  }

  lemma {:induction false} HeldBytesHaveOrigin(run: seq<Node>, events: seq<Event>, j: nat, key: string, bytes: Bytes)
    requires KeyHistory(run, events, key) && j <= |events| && Holds(run[j], key, bytes)
    ensures Origin(run, j, key, bytes)
  {
    if j > 0 {
      var s, e := run[j - 1], events[j - 1];
      assert KeyStepOk(s, e, run[j], key);
      if key in s.disk.names {
        HeldBytesHaveOrigin(run, events, j - 1, key, s.disk.data[s.disk.names[key]]);
      } else {
        assert Uploads(s, key, bytes);
      }
    }
  }

  // Whatever lies under a valid key, at any point of any run, is whole.
  lemma FragmentsAreWholeUploads(run: seq<Node>, events: seq<Event>, j: nat, key: string)
    requires IsRun(run, events) && j <= |events| && ValidKey(key) && key in run[j].disk.names
    ensures exists b :: Holds(run[j], key, b) && Origin(run, j, key, b)
  {
    RunsHaveKeyHistory(run, events, key);
    var b := run[j].disk.data[run[j].disk.names[key]];
    HeldBytesHaveOrigin(run, events, j, key, b);
  }

  // From the moment a file appears until its next DELETE, or until a crash loses its
  // entry, its bytes never change.
  lemma FragmentStaysUntilDelete(run: seq<Node>, events: seq<Event>, i: nat, j: nat, key: string, bytes: Bytes)
    requires IsRun(run, events) && i <= j <= |events| && ValidKey(key)
    requires Holds(run[i], key, bytes)
    requires forall m | i <= m < j :: !Removes(run[m], events[m], key) && !Loses(run[m], events[m], key)
    ensures Holds(run[j], key, bytes)
  {
    RunsHaveKeyHistory(run, events, key);
    HeldBytesStay(run, events, i, j, key, bytes);
  }

  lemma {:induction false} HeldBytesStay(run: seq<Node>, events: seq<Event>, i: nat, j: nat, key: string, bytes: Bytes)
    requires KeyHistory(run, events, key) && i <= j <= |events|
    requires Holds(run[i], key, bytes)
    requires forall m | i <= m < j :: !Removes(run[m], events[m], key) && !Loses(run[m], events[m], key)
    ensures Holds(run[j], key, bytes)
  {
    if i < j {
      HeldBytesStay(run, events, i, j - 1, key, bytes);
      assert KeyStepOk(run[j - 1], events[j - 1], run[j], key);
    }
  }

  // ----- What a success answer means -----

  predicate Serving(s: Node, id: nat)
  {
    id in s.reqs && !s.reqs[id].pc.Done?
  }

  // At some instant no later than j, while request id was being served, its key held
  // these bytes.
  ghost predicate HeldMeanwhile(run: seq<Node>, j: nat, id: nat, bytes: Bytes)
    requires j < |run|
  {
    exists i | 0 <= i <= j :: Serving(run[i], id) && Holds(run[i], run[i].reqs[id].op.key, bytes)
  }

  // How one step may move one request.
  ghost predicate PcStepOk(s: Node, s': Node, id: nat)
    requires id in s'.reqs
  {
    var q' := s'.reqs[id];
    if id !in s.reqs then q'.pc == Start && id >= s.arrived
    else
      var q := s.reqs[id];
      && q'.op == q.op
      && (q'.pc != q.pc ==> Serving(s, id))
      && match q'.pc
         case PutRead(ino, _) => ReadStepOk(s, s', q.op.key, q.pc.PutRead? && q.pc.ino == ino, ino)
         case GetRead(ino, _) => ReadStepOk(s, s', q.op.key, q.pc.GetRead? && q.pc.ino == ino, ino)
         case PutUnlink => q.pc.PutUnlink? || (q.op.Put? && Holds(s', q.op.key, q.op.body))
         case PutCheck => q.pc.PutCheck? || q.pc.PutUnlink?
         case PutIndex =>
           || q.pc.PutIndex? || q.pc.PutCheck?
           || (q.op.Put? && q.pc.PutRead? && q.pc.ino in s.disk.data && s.disk.data[q.pc.ino] == q.op.body)
         case Done(PutOk) => q.pc == q'.pc || q.pc.PutIndex?
         case Done(GetOk(bytes)) =>
           || q.pc == q'.pc
           || (q.op.Get? && q.pc.GetRead? && q.pc.ino in s.disk.data && s.disk.data[q.pc.ino] == bytes)
         case _ => true
  }

  ghost predicate ReadStepOk(s: Node, s': Node, key: string, alreadyOpen: bool, ino: Inode)
  {
    && ino in s.disk.data && ino in s'.disk.data && s'.disk.data[ino] == s.disk.data[ino]
    && (alreadyOpen || (key in s.disk.names && s.disk.names[key] == ino))
  }

  lemma PcStep(s: Node, e: Event, s': Node, id: nat)
    requires Inv(s) && Step(s, e) == Some(s') && id in s'.reqs
    ensures PcStepOk(s, s', id)
  {
    SyncedDataStays(s, e, s');
    if id in s.reqs {
      assert RequestInv(s.disk, s.reqs[id]);
      if e.Act? && e.id == id {
        ActOnPc(s, e.fault, e.n, s', id);
      }
    }
  }

  lemma ActOnPc(s: Node, fault: bool, n: nat, s': Node, id: nat)
    requires DiskInv(s.disk) && id in s.reqs && RequestInv(s.disk, s.reqs[id])
    requires Step(s, Act(id, fault, n)) == Some(s')
    ensures id in s'.reqs && PcStepOk(s, s', id)
  {
    var q := s.reqs[id];
    if q.op.Put? && ActWrite(s.disk, q.op, q.pc, fault, n).Some? {
      WritePc(s.disk, q, fault, n, s'.disk, s'.reqs[id].pc);
    }
  }

  lemma WritePc(d: Disk, q: Request, fault: bool, n: nat, d': Disk, pc': Pc)
    requires DiskInv(d) && RequestInv(d, q) && q.op.Put?
    requires ActWrite(d, q.op, q.pc, fault, n) == Some((d', pc'))
    ensures !pc'.PutRead? && !pc'.GetRead? && !pc'.PutIndex? && !pc'.DelIndex?
    ensures pc' !in {Done(PutOk), Done(DeleteOk)} && (pc'.Done? ==> !pc'.response.GetOk?)
    ensures pc'.PutUnlink? ==>
      q.op.key in d'.names && d'.names[q.op.key] in d'.data && d'.data[d'.names[q.op.key]] == q.op.body
    ensures pc'.PutCheck? ==> q.pc.PutUnlink?
  {
  }

  // Why a request may be where it is.
  ghost predicate Justified(run: seq<Node>, j: nat, id: nat)
    requires j < |run| && id in run[j].reqs
  {
    var q := run[j].reqs[id];
    match q.pc
    case PutRead(ino, _) => ino in run[j].disk.data && HeldMeanwhile(run, j, id, run[j].disk.data[ino])
    case GetRead(ino, _) => ino in run[j].disk.data && HeldMeanwhile(run, j, id, run[j].disk.data[ino])
    case PutUnlink => q.op.Put? && HeldMeanwhile(run, j, id, q.op.body)
    case PutCheck => q.op.Put? && HeldMeanwhile(run, j, id, q.op.body)
    case PutIndex => q.op.Put? && HeldMeanwhile(run, j, id, q.op.body)
    case Done(PutOk) => q.op.Put? && HeldMeanwhile(run, j, id, q.op.body)
    case Done(GetOk(bytes)) => q.op.Get? && HeldMeanwhile(run, j, id, bytes)
    case _ => true
  }

  lemma JustifiedStep(run: seq<Node>, j: nat, id: nat)
    requires j + 1 < |run| && id in run[j + 1].reqs && PcStepOk(run[j], run[j + 1], id)
    requires id in run[j].reqs ==> PcFitsOp(run[j].reqs[id]) && Justified(run, j, id)
    ensures Justified(run, j + 1, id)
  {
    if id in run[j].reqs {
      var q, q' := run[j].reqs[id], run[j + 1].reqs[id];
      if Serving(run[j], id) && q'.pc.PutUnlink? && !q.pc.PutUnlink? {
        assert Serving(run[j + 1], id) && Holds(run[j + 1], run[j + 1].reqs[id].op.key, q.op.body);
      }
      if (q'.pc.PutRead? && !q.pc.PutRead?) || (q'.pc.GetRead? && !q.pc.GetRead?) {
        assert Serving(run[j], id) && Holds(run[j], run[j].reqs[id].op.key, run[j].disk.data[q'.pc.ino]);
      }
    }
  }

  lemma {:induction false} JustifiedAlongRun(run: seq<Node>, events: seq<Event>, j: nat, id: nat)
    requires IsRun(run, events) && j <= |events| && id in run[j].reqs
    ensures Justified(run, j, id)
  {
    if j > 0 {
      InvAlongRun(run, events, j - 1);
      PcStep(run[j - 1], events[j - 1], run[j], id);
      if id in run[j - 1].reqs {
        JustifiedAlongRun(run, events, j - 1, id);
        assert RequestInv(run[j - 1].disk, run[j - 1].reqs[id]);
      }
      JustifiedStep(run, j - 1, id);
    }
  }

  // A PUT that answers success saw its whole body under its key while it was served.
  lemma PutSuccessWasStored(run: seq<Node>, events: seq<Event>, j: nat, id: nat)
    requires IsRun(run, events) && j <= |events| && id in run[j].reqs && run[j].reqs[id].pc == Done(PutOk)
    ensures run[j].reqs[id].op.Put? && HeldMeanwhile(run, j, id, run[j].reqs[id].op.body)
  {
    JustifiedAlongRun(run, events, j, id);
  }

  // A step of request id itself that removes the key's file.
  ghost predicate RemovesAs(s: Node, e: Event, id: nat, key: string)
  {
    e.Act? && e.id == id && Removes(s, e, key)
  }

  // Some step of request id itself, before j, removed the key's file.
  ghost predicate RemovedBy(run: seq<Node>, events: seq<Event>, j: nat, id: nat, key: string)
    requires j <= |events| && |run| == |events| + 1
  {
    exists i | 0 <= i < j :: RemovesAs(run[i], events[i], id, key)
  }

  // How a step moves a DELETE.
  lemma DeleteStep(s: Node, id: nat, fault: bool, n: nat, s': Node)
    requires Step(s, Act(id, fault, n)) == Some(s')
    ensures id in s.reqs && id in s'.reqs && s'.reqs == s.reqs[id := s.reqs[id].(pc := s'.reqs[id].pc)]
    ensures s'.reqs[id].pc in {DelIndex, Done(DeleteOk)} ==> s.reqs[id].op.Delete?
    ensures s.reqs[id].op.Delete? ==>
      && (s.reqs[id].pc.DelIndex? <==> s'.reqs[id].pc == Done(DeleteOk))
      && (s'.reqs[id].pc.DelIndex? <==> Removes(s, Act(id, fault, n), s.reqs[id].op.key))
  {
  }

  // A DELETE that answers success took the file of its key away itself.
  lemma {:induction false} DeleteSuccessRemoved(run: seq<Node>, events: seq<Event>, j: nat, id: nat)
    requires IsRun(run, events) && j <= |events|
    requires id in run[j].reqs && run[j].reqs[id].pc in {DelIndex, Done(DeleteOk)}
    ensures run[j].reqs[id].op.Delete? && RemovedBy(run, events, j, id, run[j].reqs[id].op.key)
  {
    hide Step, ForeignCleanup, Removes;
    if j > 0 {
      var s, e, s' := run[j - 1], events[j - 1], run[j];
      RequestMoves(s, e, s', id);
      if e.Act? && e.id == id {
        DeleteStep(s, id, e.fault, e.n, s');
      }
      if id in s.reqs && s.reqs[id].pc in {DelIndex, Done(DeleteOk)} {
        DeleteSuccessRemoved(run, events, j - 1, id);
      } else {
        assert RemovesAs(s, e, id, s.reqs[id].op.key);
      }
    }
  }

  // Only its own steps move a request.
  lemma RequestMoves(s: Node, e: Event, s': Node, id: nat)
    requires Step(s, e) == Some(s') && id in s'.reqs && !s'.reqs[id].pc.Start?
    ensures id in s.reqs && s'.reqs[id].op == s.reqs[id].op
    ensures s'.reqs[id] == s.reqs[id] || (e.Act? && e.id == id)
  {
  }

  // ----- How often things happen to one key -----

  datatype Happening =
    | Stored      // a file appears under the key
    | Removed     // a DELETE takes it away
    | Lost        // a crash loses its entry
    | Confirmed   // a DELETE of the key answers success

  ghost predicate Happens(h: Happening, s: Node, e: Event, s': Node, key: string)
  {
    match h
    case Stored => key !in s.disk.names && key in s'.disk.names
    case Removed => Removes(s, e, key)
    case Lost => Loses(s, e, key)
    case Confirmed =>
      && e.Act? && e.id in s.reqs && e.id in s'.reqs && s.reqs[e.id].op == Delete(key)
      && !s.reqs[e.id].pc.Done? && s'.reqs[e.id].pc == Done(DeleteOk)
  }

  // How often it happens in the first n steps.
  ghost function Count(h: Happening, run: seq<Node>, events: seq<Event>, n: nat, key: string): nat
    requires n <= |events| && |run| == |events| + 1
  {
    if n == 0 then 0
    else Count(h, run, events, n - 1, key) + if Happens(h, run[n - 1], events[n - 1], run[n], key) then 1 else 0
  }

  function Present(s: Node, key: string): nat
  {
    if key in s.disk.names then 1 else 0
  }

  lemma FileStep(s: Node, e: Event, s': Node, key: string)
    requires KeyStepOk(s, e, s', key) && s.disk.names.Values <= s.disk.data.Keys
    ensures Present(s, key) + (if Happens(Stored, s, e, s', key) then 1 else 0)
      == Present(s', key) + (if Happens(Removed, s, e, s', key) then 1 else 0) + (if Happens(Lost, s, e, s', key) then 1 else 0)
  {
    assert key in s.disk.names ==> s.disk.names[key] in s.disk.data;
  }

  // Every file that was ever under the key is there still, or was removed by one DELETE,
  // or was lost in one crash.
  lemma FilesAreConserved(run: seq<Node>, events: seq<Event>, n: nat, key: string)
    requires IsRun(run, events) && n <= |events| && ValidKey(key)
    ensures Present(run[0], key) + Count(Stored, run, events, n, key)
      == Present(run[n], key) + Count(Removed, run, events, n, key) + Count(Lost, run, events, n, key)
  {
    RunsHaveKeyHistory(run, events, key);
    FilesAreConservedIn(run, events, n, key);
  }

  lemma {:induction false} FilesAreConservedIn(run: seq<Node>, events: seq<Event>, n: nat, key: string)
    requires KeyHistory(run, events, key) && n <= |events|
    ensures Present(run[0], key) + Count(Stored, run, events, n, key)
      == Present(run[n], key) + Count(Removed, run, events, n, key) + Count(Lost, run, events, n, key)
  {
    hide KeyStepOk, Happens;
    if n > 0 {
      FilesAreConservedIn(run, events, n - 1, key);
      assert KeyStepOk(run[n - 1], events[n - 1], run[n], key);
      FileStep(run[n - 1], events[n - 1], run[n], key);
    }
  }

  // The DELETEs of the key that have removed its file and not answered yet.
  ghost function Unanswered(s: Node, key: string): set<nat>
  {
    set id | id in s.reqs && s.reqs[id] == Request(Delete(key), DelIndex)
  }

  lemma UnansweredStep(s: Node, e: Event, s': Node, key: string)
    requires Inv(s) && Step(s, e) == Some(s')
    ensures |Unanswered(s', key)| + (if Happens(Confirmed, s, e, s', key) then 1 else 0)
      <= |Unanswered(s, key)| + (if Happens(Removed, s, e, s', key) then 1 else 0)
  {
    var was, now := Unanswered(s, key), Unanswered(s', key);
    match e
    case Arrive(_) => assert now == was;
    case Crash(_, _) => assert now == {};
    case Act(id, fault, n) => UnansweredAct(s, id, fault, n, s', key);
  }

  lemma UnansweredAct(s: Node, id: nat, fault: bool, n: nat, s': Node, key: string)
    requires Step(s, Act(id, fault, n)) == Some(s')
    ensures |Unanswered(s', key)| + (if Happens(Confirmed, s, Act(id, fault, n), s', key) then 1 else 0)
      <= |Unanswered(s, key)| + (if Happens(Removed, s, Act(id, fault, n), s', key) then 1 else 0)
  {
    hide Step;
    DeleteStep(s, id, fault, n, s');
    var was, now := Unanswered(s, key), Unanswered(s', key);
    if s.reqs[id].op != Delete(key) {
      assert now == was;
    } else if s.reqs[id].pc.DelIndex? {
      assert now == was - {id} && id in was;
    } else if s'.reqs[id].pc.DelIndex? {
      assert now == was + {id} && id !in was;
    } else {
      assert now == was;
    }
  }

  // Each success answered to a DELETE stands for one file that was there and is not any
  // more: two DELETEs never report the removal of the same file.
  lemma {:induction false} DeletesConfirmRemovals(run: seq<Node>, events: seq<Event>, n: nat, key: string)
    requires IsRun(run, events) && n <= |events|
    ensures Count(Confirmed, run, events, n, key) + |Unanswered(run[n], key)| <= Count(Removed, run, events, n, key)
  {
    hide Step, Happens, ForeignCleanup, Inv;
    if n == 0 {
      assert Unanswered(run[0], key) == {};
    } else {
      DeletesConfirmRemovals(run, events, n - 1, key);
      InvAlongRun(run, events, n - 1);
      UnansweredStep(run[n - 1], events[n - 1], run[n], key);
    }
  }

  // ----- Request numbers -----

  ghost predicate IdStepOk(s: Node, s': Node)
  {
    && s.arrived <= s'.arrived
    && (forall id | id in s.reqs :: id < s.arrived)
    && forall id | id in s'.reqs :: if id in s.reqs then s'.reqs[id].op == s.reqs[id].op else id >= s.arrived
  }

  ghost predicate IdHistory(run: seq<Node>)
  {
    forall i | 0 <= i < |run| - 1 :: IdStepOk(run[i], run[i + 1])
  }

  lemma RunsHaveIdHistory(run: seq<Node>, events: seq<Event>)
    requires IsRun(run, events)
    ensures IdHistory(run)
  {
    forall i | 0 <= i < |run| - 1 ensures IdStepOk(run[i], run[i + 1]) {
      InvAlongRun(run, events, i);
      IdStep(run[i], events[i], run[i + 1]);
    }
  }

  lemma IdStep(s: Node, e: Event, s': Node)
    requires Inv(s) && Step(s, e) == Some(s')
    ensures IdStepOk(s, s')
  {
  }

  lemma {:induction false} ArrivedGrows(run: seq<Node>, i: nat, j: nat)
    requires IdHistory(run) && i <= j < |run|
    ensures run[i].arrived <= run[j].arrived
  {
    if i < j {
      ArrivedGrows(run, i, j - 1);
      assert IdStepOk(run[j - 1], run[j]);
    }
  }

  // A request number is never given twice, not even across a crash.
  lemma {:induction false} RequestKeepsItsOp(run: seq<Node>, i: nat, m: nat, j: nat, id: nat)
    requires IdHistory(run) && i <= m <= j < |run| && id in run[i].reqs && id in run[j].reqs
    ensures id in run[m].reqs && run[m].reqs[id].op == run[j].reqs[id].op
  {
    if m < j {
      assert IdStepOk(run[j - 1], run[j]);
      ArrivedGrows(run, i, j - 1);
      assert i < j ==> IdStepOk(run[i], run[i + 1]);
      RequestKeepsItsOp(run, i, m, j - 1, id);
    }
  }

  // A GET that answers success returns bytes that lay whole under its key while it was
  // served, and that are the whole body of one PUT to this key (or its initial file).
  lemma GetSuccessIsWhole(run: seq<Node>, events: seq<Event>, j: nat, id: nat, bytes: Bytes)
    requires IsRun(run, events) && j <= |events| && id in run[j].reqs && run[j].reqs[id].pc == Done(GetOk(bytes))
    ensures run[j].reqs[id].op.Get? && HeldMeanwhile(run, j, id, bytes)
    ensures Origin(run, j, run[j].reqs[id].op.key, bytes)
  {
    JustifiedAlongRun(run, events, j, id);
    var i :| 0 <= i <= j && Serving(run[i], id) && Holds(run[i], run[i].reqs[id].op.key, bytes);
    RunsHaveIdHistory(run, events);
    RequestKeepsItsOp(run, i, i, j, id);
    InvAlongRun(run, events, j);
    RunsHaveKeyHistory(run, events, run[j].reqs[id].op.key);
    HeldBytesHaveOrigin(run, events, i, run[j].reqs[id].op.key, bytes);
  }

  // Durability: once a PUT has answered success, any GET of its key that arrives later
  // and succeeds returns exactly its body, across crashes, as long as no DELETE takes the
  // file away and no crash loses its directory entry.
  lemma GetAfterPutReturnsItsBody(
      run: seq<Node>, events: seq<Event>, j1: nat, put: nat, j2: nat, get: nat, bytes: Bytes)
    requires IsRun(run, events) && j1 <= j2 <= |events|
    requires put in run[j1].reqs && run[j1].reqs[put].pc == Done(PutOk)
    requires get !in run[j1].reqs && get in run[j2].reqs && run[j2].reqs[get].pc == Done(GetOk(bytes))
    requires run[j2].reqs[get].op.key == run[j1].reqs[put].op.key
    requires forall m | 0 <= m < j2 && put < run[m].arrived ::
      !Removes(run[m], events[m], run[j1].reqs[put].op.key) && !Loses(run[m], events[m], run[j1].reqs[put].op.key)
    ensures run[j1].reqs[put].op.Put? && bytes == run[j1].reqs[put].op.body
  {
    var key := run[j1].reqs[put].op.key;
    RunsHaveIdHistory(run, events);
    JustifiedAlongRun(run, events, j1, put);
    JustifiedAlongRun(run, events, j2, get);
    var body := run[j1].reqs[put].op.body;
    var i1 :| 0 <= i1 <= j1 && Serving(run[i1], put) && Holds(run[i1], run[i1].reqs[put].op.key, body);
    var i2 :| 0 <= i2 <= j2 && Serving(run[i2], get) && Holds(run[i2], run[i2].reqs[get].op.key, bytes);
    RequestKeepsItsOp(run, i1, i1, j1, put);
    RequestKeepsItsOp(run, i2, i2, j2, get);
    if i2 <= j1 {
      RequestKeepsItsOp(run, i2, j1, j2, get);
    }
    assert put < run[i1].arrived && ValidKey(key) by {
      InvAlongRun(run, events, i1);
      InvAlongRun(run, events, j1);
    }
    forall m | i1 <= m < i2 ensures !Removes(run[m], events[m], key) && !Loses(run[m], events[m], key) {
      ArrivedGrows(run, i1, m);
    }
    FragmentStaysUntilDelete(run, events, i1, i2, key, body);
  }

  // Why the entry matters: a PUT may answer success before its entry is durable, so any
  // run in which it has can be continued by a crash after which its file is gone.
  lemma CrashMayLoseAcknowledgedUpload(run: seq<Node>, events: seq<Event>, put: nat) returns (e: Event, s': Node)
    requires IsRun(run, events)
    requires put in run[|events|].reqs && run[|events|].reqs[put].pc == Done(PutOk)
    ensures IsRun(run + [s'], events + [e]) && e.Crash? && e.torn == map[]
    ensures run[|events|].reqs[put].op.key !in s'.disk.names
  {
    var s := run[|events|];
    e := Crash(map[], {s.reqs[put].op.key});
    s' := Step(s, e).value;
    var run', events' := run + [s'], events + [e];
    forall i | 0 <= i < |events'| ensures Step(run'[i], events'[i]) == Some(run'[i + 1]) && !ForeignCleanup(run'[i], events'[i]) {
      if i < |events| {
        assert run'[i] == run[i] && run'[i + 1] == run[i + 1] && events'[i] == events[i];
      }
    }
  }

  // ----- The index -----

  ghost predicate SizeWasReal(run: seq<Node>, j: nat, key: string, size: nat)
    requires j < |run|
  {
    exists i, b | 0 <= i <= j :: Holds(run[i], key, b) && |b| == size
  }

  // The index may lag behind the disk, but a size it records is the size of a file that
  // did lie under the key at some instant.
  lemma {:induction false} IndexSizesWereReal(run: seq<Node>, events: seq<Event>, j: nat, key: string)
    requires IsRun(run, events) && j <= |events| && key in run[j].index
    ensures SizeWasReal(run, j, key, run[j].index[key])
  {
    if j == 0 || events[j - 1].Crash? {
      if j > 0 {
        assert Step(run[j - 1], events[j - 1]) == Some(run[j]);
      }
      assert Holds(run[j], key, run[j].disk.data[run[j].disk.names[key]]);
    } else {
      InvAlongRun(run, events, j - 1);
      IndexStep(run[j - 1], events[j - 1], run[j], key);
      if key in run[j - 1].index && run[j - 1].index[key] == run[j].index[key] {
        IndexSizesWereReal(run, events, j - 1, key);
      } else {
        var id := events[j - 1].id;
        JustifiedAlongRun(run, events, j - 1, id);
        var i :| 0 <= i <= j - 1 && Serving(run[i], id) && Holds(run[i], run[i].reqs[id].op.key, run[j - 1].reqs[id].op.body);
        RunsHaveIdHistory(run, events);
        RequestKeepsItsOp(run, i, i, j - 1, id);
        assert Holds(run[i], key, run[j - 1].reqs[id].op.body);
      }
    }
  }

  lemma IndexStep(s: Node, e: Event, s': Node, key: string)
    requires Inv(s) && Step(s, e) == Some(s') && !e.Crash? && key in s'.index
    ensures
      || (key in s.index && s.index[key] == s'.index[key])
      || (e.Act? && e.id in s.reqs && s.reqs[e.id].pc.PutIndex? && s.reqs[e.id].op.Put?
          && s.reqs[e.id].op.key == key && s'.index[key] == |s.reqs[e.id].op.body|)
  {
  }

  // ----- Why temporary names must not collide -----

  ghost function Exec(s: Node, events: seq<Event>): Option<Node>
  {
    if events == [] then Some(s)
    else
      match Exec(s, events[..|events| - 1])
      case None => None
      case Some(mid) => Step(mid, events[|events| - 1])
  }

  const EMPTY_NODE: Node := Node(Disk(map[], map[], {}), map[], map[], 0)

  // Three uploads to one key with one temporary name. The second fails to create the
  // file for a reason other than its existence and cleans up, so the first loses its
  // temporary file to the third, and publishes the third's before a byte is in it.
  function CollidingUploads(): seq<Event>
  {
    [Arrive(Put("k", [1], "t")), Arrive(Put("k", [1], "t")), Arrive(Put("k", [2], "t")),
     Act(0, false, 0), Act(0, false, 0), Act(1, false, 0), Act(1, false, 0), Act(2, false, 0), Act(2, false, 0),
     Act(0, false, 0), Act(0, false, 0), Act(0, false, 0), Act(0, false, 0),   // create, write, end of write, sync
     Act(1, true, 0), Act(1, false, 0),                                        // failed create, clean-up
     Act(2, false, 1),                                                         // create
     Act(0, false, 0)]                                                         // link
  }

  function Upload(id: nat, pc: Pc): Request
  {
    Request(Put("k", [if id == 2 then 2 else 1], "t"), pc)
  }

  // The node in which the three uploads stand at these points.
  function CollidingNode(disk: Disk, pcs: seq<Pc>): Node
    requires |pcs| == 3
  {
    Node(disk, map[], map[0 := Upload(0, pcs[0]), 1 := Upload(1, pcs[1]), 2 := Upload(2, pcs[2])], 3)
  }

  lemma Collide(i: nat, d: Disk, pcs: seq<Pc>, d': Disk, pc': Pc) returns (pcs': seq<Pc>)
    requires |pcs| == 3 && i < |CollidingUploads()| && CollidingUploads()[i].Act? && CollidingUploads()[i].id < 3
    requires Exec(EMPTY_NODE, CollidingUploads()[..i]) == Some(CollidingNode(d, pcs))
    requires var e := CollidingUploads()[i];
      && !pcs[e.id].Done?
      && ActOn(d, map[], Upload(e.id, pcs[e.id]), e.fault, e.n) == Some(Effect(d', map[], pc'))
    ensures |pcs'| == 3 && pcs' == pcs[CollidingUploads()[i].id := pc']
    ensures Exec(EMPTY_NODE, CollidingUploads()[..i + 1]) == Some(CollidingNode(d', pcs'))
  {
    var events := CollidingUploads();
    var e := events[i];
    pcs' := pcs[e.id := pc'];
    assert events[..i + 1][..i] == events[..i];
    var s, s' := CollidingNode(d, pcs), CollidingNode(d', pcs');
    assert s.reqs[e.id := s.reqs[e.id].(pc := pc')] == s'.reqs;
    assert Step(s, e) == Some(s');
  }

  lemma ArriveNext(i: nat, s: Node, s': Node)
    requires i < 3 && Exec(EMPTY_NODE, CollidingUploads()[..i]) == Some(s)
    requires s.arrived == i && s'.reqs == s.reqs[i := Upload(i, Start)] && s' == s.(reqs := s'.reqs, arrived := i + 1)
    ensures Exec(EMPTY_NODE, CollidingUploads()[..i + 1]) == Some(s')
  {
    var events := CollidingUploads();
    assert events[..i + 1][..i] == events[..i];
    assert events[i] == Arrive(Upload(i, Start).op);
    assert Step(s, events[i]) == Some(s');
  }

  lemma CollidingArrivals() returns (pcs: seq<Pc>)
    ensures pcs == [Start, Start, Start]
    ensures Exec(EMPTY_NODE, CollidingUploads()[..3]) == Some(CollidingNode(EMPTY_NODE.disk, pcs))
  {
    assert Exec(EMPTY_NODE, CollidingUploads()[..0]) == Some(EMPTY_NODE);
    hide Exec;
    var d := EMPTY_NODE.disk;
    var s1 := Node(d, map[], map[0 := Upload(0, Start)], 1);
    var s2 := Node(d, map[], map[0 := Upload(0, Start), 1 := Upload(1, Start)], 2);
    pcs := [Start, Start, Start];
    ArriveNext(0, EMPTY_NODE, s1);
    ArriveNext(1, s1, s2);
    ArriveNext(2, s2, CollidingNode(d, pcs));
  }

  // One upload validates its key and finds it free.
  lemma CollidingStat(id: nat, pcs: seq<Pc>) returns (pcs': seq<Pc>)
    requires id < 3 && |pcs| == 3 && pcs[id] == Start
    requires Exec(EMPTY_NODE, CollidingUploads()[..3 + 2 * id]) == Some(CollidingNode(EMPTY_NODE.disk, pcs))
    ensures pcs' == pcs[id := PutCreate]
    ensures Exec(EMPTY_NODE, CollidingUploads()[..5 + 2 * id]) == Some(CollidingNode(EMPTY_NODE.disk, pcs'))
  {
    hide Exec;
    ValidatorAcceptsExactlyValidKeys("k");
    var d := EMPTY_NODE.disk;
    assert CollidingUploads()[3 + 2 * id] == CollidingUploads()[4 + 2 * id] == Act(id, false, 0);
    pcs' := Collide(3 + 2 * id, d, pcs, d, PutStat);
    pcs' := Collide(4 + 2 * id, d, pcs', d, PutCreate);
  }

  // The first upload creates its temporary file and writes all of it.
  lemma FirstUploadWrites() returns (d: Disk, pcs: seq<Pc>)
    ensures pcs == [PutWrite(0, 1), PutCreate, PutCreate]
    ensures d == Disk(map[TempName("t") := 0], map[0 := [1]], {})
    ensures Exec(EMPTY_NODE, CollidingUploads()[..11]) == Some(CollidingNode(d, pcs))
  {
    hide Exec;
    pcs := CollidingArrivals();
    pcs := CollidingStat(0, pcs);
    pcs := CollidingStat(1, pcs);
    pcs := CollidingStat(2, pcs);
    var d0, temp := EMPTY_NODE.disk, TempName("t");
    var d1 := d0.Create(temp, 0);
    pcs := Collide(9, d0, pcs, d1, PutWrite(0, 0));
    var body := Upload(0, pcs[0]).op.body;
    assert body[0..1] == body == [1] && d1.data[0] + body == body;
    d := d1.Append(0, body);
    pcs := Collide(10, d1, pcs, d, PutWrite(0, 1));
    assert d.names == map[temp := 0] && d.data == map[0 := [1]] && d.synced == {};
  }

  // Its file is now complete and durable.
  lemma FirstUploadSyncs() returns (d: Disk, pcs: seq<Pc>)
    ensures pcs == [PutLink(0), PutCreate, PutCreate]
    ensures d == Disk(map[TempName("t") := 0], map[0 := [1]], {0})
    ensures Exec(EMPTY_NODE, CollidingUploads()[..13]) == Some(CollidingNode(d, pcs))
  {
    hide Exec;
    var d2;
    d2, pcs := FirstUploadWrites();
    pcs := Collide(11, d2, pcs, d2, PutSync(0));
    d := d2.Sync(0);
    pcs := Collide(12, d2, pcs, d, PutLink(0));
  }

  // The second upload cleans up, and the third creates the file anew, still empty.
  lemma ThirdUploadTakesTheName() returns (d: Disk, pcs: seq<Pc>)
    ensures pcs == [PutLink(0), Done(ServerError), PutWrite(1, 0)]
    ensures d == Disk(map[TempName("t") := 1], map[0 := [1], 1 := []], {0})
    ensures Exec(EMPTY_NODE, CollidingUploads()[..16]) == Some(CollidingNode(d, pcs))
  {
    hide Exec;
    var temp := TempName("t");
    var d0;
    d0, pcs := FirstUploadSyncs();
    pcs := Collide(13, d0, pcs, d0, PutCleanup);
    var d1 := d0.Unlink(temp);
    pcs := Collide(14, d0, pcs, d1, Done(ServerError));
    d := d1.Create(temp, 1);
    pcs := Collide(15, d1, pcs, d, PutWrite(1, 0));
    assert d.names == map[temp := 1] && d.data == map[0 := [1], 1 := []] && d.synced == {0};
  }

  lemma CollidingTempsPublishATornFile()
    ensures Exec(EMPTY_NODE, CollidingUploads()).Some?
    ensures Holds(Exec(EMPTY_NODE, CollidingUploads()).value, "k", [])
  {
    hide Exec;
    var d, pcs := TornFileIsLinked();
    assert CollidingUploads() == CollidingUploads()[..17];
  }

  lemma TornFileIsLinked() returns (d: Disk, pcs: seq<Pc>)
    ensures |pcs| == 3 && Exec(EMPTY_NODE, CollidingUploads()[..17]) == Some(CollidingNode(d, pcs))
    ensures "k" in d.names && d.names["k"] == 1 && d.data == map[0 := [1], 1 := []]
  {
    hide Exec;
    var temp := TempName("t");
    assert |temp| > |"k"|;
    var d0;
    d0, pcs := ThirdUploadTakesTheName();
    d := d0.HardLink(temp, "k");
    pcs := Collide(16, d0, pcs, d, PutUnlink);
  }

  // The colliding run starts from an empty node, its key is valid, and every body it
  // uploads has one byte.
  lemma CollidingRunIsOrdinary()
    ensures Init(EMPTY_NODE) && ValidKey("k")
    ensures forall i | 0 <= i < |CollidingUploads()| && CollidingUploads()[i].Arrive? ::
      CollidingUploads()[i].op.Put? && |CollidingUploads()[i].op.body| == 1
  {
    assert LoadIndex(EMPTY_NODE.disk) == map[];
  }
}
