// crates/storage-node/src/main.rs: the checks on a decoded storage token and the cache
// that lets a write or delete token pass once.
module ReplayCache {
  import opened Prelude
  import opened Text

  // The fields of a decoded token that verification looks at; times are Unix seconds.
  datatype Token = Token(
    storageKey: string,
    operation: string,
    exp: int,
    storageNodeId: Option<string>,
    fragmentHash: Option<string>,
    jti: Option<string>)

  datatype TokenError =
    | Expired | WrongKey | WrongNode | WrongOperation | WrongFragment
    | MissingJti | InvalidJti | AlreadyUsed

  type Cache = map<string, int>

  const MAX_JTI_BYTES: nat := 128

  predicate WellFormedJti(jti: string)
  {
    jti != "" && ByteLength(jti) <= MAX_JTI_BYTES && forall i | 0 <= i < |jti| :: !IsControl(jti[i])
  }

  // The stateless checks, in the order the node makes them.
  function CheckClaims(nodeId: string, t: Token, key: string, op: string, hash: Option<string>, now: int): Option<TokenError>
  {
    if now > t.exp then Some(Expired)
    else if t.storageKey != key then Some(WrongKey)
    else if t.storageNodeId != Some(nodeId) then Some(WrongNode)
    else if t.operation != op then Some(WrongOperation)
    else if t.fragmentHash.Some? && hash.Some? && !EqIgnoreAsciiCase(t.fragmentHash.value, hash.value) then
      Some(WrongFragment)
    else if op in {"write", "delete"} && t.jti.None? then Some(MissingJti)
    else None
  }

  function Prune(c: Cache, now: int): Cache
  {
    map k | k in c && c[k] >= now :: c[k]
  }

  function Consume(c: Cache, jti: string, exp: int, now: int): (Result<Unit, TokenError>, Cache)
  {
    if !WellFormedJti(jti) then (Err(InvalidJti), c)
    else
      var p := Prune(c, now);
      if jti in p then (Err(AlreadyUsed), p) else (Ok(Unit), p[jti := exp])
  }

  function Verify(nodeId: string, c: Cache, t: Token, key: string, op: string, hash: Option<string>, now: int)
    : (Result<Unit, TokenError>, Cache)
  {
    match CheckClaims(nodeId, t, key, op, hash, now)
    case Some(e) => (Err(e), c)
    case None => if op in {"write", "delete"} then Consume(c, t.jti.value, t.exp, now) else (Ok(Unit), c)
  }

  // AppState, as far as tokens are concerned.
  class TokenVerifier {
    const nodeId: string
    var consumed: Cache

    constructor (nodeId: string)
      ensures this.nodeId == nodeId && consumed == map[]
    {
      this.nodeId := nodeId;
      consumed := map[];
    }

    method ConsumeTokenId(jti: string, exp: int, now: int) returns (r: Result<Unit, TokenError>)
      modifies this`consumed
      ensures (r, consumed) == Consume(old(consumed), jti, exp, now)
    {
      if !WellFormedJti(jti) {
        return Err(InvalidJti);
      }
      consumed := map k | k in consumed && consumed[k] >= now :: consumed[k];
      if jti in consumed {
        return Err(AlreadyUsed);
      }
      consumed := consumed[jti := exp];
      r := Ok(Unit);
    }

    method VerifyTokenForOperation(t: Token, key: string, op: string, hash: Option<string>, now: int)
      returns (r: Result<Unit, TokenError>)
      modifies this`consumed
      ensures (r, consumed) == Verify(nodeId, old(consumed), t, key, op, hash, now)
      ensures r.Ok? ==> Claims(nodeId, t, key, op, hash, now)
      ensures op != "write" && op != "delete" ==> (r.Ok? <==> Claims(nodeId, t, key, op, hash, now)) && consumed == old(consumed)
    {
      VerdictNamesClaim(nodeId, consumed, t, key, op, hash, now);
      if now > t.exp {
        return Err(Expired);
      }
      if t.storageKey != key {
        return Err(WrongKey);
      }
      if t.storageNodeId != Some(nodeId) {
        return Err(WrongNode);
      }
      if t.operation != op {
        return Err(WrongOperation);
      }
      if t.fragmentHash.Some? {
        if hash.Some? {
          if !EqIgnoreAsciiCase(t.fragmentHash.value, hash.value) {
            return Err(WrongFragment);
          }
        }
      }
      if op == "write" || op == "delete" {
        if t.jti.None? {
          return Err(MissingJti);
        }
        r := ConsumeTokenId(t.jti.value, t.exp, now);
        return;
      }
      r := Ok(Unit);
    }
  }

  // ----- What an accepted token claims -----

  // It is unexpired and made for this key, this node, this operation and, where both
  // sides name a hash, this fragment.
  predicate Claims(nodeId: string, t: Token, key: string, op: string, hash: Option<string>, now: int)
  {
    && now <= t.exp && t.storageKey == key && t.storageNodeId == Some(nodeId) && t.operation == op
    && (t.fragmentHash.Some? && hash.Some? ==> SameLetters(t.fragmentHash.value, hash.value))
  }

  // An id of 1 to 128 bytes without control characters.
  predicate HasUsableId(t: Token)
  {
    && t.jti.Some? && t.jti.value != "" && ByteLength(t.jti.value) <= 128
    && forall c | c in t.jti.value :: !(c < ' ' || '\U{7F}' <= c <= '\U{9F}')
  }

  lemma UsableIdIsWellFormed(t: Token)
    ensures HasUsableId(t) <==> t.jti.Some? && WellFormedJti(t.jti.value)
  {
    if t.jti.Some? {
      var jti := t.jti.value;
      assert forall i | 0 <= i < |jti| :: jti[i] in jti;
    }
  }

  // The answer, claim by claim: the first one that fails names the error, and a token
  // without a failing claim is refused only for its id, and only to write or delete.
  lemma VerdictNamesClaim(
      nodeId: string, c: Cache, t: Token, key: string, op: string, hash: Option<string>, now: int)
    ensures var r := Verify(nodeId, c, t, key, op, hash, now).0;
      var spends := op == "write" || op == "delete";
      && (r == Err(Expired) <==> t.exp < now)
      && (r == Err(WrongKey) <==> now <= t.exp && t.storageKey != key)
      && (r == Err(WrongNode) <==> now <= t.exp && t.storageKey == key && t.storageNodeId != Some(nodeId))
      && (r == Err(WrongOperation) <==>
            now <= t.exp && t.storageKey == key && t.storageNodeId == Some(nodeId) && t.operation != op)
      && (r == Err(WrongFragment) <==>
            && now <= t.exp && t.storageKey == key && t.storageNodeId == Some(nodeId) && t.operation == op
            && t.fragmentHash.Some? && hash.Some? && !SameLetters(t.fragmentHash.value, hash.value))
      && (r == Err(MissingJti) <==> Claims(nodeId, t, key, op, hash, now) && spends && t.jti.None?)
      && (r == Err(InvalidJti) <==> Claims(nodeId, t, key, op, hash, now) && spends && t.jti.Some? && !HasUsableId(t))
      && (r == Err(AlreadyUsed) <==>
            && Claims(nodeId, t, key, op, hash, now) && spends && HasUsableId(t)
            && t.jti.value in c && now <= c[t.jti.value])
      && (r.Ok? <==>
            && Claims(nodeId, t, key, op, hash, now)
            && (spends ==> HasUsableId(t) && !(t.jti.value in c && now <= c[t.jti.value])))
  {
    hide EqIgnoreAsciiCase, SameLetters, WellFormedJti, HasUsableId;
    if t.fragmentHash.Some? && hash.Some? {
      EqIgnoreAsciiCaseIff(t.fragmentHash.value, hash.value);
    }
    UsableIdIsWellFormed(t);
  }

  // ----- Runs -----

  // Events in the order in which they take the cache's lock. The clock is read before
  // the lock is taken, so `now` need not grow from one event to the next.
  datatype Event =
    | Present(t: Token, key: string, op: string, hash: Option<string>, now: int)
    | Restart

  function CacheAt(nodeId: string, es: seq<Event>, n: nat): Cache
    requires n <= |es|
  {
    if n == 0 then map[]
    else
      match es[n - 1]
      case Restart => map[]
      case Present(t, key, op, hash, now) => Verify(nodeId, CacheAt(nodeId, es, n - 1), t, key, op, hash, now).1
  }

  // The event reaches the cache: a write or delete token that passes every other check.
  predicate Reaches(nodeId: string, e: Event)
  {
    && e.Present? && e.op in {"write", "delete"}
    && CheckClaims(nodeId, e.t, e.key, e.op, e.hash, e.now).None?
    && e.t.jti.Some? && WellFormedJti(e.t.jti.value)
  }

  predicate Accepted(nodeId: string, es: seq<Event>, i: nat)
    requires i < |es|
  {
    && Reaches(nodeId, es[i])
    && Verify(nodeId, CacheAt(nodeId, es, i), es[i].t, es[i].key, es[i].op, es[i].hash, es[i].now).0.Ok?
  }

  // A record that expires at exp outlives the event.
  predicate Survives(nodeId: string, e: Event, exp: int)
  {
    e.Present? && (Reaches(nodeId, e) ==> e.now <= exp)
  }

  // Some earlier use of jti, expiring at exp, is still on record after n events.
  ghost predicate OnRecord(nodeId: string, es: seq<Event>, n: nat, i: int, jti: string, exp: int)
    requires n <= |es|
  {
    && 0 <= i < n && Accepted(nodeId, es, i) && es[i].t.jti == Some(jti) && es[i].t.exp == exp
    && forall k | i < k < n :: Survives(nodeId, es[k], exp)
  }

  // The cache is exactly the unpruned part of the history.
  lemma {:induction false} CacheIsHistory(nodeId: string, es: seq<Event>, n: nat, jti: string, exp: int)
    requires n <= |es|
    ensures (jti in CacheAt(nodeId, es, n) && CacheAt(nodeId, es, n)[jti] == exp)
      <==> exists i :: OnRecord(nodeId, es, n, i, jti, exp)
  {
    if n > 0 {
      CacheIsHistory(nodeId, es, n - 1, jti, exp);
      var e := es[n - 1];
      var before, after := CacheAt(nodeId, es, n - 1), CacheAt(nodeId, es, n);
      if jti in after && after[jti] == exp {
        if Accepted(nodeId, es, n - 1) && e.t.jti == Some(jti) {
          assert OnRecord(nodeId, es, n, n - 1, jti, exp);
        } else {
          var i :| OnRecord(nodeId, es, n - 1, i, jti, exp);
          assert OnRecord(nodeId, es, n, i, jti, exp);
        }
      }
      if i :| OnRecord(nodeId, es, n, i, jti, exp) {
        if i < n - 1 {
          assert Survives(nodeId, e, exp);
          assert OnRecord(nodeId, es, n - 1, i, jti, exp);
        }
      }
    }
  }

  // Exactly when a token that passes every other check is accepted: each earlier use of
  // its id has been forgotten, by a restart or by an event that found it expired.
  lemma AcceptedIff(nodeId: string, es: seq<Event>, j: nat)
    requires j < |es| && Reaches(nodeId, es[j])
    ensures Accepted(nodeId, es, j) <==>
      forall i | 0 <= i < j && Accepted(nodeId, es, i) && es[i].t.jti == es[j].t.jti ::
        exists k | i < k <= j :: !Survives(nodeId, es[k], es[i].t.exp)
  {
    var jti := es[j].t.jti.value;
    var c := CacheAt(nodeId, es, j);
    if Accepted(nodeId, es, j) {
      forall i | 0 <= i < j && Accepted(nodeId, es, i) && es[i].t.jti == es[j].t.jti
        ensures exists k | i < k <= j :: !Survives(nodeId, es[k], es[i].t.exp)
      {
        if forall k | i < k <= j :: Survives(nodeId, es[k], es[i].t.exp) {
          assert OnRecord(nodeId, es, j, i, jti, es[i].t.exp);
          CacheIsHistory(nodeId, es, j, jti, es[i].t.exp);
          assert false;
        }
      }
    } else {
      assert jti in c && c[jti] >= es[j].now;
      CacheIsHistory(nodeId, es, j, jti, c[jti]);
      var i :| OnRecord(nodeId, es, j, i, jti, c[jti]);
      assert forall k | i < k <= j :: Survives(nodeId, es[k], es[i].t.exp);
    }
  }

  // What must lie between two acceptances of one token: a restart, or an event whose
  // clock is past the token's expiry although the later acceptance's is not.
  lemma ReplayNeedsRestartOrClockStep(nodeId: string, es: seq<Event>, i: nat, j: nat)
    requires i < j < |es| && Accepted(nodeId, es, i) && Accepted(nodeId, es, j)
    requires es[i].t.jti == es[j].t.jti && es[i].t.exp == es[j].t.exp
    ensures exists k | i < k < j ::
      es[k].Restart? || (Reaches(nodeId, es[k]) && es[j].now <= es[j].t.exp < es[k].now)
  {
    AcceptedIff(nodeId, es, j);
    var k :| i < k <= j && !Survives(nodeId, es[k], es[i].t.exp);
  }

  ghost predicate ClockNeverStepsBack(es: seq<Event>)
  {
    forall i, j | 0 <= i < j < |es| && es[i].Present? && es[j].Present? :: es[i].now <= es[j].now
  }

  // Replay protection: between restarts, and with a clock that does not step back, a
  // write or delete token is accepted at most once although the cache forgets.
  lemma TokenAcceptedAtMostOnce(nodeId: string, es: seq<Event>, i: nat, j: nat)
    requires ClockNeverStepsBack(es)
    requires i < j < |es| && Accepted(nodeId, es, i) && Accepted(nodeId, es, j)
    requires forall k | i < k < j :: !es[k].Restart?
    ensures !(es[i].t.jti == es[j].t.jti && es[i].t.exp == es[j].t.exp)
  {
    if es[i].t.jti == es[j].t.jti && es[i].t.exp == es[j].t.exp {
      ReplayNeedsRestartOrClockStep(nodeId, es, i, j);
      assert false;
    }
  }

  // Once an event has reached the cache, every record in it is unexpired.
  lemma CacheHoldsOnlyUnexpired(nodeId: string, es: seq<Event>, j: nat, jti: string)
    requires j < |es| && Reaches(nodeId, es[j])
    requires jti in CacheAt(nodeId, es, j + 1)
    ensures CacheAt(nodeId, es, j + 1)[jti] >= es[j].now
  {
  }

  // The cache lives in memory: every token accepted before a restart is accepted again
  // after it, until it expires.
  lemma RestartForgetsTokens(nodeId: string, e: Event, again: Event)
    requires Reaches(nodeId, e) && Reaches(nodeId, again) && again.t == e.t
    ensures Accepted(nodeId, [e, Restart, again], 0) && Accepted(nodeId, [e, Restart, again], 2)
  {
    AcceptedIff(nodeId, [e, Restart, again], 0);
    AcceptedIff(nodeId, [e, Restart, again], 2);
    assert !Survives(nodeId, [e, Restart, again][1], e.t.exp);
  }

  // A request that read the clock just before another, but takes the lock just after it,
  // can get a token through twice.
  lemma ClockStepReplaysToken(nodeId: string, e: Event, other: Event)
    requires Reaches(nodeId, e) && Reaches(nodeId, other)
    requires other.t.jti != e.t.jti && e.t.exp < other.now
    ensures Accepted(nodeId, [e, other, e], 0) && Accepted(nodeId, [e, other, e], 2)
  {
    AcceptedIff(nodeId, [e, other, e], 0);
    AcceptedIff(nodeId, [e, other, e], 2);
    assert !Survives(nodeId, [e, other, e][1], e.t.exp);
  }
}
