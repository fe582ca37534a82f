// crates/oracle/src/xrpl.rs: submitting a signed transaction and waiting for its
// validation, against an arbitrary sequence of RPC outcomes.
module SubmitPoll {
  import opened Prelude

  datatype Call = Submit | Lookup

  // What rpc_once yields: an error, or a reply. The engine result and the transaction
  // result read "unknown" where the reply has no such string.
  datatype Outcome =
    | Failed
    | Reply(engineResult: string, validated: bool, txResult: string)

  datatype SubmitError =
    | TransactionFailed(code: string)
    | SubmitFailed                       // "Submit failed after retries"
    | Timeout                            // "Transaction validation timeout"

  const POLLS: nat := 30

  // The XRPL node, with the outcome of every call it will ever get.
  class Rpc {
    const script: nat -> Outcome
    var calls: seq<Call>

    constructor (script: nat -> Outcome)
      ensures this.script == script && calls == []
    {
      this.script := script;
      calls := [];
    }

    method RpcOnce(call: Call) returns (o: Outcome)
      modifies this`calls
      ensures calls == old(calls) + [call] && o == script(|old(calls)|)
    {
      o := script(|calls|);
      calls := calls + [call];
    }
  }

  predicate StartsWith(s: string, prefix: string)
  {
    prefix <= s
  }

  function Repeat(c: Call, n: nat): (r: seq<Call>)
    ensures |r| == n && forall i | 0 <= i < n :: r[i] == c
  {
    seq(n, i => c)
  }

  // ----- What a run of calls must look like -----

  // The calls made before polling when every one of them fails.
  const PRELUDE: seq<Call> := [Submit, Lookup, Submit, Submit]

  predicate Replied(script: nat -> Outcome, i: int)
  {
    0 <= i && script(i).Reply?
  }

  predicate Validated(script: nat -> Outcome, i: int)
  {
    0 <= i && script(i).Reply? && script(i).validated
  }

  // The reply to a submission that ends the attempt at once. On a retry the node's "tef"
  // codes no longer do.
  predicate Rejects(engineResult: string, first: bool)
  {
    || StartsWith(engineResult, "tem")
    || (first && StartsWith(engineResult, "tef") && engineResult != "tefPAST_SEQ")
  }

  function ResultOf(txResult: string): Result<Unit, SubmitError>
  {
    if txResult == "tesSUCCESS" then Ok(Unit) else Err(TransactionFailed(txResult))
  }

  // The first p calls of the prelude fail, call p gets a reply.
  ghost predicate FirstReplyAt(script: nat -> Outcome, p: nat)
  {
    p < |PRELUDE| && Replied(script, p) && forall i | 0 <= i < p :: !Replied(script, i)
  }

  // k polls follow the first p + 1 calls, and none but the last is validated.
  ghost predicate Polls(script: nat -> Outcome, calls: seq<Call>, p: nat, k: nat)
  {
    && p < |PRELUDE| && k <= POLLS
    && calls == PRELUDE[..p + 1] + Repeat(Lookup, k)
    && forall i | p < i < p + k :: !Validated(script, i)
  }

  // The call at p is the first to get a reply, and k polls follow.
  ghost predicate Answered(script: nat -> Outcome, calls: seq<Call>, r: Result<Unit, SubmitError>, p: nat, k: nat)
  {
    && FirstReplyAt(script, p) && Polls(script, calls, p, k)
    && if PRELUDE[p] == Submit && Rejects(script(p).engineResult, p == 0) then
         k == 0 && r == Err(TransactionFailed(script(p).engineResult))
       else if PRELUDE[p] == Lookup && script(p).validated then
         k == 0 && r == ResultOf(script(p).txResult)
       else if k > 0 && Validated(script, p + k) then
         r == ResultOf(script(p + k).txResult)
       else
         k == POLLS && r == Err(Timeout)
  }

  // Every submission fails, and one last lookup decides.
  ghost predicate Abandoned(script: nat -> Outcome, calls: seq<Call>, r: Result<Unit, SubmitError>)
  {
    && (forall i | 0 <= i < |PRELUDE| :: !Replied(script, i))
    && calls == PRELUDE + [Lookup]
    && r == if Validated(script, |PRELUDE|) && script(|PRELUDE|).txResult == "tesSUCCESS" then Ok(Unit) else Err(SubmitFailed)
  }

  // Everything an attempt may do and answer. The script leaves it no choice: p is the
  // first call that gets a reply, and k follows from the lookups after it.
  ghost predicate Outcomes(script: nat -> Outcome, calls: seq<Call>, r: Result<Unit, SubmitError>)
  {
    Abandoned(script, calls, r) || exists p: nat, k: nat :: Answered(script, calls, r, p, k)
  }

  method SubmitAndWaitValidation(rpc: Rpc) returns (r: Result<Unit, SubmitError>)
    requires rpc.calls == []
    modifies rpc`calls
    ensures Outcomes(rpc.script, rpc.calls, r)
  {
    var submitted := rpc.RpcOnce(Submit);
    var engineResult := "tesSUCCESS";
    ghost var p := 0;
    if submitted.Reply? {
      engineResult := submitted.engineResult;
    } else {
      var seen := rpc.RpcOnce(Lookup);
      p := 1;
      if seen.Reply? {
        if seen.validated {
          r := if seen.txResult == "tesSUCCESS" then Ok(Unit) else Err(TransactionFailed(seen.txResult));
          assert Answered(rpc.script, rpc.calls, r, 1, 0);
          return;
        }
      } else {
        var answer;
        answer, p := ResubmitUnacceptedBlob(rpc);
        if answer.Some? {
          return answer.value;
        }
      }
    }
    assert FirstReplyAt(rpc.script, p) && Polls(rpc.script, rpc.calls, p, 0);
    assert p > 0 ==> engineResult[2] == 's';
    assert "tem"[2] == 'm' && "tef"[2] == 'f';

    if StartsWith(engineResult, "tem") || (StartsWith(engineResult, "tef") && engineResult != "tefPAST_SEQ") {
      r := Err(TransactionFailed(engineResult));
      assert Answered(rpc.script, rpc.calls, r, p, 0);
      return;
    }
    r := PollForValidation(rpc, p);
  }

  // The retry loop, entered when neither the submission nor the lookup after it got a
  // reply. Without an answer of its own it leaves the attempt to the polls.
  method ResubmitUnacceptedBlob(rpc: Rpc) returns (answer: Option<Result<Unit, SubmitError>>, ghost p: nat)
    requires rpc.calls == PRELUDE[..2] && !Replied(rpc.script, 0) && !Replied(rpc.script, 1)
    modifies rpc`calls
    ensures answer.Some? ==> Outcomes(rpc.script, rpc.calls, answer.value)
    ensures answer.None? ==> p in {2, 3} && FirstReplyAt(rpc.script, p) && Polls(rpc.script, rpc.calls, p, 0)
    ensures answer.None? ==> !Rejects(rpc.script(p).engineResult, false)
  {
    answer, p := None, 2;
    for retry := 1 to 3
      invariant rpc.calls == PRELUDE[..retry + 1] && forall i | 0 <= i <= retry :: !Replied(rpc.script, i)
      invariant retry < 3 && answer.None?
    {
      var again := rpc.RpcOnce(Submit);
      if again.Reply? {
        p := retry + 1;
        if again.engineResult == "tefPAST_SEQ" {
          assert again.engineResult[2] == 'f' && "tem"[2] == 'm';
          return;
        }
        if StartsWith(again.engineResult, "tem") {
          answer := Some(Err(TransactionFailed(again.engineResult)));
          assert Answered(rpc.script, rpc.calls, answer.value, p, 0);
        }
        return;
      }
      if retry == 2 {
        var last := rpc.RpcOnce(Lookup);
        if last.Reply? && last.validated && last.txResult == "tesSUCCESS" {
          answer := Some(Ok(Unit));
        } else {
          answer := Some(Err(SubmitFailed));
        }
        assert Abandoned(rpc.script, rpc.calls, answer.value);
        return;
      }
    }
  }

  method PollForValidation(rpc: Rpc, ghost p: nat) returns (r: Result<Unit, SubmitError>)
    requires FirstReplyAt(rpc.script, p) && Polls(rpc.script, rpc.calls, p, 0)
    requires !(PRELUDE[p] == Submit && Rejects(rpc.script(p).engineResult, p == 0))
    requires !(PRELUDE[p] == Lookup && rpc.script(p).validated)
    modifies rpc`calls
    ensures Outcomes(rpc.script, rpc.calls, r)
  {
    for i := 0 to POLLS
      invariant Polls(rpc.script, rpc.calls, p, i)
      invariant i > 0 ==> !Validated(rpc.script, p + i)
    {
      var seen := rpc.RpcOnce(Lookup);
      assert Polls(rpc.script, rpc.calls, p, i + 1);
      if seen.Reply? && seen.validated {
        r := if seen.txResult == "tesSUCCESS" then Ok(Unit) else Err(TransactionFailed(seen.txResult));
        assert Answered(rpc.script, rpc.calls, r, p, i + 1);
        return;
      }
    }
    r := Err(Timeout);
    assert Answered(rpc.script, rpc.calls, r, p, POLLS);
  }

  // ----- What every attempt guarantees -----

  // One script, one course of events.
  lemma OutcomesAreDetermined(
      script: nat -> Outcome, calls: seq<Call>, r: Result<Unit, SubmitError>, calls': seq<Call>, r': Result<Unit, SubmitError>)
    requires Outcomes(script, calls, r) && Outcomes(script, calls', r')
    ensures calls == calls' && r == r'
  {
    if Abandoned(script, calls, r) {
      if p: nat, k: nat :| Answered(script, calls', r', p, k) {
        assert Replied(script, p);
      }
    } else {
      var p: nat, k: nat :| Answered(script, calls, r, p, k);
      assert Replied(script, p);
      if p': nat, k': nat :| Answered(script, calls', r', p', k') {
        assert Replied(script, p');
        assert k == k' by {
          assert k > 0 && k' > k ==> !Validated(script, p + k);
          assert k' > 0 && k > k' ==> !Validated(script, p + k');
        }
      }
    }
  }

  // An attempt makes at most 34 calls, of which at most three send the blob.
  lemma AtMost34Calls(script: nat -> Outcome, calls: seq<Call>, r: Result<Unit, SubmitError>)
    requires Outcomes(script, calls, r)
    ensures 1 <= |calls| <= 34 && calls[0] == Submit
    ensures multiset(calls)[Submit] <= 3
  {
    if Abandoned(script, calls, r) {
      SubmissionsIn(4, 1);
      assert calls == PRELUDE[..4] + Repeat(Lookup, 1);
    } else {
      var p: nat, k: nat :| Answered(script, calls, r, p, k);
      SubmissionsIn(p + 1, k);
    }
  }

  lemma SubmissionsIn(n: nat, k: nat)
    requires n <= |PRELUDE|
    ensures multiset(PRELUDE[..n] + Repeat(Lookup, k))[Submit] <= 3
  {
    assert Submit !in multiset(Repeat(Lookup, k));
    assert PRELUDE[..1] == [Submit] && PRELUDE[..2] == [Submit, Lookup];
    assert PRELUDE[..3] == [Submit, Lookup, Submit] && PRELUDE[..4] == PRELUDE;
  }

  // No call follows the first lookup that reports the transaction validated.
  lemma NoCallAfterValidation(script: nat -> Outcome, calls: seq<Call>, r: Result<Unit, SubmitError>, i: nat)
    requires Outcomes(script, calls, r)
    requires i < |calls| && calls[i] == Lookup && Validated(script, i)
    ensures i == |calls| - 1
  {
    if Abandoned(script, calls, r) {
      assert i < |PRELUDE| ==> !Replied(script, i);
    } else {
      var p: nat, k: nat :| Answered(script, calls, r, p, k);
      assert i < p ==> !Replied(script, i);
    }
  }

  // The answer is Ok exactly when some lookup reports the transaction validated with
  // tesSUCCESS.
  lemma OkIffValidatedSuccess(script: nat -> Outcome, calls: seq<Call>, r: Result<Unit, SubmitError>)
    requires Outcomes(script, calls, r)
    ensures r.Ok? <==>
      exists i | 0 <= i < |calls| :: calls[i] == Lookup && Validated(script, i) && script(i).txResult == "tesSUCCESS"
  {
    var last := |calls| - 1;
    if i :| 0 <= i < |calls| && calls[i] == Lookup && Validated(script, i) && script(i).txResult == "tesSUCCESS" {
      NoCallAfterValidation(script, calls, r, i);
      if !Abandoned(script, calls, r) {
        var p: nat, k: nat :| Answered(script, calls, r, p, k);
        assert i == p + k;
      }
    }
    if r.Ok? {
      assert calls[last] == Lookup && Validated(script, last) && script(last).txResult == "tesSUCCESS";
    }
  }

  // The blob is sent again only while every earlier call has failed, and at most twice.
  lemma ResubmitsOnlyAfterFailures(script: nat -> Outcome, calls: seq<Call>, r: Result<Unit, SubmitError>, j: nat)
    requires Outcomes(script, calls, r)
    requires j < |calls| && calls[j] == Submit
    ensures j in {0, 2, 3} && forall i | 0 <= i < j :: !Replied(script, i)
  {
    if !Abandoned(script, calls, r) {
      var p: nat, k: nat :| Answered(script, calls, r, p, k);
      assert j <= p;
    }
  }

  // The attempt gives up by timeout exactly when some call gets an answer that neither
  // rejects nor validates and the 30 polls after it report no validation.
  lemma TimeoutIff(script: nat -> Outcome, calls: seq<Call>, r: Result<Unit, SubmitError>)
    requires Outcomes(script, calls, r)
    ensures r == Err(Timeout) <==>
      exists p: nat :: FirstReplyAt(script, p)
        && !(PRELUDE[p] == Submit && Rejects(script(p).engineResult, p == 0))
        && !(PRELUDE[p] == Lookup && script(p).validated)
        && forall i | p < i <= p + 30 :: !Validated(script, i)
  {
    if Abandoned(script, calls, r) {
      forall p: nat | p < |PRELUDE| ensures !FirstReplyAt(script, p) {
        assert !Replied(script, p);
      }
    } else {
      var p: nat, k: nat :| Answered(script, calls, r, p, k);
      forall q: nat | FirstReplyAt(script, q) ensures q == p {
        assert Replied(script, p) && Replied(script, q);
      }
    }
  }

  predicate CodeOf(code: string, class_: string)
    requires |class_| == 3
  {
    |code| >= 3 && code[0] == class_[0] && code[1] == class_[1] && code[2] == class_[2]
  }

  // Which replies to a submission end the attempt: malformed transactions always, other
  // failures only at the first submission and only if the sequence is not past.
  lemma RejectsIff(code: string, first: bool)
    ensures Rejects(code, first) <==>
      CodeOf(code, "tem") || (first && CodeOf(code, "tef") && code != "tefPAST_SEQ")
  {
    if |code| >= 3 {
      assert code[..3] == [code[0], code[1], code[2]];
      assert "tem" == ['t', 'e', 'm'] && "tef" == ['t', 'e', 'f'];
    }
  }

  // The attempt gives up without a reply exactly when none of the three submissions and
  // neither of the lookups between and after them settles anything: the first four
  // calls fail, and the fifth reports no successful validation.
  lemma SubmitFailedIff(script: nat -> Outcome, calls: seq<Call>, r: Result<Unit, SubmitError>)
    requires Outcomes(script, calls, r)
    ensures r == Err(SubmitFailed) <==>
      && script(0).Failed? && script(1).Failed? && script(2).Failed? && script(3).Failed?
      && !(script(4).Reply? && script(4).validated && script(4).txResult == "tesSUCCESS")
  {
    if Abandoned(script, calls, r) {
      assert !Replied(script, 0) && !Replied(script, 1) && !Replied(script, 2) && !Replied(script, 3);
    } else {
      var p: nat, k: nat :| Answered(script, calls, r, p, k);
      assert Replied(script, p);
    }
  }

  // A failure code is reported exactly when it is the code of a reply that rejects the
  // submission, or of a validated transaction other than tesSUCCESS that was looked up
  // after some call had been answered.
  lemma TransactionFailedIff(script: nat -> Outcome, calls: seq<Call>, r: Result<Unit, SubmitError>, code: string)
    requires Outcomes(script, calls, r)
    ensures r == Err(TransactionFailed(code)) <==>
      exists p: nat :: FirstReplyAt(script, p) && EndsWith(script, calls, p, code)
  {
    if !Abandoned(script, calls, r) {
      var p: nat, k: nat :| Answered(script, calls, r, p, k);
      assert Replied(script, p);
      forall q: nat | FirstReplyAt(script, q) ensures q == p {
        assert Replied(script, q);
      }
      if r == Err(TransactionFailed(code)) {
        assert EndsWith(script, calls, p, code);
      }
    } else {
      forall q: nat | q < |PRELUDE| ensures !FirstReplyAt(script, q) {
        assert !Replied(script, q);
      }
    }
  }

  // The last call is either the rejected submission p or a lookup that validates.
  ghost predicate EndsWith(script: nat -> Outcome, calls: seq<Call>, p: nat, code: string)
    requires p < |PRELUDE| && Replied(script, p)
  {
    if calls == [] then false else
      var last := |calls| - 1;
      if PRELUDE[p] == Submit && Rejects(script(p).engineResult, p == 0) then script(p).engineResult == code
      else calls[last] == Lookup && Validated(script, last) && script(last).txResult == code && code != "tesSUCCESS"
  }
}
