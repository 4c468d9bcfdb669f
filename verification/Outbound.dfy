/** Intent before the network, outcome after it: the recorded send, and every interleaving of senders
    that may stop after any step. */
module Outbound {
  import opened Common
  import opened Canonical
  import opened HashChain
  import opened Ledger
  import opened SignedPath
  import opened Verifier
  import Client

  const INTENT: Text := Lit("technocore.write.intent")
  const RESULT: Text := Lit("technocore.write.result")
  const FAILED: Text := Lit("technocore.write.failed")

  predicate IsIntent(r: Row) {
    r.activityType == INTENT
  }

  predicate IsOutcome(r: Row) {
    r.activityType == RESULT || r.activityType == FAILED
  }

  lemma KindsDiffer(r: Row)
    ensures INTENT != RESULT && INTENT != FAILED && RESULT != FAILED
    ensures !(IsIntent(r) && IsOutcome(r))
  {
    assert INTENT[17] == 'i' as int && RESULT[17] == 'r' as int && FAILED[17] == 'f' as int;
  }

  // ----- dangling intents -------------------------------------------------------------------------

  predicate SettledBy(rows: seq<Row>, id: Text, o: nat)
    requires o < |rows|
  {
    IsOutcome(rows[o]) && rows[o].refActivityId == Some(id)
  }

  predicate Settled(rows: seq<Row>, id: Text) {
    exists o :: 0 <= o < |rows| && SettledBy(rows, id, o)
  }

  /** The rows of the reporting query among the first n, in chain order. */
  function DanglingUpTo(rows: seq<Row>, n: nat): seq<Text>
    requires n <= |rows|
  {
    if n == 0 then []
    else
      var r := rows[n - 1];
      DanglingUpTo(rows, n - 1) +
      if IsIntent(r) && !Settled(rows, r.activityId) then [r.activityId] else []
  }

  /** `dangling_intents`: intent rows without a linked result or failure, ordered by chain index. */
  function DanglingIntents(rows: seq<Row>): seq<Text> {
    DanglingUpTo(rows, |rows|)
  }

  // ----- one recorded send ------------------------------------------------------------------------

  datatype Recorded =
    | NoIntent                                 // the intent row was refused, nothing was sent
    | Unsettled(intent: Row)                   // an exception that is not caught
    | OutcomeRefused(intent: Row)              // the outcome row was refused
    | Completed(intent: Row, outcome: Row)

  function IntentActivity(w: SignedWrite, sha: Sha, now: Text, taskId: Option<Text>, meta: Text): Activity {
    Activity(w.did, INTENT, now, taskId, None, Some(w.room), None, Some(w.nonce), Some(sha(w.payload)),
             Some(w.signature), None, None, None, None, NO_COST, Some(meta))
  }

  function OutcomeActivity(
      w: SignedWrite, intent: Text, out: Client.Outcome, now: Text, taskId: Option<Text>, resultHash: Option<Text>,
      failure: Text): Activity
  {
    var kind := if out.Response? then RESULT else FAILED;
    var seqno := if out.Response? && out.body.seqno.Some? then Some(PyInt(out.body.seqno.value.Number())) else None;
    Activity(w.did, kind, now, taskId, Some(intent), Some(w.room), seqno, Some(w.nonce), None,
             Some(w.signature), if out.Response? then resultHash else None, None, None, None, NO_COST,
             if out.Response? then None else Some(failure))
  }

  /** What the intent row of a write says: who signs what, for which room, under which nonce. */
  lemma IntentColumns(h: Hashing, rows: seq<Row>, w: SignedWrite, sha: Sha, now: Text, taskId: Option<Text>, meta: Text,
                      env: Surroundings)
    ensures var r := NewRow(h, rows, IntentActivity(w, sha, now, taskId, meta), env);
            && r.activityType == Lit("technocore.write.intent") && r.agentDid == w.did && r.tcRoom == Some(w.room)
            && r.tcNonce == Some(w.nonce.Number()) && r.signature == Some(w.signature)
            && r.signedPayloadHash == Some(sha(w.payload)) && r.metaJson == Some(meta) && r.taskId == taskId
            && r.occurredAt == now && r.refActivityId == None && r.tcSeq == None && r.resultHash == None
            && r.providerId == None && r.model == None && r.costAmount == None && r.costUnit == Lit("NONE")
  {
  }

  /** What the outcome row says: the same write, its intent, and of a reply the seq, if it is an int, and the
      hash; of a failure neither, but what went wrong. */
  lemma OutcomeColumns(h: Hashing, rows: seq<Row>, w: SignedWrite, intent: Text, out: Client.Outcome, now: Text,
                       taskId: Option<Text>, resultHash: Option<Text>, failure: Text, env: Surroundings)
    ensures var r := NewRow(h, rows, OutcomeActivity(w, intent, out, now, taskId, resultHash, failure), env);
            && r.agentDid == w.did && r.refActivityId == Some(intent) && r.tcRoom == Some(w.room)
            && r.tcNonce == Some(w.nonce.Number()) && r.signature == Some(w.signature)
            && r.taskId == taskId && r.occurredAt == now && r.signedPayloadHash == None
            && r.providerId == None && r.model == None && r.costAmount == None && r.costUnit == Lit("NONE")
            && (if out.Response? then
                  && r.activityType == Lit("technocore.write.result")
                  && r.resultHash == resultHash && r.metaJson == None
                  && r.tcSeq == if out.body.seqno.Some? then Some(out.body.seqno.value.Number()) else None
                else
                  && r.activityType == Lit("technocore.write.failed") && r.resultHash == None && r.tcSeq == None
                  && r.metaJson == Some(failure))
  {
  }

  /** What one send may draw from its surroundings: clocks, ids, the reply, whether a reply can be hashed,
      the serialised metadata. */
  datatype SendEnv = SendEnv(
    intentEnv: Surroundings, outcomeEnv: Surroundings, send: Client.Env, now: Text, meta: Text,
    hashes: bool, resultHash: Option<Text>, failure: Text)

  /** `record_intent`. */
  method RecordIntent(ledger: Ledger, w: SignedWrite, sha: Sha, taskId: Option<Text>, env: SendEnv)
    returns (row: Option<Row>)
    requires ledger.Valid()
    modifies ledger
    ensures ledger.Valid() && ledger.clean == (old(ledger.clean) && (row.None? || w.nonce.PyInt?))
    ensures ledger.rows == old(ledger.rows) + if row.Some? then [row.value] else []
    ensures var a := IntentActivity(w, sha, env.now, taskId, env.meta);
            && (row.None? <==> Refusal(ledger.hashing, old(ledger.rows), a, env.intentEnv).Some?)
            && (row.Some? ==> row.value == NewRow(ledger.hashing, old(ledger.rows), a, env.intentEnv))
    ensures row.Some? ==> IsIntent(row.value) && row.value.tcNonce == Some(w.nonce.Number())
  {
    var r := ledger.Append(IntentActivity(w, sha, env.now, taskId, env.meta), env.intentEnv);
    return if r.Refused? then None else Some(r.row);
  }

  /** The row that settles an intent. */
  method RecordOutcome(
      ledger: Ledger, w: SignedWrite, intent: Text, out: Client.Outcome, taskId: Option<Text>, env: SendEnv)
    returns (row: Option<Row>)
    requires ledger.Valid()
    modifies ledger
    ensures ledger.Valid() && ledger.clean == (old(ledger.clean) && (row.None? || w.nonce.PyInt?))
    ensures ledger.rows == old(ledger.rows) + if row.Some? then [row.value] else []
    ensures var a := OutcomeActivity(w, intent, out, env.now, taskId, env.resultHash, env.failure);
            && (row.None? <==> Refusal(ledger.hashing, old(ledger.rows), a, env.outcomeEnv).Some?)
            && (row.Some? ==> row.value == NewRow(ledger.hashing, old(ledger.rows), a, env.outcomeEnv))
    ensures row.Some? ==>
      && IsOutcome(row.value) && row.value.refActivityId == Some(intent)
      && (row.value.activityType == RESULT <==> out.Response?)
  {
    var a := OutcomeActivity(w, intent, out, env.now, taskId, env.resultHash, env.failure);
    var r := ledger.Append(a, env.outcomeEnv);
    if r.Refused? {
      return None;
    }
    KindsDiffer(r.row);
    return Some(r.row);
  }

  /** `send_and_record`: the intent row, then at most one request that leaves with the intent on record,
      then one row that settles the intent, unless the send ends in neither a reply nor a TechnocoreError,
      hashing the reply raises, or that row is refused. */
  method SendAndRecord(
      u: Unicode, check: KeyCheck, sha: Sha, host: Text, net: Client.Network, ledger: Ledger, w: SignedWrite,
      taskId: Option<Text>, env: SendEnv)
    returns (res: Recorded)
    requires ledger.Valid()
    modifies net, ledger
    ensures ledger.Valid() && ledger.clean == (old(ledger.clean) && (res.NoIntent? || w.nonce.PyInt?))
    ensures var a := IntentActivity(w, sha, env.now, taskId, env.meta);
            && (res.NoIntent? <==> Refusal(ledger.hashing, old(ledger.rows), a, env.intentEnv).Some?)
            && (!res.NoIntent? ==> res.intent == NewRow(ledger.hashing, old(ledger.rows), a, env.intentEnv))
    ensures res.NoIntent? ==> ledger.rows == old(ledger.rows) && net.log == old(net.log)
    ensures !res.NoIntent? ==>
      var verifies := SelfCheck(u, check, w);
      && net.log == old(net.log) +
           (if Client.Requests(sha, host, w, verifies, None, env.send)
            then [Client.HttpRequest(host, w, old(ledger.rows) + [res.intent])] else [])
      && var out := Client.SendOutcome(sha, host, w, verifies, None, env.send);
         var a := OutcomeActivity(w, res.intent.activityId, out, env.now, taskId, env.resultHash, env.failure);
         var before := old(ledger.rows) + [res.intent];
         var escapes := Client.Escapes(sha, host, w, verifies, env.send) || (out.Response? && !env.hashes);
         && (res.Unsettled? <==> escapes)
         && (res.Completed? <==> !escapes && Refusal(ledger.hashing, before, a, env.outcomeEnv).None?)
         && (res.Completed? ==> res.outcome == NewRow(ledger.hashing, before, a, env.outcomeEnv))
         && ledger.rows == before + if res.Completed? then [res.outcome] else []
    ensures !res.NoIntent? ==> IsIntent(res.intent) && res.intent.tcNonce == Some(w.nonce.Number())
    ensures res.Completed? ==>
      && IsOutcome(res.outcome) && res.outcome.refActivityId == Some(res.intent.activityId)
      && (res.outcome.activityType == RESULT <==>
            |net.log| > |old(net.log)| && env.send.reply.HttpStatus? && env.send.reply.status < 400)
  {
    var intent := RecordIntent(ledger, w, sha, taskId, env);
    if intent.None? {
      return NoIntent;
    }
    var out := Client.SendSignedMessage(u, check, sha, host, net, w, null, env.send, ledger.rows);
    Client.EscapesExactly(sha, host, w, SelfCheck(u, check, w), env.send);
    if (!out.Response? && !out.Failed?) || (out.Response? && !env.hashes) {
      return Unsettled(intent.value);
    }
    var outcome := RecordOutcome(ledger, w, intent.value.activityId, out, taskId, env);
    return if outcome.None? then OutcomeRefused(intent.value) else Completed(intent.value, outcome.value);
  }
}

/** Senders interleaved step by step over one ledger. An append is one atomic step, as LedgerProtocol
    proves of committed transactions; any sender may stop for good after any step. */
module OutboundProtocol {
  import opened Common
  import opened HashChain
  import opened Ledger
  import opened Outbound

  datatype Stage =
    | Intended
    | Requested
    | Answered(delivered: bool)
    | Recorded(outcome: nat)
    | Stopped

  /** A sender whose intent is at this row of the table. */
  datatype Sender = Sender(intent: nat, stage: Stage)

  /** An HTTP request, by whom, and how many rows the ledger held when it left. */
  datatype Request = Request(sender: nat, rowsThen: nat)

  datatype State = State(rows: seq<Row>, senders: seq<Sender>, requests: seq<Request>)

  datatype Step =
    | RecordIntent(a: Activity, env: Surroundings)
    | Http(p: nat)
    | Settle(p: nat, delivered: bool)       // a reply, or TechnocoreError before or after the request
    | RecordOutcome(p: nat, a: Activity, env: Surroundings)
    | OtherAppend(a: Activity, env: Surroundings)
    | Stop(p: nat)                          // crash, RateLimitExceeded, any other exception

  predicate Init(s: State) {
    s == State([], [], [])
  }

  predicate At(s: State, p: nat, stage: Stage) {
    p < |s.senders| && s.senders[p].stage == stage
  }

  predicate Enabled(h: Hashing, s: State, step: Step) {
    match step
    case RecordIntent(a, env) => a.activityType == INTENT && Refusal(h, s.rows, a, env).None?
    case Http(p) => At(s, p, Intended)
    case Settle(p, delivered) => At(s, p, Requested) || (At(s, p, Intended) && !delivered)
    case RecordOutcome(p, a, env) =>
      && p < |s.senders| && s.senders[p].stage.Answered? && s.senders[p].intent < |s.rows|
      && a.activityType == (if s.senders[p].stage.delivered then RESULT else FAILED)
      && a.refActivityId == Some(s.rows[s.senders[p].intent].activityId)
      && Refusal(h, s.rows, a, env).None?
    case OtherAppend(a, env) =>
      && a.activityType != INTENT && a.activityType != RESULT && a.activityType != FAILED
      && Refusal(h, s.rows, a, env).None?
    case Stop(p) => p < |s.senders| && !s.senders[p].stage.Recorded?
  }

  function Move(s: State, p: nat, stage: Stage): State
    requires p < |s.senders|
  {
    s.(senders := s.senders[p := s.senders[p].(stage := stage)])
  }

  function After(h: Hashing, s: State, step: Step): State
    requires Enabled(h, s, step)
  {
    match step
    case RecordIntent(a, env) =>
      s.(rows := s.rows + [NewRow(h, s.rows, a, env)], senders := s.senders + [Sender(|s.rows|, Intended)])
    case Http(p) => Move(s, p, Requested).(requests := s.requests + [Request(p, |s.rows|)])
    case Settle(p, delivered) => Move(s, p, Answered(delivered))
    case RecordOutcome(p, a, env) =>
      Move(s, p, Recorded(|s.rows|)).(rows := s.rows + [NewRow(h, s.rows, a, env)])
    case OtherAppend(a, env) => s.(rows := s.rows + [NewRow(h, s.rows, a, env)])
    case Stop(p) => Move(s, p, Stopped)
  }

  function Run(h: Hashing, s: State, steps: seq<Step>): Option<State>
    decreases |steps|
  {
    if steps == [] then Some(s)
    else if !Enabled(h, s, steps[0]) then None
    else Run(h, After(h, s, steps[0]), steps[1..])
  }

  // ----- the invariant ----------------------------------------------------------------------------

  predicate SenderOk(s: State, p: nat)
    requires p < |s.senders|
  {
    var d := s.senders[p];
    && d.intent < |s.rows| && IsIntent(s.rows[d.intent])
    && (d.stage.Recorded? ==>
          d.stage.outcome < |s.rows| && SettledBy(s.rows, s.rows[d.intent].activityId, d.stage.outcome))
  }

  /** Senders and intent rows are in bijection. */
  ghost predicate IntentInv(s: State) {
    && (forall p: nat :: p < |s.senders| ==> SenderOk(s, p))
    && (forall p: nat, q: nat :: p < q < |s.senders| ==> s.senders[p].intent != s.senders[q].intent)
    && (forall i: nat :: i < |s.rows| && IsIntent(s.rows[i]) ==> HasSender(s, i))
  }

  ghost predicate HasSender(s: State, i: nat) {
    exists p: nat :: p < |s.senders| && s.senders[p].intent == i
  }

  /** Every outcome row was appended by the sender it settles. */
  ghost predicate OutcomeInv(s: State) {
    forall o: nat :: o < |s.rows| && IsOutcome(s.rows[o]) ==> HasRecorder(s, o)
  }

  ghost predicate HasRecorder(s: State, o: nat) {
    exists p: nat :: At(s, p, Recorded(o))
  }

  ghost predicate RequestInv(s: State) {
    && (forall k :: 0 <= k < |s.requests| ==>
          var r := s.requests[k];
          && r.sender < |s.senders| && s.senders[r.sender].intent < r.rowsThen <= |s.rows|
          && !s.senders[r.sender].stage.Intended?)
    && (forall k, l :: 0 <= k < l < |s.requests| ==> s.requests[k].sender != s.requests[l].sender)
  }

  ghost predicate Inv(h: Hashing, s: State) {
    Linked(s.rows) && IntentInv(s) && OutcomeInv(s) && RequestInv(s)
  }

  /** Steps only append rows and senders, and never change whose intent a row is. */
  lemma StepGrows(h: Hashing, s: State, step: Step)
    requires Enabled(h, s, step)
    ensures var t := After(h, s, step);
            && s.rows <= t.rows && |t.rows| <= |s.rows| + 1
            && |s.senders| <= |t.senders|
            && forall p: nat :: p < |s.senders| ==> t.senders[p].intent == s.senders[p].intent
  {
  }

  lemma StepKeepsSenders(h: Hashing, s: State, step: Step, p: nat)
    requires IntentInv(s) && Enabled(h, s, step) && p < |After(h, s, step).senders|
    ensures SenderOk(After(h, s, step), p)
    ensures p >= |s.senders| ==> After(h, s, step).senders[p].intent == |s.rows|
  {
    var t := After(h, s, step);
    StepGrows(h, s, step);
    if p < |s.senders| {
      assert SenderOk(s, p);
      assert t.rows[s.senders[p].intent] == s.rows[s.senders[p].intent];
    }
  }

  lemma StepKeepsIntents(h: Hashing, s: State, step: Step)
    requires IntentInv(s) && Enabled(h, s, step)
    ensures IntentInv(After(h, s, step))
  {
    var t := After(h, s, step);
    StepGrows(h, s, step);
    forall p: nat | p < |t.senders| ensures SenderOk(t, p) {
      StepKeepsSenders(h, s, step, p);
    }
    forall p: nat, q: nat | p < q < |t.senders| ensures t.senders[p].intent != t.senders[q].intent {
      StepKeepsSenders(h, s, step, q);
      assert SenderOk(s, p);
    }
    forall i: nat | i < |t.rows| && IsIntent(t.rows[i]) ensures HasSender(t, i) {
      StepKeepsHasSender(h, s, step, i);
    }
  }

  lemma StepKeepsHasSender(h: Hashing, s: State, step: Step, i: nat)
    requires IntentInv(s) && Enabled(h, s, step)
    requires i < |After(h, s, step).rows| && IsIntent(After(h, s, step).rows[i])
    ensures HasSender(After(h, s, step), i)
  {
    var t := After(h, s, step);
    StepGrows(h, s, step);
    if i < |s.rows| {
      assert HasSender(s, i);
      var p: nat :| p < |s.senders| && s.senders[p].intent == i;
      assert t.senders[p].intent == i;
    } else {
      KindsDiffer(t.rows[i]);
      assert step.RecordIntent?;
      assert t.senders[|s.senders|].intent == i;
    }
  }

  lemma StepKeepsOutcomes(h: Hashing, s: State, step: Step)
    requires OutcomeInv(s) && Enabled(h, s, step)
    ensures OutcomeInv(After(h, s, step))
  {
    var t := After(h, s, step);
    forall o: nat | o < |t.rows| && IsOutcome(t.rows[o]) ensures HasRecorder(t, o) {
      if o < |s.rows| {
        assert t.rows[o] == s.rows[o] && HasRecorder(s, o);
        var p: nat :| At(s, p, Recorded(o));
        assert At(t, p, Recorded(o));
      } else {
        KindsDiffer(t.rows[o]);
        assert step.RecordOutcome?;
        assert At(t, step.p, Recorded(o));
      }
    }
  }

  lemma StepKeepsRequests(h: Hashing, s: State, step: Step)
    requires IntentInv(s) && RequestInv(s) && Enabled(h, s, step)
    ensures RequestInv(After(h, s, step))
  {
    assert step.Http? ==> SenderOk(s, step.p);
  }

  lemma StepKeepsInv(h: Hashing, s: State, step: Step)
    requires Inv(h, s) && Enabled(h, s, step)
    ensures Inv(h, After(h, s, step))
  {
    match step {
      case RecordIntent(a, env) => AppendKeepsLinked(h, s.rows, a, env);
      case RecordOutcome(_, a, env) => AppendKeepsLinked(h, s.rows, a, env);
      case OtherAppend(a, env) => AppendKeepsLinked(h, s.rows, a, env);
      case _ =>
    }
    StepKeepsIntents(h, s, step);
    StepKeepsOutcomes(h, s, step);
    StepKeepsRequests(h, s, step);
  }

  lemma {:induction false} RunKeepsInv(h: Hashing, s: State, steps: seq<Step>)
    requires Inv(h, s) && Run(h, s, steps).Some?
    ensures Inv(h, Run(h, s, steps).value)
    decreases |steps|
  {
    if steps != [] {
      StepKeepsInv(h, s, steps[0]);
      RunKeepsInv(h, After(h, s, steps[0]), steps[1..]);
    }
  }

  ghost predicate Reachable(h: Hashing, s: State) {
    exists init, steps :: Init(init) && Run(h, init, steps) == Some(s)
  }

  lemma ReachableInv(h: Hashing, s: State)
    requires Reachable(h, s)
    ensures Inv(h, s)
  {
    var init, steps :| Init(init) && Run(h, init, steps) == Some(s);
    RunKeepsInv(h, init, steps);
  }

  // ----- what holds of every interleaving ---------------------------------------------------------

  /** Every HTTP request left after its sender's intent row was in the ledger, and each intent sends at
      most one. */
  lemma IntentBeforeRequest(h: Hashing, s: State)
    requires Reachable(h, s)
    ensures forall k :: 0 <= k < |s.requests| ==>
              var r := s.requests[k];
              && r.sender < |s.senders| && s.senders[r.sender].intent < r.rowsThen <= |s.rows|
              && IsIntent(s.rows[s.senders[r.sender].intent])
    ensures forall k, l :: 0 <= k < |s.requests| && 0 <= l < |s.requests| && k != l ==>
              s.requests[k].sender < |s.senders| && s.requests[l].sender < |s.senders| &&
              s.senders[s.requests[k].sender].intent != s.senders[s.requests[l].sender].intent
  {
    ReachableInv(h, s);
    forall k | 0 <= k < |s.requests| ensures SenderOk(s, s.requests[k].sender) {
    }
  }

  lemma SameIdSameRow(h: Hashing, s: State, i: nat, j: nat)
    requires Linked(s.rows) && i < |s.rows| && j < |s.rows|
    requires s.rows[i].activityId == s.rows[j].activityId
    ensures i == j
  {
  }

  /** An outcome row settles the intent of the sender that appended it, and no other. */
  lemma OutcomeOf(h: Hashing, s: State, i: nat, o: nat) returns (p: nat)
    requires Inv(h, s) && i < |s.rows| && o < |s.rows|
    requires SettledBy(s.rows, s.rows[i].activityId, o)
    ensures At(s, p, Recorded(o)) && s.senders[p].intent == i
  {
    assert HasRecorder(s, o);
    p :| At(s, p, Recorded(o));
    assert SenderOk(s, p);
    SameIdSameRow(h, s, s.senders[p].intent, i);
  }

  /** Each intent has at most one outcome row. */
  lemma OneOutcomePerIntent(h: Hashing, s: State, i: nat, o: nat, o': nat)
    requires Reachable(h, s)
    requires i < |s.rows| && o < |s.rows| && o' < |s.rows|
    requires SettledBy(s.rows, s.rows[i].activityId, o) && SettledBy(s.rows, s.rows[i].activityId, o')
    ensures o == o'
  {
    ReachableInv(h, s);
    var p := OutcomeOf(h, s, i, o);
    var q := OutcomeOf(h, s, i, o');
    assert p == q;
  }

  /** A sender has appended its outcome exactly when its intent is settled. */
  lemma SettledExactly(h: Hashing, s: State, p: nat)
    requires Inv(h, s) && p < |s.senders|
    ensures SenderOk(s, p)
    ensures Settled(s.rows, s.rows[s.senders[p].intent].activityId) <==> s.senders[p].stage.Recorded?
  {
    assert SenderOk(s, p);
    var i := s.senders[p].intent;
    if Settled(s.rows, s.rows[i].activityId) {
      var o: nat :| o < |s.rows| && SettledBy(s.rows, s.rows[i].activityId, o);
      var q := OutcomeOf(h, s, i, o);
      assert p == q;
    }
    if s.senders[p].stage.Recorded? {
      assert SettledBy(s.rows, s.rows[i].activityId, s.senders[p].stage.outcome);
    }
  }

  /** The intent rows, in chain order, whose sender has not appended an outcome. */
  ghost function Unfinished(s: State, n: nat): seq<Text>
    requires n <= |s.rows|
  {
    if n == 0 then []
    else
      Unfinished(s, n - 1) + if HasUnfinished(s, n - 1) then [s.rows[n - 1].activityId] else []
  }

  ghost predicate HasUnfinished(s: State, i: nat) {
    exists p: nat :: p < |s.senders| && s.senders[p].intent == i && !s.senders[p].stage.Recorded?
  }

  /** A row is a dangling intent exactly when it belongs to a sender without an outcome. */
  lemma DanglingRow(h: Hashing, s: State, i: nat)
    requires Inv(h, s) && i < |s.rows|
    ensures IsIntent(s.rows[i]) && !Settled(s.rows, s.rows[i].activityId) <==> HasUnfinished(s, i)
  {
    if IsIntent(s.rows[i]) {
      assert HasSender(s, i);
      var p: nat :| p < |s.senders| && s.senders[p].intent == i;
      SettledExactly(h, s, p);
    }
    if HasUnfinished(s, i) {
      var q: nat :| q < |s.senders| && s.senders[q].intent == i && !s.senders[q].stage.Recorded?;
      SettledExactly(h, s, q);
    }
  }

  lemma {:induction false} DanglingAgrees(h: Hashing, s: State, n: nat)
    requires Inv(h, s) && n <= |s.rows|
    ensures DanglingUpTo(s.rows, n) == Unfinished(s, n)
  {
    if n > 0 {
      DanglingAgrees(h, s, n - 1);
      DanglingRow(h, s, n - 1);
    }
  }

  /** `dangling_intents` lists, in chain order, exactly the intents whose sender has not appended an
      outcome: still on its way, stopped, or refused. */
  lemma DanglingIntentsExact(h: Hashing, s: State)
    requires Reachable(h, s)
    ensures DanglingIntents(s.rows) == Unfinished(s, |s.rows|)
  {
    ReachableInv(h, s);
    DanglingAgrees(h, s, |s.rows|);
  }
}
