/** The first public announcement: reserve, sign, verify, record four linked rows, send at most once. */
module Announcement {
  import opened Common
  import opened Canonical
  import opened HashChain
  import opened Ledger
  import opened SignedPath
  import opened Verifier
  import Client
  import Nonce
  import Payload
  import Utf8

  const PREPARE: Text := Lit("technocore_message_prepare_intent")
  const SIGNED: Text := Lit("technocore_message_signed_local")
  const VERIFIED: Text := Lit("technocore_message_verified_local")
  const BLOCKED: Text := Lit("technocore_message_publish_blocked")
  const PUBLISH_RESULT: Text := Lit("technocore_message_publish_result")

  /** The announcement the flow was written for. */
  datatype Prepared = Prepared(room: Text, text: Text, sha256: Text)

  datatype Proof = Proof(
    did: Text, room: Text, nonce: int, originalText: Text, canonicalText: Text, canonicalTextHash: Text,
    payloadHash: Text, signature: Text, verified: bool)

  /** `build_local_announcement_proof`; None stands for the exceptions it raises. */
  function BuildProof(u: Unicode, s: Signer, sha: Sha, room: Text, nonce: int, text: Text): Option<Proof> {
    var canonical := Sweep(u, text, DEFAULT_SWEEP);
    var payload := Payload.MessagePayload(u, room, nonce, canonical, DEFAULT_SWEEP, true);
    if nonce < 1 || payload.Error? || !Utf8.Encodable(text) || !Utf8.Encodable(canonical) then None
    else
      var signature := s.sign(payload.value);
      var answer := VerifyMessage(u, s.check, s.did, signature, room, nonce, canonical);
      if answer.Raises? then None
      else
        Some(Proof(s.did, room, nonce, text, canonical, sha(Utf8.Encode(canonical)), sha(payload.value), signature,
                   answer.Yes?))
  }

  /** `verify_announcement_proof`: the check again, on what the proof retains. */
  function Recheck(u: Unicode, check: KeyCheck, p: Proof): Answer {
    VerifyMessage(u, check, p.did, p.signature, p.room, p.nonce, p.canonicalText)
  }

  /** The proof says it is verified and checks again. */
  predicate Stands(u: Unicode, check: KeyCheck, p: Proof) {
    p.verified && Recheck(u, check, p).Yes?
  }

  /** Clocks, ids and serialised metadata for the rows a run appends, and what decides its send. */
  datatype Env = Env(
    rows: seq<Surroundings>, metas: seq<Text>, now: Text, faults: Nonce.Faults, send: Client.Env,
    responseHash: Option<Text>)        // None: the reply holds a surrogate or a NaN and cannot be hashed

  predicate EnoughEnv(env: Env) {
    |env.rows| == 5 && |env.metas| == 5
  }

  function StageActivity(
      p: Proof, kind: Text, ref: Option<Text>, now: Text, taskId: Option<Text>, signature: Option<Text>,
      resultHash: Option<Text>, seqno: Option<PyInt>, meta: Text): Activity
  {
    Activity(p.did, kind, now, taskId, ref, Some(p.room), seqno, Some(PyInt(p.nonce)), Some(p.payloadHash), signature,
             resultHash, None, None, None, NO_COST, Some(meta))
  }

  /** The row is about the proof: its author, room, nonce and payload hash; and it shows this signature and
      this result hash, and no cost. */
  predicate Stage(
      p: Proof, r: Row, kind: Text, ref: Option<Text>, signature: Option<Text>, resultHash: Option<Text>)
  {
    && r.activityType == kind && r.refActivityId == ref
    && r.agentDid == p.did && r.tcRoom == Some(p.room) && r.tcNonce == Some(p.nonce)
    && r.signedPayloadHash == Some(p.payloadHash)
    && r.signature == signature && r.resultHash == resultHash
    && r.providerId == None && r.model == None && r.costAmount == None && r.costUnit == NO_COST
  }

  /** Prepared, signed, verified, blocked: four rows about one proof, each referring to the one before. The
      middle two show the signature, the last the hash of the canonical text. */
  predicate FourLinked(p: Proof, rows: seq<Row>) {
    && |rows| == 4
    && Stage(p, rows[0], PREPARE, None, None, None)
    && Stage(p, rows[1], SIGNED, Some(rows[0].activityId), Some(p.signature), None)
    && Stage(p, rows[2], VERIFIED, Some(rows[1].activityId), Some(p.signature), None)
    && Stage(p, rows[3], BLOCKED, Some(rows[2].activityId), None, Some(p.canonicalTextHash))
  }

  /** The four activities of a proof; each refers to the id the one before will be given. */
  function Stages(p: Proof, taskId: Option<Text>, env: Env): (todo: seq<Activity>)
    requires EnoughEnv(env)
    ensures |todo| == 4
  {
    var (sig, hash, e, m, now) := (Some(p.signature), Some(p.canonicalTextHash), env.rows, env.metas, env.now);
    [StageActivity(p, PREPARE, None, now, taskId, None, None, None, m[0]),
     StageActivity(p, SIGNED, Some(e[0].activityId), now, taskId, sig, None, None, m[1]),
     StageActivity(p, VERIFIED, Some(e[1].activityId), now, taskId, sig, None, None, m[2]),
     StageActivity(p, BLOCKED, Some(e[2].activityId), now, taskId, None, hash, None, m[3])]
  }

  /** The appends of a list stopped short, at the first activity the ledger refuses. */
  predicate StoppedShort(
      h: Hashing, before: seq<Row>, after: seq<Row>, todo: seq<Activity>, envs: seq<Surroundings>)
  {
    before <= after &&
    var k := |after| - |before|;
    k < |todo| && k < |envs| && Refusal(h, after, todo[k], envs[k]).Some?
  }

  /** Append one row about the proof. */
  method AppendStage(ledger: Ledger, p: Proof, a: Activity, env: Surroundings) returns (row: Option<Row>)
    requires ledger.Valid() && !HasBool(a)
    requires a.agentDid == p.did && a.tcRoom == Some(p.room) && a.tcNonce == Some(PyInt(p.nonce))
    requires a.signedPayloadHash == Some(p.payloadHash)
    requires a.providerId == None && a.model == None && a.costAmount == None && a.costUnit == NO_COST
    modifies ledger
    ensures ledger.Valid() && ledger.clean == old(ledger.clean)
    ensures row.None? ==> Refusal(ledger.hashing, old(ledger.rows), a, env).Some?
    ensures row.None? ==> ledger.rows == old(ledger.rows)
    ensures row.Some? ==>
      && ledger.rows == old(ledger.rows) + [row.value]
      && row.value.activityId == env.activityId
      && Stage(p, row.value, a.activityType, a.refActivityId, a.signature, a.resultHash)
  {
    var r := ledger.Append(a, env);
    return if r.Refused? then None else Some(r.row);
  }

  lemma OneMore<T>(s: seq<T>, t: seq<T>, x: T)
    ensures s + t + [x] == s + (t + [x])
  {
  }

  lemma StopsAt(
      h: Hashing, before: seq<Row>, after: seq<Row>, p: Proof, taskId: Option<Text>, env: Env, k: nat, a: Activity)
    requires EnoughEnv(env) && k < 4 && |after| == |before| + k && before <= after
    requires a == Stages(p, taskId, env)[k] && Refusal(h, after, a, env.rows[k]).Some?
    ensures StoppedShort(h, before, after, Stages(p, taskId, env), env.rows)
  {
  }

  /** Prepared and signed: the first two rows of a verified proof. */
  method RecordSigned(ledger: Ledger, p: Proof, taskId: Option<Text>, env: Env) returns (records: Option<seq<Row>>)
    requires ledger.Valid() && EnoughEnv(env)
    modifies ledger
    ensures ledger.Valid() && ledger.clean == old(ledger.clean)
    ensures records.None? ==>
      StoppedShort(ledger.hashing, old(ledger.rows), ledger.rows, Stages(p, taskId, env), env.rows)
    ensures records.Some? ==>
      && |records.value| == 2 && ledger.rows == old(ledger.rows) + records.value
      && Stage(p, records.value[0], PREPARE, None, None, None)
      && Stage(p, records.value[1], SIGNED, Some(records.value[0].activityId), Some(p.signature), None)
      && records.value[1].activityId == env.rows[1].activityId
  {
    ghost var start := ledger.rows;
    var e, m, now := env.rows, env.metas, env.now;
    var act := StageActivity(p, PREPARE, None, now, taskId, None, None, None, m[0]);
    var a := AppendStage(ledger, p, act, e[0]);
    if a.None? {
      StopsAt(ledger.hashing, start, ledger.rows, p, taskId, env, 0, act);
      return None;
    }
    act := StageActivity(p, SIGNED, Some(a.value.activityId), now, taskId, Some(p.signature), None, None, m[1]);
    var b := AppendStage(ledger, p, act, e[1]);
    if b.None? {
      StopsAt(ledger.hashing, start, ledger.rows, p, taskId, env, 1, act);
      return None;
    }
    OneMore(start, [a.value], b.value);
    return Some([a.value, b.value]);
  }

  /** All four rows of a proof, in order, as far as the ledger takes them. */
  method RecordFour(ledger: Ledger, p: Proof, taskId: Option<Text>, env: Env) returns (records: Option<seq<Row>>)
    requires ledger.Valid() && EnoughEnv(env)
    modifies ledger
    ensures ledger.Valid() && ledger.clean == old(ledger.clean)
    ensures records.None? ==>
      StoppedShort(ledger.hashing, old(ledger.rows), ledger.rows, Stages(p, taskId, env), env.rows)
    ensures records.Some? ==> FourLinked(p, records.value) && ledger.rows == old(ledger.rows) + records.value
  {
    ghost var start := ledger.rows;
    var e, m, now := env.rows, env.metas, env.now;
    var two := RecordSigned(ledger, p, taskId, env);
    if two.None? {
      return None;
    }
    var signed := two.value[1];
    var act := StageActivity(p, VERIFIED, Some(signed.activityId), now, taskId, Some(p.signature), None, None, m[2]);
    var c := AppendStage(ledger, p, act, e[2]);
    if c.None? {
      StopsAt(ledger.hashing, start, ledger.rows, p, taskId, env, 2, act);
      return None;
    }
    var ref, hash := Some(c.value.activityId), Some(p.canonicalTextHash);
    act := StageActivity(p, BLOCKED, ref, now, taskId, None, hash, None, m[3]);
    var d := AppendStage(ledger, p, act, e[3]);
    if d.None? {
      StopsAt(ledger.hashing, start, ledger.rows, p, taskId, env, 3, act);
      return None;
    }
    OneMore(start, two.value, c.value);
    OneMore(start, two.value + [c.value], d.value);
    return Some(two.value + [c.value] + [d.value]);
  }

  /** `record_local_announcement_proof`: for a proof that is verified and checks again, all four linked rows,
      or fewer when the ledger refuses the next one; for any other proof, nothing. */
  method RecordLocalAnnouncementProof(
      u: Unicode, check: KeyCheck, ledger: Ledger, p: Proof, taskId: Option<Text>, env: Env)
    returns (records: Option<seq<Row>>)
    requires ledger.Valid() && EnoughEnv(env)
    modifies ledger
    ensures ledger.Valid() && ledger.clean == old(ledger.clean)
    ensures !Stands(u, check, p) ==> records.None? && ledger.rows == old(ledger.rows)
    ensures Stands(u, check, p) && records.None? ==>
      StoppedShort(ledger.hashing, old(ledger.rows), ledger.rows, Stages(p, taskId, env), env.rows)
    ensures records.Some? ==> FourLinked(p, records.value) && ledger.rows == old(ledger.rows) + records.value
  {
    if !p.verified || !Recheck(u, check, p).Yes? {
      return None;
    }
    records := RecordFour(ledger, p, taskId, env);
  }

  /** A verified proof and its four rows. */
  datatype Preparation = Preparation(proof: Proof, records: seq<Row>)

  /** The verified proof a run gets to record, if its nonce is granted and the text can be signed. */
  function ProofFor(u: Unicode, s: Signer, sha: Sha, a: Prepared, stored: nat, nonce: Option<int>):
    (p: Option<Proof>)
    ensures p.Some? ==> p.value.verified && p.value.did == s.did && p.value.room == a.room
  {
    if !Nonce.Grantable(s.did, a.room, stored, nonce) then None
    else
      var built := BuildProof(u, s, sha, a.room, Nonce.Chosen(stored, nonce), a.text);
      if built.Some? && built.value.verified then built else None
  }

  /** Reserve and sign, as far as both go. */
  method ReserveAndSign(
      u: Unicode, s: Signer, sha: Sha, a: Prepared, store: Nonce.NonceStore, nonce: Option<int>, faults: Nonce.Faults)
    returns (built: Option<Proof>)
    modifies store`table
    ensures var stored := old(Nonce.Stored(store.table, (s.did, a.room)));
            && store.table == (if faults.Clear() then Nonce.Granted(old(store.table), s.did, a.room, nonce)
                               else old(store.table))
            && (if built.Some? && built.value.verified then built else None) ==
               if faults.Clear() then ProofFor(u, s, sha, a, stored, nonce) else None
  {
    var reserved := Nonce.ReserveAnnouncementNonce(store, s.did, a.room, nonce, faults);
    if !reserved.Got? {
      return None;
    }
    built := BuildProof(u, s, sha, a.room, reserved.nonce, a.text);
  }

  /** `prepare_first_announcement`: reserve, sign, verify and record; nothing is sent. */
  method PrepareFirstAnnouncement(
      u: Unicode, s: Signer, sha: Sha, a: Prepared, ledger: Ledger, store: Nonce.NonceStore,
      nonce: Option<int>, taskId: Option<Text>, env: Env)
    returns (prep: Option<Preparation>)
    requires ledger.Valid() && EnoughEnv(env)
    modifies ledger, store`table
    ensures ledger.Valid() && ledger.clean == old(ledger.clean)
    ensures var stored := old(Nonce.Stored(store.table, (s.did, a.room)));
            var proof := if env.faults.Clear() then ProofFor(u, s, sha, a, stored, nonce) else None;
            && store.table == (if env.faults.Clear() then Nonce.Granted(old(store.table), s.did, a.room, nonce)
                               else old(store.table))
            && (proof.None? ==> prep.None? && ledger.rows == old(ledger.rows))
            && (proof.Some? && prep.None? ==>
                  StoppedShort(ledger.hashing, old(ledger.rows), ledger.rows, Stages(proof.value, taskId, env),
                               env.rows))
            && (prep.Some? ==>
                  && proof == Some(prep.value.proof)
                  && FourLinked(prep.value.proof, prep.value.records)
                  && ledger.rows == old(ledger.rows) + prep.value.records)
  {
    var built := ReserveAndSign(u, s, sha, a, store, nonce, env.faults);
    if built.None? {
      return None;
    }
    var records := RecordLocalAnnouncementProof(u, s.check, ledger, built.value, taskId, env);
    return if records.None? then None else Some(Preparation(built.value, records.value));
  }

  datatype Publish =
    | NotSent        // refused before any request could leave
    | Ambiguous      // TechnocoreError: it may or may not have landed, and is not retried
    | Unexpected     // a reply without ok and an integer seq
    | Published(seqno: PyInt)
    | Interrupted    // another exception while sending, or the result row was refused

  /** The write a proof stands for. */
  function WriteOf(u: Unicode, p: Proof): SignedWrite {
    var payload := Payload.MessagePayload(u, p.room, p.nonce, p.canonicalText, DEFAULT_SWEEP, true);
    SignedWrite(p.did, p.room, PyInt(p.nonce), p.originalText, p.canonicalText, p.signature,
                if payload.Ok? then payload.value else [])
  }

  /** The gate a run opens. */
  function GateFor(host: Text, p: Proof, messageSha256: Text): Client.Gate {
    Client.Gate(Client.Lower(host), p.room, messageSha256, p.nonce, false, false)
  }

  /** The write is checked as the proof is. */
  lemma WriteRechecks(u: Unicode, check: KeyCheck, p: Proof)
    ensures SelfCheck(u, check, WriteOf(u, p)) == Recheck(u, check, p)
  {
  }

  /** The proof is for this message, stands, gives a payload, and a gate can be opened for it. */
  predicate Launches(u: Unicode, s: Signer, host: Text, messageSha256: Text, p: Proof) {
    && p.canonicalTextHash == messageSha256 && Stands(u, s.check, p)
    && Payload.MessagePayload(u, p.room, p.nonce, p.canonicalText, DEFAULT_SWEEP, true).Ok?
    && Payload.ValidRoom(u, p.room) && Payload.ValidNonce(p.nonce)
    && Client.Lower(host) in Client.PUBLIC_HOSTS && Client.HexDigest(messageSha256)
  }

  /** A run goes as far as its send exactly for a proof of this message that says it is verified, is signed by
      the key of its DID over its room, nonce and text, and for which a gate can be made. */
  lemma LaunchesExactly(u: Unicode, s: Signer, host: Text, messageSha256: Text, p: Proof)
    ensures var payload := Payload.MessagePayload(u, p.room, p.nonce, p.canonicalText, DEFAULT_SWEEP, false);
            Launches(u, s, host, messageSha256, p) <==>
              && p.canonicalTextHash == messageSha256 && p.verified
              && payload.Ok? && SignedBy(s.check, p.did, p.signature, payload.value)
              && Payload.MessagePayload(u, p.room, p.nonce, p.canonicalText, DEFAULT_SWEEP, true).Ok?
              && Client.Lower(host) in Client.PUBLIC_HOSTS && Client.HexDigest(messageSha256)
  {
    VerifyMessageAnswers(u, s.check, p.did, p.signature, p.room, p.nonce, p.canonicalText);
  }

  predicate Delivered(o: Client.Outcome) {
    o.Response? && o.body.ok == Some(true) && o.body.seqno.Some?
  }

  /** An exception other than TechnocoreError before the result row: from the send, or from hashing the
      reply. */
  predicate Interrupts(o: Client.Outcome, env: Env) {
    o.Throttled? || o.Raised? || (o.Response? && env.responseHash.None?)
  }

  /** The activity that settles the run. */
  function ResultActivity(p: Proof, blocked: Row, o: Client.Outcome, env: Env): Activity
    requires EnoughEnv(env)
  {
    StageActivity(p, PUBLISH_RESULT, Some(blocked.activityId), env.now, None, Some(p.signature),
                  if o.Response? then env.responseHash else None,
                  if Delivered(o) then o.body.seqno else None, env.metas[4])
  }

  /** What is reported once the result row is in. */
  function Reported(o: Client.Outcome): Publish {
    if Delivered(o) then Published(o.body.seqno.value) else if o.Failed? then Ambiguous else Unexpected
  }

  /** `_record_publish_result`. */
  method RecordPublishResult(ledger: Ledger, p: Proof, blocked: Row, o: Client.Outcome, env: Env)
    returns (record: Option<Row>)
    requires ledger.Valid() && EnoughEnv(env)
    modifies ledger
    ensures ledger.Valid()
    ensures ledger.clean == (old(ledger.clean) && (record.None? || !IsBool(ResultActivity(p, blocked, o, env).tcSeq)))
    ensures ledger.rows == old(ledger.rows) + if record.Some? then [record.value] else []
    ensures var a := ResultActivity(p, blocked, o, env);
            && (record.None? <==> Refusal(ledger.hashing, old(ledger.rows), a, env.rows[4]).Some?)
            && (record.Some? ==>
                  && Stage(p, record.value, PUBLISH_RESULT, Some(blocked.activityId), Some(p.signature), a.resultHash)
                  && record.value.tcSeq == Stored(a.tcSeq))
  {
    var a := ResultActivity(p, blocked, o, env);
    var r := ledger.Append(a, env.rows[4]);
    return if r.Refused? then None else Some(r.row);
  }

  /** The run was published under a seq that is a bool. */
  predicate BoolSeq(out: Publish) {
    out.Published? && out.seqno.PyBool?
  }

  /** What the outcome of a send leads to: one result row and a report, unless the send was throttled,
      raised, or that row is refused. */
  predicate Concludes(
      prep: Preparation, o: Client.Outcome, env: Env, h: Hashing, rows: seq<Row>, out: Publish, record: Option<Row>)
    requires FourLinked(prep.proof, prep.records) && EnoughEnv(env)
  {
    var a := ResultActivity(prep.proof, prep.records[3], o, env);
    match record
    case None => out.Interrupted? && (Interrupts(o, env) || Refusal(h, rows, a, env.rows[4]).Some?)
    case Some(r) =>
      && out == Reported(o) && !Interrupts(o, env)
      && Stage(prep.proof, r, PUBLISH_RESULT, a.refActivityId, a.signature, a.resultHash)
      && r.tcSeq == Stored(a.tcSeq)
  }

  method Conclude(ledger: Ledger, prep: Preparation, o: Client.Outcome, env: Env)
    returns (out: Publish, record: Option<Row>)
    requires ledger.Valid() && EnoughEnv(env) && FourLinked(prep.proof, prep.records)
    modifies ledger
    ensures ledger.Valid() && ledger.clean == (old(ledger.clean) && !BoolSeq(out))
    ensures ledger.rows == old(ledger.rows) + if record.Some? then [record.value] else []
    ensures Concludes(prep, o, env, ledger.hashing, old(ledger.rows), out, record)
  {
    if Interrupts(o, env) {
      return Interrupted, None;
    }
    record := RecordPublishResult(ledger, prep.proof, prep.records[3], o, env);
    out := if record.None? then Interrupted else Reported(o);
  }

  /** How a prepared run ends, from the rows and requests before its send to the requests after it: sent
      exactly when it launches and the guard and the budget let it, and then concluded. */
  predicate Ends(
      launches: bool, sha: Sha, host: Text, w: SignedWrite, g: Client.Gate, prep: Preparation, env: Env,
      h: Hashing, rows: seq<Row>, log: seq<Client.HttpRequest>, after: seq<Client.HttpRequest>,
      out: Publish, record: Option<Row>)
    requires FourLinked(prep.proof, prep.records) && EnoughEnv(env)
  {
    && after == log +
         (if launches && Client.Requests(sha, host, w, Yes, Some(g), env.send)
          then [Client.HttpRequest(host, w, rows)] else [])
    && if launches then
         Concludes(prep, Client.SendOutcome(sha, host, w, Yes, Some(g), env.send), env, h, rows, out, record)
       else out.NotSent? && record.None?
  }

  /** A send that is known to pass its self-check. */
  method SendVerified(
      u: Unicode, check: KeyCheck, sha: Sha, host: Text, net: Client.Network, gate: Client.OneTimePublicWriteGate,
      w: SignedWrite, send: Client.Env, ghost rows: seq<Row>)
    returns (out: Client.Outcome)
    requires SelfCheck(u, check, w).Yes?
    modifies net, gate
    ensures var g := Some(old(gate.AsGate()));
            && net.log == old(net.log) +
                 (if Client.Requests(sha, host, w, Yes, g, send) then [Client.HttpRequest(host, w, rows)] else [])
            && out == Client.SendOutcome(sha, host, w, Yes, g, send)
  {
    out := Client.SendSignedMessage(u, check, sha, host, net, w, gate, send, rows);
  }

  /** From the prepared proof to the recorded outcome: one gate, one send, one result row. */
  method SendPrepared(
      u: Unicode, s: Signer, sha: Sha, ledger: Ledger, host: Text, net: Client.Network, messageSha256: Text,
      prep: Preparation, env: Env)
    returns (out: Publish, record: Option<Row>)
    requires ledger.Valid() && EnoughEnv(env)
    requires FourLinked(prep.proof, prep.records)
    modifies ledger, net
    ensures ledger.Valid() && ledger.clean == (old(ledger.clean) && !BoolSeq(out))
    ensures ledger.rows == old(ledger.rows) + if record.Some? then [record.value] else []
    ensures Ends(Launches(u, s, host, messageSha256, prep.proof), sha, host, WriteOf(u, prep.proof),
                 GateFor(host, prep.proof, messageSha256), prep, env, ledger.hashing, old(ledger.rows), old(net.log),
                 net.log, out, record)
  {
    var p, w := prep.proof, WriteOf(u, prep.proof);
    if p.canonicalTextHash != messageSha256 || !p.verified || !Recheck(u, s.check, p).Yes? {
      return NotSent, None;
    }
    if Payload.MessagePayload(u, p.room, p.nonce, p.canonicalText, DEFAULT_SWEEP, true).Error? {
      return NotSent, None;
    }
    WriteRechecks(u, s.check, p);
    var gate := Client.OneTimePublicWriteGate.Create(u, host, p.room, messageSha256, p.nonce, true);
    if gate == null {
      return NotSent, None;
    }
    var reply := SendVerified(u, s.check, sha, host, net, gate, w, env.send, ledger.rows);
    out, record := Conclude(ledger, prep, reply, env);
  }

  /** A run puts a request on the wire. */
  predicate Sends(u: Unicode, s: Signer, sha: Sha, host: Text, messageSha256: Text, p: Proof, send: Client.Env) {
    && Launches(u, s, host, messageSha256, p)
    && Client.Requests(sha, host, WriteOf(u, p), Yes, Some(GateFor(host, p, messageSha256)), send)
  }

  /** `publish_first_announcement_once`: it prepares only a confirmed run for the announcement it was
      written for; it makes at most one request, with the four rows of the proof already in the ledger;
      and one result row settles the run, referring to the last of the four. */
  method PublishFirstAnnouncementOnce(
      u: Unicode, s: Signer, sha: Sha, a: Prepared, ledger: Ledger, store: Nonce.NonceStore, host: Text,
      net: Client.Network, room: Text, messageSha256: Text, confirm: bool, taskId: Option<Text>, env: Env)
    returns (out: Publish, prep: Option<Preparation>, record: Option<Row>)
    requires ledger.Valid() && EnoughEnv(env)
    modifies ledger, store`table, net
    ensures ledger.Valid() && ledger.clean == (old(ledger.clean) && !BoolSeq(out))
    ensures var stored := old(Nonce.Stored(store.table, (s.did, a.room)));
            var proof := if env.faults.Clear() then ProofFor(u, s, sha, a, stored, None) else None;
            var confirmed := confirm && room == a.room && messageSha256 == a.sha256;
            && (prep.Some? ==>
                  confirmed && proof == Some(prep.value.proof) && FourLinked(prep.value.proof, prep.value.records))
            && (prep.None? ==> out.NotSent? && record.None? && net.log == old(net.log))
            && (prep.None? && confirmed && proof.Some? ==>
                  StoppedShort(ledger.hashing, old(ledger.rows), ledger.rows, Stages(proof.value, taskId, env),
                               env.rows))
            && (!confirmed || proof.None? ==> ledger.rows == old(ledger.rows))
            && store.table == (if confirmed && env.faults.Clear()
                               then Nonce.Granted(old(store.table), s.did, a.room, None) else old(store.table))
    ensures prep.Some? ==>
      var four := old(ledger.rows) + prep.value.records;
      && ledger.rows == four + (if record.Some? then [record.value] else [])
      && Ends(Launches(u, s, host, messageSha256, prep.value.proof), sha, host, WriteOf(u, prep.value.proof),
              GateFor(host, prep.value.proof, messageSha256), prep.value, env, ledger.hashing, four, old(net.log),
              net.log, out, record)
  {
    if !confirm || room != a.room || messageSha256 != a.sha256 {
      return NotSent, None, None;
    }
    prep := PrepareFirstAnnouncement(u, s, sha, a, ledger, store, None, taskId, env);
    if prep.None? {
      return NotSent, None, None;
    }
    out, record := SendPrepared(u, s, sha, ledger, host, net, messageSha256, prep.value, env);
  }

  /** What that says of a run: its request leaves exactly when it sends; a result row is there exactly for the
      three recorded outcomes, refers to the last of the four, and shows the signature and, of a reply, its
      hash. It is published exactly when the reply to that request came under a status below 400 with ok true
      and an int for seq, which is then on record; ambiguous exactly when no request left, it failed in
      transport, or came back with a status of 400 or more; and unexpected exactly after any other reply. */
  lemma RunsEndSettled(
      u: Unicode, s: Signer, sha: Sha, host: Text, messageSha256: Text, prep: Preparation, env: Env,
      h: Hashing, rows: seq<Row>, log: seq<Client.HttpRequest>, after: seq<Client.HttpRequest>,
      out: Publish, record: Option<Row>)
    requires FourLinked(prep.proof, prep.records) && EnoughEnv(env)
    requires Ends(Launches(u, s, host, messageSha256, prep.proof), sha, host, WriteOf(u, prep.proof),
                  GateFor(host, prep.proof, messageSha256), prep, env, h, rows, log, after, out, record)
    ensures after == log || after == log + [Client.HttpRequest(host, WriteOf(u, prep.proof), rows)]
    ensures after != log <==> Sends(u, s, sha, host, messageSha256, prep.proof, env.send)
    ensures record.Some? <==> out.Ambiguous? || out.Unexpected? || out.Published?
    ensures var (reply, left) := (env.send.reply, after != log);
            var replied := record.Some? && left && reply.HttpStatus? && reply.status < 400;
            var delivered := replied && reply.body.ok == Some(true) && reply.body.seqno.Some?;
            && (out.Published? <==> delivered)
            && (out.Published? ==> out.seqno == reply.body.seqno.value)
            && (out.Unexpected? <==> replied && !delivered)
            && (out.Ambiguous? <==>
                  record.Some? && (left ==> reply.TransportError? || (reply.HttpStatus? && reply.status >= 400)))
            && (record.Some? ==>
                  && Stage(prep.proof, record.value, PUBLISH_RESULT, Some(prep.records[3].activityId),
                           Some(prep.proof.signature), if replied then env.responseHash else None)
                  && record.value.tcSeq == if delivered then Some(reply.body.seqno.value.Number()) else None)
  {
    var w, g := WriteOf(u, prep.proof), Some(GateFor(host, prep.proof, messageSha256));
    assert |log + [Client.HttpRequest(host, w, rows)]| == |log| + 1;
    Client.EndsExactly(sha, host, w, Yes, g, env.send);
  }

  /** What a verified proof says: its write carries the swept text and the signature over its payload, and
      its hashes are those of the payload and of the swept text. */
  lemma ProofSigns(u: Unicode, s: Signer, sha: Sha, room: Text, nonce: int, text: Text, p: Proof)
    requires u.Valid() && BuildProof(u, s, sha, room, nonce, text) == Some(p) && p.verified
    ensures var w := WriteOf(u, p);
            && w.did == s.did && w.room == room && w.nonce == PyInt(nonce)
            && w.sweptText == Sweep(u, text, DEFAULT_SWEEP)
            && Payload.MessagePayload(u, room, nonce, text, DEFAULT_SWEEP, false) == Ok(w.payload)
            && w.signature == s.sign(w.payload) && VerifySignature(s.check, w.did, w.signature, w.payload).Yes?
            && p.payloadHash == sha(w.payload) && p.originalText == text
            && Utf8.Encodable(w.sweptText) && p.canonicalTextHash == sha(Utf8.Encode(w.sweptText))
  {
    SweepIdempotent(u, text, DEFAULT_SWEEP);
  }

  /** The one request such a run can make carries exactly the announcement that was asked for, under a
      nonce above the stored one and the signature on record, to a public host. */
  lemma OnlyTheAnnouncementLeaves(
      u: Unicode, s: Signer, sha: Sha, a: Prepared, host: Text, stored: nat, p: Proof, send: Client.Env)
    requires u.Valid() && ProofFor(u, s, sha, a, stored, None) == Some(p)
    requires Sends(u, s, sha, host, a.sha256, p, send)
    ensures host in Client.PUBLIC_HOSTS
    ensures var w := WriteOf(u, p);
            && w.did == s.did && w.room == a.room
            && w.nonce == PyInt(Nonce.Next(stored, 0)) && Nonce.Next(stored, 0) > stored
            && w.sweptText == Sweep(u, a.text, DEFAULT_SWEEP) && Client.TextHash(sha, w) == Some(a.sha256)
            && Payload.MessagePayload(u, a.room, w.nonce.n, a.text, DEFAULT_SWEEP, false) == Ok(w.payload)
            && w.signature == s.sign(w.payload) && VerifySignature(s.check, w.did, w.signature, w.payload).Yes?
  {
    ProofSigns(u, s, sha, a.room, Nonce.Next(stored, 0), a.text, p);
  }
}
