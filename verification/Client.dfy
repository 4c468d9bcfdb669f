/** The guarded send and the one-use gate for public hosts. */
module Client {
  import opened Common
  import opened Canonical
  import opened HashChain
  import opened SignedPath
  import opened Verifier
  import Payload
  import Utf8

  const PUBLIC_HOSTS: seq<Text> := [Lit("technocore.chat"), Lit("www.technocore.chat"), Lit("api.technocore.chat")]

  const LOOPBACK_HOSTS: seq<Text> := [Lit("127.0.0.1"), Lit("localhost"), Lit("::1"), Lit("[::1]"), Lit("0.0.0.0")]

  /** `str.lower()` of an ASCII host name. */
  function Lower(t: Text): (l: Text)
    ensures |l| == |t|
    ensures forall i :: 0 <= i < |t| ==> !('A' as int <= l[i] <= 'Z' as int)
    ensures forall i :: 0 <= i < |t| ==> l[i] == t[i] || ('A' as int <= t[i] <= 'Z' as int && l[i] == t[i] + 32)
  {
    seq(|t|, i requires 0 <= i < |t| => if 'A' as int <= t[i] <= 'Z' as int then t[i] + 32 else t[i])
  }

  predicate HexDigest(t: Text) {
    |t| == 64 && forall i :: 0 <= i < 64 ==> HexValue(t[i]).Some?
  }

  /** Sixty-four digits and letters up to f, of either case. */
  lemma HexDigestsExactly(t: Text)
    ensures HexDigest(t) <==>
              && |t| == 64
              && forall i :: 0 <= i < |t| ==>
                   || '0' as int <= t[i] <= '9' as int || 'a' as int <= t[i] <= 'f' as int
                   || 'A' as int <= t[i] <= 'F' as int
  {
  }

  // ----- one send as a function -------------------------------------------------------------------

  datatype Gate = Gate(host: Text, room: Text, messageSha256: Text, nonce: int, used: bool, closed: bool)

  /** The hash the gate is compared with; None is the UnicodeEncodeError of a lone surrogate. */
  function TextHash(sha: Sha, w: SignedWrite): Option<Text> {
    if Utf8.Encodable(w.sweptText) then Some(sha(Utf8.Encode(w.sweptText))) else None
  }

  /** The write is the one the gate was made for. */
  predicate Matches(sha: Sha, g: Gate, host: Text, w: SignedWrite) {
    && Lower(host) == g.host && w.room == g.room && w.nonce.Number() == g.nonce
    && TextHash(sha, w) == Some(g.messageSha256)
  }

  /** What the surroundings decide about one send. */
  datatype Env = Env(localWritesEnabled: bool, budget: bool, reply: Reply)

  /** What the HTTP client makes of a request handed to it. TransportError is httpx.HTTPError; OtherFailure
      is any other exception, as of a body nested too deep to parse. */
  datatype Reply = TransportError | OtherFailure | HttpStatus(status: nat, body: Body)

  /** `seqno` holds a `seq` that is an int, which a bool is too. */
  datatype Body = Body(ok: Option<bool>, seqno: Option<PyInt>)

  /** Failed is TechnocoreError; Throttled is RateLimitExceeded, which is not one; Raised is anything else. */
  datatype Outcome = Response(body: Body) | Failed | Throttled | Raised

  /** Whether the guard lets a write through, before the budget is asked. */
  predicate Allowed(sha: Sha, host: Text, w: SignedWrite, gate: Option<Gate>, localWritesEnabled: bool) {
    match gate
    case Some(g) => host in PUBLIC_HOSTS && !g.closed && !g.used && Matches(sha, g, host, w)
    case None => host !in PUBLIC_HOSTS && host in LOOPBACK_HOSTS && localWritesEnabled
  }

  /** A request is handed to the HTTP client exactly when the write's self-check says yes, the guard allows
      it, the budget grants and its path prints. */
  predicate Requests(sha: Sha, host: Text, w: SignedWrite, verifies: Answer, gate: Option<Gate>, env: Env) {
    verifies.Yes? && Allowed(sha, host, w, gate, env.localWritesEnabled) && env.budget && PathPrints(w)
  }

  /** What a caller makes of the reply to a request that left. */
  function ReplyOutcome(reply: Reply): Outcome {
    match reply
    case TransportError => Failed
    case OtherFailure => Raised
    case HttpStatus(status, body) => if status >= 400 then Failed else Response(body)
  }

  /** The hash is asked of a text that cannot be encoded: everything the gate compares before it agrees. */
  predicate Unhashable(sha: Sha, g: Gate, host: Text, w: SignedWrite) {
    && !g.closed && !g.used
    && Lower(host) == g.host && w.room == g.room && w.nonce.Number() == g.nonce && TextHash(sha, w).None?
  }

  /** How one guarded send ends. */
  function SendOutcome(sha: Sha, host: Text, w: SignedWrite, verifies: Answer, gate: Option<Gate>, env: Env): Outcome {
    if verifies.Raises? then Raised
    else if verifies.No? then Failed
    else if !Allowed(sha, host, w, gate, env.localWritesEnabled) then
      if gate.Some? && host in PUBLIC_HOSTS && Unhashable(sha, gate.value, host, w) then Raised else Failed
    else if !env.budget then Throttled
    else if !PathPrints(w) then Raised
    else ReplyOutcome(env.reply)
  }

  /** Without a gate a send ends in neither a reply nor a TechnocoreError exactly when its self-check raises,
      or, once it is allowed, the budget refuses it, its path does not print, or the HTTP client or the reply
      fails in some other way. */
  predicate Escapes(sha: Sha, host: Text, w: SignedWrite, verifies: Answer, env: Env) {
    || verifies.Raises?
    || (&& verifies.Yes? && Allowed(sha, host, w, None, env.localWritesEnabled)
        && (!env.budget || !PathPrints(w) || env.reply.OtherFailure?))
  }

  lemma EscapesExactly(sha: Sha, host: Text, w: SignedWrite, verifies: Answer, env: Env)
    ensures var out := SendOutcome(sha, host, w, verifies, None, env);
            Escapes(sha, host, w, verifies, env) <==> !out.Response? && !out.Failed?
  {
  }

  /** Exactly when a request leaves, condition by condition. */
  lemma RequestsExactly(sha: Sha, host: Text, w: SignedWrite, verifies: Answer, gate: Option<Gate>, env: Env)
    ensures Requests(sha, host, w, verifies, gate, env) <==>
              && verifies.Yes? && env.budget && PathPrints(w)
              && match gate
                 case None => host !in PUBLIC_HOSTS && host in LOOPBACK_HOSTS && env.localWritesEnabled
                 case Some(g) =>
                   && host in PUBLIC_HOSTS && !g.closed && !g.used
                   && Lower(host) == g.host && w.room == g.room && w.nonce.Number() == g.nonce
                   && Utf8.Encodable(w.sweptText) && sha(Utf8.Encode(w.sweptText)) == g.messageSha256
  {
  }

  /** A send ends in a body exactly when its request left and came back with it under a status below 400, and
      in a TechnocoreError after a request that left exactly when that failed in transport or came back with a
      status of 400 or more. */
  lemma EndsExactly(sha: Sha, host: Text, w: SignedWrite, verifies: Answer, gate: Option<Gate>, env: Env)
    ensures var out := SendOutcome(sha, host, w, verifies, gate, env);
            var (left, reply) := (Requests(sha, host, w, verifies, gate, env), env.reply);
            && (out.Response? <==> left && reply.HttpStatus? && reply.status < 400)
            && (out.Response? ==> out.body == reply.body)
            && (left ==> (out.Failed? <==> reply.TransportError? || (reply.HttpStatus? && reply.status >= 400)))
            && (left ==> (out.Raised? <==> reply.OtherFailure?))
            && (out.Throttled? <==> verifies.Yes? && Allowed(sha, host, w, gate, env.localWritesEnabled) && !env.budget)
  {
  }

  // ----- the objects ------------------------------------------------------------------------------

  /** One request handed to the HTTP client and, for the proofs, what the ledger held then. */
  datatype HttpRequest = HttpRequest(host: Text, write: SignedWrite, ledger: seq<Row>)

  class Network {
    ghost var log: seq<HttpRequest>

    constructor ()
      ensures log == []
    {
      log := [];
    }

    method Get(host: Text, w: SignedWrite, ghost ledger: seq<Row>)
      modifies this
      ensures log == old(log) + [HttpRequest(host, w, ledger)]
    {
      log := log + [HttpRequest(host, w, ledger)];
    }
  }

  class OneTimePublicWriteGate {
    const host: Text
    const room: Text
    const messageSha256: Text
    const nonce: int
    var used: bool
    var closed: bool

    constructor (host: Text, room: Text, messageSha256: Text, nonce: int)
      ensures AsGate() == Gate(Lower(host), room, messageSha256, nonce, false, false)
    {
      this.host, this.room, this.messageSha256, this.nonce := Lower(host), room, messageSha256, nonce;
      used, closed := false, false;
    }

    /** `__post_init__`: null stands for the error it raises. */
    static method Create(u: Unicode, host: Text, room: Text, messageSha256: Text, nonce: int, confirm: bool)
      returns (gate: OneTimePublicWriteGate?)
      ensures gate != null <==>
                && Payload.ValidRoom(u, room) && Payload.ValidNonce(nonce) && confirm
                && Lower(host) in PUBLIC_HOSTS && HexDigest(messageSha256)
      ensures gate != null ==>
                fresh(gate) && gate.AsGate() == Gate(Lower(host), room, messageSha256, nonce, false, false)
    {
      if !Payload.ValidRoom(u, room) || !Payload.ValidNonce(nonce) || !confirm || Lower(host) !in PUBLIC_HOSTS
         || !HexDigest(messageSha256) {
        return null;
      }
      gate := new OneTimePublicWriteGate(host, room, messageSha256, nonce);
    }

    ghost function AsGate(): Gate
      reads this
    {
      Gate(host, room, messageSha256, nonce, used, closed)
    }

    method Close()
      modifies this`closed
      ensures closed
    {
      closed := true;
    }

    /** `consume`: usable once, and only for the write it was made for; a mismatch closes it. */
    method Consume(sha: Sha, host: Text, w: SignedWrite) returns (ok: bool, raised: bool)
      modifies this`used, this`closed
      ensures ok <==>
                && old(!closed && !used)
                && Lower(host) == this.host && w.room == room && w.nonce.Number() == nonce
                && Utf8.Encodable(w.sweptText) && sha(Utf8.Encode(w.sweptText)) == messageSha256
      ensures used == (old(used) || ok)
      ensures closed == (old(closed) || (old(!used) && !ok && !raised))
      ensures raised <==>
                && old(!closed && !used)
                && Lower(host) == this.host && w.room == room && w.nonce.Number() == nonce
                && !Utf8.Encodable(w.sweptText)
    {
      if closed || used {
        return false, false;
      }
      if Lower(host) != this.host || w.room != room || w.nonce.Number() != nonce {
        Close();
        return false, false;
      }
      var actual := TextHash(sha, w);
      if actual.None? {
        return false, true;
      }
      if actual.value != messageSha256 {
        Close();
        return false, false;
      }
      used := true;
      return true, false;
    }
  }

  /** `send_signed_message`. */
  method SendSignedMessage(
      u: Unicode, check: KeyCheck, sha: Sha, host: Text, net: Network, w: SignedWrite, gate: OneTimePublicWriteGate?,
      env: Env, ghost ledger: seq<Row>)
    returns (out: Outcome)
    modifies net, if gate != null then {gate} else {}
    ensures var (g, verifies) := (if gate == null then None else Some(old(gate.AsGate())), SelfCheck(u, check, w));
            && net.log == old(net.log) +
                 (if Requests(sha, host, w, verifies, g, env) then [HttpRequest(host, w, ledger)] else [])
            && out == SendOutcome(sha, host, w, verifies, g, env)
    ensures var (left, reply) := (|net.log| > |old(net.log)|, env.reply);
            && (out.Response? <==> left && reply.HttpStatus? && reply.status < 400)
            && (out.Response? ==> out.body == reply.body)
            && (left ==> (out.Failed? <==> reply.TransportError? || (reply.HttpStatus? && reply.status >= 400)))
    ensures gate != null ==>
              && gate.closed
              && gate.used == (old(gate.used) ||
                               (&& SelfCheck(u, check, w).Yes?
                                && Allowed(sha, host, w, Some(old(gate.AsGate())), env.localWritesEnabled)))
  {
    var verifies := SelfCheck(u, check, w);
    if !verifies.Yes? {
      if gate != null {
        gate.Close();
      }
      return if verifies.Raises? then Raised else Failed;
    }
    if gate != null {
      if host !in PUBLIC_HOSTS {
        gate.Close();
        return Failed;
      }
      var ok, raised := gate.Consume(sha, host, w);
      gate.Close();
      if !ok {
        return if raised then Raised else Failed;
      }
    } else if host in PUBLIC_HOSTS || host !in LOOPBACK_HOSTS || !env.localWritesEnabled {
      return Failed;
    }
    if !env.budget {
      return Throttled;
    }
    if !PathPrints(w) {
      return Raised;
    }
    net.Get(host, w, ledger);
    match env.reply {
      case TransportError =>
        return Failed;
      case OtherFailure =>
        return Raised;
      case HttpStatus(status, body) =>
        if status >= 400 {
          return Failed;
        }
        return Response(body);
    }
  }

  // ----- a write that verifies and does not print --------------------------------------------------

  /** Text with a surrogate, sent as it stands under the signature of its sweep, passes the self-check, the
      guard and the budget, and then no request leaves and neither kind of reply comes back. */
  lemma RawTextRaises(u: Unicode, s: Signer, sha: Sha, host: Text, room: Text, nonce: int, text: Text, env: Env)
    requires u.Valid() && BuildSignedMessage(u, s, room, nonce, text).Built? && !Utf8.Encodable(text)
    requires host !in PUBLIC_HOSTS && host in LOOPBACK_HOSTS && env.localWritesEnabled && env.budget
    ensures var raw := BuildSignedMessage(u, s, room, nonce, text).write.(sweptText := text);
            var verifies := SelfCheck(u, s.check, raw);
            && verifies.Yes? && Escapes(sha, host, raw, verifies, env)
            && !Requests(sha, host, raw, verifies, None, env)
            && SendOutcome(sha, host, raw, verifies, None, env) == Raised
  {
    RawTextVerifies(u, s, room, nonce, text);
  }

  /** A lone surrogate before a visible letter is such a text: every honest signer signs its sweep. */
  lemma SurrogateLetterBuilds(u: Unicode, s: Signer, room: Text, nonce: int, c: CodePoint)
    requires u.Valid() && s.Honest() && Payload.ValidRoom(u, room) && Payload.ValidNonce(nonce)
    requires Payload.Visible(u, [c])
    ensures BuildSignedMessage(u, s, room, nonce, [0xD800, c]).Built? && !Utf8.Encodable([0xD800, c])
  {
    var text: Text := [0xD800, c];
    HonestBuildsVerify(u, s, room, nonce, text);
    Payload.MessageEncodingFails(u, room, nonce, text, DEFAULT_SWEEP, false);
    EmptySweep(u, text, DEFAULT_SWEEP);
    SweepNotLonger(u, text);
    assert [c][0] == c && text[1] == c && text[0] == 0xD800;
  }

  // ----- any sequence of sends --------------------------------------------------------------------

  /** What the client computes with and does not define: the Unicode tables, the key check, SHA-256. */
  datatype Lib = Lib(u: Unicode, check: KeyCheck, sha: Sha)

  /** One send: through which client host, with which gate. */
  datatype Send = Send(host: Text, write: SignedWrite, gate: Option<nat>, env: Env)

  /** A request on the wire, and the gate it went through. */
  datatype Wire = Wire(host: Text, write: SignedWrite, gate: Option<nat>)

  function GateOf(gates: seq<Gate>, s: Send): Option<Gate> {
    if s.gate.Some? && s.gate.value < |gates| then Some(gates[s.gate.value]) else None
  }

  /** A send names a gate that exists, or none. */
  predicate KnownGate(gates: seq<Gate>, s: Send) {
    s.gate.Some? ==> s.gate.value < |gates|
  }

  /** The gates after a send, as the contract of SendSignedMessage states it. */
  function GatesAfter(lib: Lib, gates: seq<Gate>, s: Send): (after: seq<Gate>)
    requires KnownGate(gates, s)
    ensures |after| == |gates| && forall k :: 0 <= k < |gates| ==> SameGate(gates[k], after[k])
  {
    if s.gate.None? then gates
    else
      var g := gates[s.gate.value];
      gates[s.gate.value := g.(
        closed := true,
        used := g.used || (&& SelfCheck(lib.u, lib.check, s.write).Yes?
                           && Allowed(lib.sha, s.host, s.write, Some(g), s.env.localWritesEnabled)))]
  }

  predicate SendRequests(lib: Lib, gates: seq<Gate>, s: Send) {
    Requests(lib.sha, s.host, s.write, SelfCheck(lib.u, lib.check, s.write), GateOf(gates, s), s.env)
  }

  /** The requests a sequence of sends puts on the wire. */
  function WireLog(lib: Lib, gates: seq<Gate>, sends: seq<Send>): seq<Wire>
    requires KnownGates(gates, sends)
    decreases |sends|
  {
    if sends == [] then []
    else
      var s := sends[0];
      (if SendRequests(lib, gates, s) then [Wire(s.host, s.write, s.gate)] else [])
      + WireLog(lib, GatesAfter(lib, gates, s), sends[1..])
  }

  predicate KnownGates(gates: seq<Gate>, sends: seq<Send>) {
    forall i :: 0 <= i < |sends| ==> KnownGate(gates, sends[i])
  }

  predicate SameGate(a: Gate, b: Gate) {
    a.host == b.host && a.room == b.room && a.messageSha256 == b.messageSha256 && a.nonce == b.nonce
  }

  /** A gate that is used or closed lets nothing through any more. */
  lemma {:induction false} ShutGateStaysShut(lib: Lib, gates: seq<Gate>, sends: seq<Send>, k: nat)
    requires KnownGates(gates, sends) && k < |gates| && (gates[k].used || gates[k].closed)
    ensures forall i :: 0 <= i < |WireLog(lib, gates, sends)| ==> WireLog(lib, gates, sends)[i].gate != Some(k)
    decreases |sends|
  {
    if sends != [] {
      ShutGateStaysShut(lib, GatesAfter(lib, gates, sends[0]), sends[1..], k);
    }
  }

  /** What every request on the wire satisfies, whatever the sends before it. */
  predicate Justified(lib: Lib, gates: seq<Gate>, r: Wire) {
    match r.gate
    case Some(k) =>
      && k < |gates| && r.host in PUBLIC_HOSTS
      && Lower(r.host) == gates[k].host && r.write.room == gates[k].room && r.write.nonce.Number() == gates[k].nonce
      && Utf8.Encodable(r.write.sweptText) && lib.sha(Utf8.Encode(r.write.sweptText)) == gates[k].messageSha256
    case None => r.host !in PUBLIC_HOSTS && r.host in LOOPBACK_HOSTS
  }

  lemma SendJustified(lib: Lib, gates: seq<Gate>, s: Send)
    requires KnownGate(gates, s) && SendRequests(lib, gates, s)
    ensures Justified(lib, gates, Wire(s.host, s.write, s.gate))
  {
  }

  /** Using up gates changes nothing that they are compared for. */
  lemma JustifiedBefore(lib: Lib, gates: seq<Gate>, after: seq<Gate>, r: Wire)
    requires |after| == |gates| && forall k :: 0 <= k < |gates| ==> SameGate(gates[k], after[k])
    requires Justified(lib, after, r)
    ensures Justified(lib, gates, r)
  {
  }

  lemma {:induction false} RequestsJustified(lib: Lib, gates: seq<Gate>, sends: seq<Send>)
    requires KnownGates(gates, sends)
    ensures forall r :: r in WireLog(lib, gates, sends) ==> Justified(lib, gates, r)
    decreases |sends|
  {
    if sends != [] {
      var s, after := sends[0], GatesAfter(lib, gates, sends[0]);
      var rest := WireLog(lib, after, sends[1..]);
      RequestsJustified(lib, after, sends[1..]);
      forall r | r in WireLog(lib, gates, sends) ensures Justified(lib, gates, r) {
        if r in rest {
          JustifiedBefore(lib, gates, after, r);
        } else {
          SendJustified(lib, gates, s);
        }
      }
    }
  }

  predicate OncePerGate(log: seq<Wire>) {
    forall i, j :: 0 <= i < j < |log| && log[i].gate.Some? ==> log[i].gate != log[j].gate
  }

  lemma OncePerGateExtends(r: Wire, rest: seq<Wire>)
    requires OncePerGate(rest)
    requires r.gate.Some? ==> forall j :: 0 <= j < |rest| ==> rest[j].gate != r.gate
    ensures OncePerGate([r] + rest)
  {
  }

  lemma {:induction false} AtMostOncePerGate(lib: Lib, gates: seq<Gate>, sends: seq<Send>)
    requires KnownGates(gates, sends)
    ensures OncePerGate(WireLog(lib, gates, sends))
    decreases |sends|
  {
    if sends != [] {
      var s, after := sends[0], GatesAfter(lib, gates, sends[0]);
      AtMostOncePerGate(lib, after, sends[1..]);
      if s.gate.Some? {
        ShutGateStaysShut(lib, after, sends[1..], s.gate.value);
      }
      OncePerGateExtends(Wire(s.host, s.write, s.gate), WireLog(lib, after, sends[1..]));
      assert [] + WireLog(lib, after, sends[1..]) == WireLog(lib, after, sends[1..]);
    }
  }

  /** A send whose write differs from its gate in host, room, nonce or text hash makes no request. */
  lemma MismatchSendsNothing(lib: Lib, gates: seq<Gate>, s: Send)
    requires KnownGate(gates, s) && s.gate.Some?
    requires var g := gates[s.gate.value];
             || Lower(s.host) != g.host || s.write.room != g.room || s.write.nonce.Number() != g.nonce
             || !Utf8.Encodable(s.write.sweptText) || lib.sha(Utf8.Encode(s.write.sweptText)) != g.messageSha256
    ensures !SendRequests(lib, gates, s)
    ensures WireLog(lib, gates, [s]) == []
  {
    assert [s][1..] == [];
  }

  /** Over any sends through any clients, one after the other: each gate admits at most one HTTP request, that
      request matches its host, room, nonce and text hash, no public host is reached without a gate, and
      without a gate only loopback hosts are reached. */
  lemma GateAdmitsOne(lib: Lib, gates: seq<Gate>, sends: seq<Send>)
    requires KnownGates(gates, sends)
    ensures OncePerGate(WireLog(lib, gates, sends))
    ensures forall i :: 0 <= i < |WireLog(lib, gates, sends)| ==> Justified(lib, gates, WireLog(lib, gates, sends)[i])
  {
    AtMostOncePerGate(lib, gates, sends);
    RequestsJustified(lib, gates, sends);
  }
}

/** Threads inside `send_signed_message` at once. `consume` compares first and marks the gate used
    afterwards, without a lock, so the two are separate steps; so are the request and the closing. */
module GateProtocol {
  import opened Common
  import opened Client
  import opened SignedPath
  import Utf8

  datatype Phase =
    | Idle
    | Passed(id: nat)        // compared, not yet marked
    | Marked(id: nat)
    | Ending(gate: nat)      // on the way out; the gate is still to be closed

  /** A call that got past the comparison of its gate. */
  datatype Pass = Pass(gate: nat, host: Text, write: SignedWrite)

  /** A request on the wire, and the pass it was made with; None is a send without a gate. */
  datatype HttpCall = HttpCall(host: Text, write: SignedWrite, pass: Option<nat>)

  datatype State = State(
    gates: seq<Gate>,
    threads: map<nat, Phase>,
    passes: seq<Pass>,
    log: seq<HttpCall>,
    crowded: set<nat>)       // gates that a call passed while another one was passed and not marked

  datatype Step =
    | Check(p: nat, gate: nat, host: Text, write: SignedWrite)
    | Mark(p: nat)
    | Emit(p: nat)           // the budget grants and the path prints
    | Skip(p: nat)           // the budget refuses, or printing the path raises
    | Finish(p: nat)
    | Direct(host: Text, write: SignedWrite)

  predicate Init(s: State) {
    s == State(s.gates, map[], [], [], {})
  }

  function PhaseOf(s: State, p: nat): Phase {
    if p in s.threads then s.threads[p] else Idle
  }

  predicate Enabled(lib: Lib, s: State, step: Step) {
    match step
    case Check(p, k, _, _) => PhaseOf(s, p).Idle? && k < |s.gates|
    case Mark(p) =>
      PhaseOf(s, p).Passed? && PhaseOf(s, p).id < |s.passes| && s.passes[PhaseOf(s, p).id].gate < |s.gates|
    case Emit(p) =>
      PhaseOf(s, p).Marked? && PhaseOf(s, p).id < |s.passes| && PathPrints(s.passes[PhaseOf(s, p).id].write)
    case Skip(p) => PhaseOf(s, p).Marked? && PhaseOf(s, p).id < |s.passes|
    case Finish(p) => PhaseOf(s, p).Ending? && PhaseOf(s, p).gate < |s.gates|
    case Direct(host, write) =>
      SelfCheck(lib.u, lib.check, write).Yes? && Allowed(lib.sha, host, write, None, true) && PathPrints(write)
  }

  function Go(s: State, p: nat, phase: Phase): State {
    s.(threads := s.threads[p := phase])
  }

  function Shut(s: State, k: nat): State
    requires k < |s.gates|
  {
    s.(gates := s.gates[k := s.gates[k].(closed := true)])
  }

  /** Some thread has passed this gate and not marked it. */
  ghost predicate Busy(s: State, k: nat) {
    exists p: nat :: PhaseOf(s, p).Passed? && PhaseOf(s, p).id < |s.passes| && s.passes[PhaseOf(s, p).id].gate == k
  }

  /** The self-check says yes, the host is public, and the gate compares equal and is open. */
  predicate Passes(lib: Lib, s: State, k: nat, host: Text, w: SignedWrite)
    requires k < |s.gates|
  {
    SelfCheck(lib.u, lib.check, w).Yes? && Allowed(lib.sha, host, w, Some(s.gates[k]), false)
  }

  /** The comparison closes the gate itself on a wrong host, room, nonce or text. */
  predicate Slams(lib: Lib, s: State, k: nat, host: Text, w: SignedWrite)
    requires k < |s.gates|
  {
    var g := s.gates[k];
    && SelfCheck(lib.u, lib.check, w).Yes?
    && (host !in PUBLIC_HOSTS ||
        (!g.closed && !g.used && !Matches(lib.sha, g, host, w) && !Unhashable(lib.sha, g, host, w)))
  }

  ghost function After(lib: Lib, s: State, step: Step): State
    requires Enabled(lib, s, step)
  {
    match step
    case Check(p, k, host, w) =>
      if Passes(lib, s, k, host, w) then
        Go(s, p, Passed(|s.passes|)).(
          passes := s.passes + [Pass(k, host, w)],
          crowded := s.crowded + if Busy(s, k) then {k} else {})
      else if Slams(lib, s, k, host, w) then Go(Shut(s, k), p, Ending(k))
      else Go(s, p, Ending(k))
    case Mark(p) =>
      var id := PhaseOf(s, p).id;
      var k := s.passes[id].gate;
      Go(s, p, Marked(id)).(gates := s.gates[k := s.gates[k].(used := true)])
    case Emit(p) =>
      var id := PhaseOf(s, p).id;
      var pass := s.passes[id];
      Go(s, p, Ending(pass.gate)).(log := s.log + [HttpCall(pass.host, pass.write, Some(id))])
    case Skip(p) => Go(s, p, Ending(s.passes[PhaseOf(s, p).id].gate))
    case Finish(p) => Go(Shut(s, PhaseOf(s, p).gate), p, Idle)
    case Direct(host, write) => s.(log := s.log + [HttpCall(host, write, None)])
  }

  ghost function Run(lib: Lib, s: State, steps: seq<Step>): Option<State>
    decreases |steps|
  {
    if steps == [] then Some(s)
    else if !Enabled(lib, s, steps[0]) then None
    else Run(lib, After(lib, s, steps[0]), steps[1..])
  }

  // ----- the invariant ----------------------------------------------------------------------------

  /** The thread holds this pass and has not made its request. */
  predicate Holds(s: State, p: nat, i: nat) {
    PhaseOf(s, p) == Passed(i) || PhaseOf(s, p) == Marked(i)
  }

  ghost predicate PassInv(lib: Lib, s: State) {
    && (forall i: nat :: i < |s.passes| ==>
          s.passes[i].gate < |s.gates| && s.passes[i].host in PUBLIC_HOSTS &&
          Matches(lib.sha, s.gates[s.passes[i].gate], s.passes[i].host, s.passes[i].write))
    && (forall p: nat, i: nat :: Holds(s, p, i) ==> i < |s.passes|)
    && (forall p: nat, q: nat, i: nat :: Holds(s, p, i) && Holds(s, q, i) ==> p == q)
  }

  ghost predicate LogInv(s: State) {
    && (forall j: nat :: j < |s.log| ==>
          match s.log[j].pass
          case Some(i) => i < |s.passes| && s.log[j].host == s.passes[i].host && s.log[j].write == s.passes[i].write
          case None => s.log[j].host !in PUBLIC_HOSTS && s.log[j].host in LOOPBACK_HOSTS)
    && (forall j: nat, l: nat :: j < l < |s.log| && s.log[j].pass.Some? ==> s.log[j].pass != s.log[l].pass)
    && (forall j: nat, p: nat, i: nat :: j < |s.log| && s.log[j].pass == Some(i) ==> !Holds(s, p, i))
  }

  /** Every unmarked pass has its thread. */
  ghost predicate Seen(s: State) {
    forall i: nat :: i < |s.passes| && s.passes[i].gate < |s.gates| && !s.gates[s.passes[i].gate].used ==>
      exists p: nat :: PhaseOf(s, p) == Passed(i)
  }

  /** Until a pass is marked its thread is there to be seen; a gate with two passes was crowded. */
  ghost predicate CrowdInv(s: State) {
    && Seen(s)
    && (forall i: nat, j: nat :: i < j < |s.passes| && s.passes[i].gate == s.passes[j].gate ==>
          s.passes[i].gate in s.crowded)
    && (forall k :: k in s.crowded ==> Twice(s, k))
  }

  /** Two calls got past this gate. */
  ghost predicate Twice(s: State, k: nat) {
    exists i: nat, j: nat :: i < j < |s.passes| && s.passes[i].gate == k == s.passes[j].gate
  }

  ghost predicate Inv(lib: Lib, s: State) {
    PassInv(lib, s) && LogInv(s) && CrowdInv(s)
  }

  lemma StepMovesOne(lib: Lib, s: State, step: Step)
    requires Enabled(lib, s, step)
    ensures var t := After(lib, s, step);
            && s.passes <= t.passes && |t.gates| == |s.gates|
            && (forall q: nat :: step.Direct? || q != step.p ==> PhaseOf(t, q) == PhaseOf(s, q))
            && forall k: nat :: k < |s.gates| ==>
                 SameGate(s.gates[k], t.gates[k]) && (s.gates[k].used ==> t.gates[k].used)
  {
  }

  /** A step hands nobody a pass but the newest one, and that to the thread that made it. */
  lemma HoldsAfter(lib: Lib, s: State, step: Step, q: nat, i: nat)
    requires Enabled(lib, s, step) && Holds(After(lib, s, step), q, i)
    ensures Holds(s, q, i) || (step.Check? && step.p == q && i == |s.passes| < |After(lib, s, step).passes|)
  {
    StepMovesOne(lib, s, step);
  }

  lemma StepKeepsPasses(lib: Lib, s: State, step: Step)
    requires PassInv(lib, s) && Enabled(lib, s, step)
    ensures PassInv(lib, After(lib, s, step))
  {
    var t := After(lib, s, step);
    StepMovesOne(lib, s, step);
    forall p: nat, i: nat | Holds(t, p, i) ensures i < |t.passes| {
      HoldsAfter(lib, s, step, p, i);
    }
    forall p: nat, q: nat, i: nat | Holds(t, p, i) && Holds(t, q, i) ensures p == q {
      HoldsAfter(lib, s, step, p, i);
      HoldsAfter(lib, s, step, q, i);
    }
  }

  lemma EmitKeepsLog(lib: Lib, s: State, p: nat)
    requires PassInv(lib, s) && LogInv(s) && Enabled(lib, s, Emit(p))
    ensures LogInv(After(lib, s, Emit(p)))
  {
    var t, id := After(lib, s, Emit(p)), PhaseOf(s, p).id;
    assert Holds(s, p, id);
    forall j: nat, q: nat, i: nat | j < |t.log| && t.log[j].pass == Some(i) ensures !Holds(t, q, i) {
      if Holds(t, q, i) {
        HoldsAfter(lib, s, Emit(p), q, i);
      }
    }
  }

  /** A request without a gate, or none, and at most a new pass: nothing on the wire changes its standing. */
  lemma QuietKeepsLog(s: State, t: State)
    requires LogInv(s) && s.passes <= t.passes && s.log <= t.log && |t.log| <= |s.log| + 1
    requires |s.log| < |t.log| ==>
               var r := t.log[|s.log|]; r.pass.None? && r.host !in PUBLIC_HOSTS && r.host in LOOPBACK_HOSTS
    requires forall q: nat, i: nat :: Holds(t, q, i) ==> Holds(s, q, i) || i == |s.passes|
    ensures LogInv(t)
  {
  }

  lemma WireAfter(lib: Lib, s: State, step: Step)
    requires Enabled(lib, s, step) && !step.Emit?
    ensures var t := After(lib, s, step);
            && s.log <= t.log && |t.log| <= |s.log| + 1
            && (|s.log| < |t.log| ==>
                  var r := t.log[|s.log|]; r.pass.None? && r.host !in PUBLIC_HOSTS && r.host in LOOPBACK_HOSTS)
  {
  }

  lemma StepKeepsLog(lib: Lib, s: State, step: Step)
    requires PassInv(lib, s) && LogInv(s) && Enabled(lib, s, step)
    ensures LogInv(After(lib, s, step))
  {
    if step.Emit? {
      EmitKeepsLog(lib, s, step.p);
    } else {
      var t := After(lib, s, step);
      StepMovesOne(lib, s, step);
      WireAfter(lib, s, step);
      forall q: nat, i: nat | Holds(t, q, i) ensures Holds(s, q, i) || i == |s.passes| {
        HoldsAfter(lib, s, step, q, i);
      }
      QuietKeepsLog(s, t);
    }
  }

  /** A gate that was passed before and is open now is busy. */
  lemma OpenIsBusy(s: State, i: nat)
    requires CrowdInv(s) && i < |s.passes| && s.passes[i].gate < |s.gates| && !s.gates[s.passes[i].gate].used
    ensures Busy(s, s.passes[i].gate)
  {
    var p: nat :| PhaseOf(s, p) == Passed(i);
    assert PhaseOf(s, p).id == i;
  }

  lemma BusyTwice(s: State, t: State, k: nat)
    requires Busy(s, k) && s.passes < t.passes && t.passes[|s.passes|].gate == k
    ensures Twice(t, k)
  {
    var p: nat :| PhaseOf(s, p).Passed? && PhaseOf(s, p).id < |s.passes| && s.passes[PhaseOf(s, p).id].gate == k;
    assert t.passes[PhaseOf(s, p).id].gate == k == t.passes[|s.passes|].gate;
  }

  lemma StillTwice(s: State, t: State, m: nat)
    requires s.passes <= t.passes && Twice(s, m)
    ensures Twice(t, m)
  {
    var i: nat, j: nat :| i < j < |s.passes| && s.passes[i].gate == m == s.passes[j].gate;
    assert t.passes[i] == s.passes[i] && t.passes[j] == s.passes[j];
  }

  lemma NewPassKeepsCrowd(s: State, t: State, k: nat)
    requires CrowdInv(s) && k < |s.gates| && !s.gates[k].used && Seen(t)
    requires s.passes < t.passes && |t.passes| == |s.passes| + 1 && t.passes[|s.passes|].gate == k
    requires t.crowded == s.crowded + if Busy(s, k) then {k} else {}
    ensures CrowdInv(t)
  {
    forall i: nat | i < |s.passes| && s.passes[i].gate == k ensures k in t.crowded {
      OpenIsBusy(s, i);
    }
    forall m | m in t.crowded ensures Twice(t, m) {
      if m in s.crowded {
        StillTwice(s, t, m);
      } else {
        BusyTwice(s, t, k);
      }
    }
  }

  lemma OldPassesKeepCrowd(s: State, t: State)
    requires CrowdInv(s) && Seen(t) && t.passes == s.passes && t.crowded == s.crowded
    ensures CrowdInv(t)
  {
    forall m | m in t.crowded ensures Twice(t, m) {
      StillTwice(s, t, m);
    }
  }

  /** The thread of an unmarked pass stays to be seen. */
  lemma StillSeen(lib: Lib, s: State, step: Step, i: nat)
    requires Seen(s) && Enabled(lib, s, step)
    requires var t := After(lib, s, step);
             i < |t.passes| && t.passes[i].gate < |t.gates| && !t.gates[t.passes[i].gate].used
    ensures exists p: nat :: PhaseOf(After(lib, s, step), p) == Passed(i)
  {
    var t := After(lib, s, step);
    StepMovesOne(lib, s, step);
    if i < |s.passes| {
      assert t.passes[i] == s.passes[i];
      var p: nat :| PhaseOf(s, p) == Passed(i);
      assert PhaseOf(t, p) == Passed(i);
    } else {
      assert PhaseOf(t, step.p) == Passed(i);
    }
  }

  /** Only a check that passes adds a pass or crowds a gate. */
  lemma CrowdAfter(lib: Lib, s: State, step: Step)
    requires Enabled(lib, s, step)
    ensures var t := After(lib, s, step);
            if step.Check? && Passes(lib, s, step.gate, step.host, step.write) then
              && !s.gates[step.gate].used
              && t.passes == s.passes + [Pass(step.gate, step.host, step.write)]
              && t.crowded == s.crowded + if Busy(s, step.gate) then {step.gate} else {}
            else t.passes == s.passes && t.crowded == s.crowded
  {
  }

  lemma StepKeepsCrowd(lib: Lib, s: State, step: Step)
    requires Inv(lib, s) && Enabled(lib, s, step)
    ensures CrowdInv(After(lib, s, step))
  {
    var t := After(lib, s, step);
    CrowdAfter(lib, s, step);
    forall i: nat | i < |t.passes| && t.passes[i].gate < |t.gates| && !t.gates[t.passes[i].gate].used
      ensures exists p: nat :: PhaseOf(t, p) == Passed(i)
    {
      StillSeen(lib, s, step, i);
    }
    if t.passes == s.passes {
      OldPassesKeepCrowd(s, t);
    } else {
      NewPassKeepsCrowd(s, t, step.gate);
    }
  }

  lemma StepKeepsInv(lib: Lib, s: State, step: Step)
    requires Inv(lib, s) && Enabled(lib, s, step)
    ensures Inv(lib, After(lib, s, step))
  {
    StepKeepsPasses(lib, s, step);
    StepKeepsLog(lib, s, step);
    StepKeepsCrowd(lib, s, step);
  }

  lemma {:induction false} RunKeepsInv(lib: Lib, s: State, steps: seq<Step>)
    requires Inv(lib, s) && Run(lib, s, steps).Some?
    ensures Inv(lib, Run(lib, s, steps).value)
    decreases |steps|
  {
    if steps != [] {
      StepKeepsInv(lib, s, steps[0]);
      RunKeepsInv(lib, After(lib, s, steps[0]), steps[1..]);
    }
  }

  // ----- what holds of every interleaving ---------------------------------------------------------

  /** A request went through this gate. */
  predicate Through(s: State, j: nat, k: nat)
    requires j < |s.log|
  {
    s.log[j].pass.Some? && s.log[j].pass.value < |s.passes| && s.passes[s.log[j].pass.value].gate == k
  }

  /** What every request on the wire satisfies. */
  predicate Justified(lib: Lib, s: State, r: HttpCall) {
    match r.pass
    case Some(i) =>
      && i < |s.passes| && s.passes[i].gate < |s.gates| && r.host in PUBLIC_HOSTS
      && var g := s.gates[s.passes[i].gate];
         && Lower(r.host) == g.host && r.write.room == g.room && r.write.nonce.Number() == g.nonce
         && Utf8.Encodable(r.write.sweptText) && lib.sha(Utf8.Encode(r.write.sweptText)) == g.messageSha256
    case None => r.host !in PUBLIC_HOSTS && r.host in LOOPBACK_HOSTS
  }

  lemma InvJustifies(lib: Lib, s: State)
    requires PassInv(lib, s) && LogInv(s)
    ensures forall j: nat :: j < |s.log| ==> Justified(lib, s, s.log[j])
  {
  }

  lemma InvSeparates(lib: Lib, s: State, k: nat)
    requires LogInv(s) && CrowdInv(s)
    ensures k in s.crowded <==> Twice(s, k)
    ensures k !in s.crowded ==> forall j: nat, l: nat :: j < l < |s.log| && Through(s, j, k) ==> !Through(s, l, k)
  {
  }

  /** In every interleaving of any threads over any gates: a gated request matches its gate's host, room,
      nonce and text hash; without a gate only loopback hosts are reached; and a gate lets at most one
      request through unless it was crowded, which is so exactly when two calls got past its check. */
  lemma GatesOverRuns(lib: Lib, init: State, steps: seq<Step>, k: nat)
    requires Init(init) && Run(lib, init, steps).Some?
    ensures var s := Run(lib, init, steps).value;
            && (forall j: nat :: j < |s.log| ==> Justified(lib, s, s.log[j]))
            && (k in s.crowded <==> Twice(s, k))
            && (k !in s.crowded ==> forall j: nat, l: nat :: j < l < |s.log| && Through(s, j, k) ==> !Through(s, l, k))
  {
    RunKeepsInv(lib, init, steps);
    InvJustifies(lib, Run(lib, init, steps).value);
    InvSeparates(lib, Run(lib, init, steps).value, k);
  }

  /** Two threads past the check of a gate both mark it. */
  lemma BothMark(lib: Lib, s: State, p: nat, q: nat)
    requires Inv(lib, s) && p != q && PhaseOf(s, p).Passed? && PhaseOf(s, q).Passed?
    ensures Enabled(lib, s, Mark(p)) && Enabled(lib, After(lib, s, Mark(p)), Mark(q))
    ensures var t := After(lib, After(lib, s, Mark(p)), Mark(q));
            && t.passes == s.passes && t.log == s.log
            && PhaseOf(t, p) == Marked(PhaseOf(s, p).id) && PhaseOf(t, q) == Marked(PhaseOf(s, q).id)
  {
    assert Holds(s, p, PhaseOf(s, p).id) && Holds(s, q, PhaseOf(s, q).id);
  }

  /** What two threads that have marked their gate put on the wire, one after the other. */
  lemma BothEmit(lib: Lib, s: State, p: nat, q: nat)
    requires p != q && PhaseOf(s, p).Marked? && PhaseOf(s, q).Marked?
    requires PhaseOf(s, p).id < |s.passes| && PathPrints(s.passes[PhaseOf(s, p).id].write)
    requires PhaseOf(s, q).id < |s.passes| && PathPrints(s.passes[PhaseOf(s, q).id].write)
    ensures Enabled(lib, s, Emit(p)) && Enabled(lib, After(lib, s, Emit(p)), Emit(q))
    ensures var (i, j) := (PhaseOf(s, p).id, PhaseOf(s, q).id);
            var t := After(lib, After(lib, s, Emit(p)), Emit(q));
            && t.passes == s.passes
            && t.log == s.log + [HttpCall(s.passes[i].host, s.passes[i].write, Some(i)),
                                 HttpCall(s.passes[j].host, s.passes[j].write, Some(j))]
  {
  }

  lemma RunTwo(lib: Lib, s: State, a: Step, b: Step, rest: seq<Step>)
    requires Enabled(lib, s, a) && Enabled(lib, After(lib, s, a), b)
    ensures Run(lib, s, [a, b] + rest) == Run(lib, After(lib, After(lib, s, a), b), rest)
  {
    assert ([a, b] + rest)[1..] == [b] + rest && ([b] + rest)[1..] == rest;
  }

  /** A thread whose write differs from its gate in host, room, nonce or text hash does not get past it. */
  lemma MismatchNeverPasses(lib: Lib, s: State, step: Step)
    requires step.Check? && Enabled(lib, s, step)
    requires var g := s.gates[step.gate];
             || Lower(step.host) != g.host || step.write.room != g.room || step.write.nonce.Number() != g.nonce
             || !Utf8.Encodable(step.write.sweptText)
             || lib.sha(Utf8.Encode(step.write.sweptText)) != g.messageSha256
    ensures After(lib, s, step).passes == s.passes && After(lib, s, step).log == s.log
    ensures PhaseOf(After(lib, s, step), step.p) == Ending(step.gate)
  {
  }

  /** Through a closed gate nobody passes, and it stays closed. */
  lemma ClosedStaysClosed(lib: Lib, s: State, step: Step, k: nat)
    requires Enabled(lib, s, step) && k < |s.gates| && s.gates[k].closed
    ensures var t := After(lib, s, step);
            && k < |t.gates| && t.gates[k].closed && s.passes <= t.passes
            && forall i :: |s.passes| <= i < |t.passes| ==> t.passes[i].gate != k
  {
  }

  lemma {:induction false} ClosedForGood(lib: Lib, s: State, steps: seq<Step>, k: nat)
    requires k < |s.gates| && s.gates[k].closed && Run(lib, s, steps).Some?
    ensures var t := Run(lib, s, steps).value;
            s.passes <= t.passes && forall i :: |s.passes| <= i < |t.passes| ==> t.passes[i].gate != k
    decreases |steps|
  {
    if steps != [] {
      ClosedStaysClosed(lib, s, steps[0], k);
      ClosedForGood(lib, After(lib, s, steps[0]), steps[1..], k);
    }
  }

  /** Once some call is over, whichever way it ended, its gate lets nobody past its check any more. */
  lemma NoUseAfterFinish(lib: Lib, s: State, p: nat, steps: seq<Step>)
    requires Enabled(lib, s, Finish(p)) && Run(lib, After(lib, s, Finish(p)), steps).Some?
    ensures var t := Run(lib, After(lib, s, Finish(p)), steps).value;
            s.passes <= t.passes && forall i :: |s.passes| <= i < |t.passes| ==> t.passes[i].gate != PhaseOf(s, p).gate
  {
    ClosedForGood(lib, After(lib, s, Finish(p)), steps, PhaseOf(s, p).gate);
  }

  /** While two threads are past the check of one gate, nothing keeps both from making a request, if the
      paths of their writes print. */
  lemma CrowdedSendsTwice(lib: Lib, s: State, p: nat, q: nat)
    requires Inv(lib, s) && p != q && PhaseOf(s, p).Passed? && PhaseOf(s, q).Passed?
    requires PhaseOf(s, p).id < |s.passes| && PathPrints(s.passes[PhaseOf(s, p).id].write)
    requires PhaseOf(s, q).id < |s.passes| && PathPrints(s.passes[PhaseOf(s, q).id].write)
    ensures var (i, j) := (PhaseOf(s, p).id, PhaseOf(s, q).id);
            && var end := Run(lib, s, [Mark(p), Mark(q), Emit(p), Emit(q)]);
               && end.Some? && end.value.passes == s.passes
               && end.value.log == s.log + [HttpCall(s.passes[i].host, s.passes[i].write, Some(i)),
                                            HttpCall(s.passes[j].host, s.passes[j].write, Some(j))]
  {
    BothMark(lib, s, p, q);
    var t := After(lib, After(lib, s, Mark(p)), Mark(q));
    BothEmit(lib, t, p, q);
    RunTwo(lib, s, Mark(p), Mark(q), [Emit(p), Emit(q)]);
    RunTwo(lib, t, Emit(p), Emit(q), []);
    assert [Mark(p), Mark(q)] + [Emit(p), Emit(q)] == [Mark(p), Mark(q), Emit(p), Emit(q)];
    assert [Emit(p), Emit(q)] + [] == [Emit(p), Emit(q)];
  }

  /** And two threads do get there: any write that verifies and an open gate was made for passes it twice. */
  lemma TwoThreadsPass(lib: Lib, init: State, k: nat, host: Text, w: SignedWrite)
    requires Init(init) && k < |init.gates|
    requires SelfCheck(lib.u, lib.check, w).Yes? && Allowed(lib.sha, host, w, Some(init.gates[k]), false)
    ensures var crowd := Run(lib, init, [Check(0, k, host, w), Check(1, k, host, w)]);
            && crowd.Some? && k in crowd.value.crowded
            && PhaseOf(crowd.value, 0) == Passed(0) && PhaseOf(crowd.value, 1) == Passed(1)
  {
    var a, b := Check(0, k, host, w), Check(1, k, host, w);
    var s1 := After(lib, init, a);
    assert PhaseOf(s1, 0) == Passed(0) && Busy(s1, k);
    assert [a, b][1..] == [b] && [b][1..] == [];
    assert Run(lib, init, [a, b]) == Run(lib, s1, [b]) == Some(After(lib, s1, b));
  }
}
