/** From a reservation to the server's log: what the interleaving, the codecs and the server's checks add
    up to. */
module Landing {
  import opened Common
  import opened Canonical
  import opened NonceProtocol
  import opened Server
  import opened SignedPath
  import opened Verifier
  import Nonce
  import Payload

  /** A room and text that can be sent. */
  predicate Sendable(u: Unicode, room: Text, text: Text) {
    Payload.ValidRoom(u, room) && 0 < |Sweep(u, text, DEFAULT_SWEEP)| <= Payload.MAX_MESSAGE_CHARS
  }

  /** A nonce that was handed out is one the payload builder takes, so an honest signer's message is built. */
  lemma ReservedMessageBuilds(u: Unicode, s: Signer, run: State, i: nat, text: Text)
    requires u.Valid() && s.Honest() && Reachable(run)
    requires i in run.returned && i < |run.history| && Sendable(u, run.history[i].job.key.1, text)
    ensures Payload.ValidNonce(run.history[i].value)
    ensures BuildSignedMessage(u, s, run.history[i].job.key.1, run.history[i].value, text).Built?
  {
    var room, nonce := run.history[i].job.key.1, run.history[i].value;
    AnnouncementsOverRuns(run, i, i);
    NoncesOverRuns(run);
    HonestBuildsVerify(u, s, room, nonce, text);
    Payload.MessageEncodingFails(u, room, nonce, text, DEFAULT_SWEEP, false);
  }

  /** The request at the server that a built message becomes. */
  function Arrives(u: Unicode, s: Signer, room: Text, nonce: int, text: Text): Option<Request> {
    match BuildSignedMessage(u, s, room, nonce, text)
    case Built(w) => if Printable(w) && AsciiText(Path(w)) then Some(Route(Path(w))) else None
    case _ => None
  }

  /** Built messages arrive, and only the window and the nonce decide on them. */
  lemma ArrivedMessageLands(
      u: Unicode, s: Signer, check: KeyCheck, room: Text, nonce: int, text: Text, admitted: bool, last: nat,
      nextSeq: nat)
    requires u.Valid() && s.Honest() && Accepts(check, s)
    ensures BuildSignedMessage(u, s, room, nonce, text).Built? <==> Arrives(u, s, room, nonce, text).Some?
    ensures Arrives(u, s, room, nonce, text).Some? ==>
      var r := Arrives(u, s, room, nonce, text).value;
      && r.SaySigned? && (r.did, r.room) == (s.did, room) && NonceOf(u, r) == nonce
      && Verdict(u, check, r, admitted, last, nextSeq) ==
         if !admitted then RateLimited else if nonce <= last then StaleNonce(last) else Accepted(nextSeq)
  {
    if BuildSignedMessage(u, s, room, nonce, text).Built? {
      BuiltMessageLands(u, s, check, room, nonce, text, admitted, last, nextSeq);
    }
  }

  /** One later nonce of the key, or this one, has been stored. */
  ghost predicate Overtaken(run: State, i: nat)
    requires i < |run.history|
  {
    exists j :: i <= j < |run.history| && j in run.returned && run.history[j].job.key == run.history[i].job.key &&
      Message(run.history[i].job.key, run.history[j].value) in run.messages
  }

  /** In every interleaving: a message an honest signer builds with a nonce it was handed lands at the
      server unless the window refuses it or it has been overtaken, and nothing else ever refuses it. */
  lemma ReservedMessageLands(
      u: Unicode, s: Signer, check: KeyCheck, run: State, i: nat, text: Text, admitted: bool, nextSeq: nat)
    requires u.Valid() && s.Honest() && Accepts(check, s) && Reachable(run)
    requires i in run.returned && i < |run.history| && run.history[i].job.key.0 == s.did
    requires Sendable(u, run.history[i].job.key.1, text)
    ensures var (key, nonce) := (run.history[i].job.key, run.history[i].value);
            var (last, r) := (Nonce.Stored(run.serverLast, key), Arrives(u, s, key.1, nonce, text));
            && r.Some? && r.value.SaySigned?
            && Verdict(u, check, r.value, admitted, last, nextSeq) ==
               if !admitted then RateLimited else if Overtaken(run, i) then StaleNonce(last) else Accepted(nextSeq)
  {
    var (key, nonce) := (run.history[i].job.key, run.history[i].value);
    ReservedMessageBuilds(u, s, run, i, text);
    ArrivedMessageLands(u, s, check, key.1, nonce, text, admitted, Nonce.Stored(run.serverLast, key), nextSeq);
    FreshNoncePasses(run, i);
  }

  /** What a reply to a request that passed every other check does to the counters and the log. */
  predicate Agrees(u: Unicode, run: State, after: State, r: Request, reply: Reply, m: Message)
    requires r.SaySigned?
  {
    && after.serverLast == NoncesAfter(u, run.serverLast, r, reply)
    && after.messages == run.messages + (if reply.Accepted? then [m] else [])
    && (reply.Accepted? ==> reply.seqno == |after.messages|)
  }

  lemma ReceiveAgrees(u: Unicode, run: State, r: Request, key: Nonce.Key, nonce: nat)
    requires r.SaySigned? && (r.did, r.room) == key && NonceOf(u, r) == nonce
    ensures var last := Nonce.Stored(run.serverLast, key);
            Agrees(u, run, Receive(run, key, nonce), r,
                   if nonce <= last then StaleNonce(last) else Accepted(|run.messages| + 1), Message(key, nonce))
  {
  }

  /** The server step of the interleaving is the server: receiving a message changes the counters and the
      log exactly as the endpoint's reply to the request it arrives as says. */
  lemma ReceiveIsSaySigned(
      u: Unicode, s: Signer, check: KeyCheck, run: State, room: Text, nonce: nat, text: Text, r: Request)
    requires u.Valid() && s.Honest() && Accepts(check, s)
    requires Arrives(u, s, room, nonce, text) == Some(r)
    ensures var key := (s.did, room);
            && r.SaySigned?
            && Agrees(u, run, Receive(run, key, nonce), r,
                      Verdict(u, check, r, true, Nonce.Stored(run.serverLast, key), |run.messages| + 1),
                      Message(key, nonce))
  {
    var key := (s.did, room);
    ArrivedMessageLands(u, s, check, room, nonce, text, true, Nonce.Stored(run.serverLast, key), |run.messages| + 1);
    ReceiveAgrees(u, run, r, key, nonce);
  }
}
