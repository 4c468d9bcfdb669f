/** The stand-in server's signed-write endpoint. */
module Server {
  import opened Common
  import opened Canonical
  import opened RateLimit
  import opened SignedPath
  import opened Verifier
  import Decimal
  import Did
  import Nonce
  import Payload
  import Utf8

  /** One stored message: the server keeps the author and no signature. */
  datatype Record = Record(seqno: nat, author: Text, nonce: nat, text: Text)

  datatype Reply =
    | RateLimited            // 429
    | BadNonce               // 400, not one to nineteen digits
    | NoReply                // an exception nothing catches: unreadable digits, or a payload with a surrogate
    | BadSignature           // 403
    | StaleNonce(last: nat)  // 400
    | Accepted(seqno: nat)   // 200

  /** The DID spells a key under which the signature checks; every failure of that is a ValueError or an
      InvalidSignature, and caught. */
  predicate SignatureOk(check: KeyCheck, did: Text, sig: Text, payload: seq<Byte>) {
    var key := Did.DecodeDidKey(did);
    key.Ok? && check(key.value, sig, payload)
  }

  /** The reply, given what the server remembers. */
  function Verdict(u: Unicode, check: KeyCheck, r: Request, admitted: bool, last: nat, nextSeq: nat): Reply
    requires r.SaySigned?
  {
    if !admitted then RateLimited
    else
      match ReadNonce(u, r.nonceText)
      case NotNonce => BadNonce
      case Unreadable => NoReply
      case Nonce(nonce) =>
        var payload := ServerText(u, r, nonce);
        if !Utf8.Encodable(payload) then NoReply
        else if !SignatureOk(check, r.did, r.sig, Utf8.Encode(payload)) then BadSignature
        else if nonce <= last then StaleNonce(last)
        else Accepted(nextSeq)
  }

  /** The nonce of a request that gets as far as being stored. */
  function NonceOf(u: Unicode, r: Request): nat
    requires r.SaySigned?
  {
    var n := ReadNonce(u, r.nonceText);
    if n.Nonce? then n.value else 0
  }

  /** The nonce counters after a reply. */
  function NoncesAfter(u: Unicode, nonces: map<Nonce.Key, nat>, r: Request, reply: Reply): map<Nonce.Key, nat>
    requires r.SaySigned?
  {
    if reply.Accepted? then nonces[(r.did, r.room) := NonceOf(u, r)] else nonces
  }

  lemma RecentFrom(times: seq<real>, i: nat, now: real)
    requires i < |times|
    ensures Recent(times[i..], now) ==
            (if now - times[i] < WINDOW then [times[i]] else []) + Recent(times[i + 1..], now)
  {
    assert times[i..][1..] == times[i + 1..];
  }

  class FakeTechnocoreState {
    const writesPerMinute: int
    var rooms: map<Text, seq<Record>>
    var nextSeq: nat
    var nonces: map<Nonce.Key, nat>
    var writeTimes: seq<real>

    constructor (writesPerMinute: int)
      ensures this.writesPerMinute == writesPerMinute
      ensures rooms == map[] && nextSeq == 1 && nonces == map[] && writeTimes == []
    {
      this.writesPerMinute := writesPerMinute;
      rooms, nextSeq, nonces, writeTimes := map[], 1, map[], [];
    }

    /** `rate_limited`: forget what is a minute old, then refuse or remember this write. */
    method Limited(now: real) returns (limited: bool)
      modifies this`writeTimes
      ensures (writeTimes, !limited) == Admit(writesPerMinute, old(writeTimes), now)
    {
      var times, recent := writeTimes, [];
      for i := 0 to |times|
        invariant Recent(times, now) == recent + Recent(times[i..], now)
      {
        RecentFrom(times, i, now);
        if now - times[i] < WINDOW {
          recent := recent + [times[i]];
        }
      }
      assert times[|times|..] == [] && recent + [] == recent;
      writeTimes := recent;
      if |writeTimes| >= writesPerMinute {
        return true;
      }
      writeTimes := writeTimes + [now];
      return false;
    }

    /** The end of `_say_signed`: remember the nonce and append the record. */
    method Store(did: Text, room: Text, nonce: nat, text: Text) returns (seqno: nat)
      modifies this`nonces, this`rooms, this`nextSeq
      ensures seqno == old(nextSeq) && nextSeq == seqno + 1
      ensures nonces == old(nonces)[(did, room) := nonce]
      ensures rooms == old(rooms)[room := (if room in old(rooms) then old(rooms)[room] else []) +
                [Record(seqno, did, nonce, text)]]
    {
      nonces := nonces[(did, room) := nonce];
      seqno := nextSeq;
      nextSeq := nextSeq + 1;
      var records := if room in rooms then rooms[room] else [];
      rooms := rooms[room := records + [Record(seqno, did, nonce, text)]];
    }

    /** `_say_signed`. */
    method SaySigned(u: Unicode, check: KeyCheck, r: Request, now: real) returns (reply: Reply)
      requires r.SaySigned?
      modifies this`writeTimes, this`nonces, this`rooms, this`nextSeq
      ensures writeTimes == Admit(writesPerMinute, old(writeTimes), now).0
      ensures reply == Verdict(u, check, r, Admit(writesPerMinute, old(writeTimes), now).1,
                               Nonce.Stored(old(nonces), (r.did, r.room)), old(nextSeq))
      ensures nonces == NoncesAfter(u, old(nonces), r, reply)
      ensures !reply.Accepted? ==> rooms == old(rooms) && nextSeq == old(nextSeq)
      ensures reply.Accepted? ==>
        && nextSeq == old(nextSeq) + 1
        && rooms == old(rooms)[r.room := (if r.room in old(rooms) then old(rooms)[r.room] else []) +
             [Record(old(nextSeq), r.did, NonceOf(u, r), Sweep(u, r.text, DEFAULT_SWEEP))]]
    {
      var limited := Limited(now);
      if limited {
        return RateLimited;
      }
      if !IsDigits(u, r.nonceText) || !(1 <= |r.nonceText| <= 19) {
        return BadNonce;
      }
      var read := ReadDigits(u, r.nonceText);
      if read.None? {
        return NoReply;
      }
      var nonce := read.value;
      var swept := SingleLineSweep(u, r.text, DEFAULT_SWEEP);
      var payload := Payload.MessageText(r.room, nonce, swept);
      if !Utf8.Encodable(payload) {
        return NoReply;
      }
      var publicKey := Did.ServerPublicKey(r.did);
      if publicKey.None? || !check(publicKey.value, r.sig, Utf8.Encode(payload)) {
        return BadSignature;
      }
      var key := (r.did, r.room);
      var last := Nonce.Stored(nonces, key);
      if nonce <= last {
        return StaleNonce(last);
      }
      var seqno := Store(r.did, r.room, nonce, swept);
      return Accepted(seqno);
    }
  }

  lemma SignatureOkExactly(check: KeyCheck, did: Text, sig: Text, payload: seq<Byte>)
    ensures SignatureOk(check, did, sig, payload) <==> SignedBy(check, did, sig, payload)
  {
    if SignatureOk(check, did, sig, payload) {
      Did.DidKeyInverse(did, Did.DecodeDidKey(did).value);
    }
    if key :| Did.EncodeDidKey(key) == Ok(did) && check(key, sig, payload) {
      Did.DidKeyInverse(did, key);
    }
  }

  /** What each reply means, in the order of the checks: of a request that readable as a nonce, a bad signature
      is reported whatever the nonce, a stale nonce only under a signature that checks, and nothing is stored
      that is not signed by the key of its DID over the room, the nonce and the swept text. */
  lemma VerdictExactly(u: Unicode, check: KeyCheck, r: Request, admitted: bool, last: nat, nextSeq: nat)
    requires r.SaySigned?
    ensures var v := Verdict(u, check, r, admitted, last, nextSeq);
            var n := NonceOf(u, r);
            var text := r.room + Lit("|") + Decimal.Print(n) + Lit("|") + Sweep(u, r.text, DEFAULT_SWEEP);
            var readable := admitted && ReadNonce(u, r.nonceText).Nonce? && Utf8.Encodable(text);
            && (v.RateLimited? <==> !admitted)
            && (v.BadNonce? <==> admitted && !(IsDigits(u, r.nonceText) && |r.nonceText| <= 19))
            && (v.NoReply? <==> !readable && !v.RateLimited? && !v.BadNonce?)
            && (v.BadSignature? <==> readable && !SignedBy(check, r.did, r.sig, Utf8.Encode(text)))
            && (v.StaleNonce? <==> readable && SignedBy(check, r.did, r.sig, Utf8.Encode(text)) && n <= last)
            && (v.Accepted? <==> readable && SignedBy(check, r.did, r.sig, Utf8.Encode(text)) && n > last)
            && (v.StaleNonce? ==> v.last == last) && (v.Accepted? ==> v.seqno == nextSeq)
  {
    var n := NonceOf(u, r);
    var text := r.room + Lit("|") + Decimal.Print(n) + Lit("|") + Sweep(u, r.text, DEFAULT_SWEEP);
    assert Lit("|") == [PIPE];
    assert text == ServerText(u, r, n);
    if Utf8.Encodable(text) {
      SignatureOkExactly(check, r.did, r.sig, Utf8.Encode(text));
    }
  }

  /** A message the client built, whose signature the server's key check accepts, lands exactly when the
      server's window admits it and its nonce is above the last one: its syntax is never refused. */
  lemma BuiltMessageLands(
      u: Unicode, s: Signer, check: KeyCheck, room: Text, nonce: int, text: Text, admitted: bool, last: nat,
      nextSeq: nat)
    requires u.Valid() && BuildSignedMessage(u, s, room, nonce, text).Built?
    requires var w := BuildSignedMessage(u, s, room, nonce, text).write;
             Utf8.Encodable(w.signature) && SignatureOk(check, w.did, w.signature, w.payload)
    ensures var w := BuildSignedMessage(u, s, room, nonce, text).write;
            && Printable(w) && AsciiText(Path(w))
            && var r := Route(Path(w));
               && r.SaySigned? && r.did == s.did && r.room == room && NonceOf(u, r) == nonce
               && Verdict(u, check, r, admitted, last, nextSeq) ==
                  if !admitted then RateLimited else if nonce <= last then StaleNonce(last) else Accepted(nextSeq)
  {
    ServerRebuildsPayload(u, s, room, nonce, text);
  }
}
