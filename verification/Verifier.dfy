/** Signature verification as a caller sees it: yes, no, or an exception that nothing on the way catches. */
module Verifier {
  import opened Common
  import opened Canonical
  import opened Did
  import Payload

  datatype Answer = Yes | No | Raises

  /** Decoding the signature and checking it under the raw key; every failure in there is a no. */
  type KeyCheck = (seq<Byte>, Text, seq<Byte>) -> bool

  /** `verify`: of the two errors a DID can raise it catches only DidKeyError. */
  function VerifySignature(check: KeyCheck, did: Text, signature: Text, payload: seq<Byte>): Answer {
    match DecodeDidKey(did)
    case Error(NotAscii) => Raises
    case Error(Malformed) => No
    case Ok(key) => if check(key, signature, payload) then Yes else No
  }

  /** `verify_message`: a payload that cannot be built is a no. */
  function VerifyMessage(
      u: Unicode, check: KeyCheck, did: Text, signature: Text, room: Text, nonce: int, text: Text): Answer
  {
    match Payload.MessagePayload(u, room, nonce, text, DEFAULT_SWEEP, false)
    case Error(_) => No
    case Ok(payload) => VerifySignature(check, did, signature, payload)
  }

  /** `verify_note`. */
  function VerifyNote(
      u: Unicode, check: KeyCheck, did: Text, signature: Text, ns: Text, key: Text, nonce: int, value: Text): Answer
  {
    match Payload.NotePayload(u, ns, key, nonce, value, DEFAULT_SWEEP, false)
    case Error(_) => No
    case Ok(payload) => VerifySignature(check, did, signature, payload)
  }

  /** `verify` is total except on non-ASCII DIDs that start like a did:key; on every other DID it says yes
      exactly when the DID is the encoding of a key under which the signature checks. */
  lemma VerifyAnswers(check: KeyCheck, did: Text, signature: Text, payload: seq<Byte>)
    ensures VerifySignature(check, did, signature, payload).Raises? <==>
              DID_PREFIX + [MULTIBASE] <= did && !AsciiText(did)
    ensures VerifySignature(check, did, signature, payload).Yes? <==>
              exists key :: EncodeDidKey(key) == Ok(did) && check(key, signature, payload)
  {
    NotAsciiExactly(did);
    if key :| EncodeDidKey(key) == Ok(did) && check(key, signature, payload) {
      DidKeyInverse(did, key);
    }
    if VerifySignature(check, did, signature, payload).Yes? {
      DidKeyInverse(did, DecodeDidKey(did).value);
    }
  }

  /** The same of a message: it raises exactly when its payload can be built and its DID is such a one. */
  lemma VerifyMessageRaises(
      u: Unicode, check: KeyCheck, did: Text, signature: Text, room: Text, nonce: int, text: Text)
    ensures VerifyMessage(u, check, did, signature, room, nonce, text).Raises? <==>
              && Payload.MessagePayload(u, room, nonce, text, DEFAULT_SWEEP, false).Ok?
              && DID_PREFIX + [MULTIBASE] <= did && !AsciiText(did)
  {
    NotAsciiExactly(did);
  }

  /** And of a note. */
  lemma VerifyNoteRaises(
      u: Unicode, check: KeyCheck, did: Text, signature: Text, ns: Text, key: Text, nonce: int, value: Text)
    ensures VerifyNote(u, check, did, signature, ns, key, nonce, value).Raises? <==>
              && Payload.NotePayload(u, ns, key, nonce, value, DEFAULT_SWEEP, false).Ok?
              && DID_PREFIX + [MULTIBASE] <= did && !AsciiText(did)
  {
    NotAsciiExactly(did);
  }

  /** Some key that the DID spells checks this signature over these bytes. */
  ghost predicate SignedBy(check: KeyCheck, did: Text, signature: Text, payload: seq<Byte>) {
    exists key :: EncodeDidKey(key) == Ok(did) && check(key, signature, payload)
  }

  /** `verify_message` says yes exactly of a message whose payload can be built and is signed by the DID's key. */
  lemma VerifyMessageAnswers(
      u: Unicode, check: KeyCheck, did: Text, signature: Text, room: Text, nonce: int, text: Text)
    ensures VerifyMessage(u, check, did, signature, room, nonce, text).Yes? <==>
              var p := Payload.MessagePayload(u, room, nonce, text, DEFAULT_SWEEP, false);
              p.Ok? && SignedBy(check, did, signature, p.value)
  {
    var p := Payload.MessagePayload(u, room, nonce, text, DEFAULT_SWEEP, false);
    if p.Ok? {
      VerifyAnswers(check, did, signature, p.value);
    }
  }

  /** And `verify_note` of a note. */
  lemma VerifyNoteAnswers(
      u: Unicode, check: KeyCheck, did: Text, signature: Text, ns: Text, key: Text, nonce: int, value: Text)
    ensures VerifyNote(u, check, did, signature, ns, key, nonce, value).Yes? <==>
              var p := Payload.NotePayload(u, ns, key, nonce, value, DEFAULT_SWEEP, false);
              p.Ok? && SignedBy(check, did, signature, p.value)
  {
    var p := Payload.NotePayload(u, ns, key, nonce, value, DEFAULT_SWEEP, false);
    if p.Ok? {
      VerifyAnswers(check, did, signature, p.value);
    }
  }
}
