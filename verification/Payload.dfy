/** The bytes a Technocore signature covers. */
module Payload {
  import opened Common
  import opened Canonical
  import Decimal
  import Utf8

  const MAX_MESSAGE_CHARS := 4096
  const MAX_NOTE_BYTES := 8 * 1024
  const MAX_NONCE_DIGITS := 19

  /** Canonicalisation is CanonicalisationError; Encoding is the UnicodeEncodeError of a lone surrogate. */
  datatype PayloadError = Canonicalisation | Encoding

  predicate ValidRoom(u: Unicode, room: Text) {
    && room != []
    && |room| <= 128
    && room == Sweep(u, room, DEFAULT_SWEEP)
    && PIPE !in room && SLASH !in room && '?' as int !in room && '#' as int !in room
  }

  predicate ValidNonce(nonce: int) {
    nonce >= 0 && |Decimal.Print(nonce)| <= MAX_NONCE_DIGITS
  }

  predicate NameStart(c: CodePoint) {
    'a' as int <= c <= 'z' as int || Decimal.Digit(c)
  }

  predicate NameChars(t: Text) {
    && 1 <= |t| <= 48
    && NameStart(t[0])
    && forall i :: 1 <= i < |t| ==> NameStart(t[i]) || t[i] == '_' as int || t[i] == '-' as int
  }

  /** `NAME_RE.match`: its `$` also matches before one trailing newline. */
  predicate ValidName(t: Text) {
    NameChars(t) || (|t| > 1 && t[|t| - 1] == '\n' as int && NameChars(t[..|t| - 1]))
  }

  function SweptText(u: Unicode, text: Text, policy: SweepPolicy, alreadySwept: bool): Text {
    if alreadySwept then text else Sweep(u, text, policy)
  }

  function MessageText(room: Text, nonce: nat, swept: Text): Text {
    room + [PIPE] + (Decimal.Print(nonce) + [PIPE] + swept)
  }

  function NoteText(ns: Text, key: Text, nonce: nat, swept: Text): Text {
    ns + [PIPE] + (key + [PIPE] + (Decimal.Print(nonce) + [PIPE] + swept))
  }

  function Utf8Bytes(t: Text): Result<seq<Byte>, PayloadError> {
    if Utf8.Encodable(t) then Ok(Utf8.Encode(t)) else Error(Encoding)
  }

  function MessagePayload(u: Unicode, room: Text, nonce: int, text: Text, policy: SweepPolicy, alreadySwept: bool):
    Result<seq<Byte>, PayloadError>
  {
    var swept := SweptText(u, text, policy, alreadySwept);
    if !ValidRoom(u, room) || !ValidNonce(nonce) then Error(Canonicalisation)
    else if swept == [] || |swept| > MAX_MESSAGE_CHARS then Error(Canonicalisation)
    else Utf8Bytes(MessageText(room, nonce, swept))
  }

  function NotePayload(
      u: Unicode, ns: Text, key: Text, nonce: int, value: Text, policy: SweepPolicy, alreadySwept: bool):
    Result<seq<Byte>, PayloadError>
  {
    var swept := SweptText(u, value, policy, alreadySwept);
    if !ValidName(ns) || !ValidName(key) || !ValidNonce(nonce) || swept == [] then Error(Canonicalisation)
    else
      var encoded := Utf8Bytes(NoteText(ns, key, nonce, swept));
      if encoded.Error? then encoded
      else
        var size := Utf8Bytes(swept);
        if size.Error? then size
        else if |size.value| > MAX_NOTE_BYTES then Error(Canonicalisation)
        else encoded
  }

  // ----- what is accepted -------------------------------------------------------------------------

  /** A room is one to 128 characters, nothing of which the sweep would touch, and none that would cut the
      payload or a URL: no bar, slash, question mark or hash sign. */
  lemma RoomsExactly(u: Unicode, room: Text)
    requires u.Valid()
    ensures ValidRoom(u, room) <==>
              && 1 <= |room| <= 128 && Unswept(u, room) && Trimmed(u, room)
              && forall i :: 0 <= i < |room| ==>
                   room[i] != '|' as int && room[i] != '/' as int && room[i] != '?' as int && room[i] != '#' as int
  {
    FixedPoints(u, room, DEFAULT_SWEEP);
  }

  /** A nonce has at most nineteen digits. */
  lemma NoncesExactly(nonce: int)
    ensures ValidNonce(nonce) <==> 0 <= nonce < 10_000_000_000_000_000_000
  {
    if nonce >= 0 {
      assert Decimal.Pow10(10) == 10_000_000_000;
      assert Decimal.Pow10(19) == 10_000_000_000_000_000_000;
      Decimal.PrintLength(nonce, 19);
    }
  }

  /** A message is accepted exactly with a valid room and nonce and one to 4096 swept characters that can be
      encoded, and its bytes are room, nonce and text between bars. */
  lemma MessagesExactly(u: Unicode, room: Text, nonce: int, text: Text, policy: SweepPolicy, alreadySwept: bool)
    requires u.Valid()
    ensures var (p, swept) := (MessagePayload(u, room, nonce, text, policy, alreadySwept),
                               if alreadySwept then text else Sweep(u, text, policy));
            && (p.Ok? <==> ValidRoom(u, room) && ValidNonce(nonce) && 1 <= |swept| <= 4096 && Utf8.Encodable(swept))
            && (p.Ok? ==>
                  var t := room + Lit("|") + Decimal.Print(nonce) + Lit("|") + swept;
                  Utf8.Encodable(t) && p == Ok(Utf8.Encode(t)))
  {
    MessageEncodingFails(u, room, nonce, text, policy, alreadySwept);
    SweptEncodable(u, text, policy);
    if ValidRoom(u, room) && ValidNonce(nonce) {
      MessageSpelled(u, room, nonce, SweptText(u, text, policy, alreadySwept));
    }
  }

  lemma MessageSpelled(u: Unicode, room: Text, nonce: nat, swept: Text)
    requires u.Valid() && ValidRoom(u, room)
    ensures MessageText(room, nonce, swept) == room + Lit("|") + Decimal.Print(nonce) + Lit("|") + swept
    ensures Utf8.Encodable(MessageText(room, nonce, swept)) <==> Utf8.Encodable(swept)
  {
    assert Lit("|") == [PIPE];
    SweptEncodable(u, room, DEFAULT_SWEEP);
    AsciiEncodable(Decimal.Print(nonce));
    ConcatEncodable(Decimal.Print(nonce), swept);
    ConcatEncodable(room, Decimal.Print(nonce) + [PIPE] + swept);
  }

  /** A note is accepted exactly with valid names and nonce and a swept value that is not empty, can be encoded
      and takes at most 8192 bytes, and its bytes are namespace, key, nonce and value between bars. */
  lemma NotesExactly(
      u: Unicode, ns: Text, key: Text, nonce: int, value: Text, policy: SweepPolicy, alreadySwept: bool)
    requires u.Valid()
    ensures var (p, swept) := (NotePayload(u, ns, key, nonce, value, policy, alreadySwept),
                               if alreadySwept then value else Sweep(u, value, policy));
            && (p.Ok? <==>
                  && ValidName(ns) && ValidName(key) && ValidNonce(nonce) && swept != []
                  && Utf8.Encodable(swept) && |Utf8.Encode(swept)| <= 8192)
            && (p.Ok? ==>
                  var t := ns + Lit("|") + key + Lit("|") + Decimal.Print(nonce) + Lit("|") + swept;
                  Utf8.Encodable(t) && p == Ok(Utf8.Encode(t)))
  {
    NoteEncodingFails(u, ns, key, nonce, value, policy, alreadySwept);
    SweptEncodable(u, value, policy);
    if ValidName(ns) && ValidName(key) && ValidNonce(nonce) {
      NoteSpelled(ns, key, nonce, SweptText(u, value, policy, alreadySwept));
    }
  }

  lemma NoteSpelled(ns: Text, key: Text, nonce: nat, swept: Text)
    requires ValidName(ns) && ValidName(key)
    ensures NoteText(ns, key, nonce, swept) ==
            ns + Lit("|") + key + Lit("|") + Decimal.Print(nonce) + Lit("|") + swept
    ensures Utf8.Encodable(NoteText(ns, key, nonce, swept)) <==> Utf8.Encodable(swept)
  {
    assert Lit("|") == [PIPE];
    NameEncodable(ns);
    NameEncodable(key);
    AsciiEncodable(Decimal.Print(nonce));
    ConcatEncodable(Decimal.Print(nonce), swept);
    ConcatEncodable(key, Decimal.Print(nonce) + [PIPE] + swept);
    ConcatEncodable(ns, key + [PIPE] + (Decimal.Print(nonce) + [PIPE] + swept));
  }

  // ----- injectivity ------------------------------------------------------------------------------

  lemma NumeralHasNoPipe(n: nat)
    ensures PIPE !in Decimal.Print(n)
  {
  }

  lemma NameHasNoPipe(t: Text)
    requires ValidName(t)
    ensures PIPE !in t
  {
    var n := |t| - 1;
    if !NameChars(t) {
      assert t == t[..n] + [t[n]];
    }
  }

  /** A numeral and what follows it are read back in one way. */
  lemma NumeralCut(m: nat, n: nat, x: Text, y: Text)
    requires Decimal.Print(m) + [PIPE] + x == Decimal.Print(n) + [PIPE] + y
    ensures m == n && x == y
  {
    NumeralHasNoPipe(m);
    NumeralHasNoPipe(n);
    CutOnce(Decimal.Print(m), Decimal.Print(n), PIPE, x, y);
    Decimal.ReadPrint(m);
    Decimal.ReadPrint(n);
  }

  /** Two accepted messages with equal bytes have equal room, nonce and swept text, whatever policy and
      flags they were built with. */
  lemma MessagePayloadInjective(
      u: Unicode,
      r1: Text, n1: int, t1: Text, p1: SweepPolicy, s1: bool,
      r2: Text, n2: int, t2: Text, p2: SweepPolicy, s2: bool)
    ensures var (a, b) := (MessagePayload(u, r1, n1, t1, p1, s1), MessagePayload(u, r2, n2, t2, p2, s2));
            a.Ok? && a == b ==> r1 == r2 && n1 == n2 && SweptText(u, t1, p1, s1) == SweptText(u, t2, p2, s2)
  {
    var (a, b) := (MessagePayload(u, r1, n1, t1, p1, s1), MessagePayload(u, r2, n2, t2, p2, s2));
    if a.Ok? && a == b {
      var x, y := SweptText(u, t1, p1, s1), SweptText(u, t2, p2, s2);
      Utf8.EncodeInjective(MessageText(r1, n1, x), MessageText(r2, n2, y));
      CutOnce(r1, r2, PIPE, Decimal.Print(n1) + [PIPE] + x, Decimal.Print(n2) + [PIPE] + y);
      NumeralCut(n1, n2, x, y);
    }
  }

  /** Two accepted notes with equal bytes have equal namespace, key, nonce and swept value. */
  lemma NotePayloadInjective(
      u: Unicode,
      a1: Text, k1: Text, n1: int, v1: Text, p1: SweepPolicy, s1: bool,
      a2: Text, k2: Text, n2: int, v2: Text, p2: SweepPolicy, s2: bool)
    ensures var (a, b) := (NotePayload(u, a1, k1, n1, v1, p1, s1), NotePayload(u, a2, k2, n2, v2, p2, s2));
            a.Ok? && a == b ==>
              a1 == a2 && k1 == k2 && n1 == n2 && SweptText(u, v1, p1, s1) == SweptText(u, v2, p2, s2)
  {
    var (a, b) := (NotePayload(u, a1, k1, n1, v1, p1, s1), NotePayload(u, a2, k2, n2, v2, p2, s2));
    if a.Ok? && a == b {
      var x, y := SweptText(u, v1, p1, s1), SweptText(u, v2, p2, s2);
      var t1, t2 := Decimal.Print(n1) + [PIPE] + x, Decimal.Print(n2) + [PIPE] + y;
      Utf8.EncodeInjective(NoteText(a1, k1, n1, x), NoteText(a2, k2, n2, y));
      NameHasNoPipe(a1);
      NameHasNoPipe(a2);
      CutOnce(a1, a2, PIPE, k1 + [PIPE] + t1, k2 + [PIPE] + t2);
      NameHasNoPipe(k1);
      NameHasNoPipe(k2);
      CutOnce(k1, k2, PIPE, t1, t2);
      NumeralCut(n1, n2, x, y);
    }
  }

  // ----- when encoding can fail -------------------------------------------------------------------

  lemma SweptEncodable(u: Unicode, t: Text, p: SweepPolicy)
    requires u.Valid()
    ensures Utf8.Encodable(Sweep(u, t, p))
  {
    SweepSwept(u, t, p);
  }

  lemma AsciiEncodable(t: Text)
    requires AsciiText(t)
    ensures Utf8.Encodable(t)
  {
  }

  lemma ConcatEncodable(a: Text, b: Text)
    requires Utf8.Encodable(a)
    ensures Utf8.Encodable(a + [PIPE] + b) <==> Utf8.Encodable(b)
  {
    var t := a + [PIPE] + b;
    assert forall i :: 0 <= i < |b| ==> t[|a| + 1 + i] == b[i];
  }

  /** Encoding a message fails only for pre-swept input that still holds a surrogate: on default input
      the sweep has removed every surrogate. */
  lemma MessageEncodingFails(u: Unicode, room: Text, nonce: int, text: Text, policy: SweepPolicy, alreadySwept: bool)
    requires u.Valid()
    ensures MessagePayload(u, room, nonce, text, policy, alreadySwept) == Error(Encoding) <==>
              && ValidRoom(u, room) && ValidNonce(nonce) && 0 < |text| <= MAX_MESSAGE_CHARS
              && alreadySwept && !Utf8.Encodable(text)
  {
    var swept := SweptText(u, text, policy, alreadySwept);
    if ValidRoom(u, room) && ValidNonce(nonce) {
      SweptEncodable(u, text, policy);
      MessageSpelled(u, room, nonce, swept);
    }
  }

  lemma NameEncodable(t: Text)
    requires ValidName(t)
    ensures Utf8.Encodable(t)
  {
    var n := |t| - 1;
    if !NameChars(t) {
      assert t == t[..n] + [t[n]];
    }
    AsciiEncodable(t);
  }

  /** The same for notes. */
  lemma NoteEncodingFails(
      u: Unicode, ns: Text, key: Text, nonce: int, value: Text, policy: SweepPolicy, alreadySwept: bool)
    requires u.Valid()
    ensures NotePayload(u, ns, key, nonce, value, policy, alreadySwept) == Error(Encoding) <==>
              && ValidName(ns) && ValidName(key) && ValidNonce(nonce) && value != []
              && alreadySwept && !Utf8.Encodable(value)
  {
    var swept := SweptText(u, value, policy, alreadySwept);
    if ValidName(ns) && ValidName(key) && ValidNonce(nonce) {
      SweptEncodable(u, value, policy);
      NoteSpelled(ns, key, nonce, swept);
    }
  }

  // ----- between the two kinds --------------------------------------------------------------------

  /** A message and a note that spell the same text. */
  predicate Coincide(room: Text, nonce: nat, text: Text, ns: Text, key: Text, noteNonce: nat, value: Text) {
    room == ns && key == Decimal.Print(nonce) && text == Decimal.Print(noteNonce) + [PIPE] + value
  }

  lemma SpellSame(room: Text, nonce: nat, text: Text, ns: Text, key: Text, noteNonce: nat, value: Text)
    requires PIPE !in room && PIPE !in ns && PIPE !in key
    ensures MessageText(room, nonce, text) == NoteText(ns, key, noteNonce, value) <==>
              Coincide(room, nonce, text, ns, key, noteNonce, value)
  {
    NumeralHasNoPipe(nonce);
    var rest := Decimal.Print(noteNonce) + [PIPE] + value;
    if MessageText(room, nonce, text) == NoteText(ns, key, noteNonce, value) {
      CutOnce(room, ns, PIPE, Decimal.Print(nonce) + [PIPE] + text, key + [PIPE] + rest);
      CutOnce(Decimal.Print(nonce), key, PIPE, text, rest);
    }
  }

  /** Separation stops at the kind: an accepted message and an accepted note have equal bytes exactly when
      the namespace is the room, the key is the message's nonce, and the message's text is the note's
      nonce, a bar and the note's value. */
  lemma KindsCoincide(
      u: Unicode,
      room: Text, nonce: int, text: Text, p1: SweepPolicy, s1: bool,
      ns: Text, key: Text, noteNonce: int, value: Text, p2: SweepPolicy, s2: bool)
    requires MessagePayload(u, room, nonce, text, p1, s1).Ok?
    requires NotePayload(u, ns, key, noteNonce, value, p2, s2).Ok?
    ensures MessagePayload(u, room, nonce, text, p1, s1) == NotePayload(u, ns, key, noteNonce, value, p2, s2) <==>
              Coincide(room, nonce, SweptText(u, text, p1, s1), ns, key, noteNonce, SweptText(u, value, p2, s2))
  {
    var x, y := SweptText(u, text, p1, s1), SweptText(u, value, p2, s2);
    var m, n := MessageText(room, nonce, x), NoteText(ns, key, noteNonce, y);
    NameHasNoPipe(ns);
    NameHasNoPipe(key);
    SpellSame(room, nonce, x, ns, key, noteNonce, y);
    if Utf8.Encode(m) == Utf8.Encode(n) {
      Utf8.EncodeInjective(m, n);
    }
  }

  /** A nonce as `str` prints it. */
  predicate NonceNumeral(t: Text) {
    Decimal.Shortest(t) && |t| <= MAX_NONCE_DIGITS
  }

  lemma NonceNumerals(t: Text)
    ensures NonceNumeral(t) <==> exists n: nat :: ValidNonce(n) && t == Decimal.Print(n)
  {
    if NonceNumeral(t) {
      Decimal.PrintRead(t);
      assert ValidNonce(Decimal.Read(t)) && t == Decimal.Print(Decimal.Read(t));
    }
    if n: nat :| ValidNonce(n) && t == Decimal.Print(n) {
      Decimal.PrintShortest(n);
    }
  }

  /** Some message the client accepts has these bytes. */
  ghost predicate IsMessage(u: Unicode, b: seq<Byte>) {
    exists room, nonce, text, policy, alreadySwept ::
      MessagePayload(u, room, nonce, text, policy, alreadySwept) == Ok(b)
  }

  /** What a caller can look at before signing a note: its bytes are also those of a message exactly when
      its namespace is a valid room, its key reads as a nonce, and what follows fits a message. In
      particular a note whose key is not a nonce numeral is never mistaken for a message. */
  lemma NoteIsMessageExactly(
      u: Unicode, ns: Text, key: Text, nonce: int, value: Text, policy: SweepPolicy, alreadySwept: bool)
    requires NotePayload(u, ns, key, nonce, value, policy, alreadySwept).Ok?
    ensures IsMessage(u, NotePayload(u, ns, key, nonce, value, policy, alreadySwept).value) <==>
              && ValidRoom(u, ns) && NonceNumeral(key)
              && |Decimal.Print(nonce)| + 1 + |SweptText(u, value, policy, alreadySwept)| <= MAX_MESSAGE_CHARS
  {
    var note := NotePayload(u, ns, key, nonce, value, policy, alreadySwept);
    var y := SweptText(u, value, policy, alreadySwept);
    var text := Decimal.Print(nonce) + [PIPE] + y;
    NonceNumerals(key);
    if room, n, t, p, s :| MessagePayload(u, room, n, t, p, s) == note {
      KindsCoincide(u, room, n, t, p, s, ns, key, nonce, value, policy, alreadySwept);
    }
    if ValidRoom(u, ns) && NonceNumeral(key) && |text| <= MAX_MESSAGE_CHARS {
      var n: nat :| ValidNonce(n) && key == Decimal.Print(n);
      assert MessageText(ns, n, text) == NoteText(ns, key, nonce, y);
      assert MessagePayload(u, ns, n, text, policy, true) == note;
    }
  }

  /** A table in which these characters are neither swept nor white space. */
  predicate Visible(u: Unicode, t: Text) {
    forall i :: 0 <= i < |t| ==> !u.swept(t[i]) && !u.space(t[i])
  }

  lemma VisibleIsFixed(u: Unicode, t: Text)
    requires u.Valid() && Visible(u, t)
    ensures Sweep(u, t, DEFAULT_SWEEP) == t && Utf8.Encodable(t)
  {
    SweptIsFixed(u, t, DEFAULT_SWEEP);
  }

  /** A short visible message, and a short visible note, are accepted as they stand. */
  lemma ShownMessage(u: Unicode, a: CodePoint, nonce: nat, text: Text)
    requires u.Valid() && NameStart(a) && Visible(u, [a]) && nonce < 10
    requires 0 < |text| <= 10 && Visible(u, text)
    ensures Utf8.Encodable(MessageText([a], nonce, text))
    ensures MessagePayload(u, [a], nonce, text, DEFAULT_SWEEP, false) == Ok(Utf8.Encode(MessageText([a], nonce, text)))
  {
    VisibleIsFixed(u, [a]);
    VisibleIsFixed(u, text);
    AsciiEncodable(Decimal.Print(nonce));
    ConcatEncodable(Decimal.Print(nonce), text);
    ConcatEncodable([a], Decimal.Print(nonce) + [PIPE] + text);
  }

  lemma ShownNote(u: Unicode, a: CodePoint, key: nat, nonce: nat, x: CodePoint)
    requires u.Valid() && NameStart(a) && key < 10 && nonce < 10 && Visible(u, [x])
    ensures Utf8.Encodable(NoteText([a], Decimal.Print(key), nonce, [x]))
    ensures NotePayload(u, [a], Decimal.Print(key), nonce, [x], DEFAULT_SWEEP, false) ==
            Ok(Utf8.Encode(NoteText([a], Decimal.Print(key), nonce, [x])))
  {
    VisibleIsFixed(u, [x]);
    AsciiEncodable(Decimal.Print(nonce));
    AsciiEncodable(Decimal.Print(key));
    ConcatEncodable(Decimal.Print(nonce), [x]);
    ConcatEncodable(Decimal.Print(key), Decimal.Print(nonce) + [PIPE] + [x]);
    ConcatEncodable([a], Decimal.Print(key) + [PIPE] + (Decimal.Print(nonce) + [PIPE] + [x]));
    assert Utf8.Encode([x]) == Utf8.EncodeChar(x) + Utf8.Encode([x][1..]);
  }

  /** The collision on default, unswept input, in every table that shows the characters used: a room and
      namespace of one letter or digit, nonces below ten, and any one-character value. */
  lemma KindsCollide(u: Unicode, a: CodePoint, nonce: nat, noteNonce: nat, x: CodePoint)
    requires u.Valid() && NameStart(a) && nonce < 10 && noteNonce < 10
    requires Visible(u, [a]) && Visible(u, [Decimal.ZERO + noteNonce, PIPE, x])
    ensures var text := Decimal.Print(noteNonce) + [PIPE] + [x];
            && MessagePayload(u, [a], nonce, text, DEFAULT_SWEEP, false).Ok?
            && MessagePayload(u, [a], nonce, text, DEFAULT_SWEEP, false) ==
               NotePayload(u, [a], Decimal.Print(nonce), noteNonce, [x], DEFAULT_SWEEP, false)
  {
    var text := [Decimal.ZERO + noteNonce, PIPE, x];
    assert text == Decimal.Print(noteNonce) + [PIPE] + [x] && [x] == [text[2]];
    ShownMessage(u, a, nonce, text);
    ShownNote(u, a, nonce, noteNonce, x);
    assert MessageText([a], nonce, text) == NoteText([a], Decimal.Print(nonce), noteNonce, [x]);
  }

  // ----- names against the server's charset -------------------------------------------------------

  /** An accepted name is in the server's charset exactly when it holds no newline: the pattern's `$`
      lets one trailing newline through. */
  lemma NamesInCharset(t: Text)
    requires ValidName(t)
    ensures NameChars(t) <==> '\n' as int !in t
  {
    if !NameChars(t) {
      assert t[|t| - 1] in t;
    }
  }

  /** But for that newline a name is one to 48 lower-case letters, digits, underscores and hyphens, and begins
      with neither of the last two. */
  lemma NamesExactly(t: Text)
    ensures ValidName(t) <==>
              var s := if |t| > 1 && t[|t| - 1] == '\n' as int then t[..|t| - 1] else t;
              && 1 <= |s| <= 48 && s[0] != '_' as int && s[0] != '-' as int
              && forall i :: 0 <= i < |s| ==>
                   || 'a' as int <= s[i] <= 'z' as int || '0' as int <= s[i] <= '9' as int
                   || s[i] == '_' as int || s[i] == '-' as int
  {
  }

  /** Such a name: any name of up to 48 characters and a newline is accepted and outside the charset. */
  lemma NewlineNamePasses(t: Text)
    requires NameChars(t)
    ensures ValidName(t + ['\n' as int]) && !NameChars(t + ['\n' as int])
  {
    var s := t + ['\n' as int];
    assert s[..|s| - 1] == t && s[|t|] == '\n' as int;
  }
}
