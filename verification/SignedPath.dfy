/** The signed-write URL path: printed by the client, split and unquoted by the server (section 2.1 of
    RFC 3986 for percent-encoding). */
module SignedPath {
  import opened Common
  import opened Split
  import opened Canonical
  import opened Payload
  import opened Verifier
  import Decimal
  import Did
  import Utf8

  // ----- percent-encoding -------------------------------------------------------------------------

  const PERCENT: CodePoint := 0x25

  predicate Unreserved(b: int) {
    || 'A' as int <= b <= 'Z' as int || 'a' as int <= b <= 'z' as int || '0' as int <= b <= '9' as int
    || b == '_' as int || b == '.' as int || b == '-' as int || b == '~' as int
  }

  function HexUpper(d: int): CodePoint
    requires 0 <= d < 16
  {
    if d < 10 then 0x30 + d else 0x41 + d - 10
  }

  function QuoteByte(b: Byte): (t: Text)
    ensures |t| >= 1
  {
    if Unreserved(b) then [b] else [PERCENT, HexUpper(b / 16), HexUpper(b % 16)]
  }

  function QuoteBytes(bs: seq<Byte>): Text {
    if bs == [] then [] else QuoteByte(bs[0]) + QuoteBytes(bs[1..])
  }

  /** `quote(text, safe="")`; None is the UnicodeEncodeError of a lone surrogate. */
  function Quote(t: Text): Option<Text> {
    if Utf8.Encodable(t) then Some(Quoted(t)) else None
  }

  function Quoted(t: Text): Text
    requires Utf8.Encodable(t)
  {
    QuoteBytes(Utf8.Encode(t))
  }

  /** `unquote_to_bytes`: a '%' that two hex digits do not follow stands for itself. */
  function UnquoteBytes(t: Text): seq<Byte>
    requires AsciiText(t)
    decreases |t|
  {
    if t == [] then []
    else if t[0] == PERCENT && |t| >= 3 && HexValue(t[1]).Some? && HexValue(t[2]).Some? then
      [16 * HexValue(t[1]).value + HexValue(t[2]).value] + UnquoteBytes(t[3..])
    else [t[0]] + UnquoteBytes(t[1..])
  }

  /** `unquote` of ASCII text; None where the bytes are not UTF-8. */
  function Unquote(t: Text): Option<Text>
    requires AsciiText(t)
  {
    Utf8.Decode(UnquoteBytes(t))
  }

  /** What percent-encoding prints with. */
  predicate PathSafe(t: Text) {
    forall i :: 0 <= i < |t| ==> Unreserved(t[i]) || t[i] == PERCENT
  }

  lemma {:induction false} QuotedIsSafe(bs: seq<Byte>)
    ensures PathSafe(QuoteBytes(bs)) && AsciiText(QuoteBytes(bs))
    ensures bs != [] ==> QuoteBytes(bs) != []
  {
    if bs != [] {
      QuotedIsSafe(bs[1..]);
    }
  }

  lemma {:induction false} UnquoteQuotedBytes(bs: seq<Byte>)
    ensures AsciiText(QuoteBytes(bs)) && UnquoteBytes(QuoteBytes(bs)) == bs
  {
    QuotedIsSafe(bs);
    if bs != [] {
      QuotedIsSafe(bs[1..]);
      UnquoteQuotedBytes(bs[1..]);
      var q, rest := QuoteBytes(bs), QuoteBytes(bs[1..]);
      var k := |QuoteByte(bs[0])|;
      assert q[k..] == rest;
      assert forall i :: 0 <= i < k ==> q[i] == QuoteByte(bs[0])[i];
      assert bs == [bs[0]] + bs[1..];
    }
  }

  /** `decode_path_segment` undoes `encode_path_segment` on every text that can be encoded, and the
      encoding holds no path, query or fragment delimiter. */
  lemma SegmentRoundTrip(t: Text)
    ensures Quote(t).Some? <==> Utf8.Encodable(t)
    ensures Quote(t).Some? ==>
      && PathSafe(Quote(t).value) && AsciiText(Quote(t).value)
      && Unquote(Quote(t).value) == Some(t)
      && (t != [] ==> Quote(t).value != [])
  {
    if Utf8.Encodable(t) {
      QuotedIsSafe(Utf8.Encode(t));
      UnquoteQuotedBytes(Utf8.Encode(t));
      Utf8.DecodeEncode(t);
    }
  }

  /** Percent-encoding as section 2 of RFC 3986 has it: letters, digits, '-', '.', '_' and '~' as they are, or
      any byte as '%' and two hexadecimal digits. */
  predicate Encoding(t: Text) {
    t == [] ||
    (&& ('A' as int <= t[0] <= 'Z' as int || 'a' as int <= t[0] <= 'z' as int || '0' as int <= t[0] <= '9' as int
         || t[0] == '-' as int || t[0] == '.' as int || t[0] == '_' as int || t[0] == '~' as int)
     && Encoding(t[1..])) ||
    (t[0] == '%' as int && |t| >= 3 && HexValue(t[1]).Some? && HexValue(t[2]).Some? && Encoding(t[3..]))
  }

  /** The same character, or a lower-case hexadecimal letter for which the other has the upper-case one. */
  predicate SameOrUpper(c: CodePoint, d: CodePoint) {
    c == d || ('a' as int <= c <= 'f' as int && d == c - 32)
  }

  lemma {:induction false} EncodingIsAscii(t: Text)
    requires Encoding(t)
    ensures AsciiText(t)
    decreases |t|
  {
    if t != [] {
      if t[0] == PERCENT {
        EncodingIsAscii(t[3..]);
        assert forall i :: 3 <= i < |t| ==> t[i] == t[3..][i - 3];
      } else {
        EncodingIsAscii(t[1..]);
      }
    }
  }

  lemma HexPair(c: CodePoint, d: CodePoint, b: Byte)
    requires HexValue(c).Some? && HexValue(d).Some? && b == 16 * HexValue(c).value + HexValue(d).value
    ensures SameOrUpper(c, HexUpper(b / 16)) && SameOrUpper(d, HexUpper(b % 16))
  {
  }

  /** What an encoding spells first, and in how many characters. */
  lemma FirstEncoded(t: Text) returns (n: nat)
    requires Encoding(t) && t != [] && AsciiText(t)
    ensures (n == 1 || n == 3) && n <= |t| && Encoding(t[n..]) && AsciiText(t[n..]) && UnquoteBytes(t) != []
    ensures UnquoteBytes(t)[1..] == UnquoteBytes(t[n..])
    ensures var q := QuoteByte(UnquoteBytes(t)[0]);
            |q| <= n && (|q| == n ==> forall i :: 0 <= i < n ==> SameOrUpper(t[i], q[i]))
  {
    if t[0] == PERCENT {
      n := 3;
      HexPair(t[1], t[2], 16 * HexValue(t[1]).value + HexValue(t[2]).value);
    } else {
      n := 1;
    }
  }

  /** Of all percent-encodings of some bytes, the one printed is no longer than any, and any other of its length
      only has some hexadecimal digits in lower case. */
  lemma {:induction false} QuotedIsShortest(t: Text)
    requires Encoding(t) && AsciiText(t)
    ensures var q := QuoteBytes(UnquoteBytes(t));
            |q| <= |t| && (|q| == |t| ==> forall i :: 0 <= i < |t| ==> SameOrUpper(t[i], q[i]))
    decreases |t|
  {
    if t != [] {
      var bs := UnquoteBytes(t);
      var n := FirstEncoded(t);
      QuotedIsShortest(t[n..]);
      var q, rest := QuoteByte(bs[0]), QuoteBytes(bs[1..]);
      assert QuoteBytes(bs) == q + rest;
      forall i | 0 <= i < |t| && |q + rest| == |t| ensures SameOrUpper(t[i], (q + rest)[i]) {
        assert i >= n ==> t[i] == t[n..][i - n];
      }
    }
  }

  lemma {:induction false} QuotedIsEncoding(bs: seq<Byte>)
    ensures Encoding(QuoteBytes(bs))
  {
    if bs != [] {
      QuotedIsEncoding(bs[1..]);
      var q := QuoteBytes(bs);
      assert q[|QuoteByte(bs[0])|..] == QuoteBytes(bs[1..]);
    }
  }

  // ----- the client prints ------------------------------------------------------------------------

  datatype SignedWrite = SignedWrite(
    did: Text, room: Text, nonce: PyInt, text: Text, sweptText: Text, signature: Text, payload: seq<Byte>)

  /** This check accepts what the signer signs, under the key its DID spells. */
  ghost predicate Accepts(check: KeyCheck, s: Signer) {
    Did.DecodeDidKey(s.did).Ok? && forall p :: check(Did.DecodeDidKey(s.did).value, s.sign(p), p)
  }

  /** A key pair: `sign` gives the signature as base64url text, `check` is the local verification. */
  datatype Signer = Signer(did: Text, sign: seq<Byte> -> Text, check: KeyCheck) {
    ghost predicate Honest() {
      Accepts(check, this) && forall p :: AsciiText(sign(p))
    }
  }

  /** SendRefused is the TechnocoreError of a signature that does not verify locally, CheckRaised the
      UnicodeEncodeError of checking it. */
  datatype BuildResult = Built(write: SignedWrite) | PayloadRefused(error: PayloadError) | SendRefused | CheckRaised

  /** `SignedWrite.verifies`: rebuild the payload from the parts and check the signature over it. A nonce
      that is a bool builds no payload. */
  function SelfCheck(u: Unicode, check: KeyCheck, w: SignedWrite): Answer {
    match w.nonce
    case PyBool(_) => No
    case PyInt(nonce) => VerifyMessage(u, check, w.did, w.signature, w.room, nonce, w.sweptText)
  }

  function BuildSignedMessage(u: Unicode, s: Signer, room: Text, nonce: int, text: Text): BuildResult {
    if !ValidRoom(u, room) || !ValidNonce(nonce) then PayloadRefused(Canonicalisation)
    else
      var swept := Sweep(u, text, DEFAULT_SWEEP);
      var payload := MessagePayload(u, room, nonce, swept, DEFAULT_SWEEP, true);
      if payload.Error? then PayloadRefused(payload.error)
      else
        var w := SignedWrite(s.did, room, PyInt(nonce), text, swept, s.sign(payload.value), payload.value);
        match SelfCheck(u, s.check, w)
        case Yes => Built(w)
        case No => SendRefused
        case Raises => CheckRaised
  }

  /** Printing the path does not raise: every segment it quotes can be encoded. */
  predicate PathPrints(w: SignedWrite) {
    Quote(w.room).Some? && Quote(w.did).Some? && Quote(w.signature).Some? && Quote(w.sweptText).Some?
  }

  /** What the server needs of a path to read it back: a room, a text and a numeral, and that it prints. */
  predicate Printable(w: SignedWrite) {
    w.nonce.PyInt? && w.nonce.n >= 0 && w.room != [] && w.sweptText != [] && PathPrints(w)
  }

  const ROOMS: Text := Lit("r")
  const SAY_SIGNED: Text := Lit("say-signed")

  function Segments(w: SignedWrite): seq<Text>
    requires Printable(w)
  {
    [ROOMS, Quoted(w.room), SAY_SIGNED, Quoted(w.did), Quoted(w.signature), Decimal.Print(w.nonce.n),
     Quoted(w.sweptText)]
  }

  /** `SignedWrite.path`: /r/<room>/say-signed/<did>/<signature>/<nonce>/<swept text>. */
  function Path(w: SignedWrite): Text
    requires Printable(w)
  {
    [SLASH] + Join(Segments(w), SLASH)
  }

  lemma JoinFirst(a: Text, rest: seq<Text>)
    requires rest != []
    ensures Join([a] + rest, SLASH) == a + Lit("/") + Join(rest, SLASH)
  {
    assert ([a] + rest)[1..] == rest && Lit("/") == [SLASH];
  }

  /** The path, written out. */
  lemma PathSpelled(w: SignedWrite)
    requires Printable(w)
    ensures Path(w) ==
            Lit("/r/") + (Quoted(w.room) + Lit("/say-signed/") + (Quoted(w.did) + Lit("/") + (Quoted(w.signature) +
            Lit("/") + (Decimal.Print(w.nonce.n) + Lit("/") + Quoted(w.sweptText)))))
  {
    var (a, b, c, d, e) :=
      (Quoted(w.room), Quoted(w.did), Quoted(w.signature), Decimal.Print(w.nonce.n), Quoted(w.sweptText));
    JoinFirst(d, [e]);
    JoinFirst(c, [d, e]);
    JoinFirst(b, [c, d, e]);
    JoinFirst(SAY_SIGNED, [b, c, d, e]);
    JoinFirst(a, [SAY_SIGNED, b, c, d, e]);
    JoinFirst(ROOMS, [a, SAY_SIGNED, b, c, d, e]);
    assert [d] + [e] == [d, e] && [c] + [d, e] == [c, d, e] && [b] + [c, d, e] == [b, c, d, e];
    assert [SAY_SIGNED] + [b, c, d, e] == [SAY_SIGNED, b, c, d, e];
    assert [a] + [SAY_SIGNED, b, c, d, e] == [a, SAY_SIGNED, b, c, d, e];
    assert [ROOMS] + [a, SAY_SIGNED, b, c, d, e] == Segments(w);
    PathGrouped(a, Join([b, c, d, e], SLASH));
  }

  lemma PathGrouped(a: Text, rest: Text)
    ensures [SLASH] + (ROOMS + Lit("/") + (a + Lit("/") + (SAY_SIGNED + Lit("/") + rest))) ==
            Lit("/r/") + (a + Lit("/say-signed/") + rest)
  {
    assert Lit("/r/") == [SLASH] + ROOMS + Lit("/");
    assert Lit("/say-signed/") == Lit("/") + SAY_SIGNED + Lit("/");
  }

  /** The self-check says yes exactly of a write whose nonce is an int and whose signature the key of its DID
      checks over the payload of its room, nonce and text. */
  lemma SelfCheckExactly(u: Unicode, check: KeyCheck, w: SignedWrite)
    ensures SelfCheck(u, check, w).Yes? <==>
              && w.nonce.PyInt?
              && var p := MessagePayload(u, w.room, w.nonce.n, w.sweptText, DEFAULT_SWEEP, false);
                 p.Ok? && SignedBy(check, w.did, w.signature, p.value)
  {
    if w.nonce.PyInt? {
      VerifyMessageAnswers(u, check, w.did, w.signature, w.room, w.nonce.n, w.sweptText);
    }
  }

  /** What a built write holds. */
  lemma BuiltWrite(u: Unicode, s: Signer, room: Text, nonce: int, text: Text)
    requires u.Valid() && BuildSignedMessage(u, s, room, nonce, text).Built?
    ensures var w := BuildSignedMessage(u, s, room, nonce, text).write;
            && w.did == s.did && w.room == room && w.nonce == PyInt(nonce) && w.text == text
            && w.sweptText == Sweep(u, text, DEFAULT_SWEEP) && w.signature == s.sign(w.payload)
            && MessagePayload(u, room, nonce, text, DEFAULT_SWEEP, false) == Ok(w.payload)
            && SignedBy(s.check, w.did, w.signature, w.payload)
  {
    var w := BuildSignedMessage(u, s, room, nonce, text).write;
    SweepIdempotent(u, text, DEFAULT_SWEEP);
    SelfCheckExactly(u, s.check, w);
  }

  // ----- the server reads -------------------------------------------------------------------------

  function CutBefore(t: Text, sep: CodePoint): Text {
    if t == [] || t[0] == sep then [] else [t[0]] + CutBefore(t[1..], sep)
  }

  function LastSlash(t: Text): (k: nat)
    ensures k <= |t|
  {
    if t == [] then 0 else if t[|t| - 1] == SLASH then |t| - 1 else LastSlash(t[..|t| - 1])
  }

  /** `urlparse(target).path` for a target that starts with one slash: no fragment, no query, and no
      parameters after a ';' in the last segment. */
  function PathOf(target: Text): Text {
    var t := CutBefore(CutBefore(target, '#' as int), '?' as int);
    var k := LastSlash(t);
    t[..k] + CutBefore(t[k..], ';' as int)
  }

  function StripSlashes(t: Text): Text {
    if t == [] then []
    else if t[0] == SLASH then StripSlashes(t[1..])
    else if t[|t| - 1] == SLASH then StripSlashes(t[..|t| - 1])
    else t
  }

  datatype Request =
    | SaySigned(room: Text, did: Text, sig: Text, nonceText: Text, text: Text)
    | Elsewhere

  function UnquoteAll(parts: seq<Text>): Option<seq<Text>>
    requires forall k :: 0 <= k < |parts| ==> AsciiText(parts[k])
  {
    if parts == [] then Some([])
    else
      match (Unquote(parts[0]), UnquoteAll(parts[1..]))
      case (Some(t), Some(ts)) => Some([t] + ts)
      case _ => None
  }

  lemma {:induction false} PartsAscii(t: Text, sep: CodePoint)
    requires AsciiText(t)
    ensures forall k :: 0 <= k < |SplitOn(t, sep)| ==> AsciiText(SplitOn(t, sep)[k])
  {
    if t != [] {
      PartsAscii(t[1..], sep);
    }
  }

  lemma {:induction false} StripSlashesAscii(t: Text)
    requires AsciiText(t)
    ensures AsciiText(StripSlashes(t))
    decreases |t|
  {
    if t != [] && t[0] == SLASH {
      StripSlashesAscii(t[1..]);
    } else if t != [] && t[|t| - 1] == SLASH {
      StripSlashesAscii(t[..|t| - 1]);
    }
  }

  /** `do_GET` up to the signed-write route, for an ASCII request path whose segments spell UTF-8. */
  function Route(path: Text): Request
    requires AsciiText(path)
  {
    StripSlashesAscii(path);
    PartsAscii(StripSlashes(path), SLASH);
    var parts := UnquoteAll(SplitOn(StripSlashes(path), SLASH));
    if path == Lit("/.well-known/agent.json") || path == Lit("/rooms") || parts.None? then Elsewhere
    else Dispatch(parts.value)
  }

  function Dispatch(p: seq<Text>): Request {
    if |p| >= 7 && p[0] == ROOMS && p[2] == SAY_SIGNED then SaySigned(p[1], p[3], p[4], p[5], Join(p[6..], SLASH))
    else Elsewhere
  }

  /** Unreadable is the ValueError of `int`, which nothing catches. */
  datatype NonceReading = NotNonce | Unreadable | Nonce(value: nat)

  predicate IsDigits(u: Unicode, t: Text) {
    t != [] && forall i :: 0 <= i < |t| ==> !u.digit(t[i]).NotDigit?
  }

  /** `int` of a text of digits, from any script. */
  function ReadDigits(u: Unicode, t: Text): Option<nat> {
    if t == [] then Some(0)
    else
      match (ReadDigits(u, t[..|t| - 1]), u.digit(t[|t| - 1]))
      case (Some(n), DecimalDigit(d)) => Some(n * 10 + d)
      case _ => None
  }

  /** The server's check of the nonce and its reading. */
  function ReadNonce(u: Unicode, t: Text): NonceReading {
    if !IsDigits(u, t) || !(1 <= |t| <= 19) then NotNonce
    else
      match ReadDigits(u, t)
      case None => Unreadable
      case Some(n) => Nonce(n)
  }

  lemma {:induction false} ReadAsciiDigits(u: Unicode, t: Text)
    requires u.Valid() && Decimal.AllDigits(t)
    ensures t != [] ==> IsDigits(u, t)
    ensures ReadDigits(u, t) == Some(Decimal.Read(t))
  {
    if t != [] {
      ReadAsciiDigits(u, t[..|t| - 1]);
    }
  }

  /** A printed nonce is read back. */
  lemma ReadPrintedNonce(u: Unicode, nonce: int)
    requires u.Valid() && ValidNonce(nonce)
    ensures ReadNonce(u, Decimal.Print(nonce)) == Nonce(nonce)
  {
    ReadAsciiDigits(u, Decimal.Print(nonce));
    Decimal.ReadPrint(nonce);
  }

  /** The text the server verifies the signature over, once it has read a nonce. */
  function ServerText(u: Unicode, r: Request, nonce: nat): Text
    requires r.SaySigned?
  {
    MessageText(r.room, nonce, Sweep(u, r.text, DEFAULT_SWEEP))
  }

  // ----- what the client signed is what the server verifies ----------------------------------------

  lemma {:induction false} UnreservedQuotesItself(t: Text)
    requires forall i :: 0 <= i < |t| ==> Unreserved(t[i])
    ensures Utf8.Encodable(t) && Quoted(t) == t
  {
    if t != [] {
      UnreservedQuotesItself(t[1..]);
      assert Utf8.Encode(t)[1..] == Utf8.Encode(t[1..]);
      assert t == [t[0]] + t[1..];
    }
  }

  /** The seven texts the segments spell. */
  function Texts(w: SignedWrite): seq<Text>
    requires w.nonce.PyInt? && w.nonce.n >= 0
  {
    [ROOMS, w.room, SAY_SIGNED, w.did, w.signature, Decimal.Print(w.nonce.n), w.sweptText]
  }

  predicate AllEncodable(ts: seq<Text>) {
    forall k :: 0 <= k < |ts| ==> Utf8.Encodable(ts[k])
  }

  function QuoteAll(ts: seq<Text>): (qs: seq<Text>)
    requires AllEncodable(ts)
    ensures |qs| == |ts|
  {
    seq(|ts|, k requires 0 <= k < |ts| => Quoted(ts[k]))
  }

  lemma LiteralsQuoteThemselves(nonce: nat)
    ensures Utf8.Encodable(ROOMS) && Quoted(ROOMS) == ROOMS
    ensures Utf8.Encodable(SAY_SIGNED) && Quoted(SAY_SIGNED) == SAY_SIGNED
    ensures Utf8.Encodable(Decimal.Print(nonce)) && Quoted(Decimal.Print(nonce)) == Decimal.Print(nonce)
  {
    UnreservedQuotesItself(ROOMS);
    UnreservedQuotesItself(SAY_SIGNED);
    UnreservedQuotesItself(Decimal.Print(nonce));
  }

  lemma QuoteSeven(a: Text, b: Text, c: Text, d: Text, e: Text, f: Text, g: Text)
    requires Utf8.Encodable(a) && Utf8.Encodable(b) && Utf8.Encodable(c) && Utf8.Encodable(d)
    requires Utf8.Encodable(e) && Utf8.Encodable(f) && Utf8.Encodable(g)
    ensures AllEncodable([a, b, c, d, e, f, g])
    ensures QuoteAll([a, b, c, d, e, f, g]) ==
            [Quoted(a), Quoted(b), Quoted(c), Quoted(d), Quoted(e), Quoted(f), Quoted(g)]
  {
  }

  lemma SegmentsAreQuoted(w: SignedWrite)
    requires Printable(w)
    ensures AllEncodable(Texts(w)) && Segments(w) == QuoteAll(Texts(w))
  {
    LiteralsQuoteThemselves(w.nonce.n);
    QuoteSeven(ROOMS, w.room, SAY_SIGNED, w.did, w.signature, Decimal.Print(w.nonce.n), w.sweptText);
  }

  lemma {:induction false} UnquoteQuoteAll(ts: seq<Text>)
    requires AllEncodable(ts)
    ensures forall k :: 0 <= k < |ts| ==> AsciiText(QuoteAll(ts)[k])
    ensures UnquoteAll(QuoteAll(ts)) == Some(ts)
  {
    forall k | 0 <= k < |ts| ensures AsciiText(QuoteAll(ts)[k]) {
      SegmentRoundTrip(ts[k]);
    }
    if ts != [] {
      SegmentRoundTrip(ts[0]);
      UnquoteQuoteAll(ts[1..]);
      assert QuoteAll(ts)[1..] == QuoteAll(ts[1..]);
      assert ts == [ts[0]] + ts[1..];
    }
  }

  /** Only unreserved characters, '%' and '/'. */
  predicate PathChars(t: Text) {
    forall i :: 0 <= i < |t| ==> Unreserved(t[i]) || t[i] == PERCENT || t[i] == SLASH
  }

  lemma {:induction false} JoinedChars(parts: seq<Text>)
    requires |parts| > 0 && forall k :: 0 <= k < |parts| ==> PathSafe(parts[k])
    requires parts[|parts| - 1] != []
    ensures var t := Join(parts, SLASH); PathChars(t) && t != [] && t[|t| - 1] != SLASH
  {
    if |parts| > 1 {
      JoinedChars(parts[1..]);
    }
  }

  lemma {:induction false} CutNothing(t: Text, sep: CodePoint)
    requires sep !in t
    ensures CutBefore(t, sep) == t
  {
    if t != [] {
      CutNothing(t[1..], sep);
      assert t == [t[0]] + t[1..];
    }
  }

  lemma PathOfPathChars(t: Text)
    requires PathChars(t)
    ensures PathOf(t) == t
  {
    CutNothing(t, '#' as int);
    CutNothing(t, '?' as int);
    CutNothing(t[LastSlash(t)..], ';' as int);
  }

  lemma SegmentsSafe(w: SignedWrite)
    requires Printable(w)
    ensures forall k :: 0 <= k < 7 ==> PathSafe(Segments(w)[k]) && SLASH !in Segments(w)[k]
    ensures Segments(w)[6] != []
  {
    SegmentsAreQuoted(w);
    forall k | 0 <= k < 7 ensures PathSafe(Segments(w)[k]) && SLASH !in Segments(w)[k] {
      SegmentRoundTrip(Texts(w)[k]);
    }
    SegmentRoundTrip(w.sweptText);
  }

  /** Stripping the slashes of the path leaves the joined segments, and splitting those the segments. */
  lemma PathStripped(w: SignedWrite)
    requires Printable(w)
    ensures PathChars(Path(w)) && StripSlashes(Path(w)) == Join(Segments(w), SLASH)
    ensures SplitOn(Join(Segments(w), SLASH), SLASH) == Segments(w)
  {
    var t := Join(Segments(w), SLASH);
    SegmentsSafe(w);
    JoinedChars(Segments(w));
    SplitJoin(Segments(w), SLASH);
    JoinHead(Segments(w));
    assert Path(w)[1..] == t;
  }

  /** The joined segments begin with "r/". */
  lemma JoinHead(parts: seq<Text>)
    requires |parts| > 1 && parts[0] == ROOMS
    ensures var t := Join(parts, SLASH); |t| > 1 && t[0] == 'r' as int && t[1] == SLASH
  {
  }

  lemma PathCharsAscii(t: Text)
    requires PathChars(t)
    ensures AsciiText(t)
  {
  }

  /** The path is neither of the two fixed routes. */
  lemma PathIsNoFixedRoute(w: SignedWrite)
    requires Printable(w)
    ensures Path(w) != Lit("/.well-known/agent.json") && Path(w) != Lit("/rooms")
  {
    JoinHead(Segments(w));
    assert Path(w)[2] == SLASH;
    assert Lit("/.well-known/agent.json")[2] != SLASH && Lit("/rooms")[2] != SLASH;
  }

  /** Whatever printable write the client sends, the server parses the printed path back into exactly
      its room, DID, signature, nonce and swept text. */
  lemma ServerReadsPath(w: SignedWrite)
    requires Printable(w)
    ensures PathOf(Path(w)) == Path(w) && AsciiText(Path(w))
    ensures Route(Path(w)) == SaySigned(w.room, w.did, w.signature, Decimal.Print(w.nonce.n), w.sweptText)
  {
    PathStripped(w);
    PathCharsAscii(Path(w));
    PathOfPathChars(Path(w));
    PathIsNoFixedRoute(w);
    SegmentsAreQuoted(w);
    UnquoteQuoteAll(Texts(w));
    DispatchTexts(w);
  }

  lemma DispatchTexts(w: SignedWrite)
    requires w.nonce.PyInt? && w.nonce.n >= 0
    ensures Dispatch(Texts(w)) == SaySigned(w.room, w.did, w.signature, Decimal.Print(w.nonce.n), w.sweptText)
  {
    assert Texts(w)[6..] == [w.sweptText];
  }

  /** A DID that spells a key is ASCII. */
  lemma SpelledDidIsAscii(did: Text)
    requires Did.DecodeDidKey(did).Ok?
    ensures AsciiText(did) && Utf8.Encodable(did)
  {
    Did.NotAsciiExactly(did);
    Did.WholePrefix(did);
  }

  /** Of a write that passes its self-check, only the signature and the text as it stands can keep the path
      from printing, and a path that prints can be read back. */
  lemma PrintsExactly(u: Unicode, check: KeyCheck, w: SignedWrite)
    requires u.Valid() && SelfCheck(u, check, w).Yes?
    ensures PathPrints(w) <==> Utf8.Encodable(w.signature) && Utf8.Encodable(w.sweptText)
    ensures PathPrints(w) <==> Printable(w)
  {
    SpelledDidIsAscii(w.did);
    SweptEncodable(u, w.room, DEFAULT_SWEEP);
    EmptySweep(u, w.sweptText, DEFAULT_SWEEP);
  }

  /** A raw text with a surrogate verifies as well as its sweep, which the self-check repeats, and its path
      does not print. */
  lemma RawTextVerifies(u: Unicode, s: Signer, room: Text, nonce: int, text: Text)
    requires u.Valid() && BuildSignedMessage(u, s, room, nonce, text).Built? && !Utf8.Encodable(text)
    ensures var raw := BuildSignedMessage(u, s, room, nonce, text).write.(sweptText := text);
            SelfCheck(u, s.check, raw).Yes? && !PathPrints(raw)
  {
    SweepIdempotent(u, text, DEFAULT_SWEEP);
  }

  /** For every room, nonce and text that the client accepts and signs, the server rebuilds from the
      path exactly the bytes that were signed, so the signature checks there as it does here. */
  lemma ServerRebuildsPayload(u: Unicode, s: Signer, room: Text, nonce: int, text: Text)
    requires u.Valid() && BuildSignedMessage(u, s, room, nonce, text).Built?
    requires Utf8.Encodable(BuildSignedMessage(u, s, room, nonce, text).write.signature)
    ensures var w := BuildSignedMessage(u, s, room, nonce, text).write;
            && Printable(w) && AsciiText(Path(w))
            && var r := Route(Path(w));
               && r.SaySigned? && r.did == s.did && r.room == room && r.sig == s.sign(w.payload)
               && ReadNonce(u, r.nonceText) == Nonce(nonce)
               && Utf8.Encodable(ServerText(u, r, nonce)) && Utf8.Encode(ServerText(u, r, nonce)) == w.payload
  {
    var w := BuildSignedMessage(u, s, room, nonce, text).write;
    SweptEncodable(u, text, DEFAULT_SWEEP);
    PrintsExactly(u, s.check, w);
    ServerReadsPath(w);
    SweepIdempotent(u, text, DEFAULT_SWEEP);
    ReadPrintedNonce(u, nonce);
  }

  /** An honest signer's message is never refused by the local signature check. */
  lemma HonestBuildsVerify(u: Unicode, s: Signer, room: Text, nonce: int, text: Text)
    requires u.Valid() && s.Honest()
    ensures var built := BuildSignedMessage(u, s, room, nonce, text);
            && !built.SendRefused? && !built.CheckRaised?
            && (built.Built? <==> MessagePayload(u, room, nonce, text, DEFAULT_SWEEP, false).Ok?)
  {
    SweepIdempotent(u, text, DEFAULT_SWEEP);
  }
}
