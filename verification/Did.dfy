/** Base58btc and `did:key` for Ed25519, with the independent decoder the stand-in server carries. */
module Did {
  import opened Common
  import opened Radix

  /** The characters from `first` to `last`. */
  function Letters(first: char, last: char): (t: Text)
    requires first <= last <= 'z'
    ensures |t| == last as int - first as int + 1
    ensures forall i :: 0 <= i < |t| ==> t[i] == first as int + i
  {
    seq(last as int - first as int + 1, i requires 0 <= i <= last as int - first as int => first as int + i)
  }

  /** Digits and letters without 0, I, O and l. */
  const ALPHABET: Text :=
    Letters('1', '9') + Letters('A', 'H') + Letters('J', 'N') + Letters('P', 'Z') + Letters('a', 'k')
    + Letters('m', 'z')

  const ONE: CodePoint := 0x31

  /** NotAscii is the UnicodeEncodeError of `text.encode("ascii")`; Malformed is DidKeyError. */
  datatype DidError = Malformed | NotAscii

  // ----- digits and characters ------------------------------------------------------------------

  lemma AlphabetAscends()
    ensures |ALPHABET| == 58 && ALPHABET[0] == ONE
    ensures forall i :: 0 <= i < 57 ==> ALPHABET[i] < ALPHABET[i + 1]
    ensures forall i :: 0 <= i < 58 ==> ALPHABET[i] < 128
  {
  }

  lemma {:induction false} AlphabetOrdered(i: nat, j: nat)
    requires i < j < 58
    ensures ALPHABET[i] < ALPHABET[j]
  {
    AlphabetAscends();
    if i + 1 < j {
      AlphabetOrdered(i, j - 1);
    }
  }

  /** An ASCII digit or letter that is not mistaken for another: not '0', 'I', 'O' or 'l'. */
  predicate Base58Char(c: CodePoint) {
    && ('0' as int <= c <= '9' as int || 'A' as int <= c <= 'Z' as int || 'a' as int <= c <= 'z' as int)
    && c != '0' as int && c != 'I' as int && c != 'O' as int && c != 'l' as int
  }

  lemma InLetters(first: char, last: char, c: CodePoint)
    requires first <= last <= 'z'
    ensures c in Letters(first, last) <==> first as int <= c <= last as int
  {
    if first as int <= c <= last as int {
      assert Letters(first, last)[c - first as int] == c;
    }
  }

  /** The alphabet holds these characters and no other; as it ascends, that fixes every digit. */
  lemma AlphabetExactly(c: CodePoint)
    ensures c in ALPHABET <==> Base58Char(c)
  {
    InLetters('1', '9', c);
    InLetters('A', 'H', c);
    InLetters('J', 'N', c);
    InLetters('P', 'Z', c);
    InLetters('a', 'k', c);
    InLetters('m', 'z', c);
  }

  function FindFrom(c: CodePoint, i: nat): (k: Option<nat>)
    requires i <= |ALPHABET|
    ensures k.Some? ==> i <= k.value < |ALPHABET| && ALPHABET[k.value] == c
    ensures k.None? ==> forall j :: i <= j < |ALPHABET| ==> ALPHABET[j] != c
    decreases |ALPHABET| - i
  {
    if i == |ALPHABET| then None
    else if ALPHABET[i] == c then Some(i)
    else FindFrom(c, i + 1)
  }

  function IndexOf(c: CodePoint): Option<nat> {
    FindFrom(c, 0)
  }

  lemma IndexOfChar(d: nat)
    requires d < 58
    ensures |ALPHABET| == 58 && IndexOf(ALPHABET[d]) == Some(d)
  {
    AlphabetAscends();
    var k := IndexOf(ALPHABET[d]).value;
    if k < d {
      AlphabetOrdered(k, d);
    } else if d < k {
      AlphabetOrdered(d, k);
    }
  }

  predicate Base58Text(t: Text) {
    forall i :: 0 <= i < |t| ==> IndexOf(t[i]).Some?
  }

  function DigitsOf(t: Text): (ds: seq<nat>)
    requires Base58Text(t)
    ensures |ds| == |t| && DigitsIn(ds, 58)
  {
    AlphabetAscends();
    seq(|t|, i requires 0 <= i < |t| => IndexOf(t[i]).value)
  }

  function CharsOf(ds: seq<nat>): (t: Text)
    requires DigitsIn(ds, 58)
    ensures |t| == |ds|
    ensures forall i :: 0 <= i < |ds| ==> ds[i] < |ALPHABET| && t[i] == ALPHABET[ds[i]]
  {
    AlphabetAscends();
    seq(|ds|, i requires 0 <= i < |ds| => ALPHABET[ds[i]])
  }

  lemma DigitsOfChars(ds: seq<nat>)
    requires DigitsIn(ds, 58)
    ensures Base58Text(CharsOf(ds)) && DigitsOf(CharsOf(ds)) == ds
  {
    forall i | 0 <= i < |ds| ensures IndexOf(CharsOf(ds)[i]) == Some(ds[i]) {
      IndexOfChar(ds[i]);
    }
  }

  lemma CharsOfDigits(t: Text)
    requires Base58Text(t)
    ensures CharsOf(DigitsOf(t)) == t
  {
  }

  // ----- base58btc ------------------------------------------------------------------------------

  function Base58(data: seq<Byte>): Text {
    ConvertBack(data, 256, 58);
    CharsOf(Convert(data, 256, 58))
  }

  /** Every character of an encoding is one of these. */
  lemma EncodedChars(data: seq<Byte>, i: nat)
    requires i < |Base58(data)|
    ensures Base58Char(Base58(data)[i])
  {
    ConvertBack(data, 256, 58);
    var ds := Convert(data, 256, 58);
    assert ALPHABET[ds[i]] in ALPHABET;
    AlphabetExactly(ALPHABET[ds[i]]);
  }

  function AsBytes(ds: seq<nat>): (b: seq<Byte>)
    requires DigitsIn(ds, 256)
    ensures b == ds
  {
    seq(|ds|, i requires 0 <= i < |ds| => ds[i])
  }

  function FromBase58(t: Text): Result<seq<Byte>, DidError> {
    if t == [] then Error(Malformed)
    else if !AsciiText(t) then Error(NotAscii)
    else if !Base58Text(t) then Error(Malformed)
    else
      ConvertBack(DigitsOf(t), 58, 256);
      Ok(AsBytes(Convert(DigitsOf(t), 58, 256)))
  }

  lemma Base58TextIsAscii(t: Text)
    requires Base58Text(t)
    ensures AsciiText(t)
  {
    AlphabetAscends();
    assert forall i :: 0 <= i < |t| ==> IndexOf(t[i]).Some?;
  }

  /** Encoding and decoding are mutual inverses: a text decodes to non-empty `data` exactly when it is
      the encoding of `data`, so leading zero bytes and leading '1's correspond one to one. */
  lemma Base58Inverse(t: Text, data: seq<Byte>)
    ensures FromBase58(t) == Ok(data) <==> data != [] && t == Base58(data)
  {
    if data != [] && t == Base58(data) {
      ConvertBack(data, 256, 58);
      DigitsOfChars(Convert(data, 256, 58));
      Base58TextIsAscii(t);
      ConvertEmpty(58, 256);
    }
    if FromBase58(t) == Ok(data) {
      var ds := DigitsOf(t);
      ConvertBack(ds, 58, 256);
      CharsOfDigits(t);
      ConvertEmpty(256, 58);
    }
  }

  // ----- the loops --------------------------------------------------------------------------------

  function Reverse<T>(s: seq<T>): (r: seq<T>)
    ensures |r| == |s|
    ensures forall i :: 0 <= i < |s| ==> r[i] == s[|s| - 1 - i]
  {
    seq(|s|, i requires 0 <= i < |s| => s[|s| - 1 - i])
  }

  lemma LeadingZerosUnique(ds: seq<nat>, k: nat)
    requires k <= |ds| && (forall i :: 0 <= i < k ==> ds[i] == 0) && (k < |ds| ==> ds[k] != 0)
    ensures LeadingZeros(ds) == k
  {
  }

  lemma DigitsStep(n: nat, base: nat)
    requires n > 0 && base >= 2
    ensures Digits(n, base) == Digits(n / base, base) + [n % base]
  {
  }

  lemma ReverseAppend<T>(s: seq<T>, x: T)
    ensures Reverse(s + [x]) == [x] + Reverse(s)
  {
  }

  /** The `divmod` loop: digits least significant first. */
  method LowDigitsFirst(n: nat, base: nat) returns (out: seq<nat>)
    requires base >= 2
    ensures Reverse(out) == Digits(n, base)
  {
    var rest: nat := n;
    out := [];
    while rest > 0
      invariant Digits(n, base) == Digits(rest, base) + Reverse(out)
      decreases rest
    {
      DigitsStep(rest, base);
      QuotientSmaller(rest, base);
      var (q, d) := (rest / base, rest % base);
      ReverseAppend(out, d);
      assert Digits(n, base) == Digits(q, base) + ([d] + Reverse(out));
      rest, out := q, out + [d];
    }
  }

  /** How many leading elements equal `x`. */
  method CountLeading(s: seq<int>, x: int) returns (k: nat)
    ensures k <= |s| && (forall i :: 0 <= i < k ==> s[i] == x) && (k < |s| ==> s[k] != x)
  {
    k := 0;
    while k < |s| && s[k] == x
      invariant k <= |s| && forall i :: 0 <= i < k ==> s[i] == x
    {
      k := k + 1;
    }
  }

  /** `_b58encode`: digits least significant first, then one '1' per leading zero byte, then reversed. */
  method Base58Encode(data: seq<Byte>) returns (text: Text)
    ensures text == Base58(data)
  {
    ConvertBack(data, 256, 58);
    var out := LowDigitsFirst(Value(data, 256), 58);
    var leading := CountLeading(data, 0);
    LeadingZerosUnique(data, leading);
    assert Reverse(out + Zeros(leading)) == Zeros(leading) + Reverse(out);
    return CharsOf(Reverse(out + Zeros(leading)));
  }

  /** `n.to_bytes(length, "big")`. */
  function ToBytes(n: nat, length: nat): seq<nat> {
    if length == 0 then [] else ToBytes(n / 256, length - 1) + [n % 256]
  }

  /** `n.bit_length()`. */
  function BitLength(n: nat): nat {
    if n == 0 then 0 else 1 + BitLength(n / 2)
  }

  lemma BitLengthByte(n: nat)
    requires n >= 256
    ensures BitLength(n) == BitLength(n / 256) + 8
  {
    var (n1, n2, n3, n4) := (n / 2, n / 4, n / 8, n / 16);
    var (n5, n6, n7, n8) := (n / 32, n / 64, n / 128, n / 256);
    assert n1 / 2 == n2 && n2 / 2 == n3 && n3 / 2 == n4 && n4 / 2 == n5 && n5 / 2 == n6 && n6 / 2 == n7 && n7 / 2 == n8;
    assert BitLength(n) == 1 + BitLength(n1) && BitLength(n1) == 1 + BitLength(n2);
    assert BitLength(n2) == 1 + BitLength(n3) && BitLength(n3) == 1 + BitLength(n4);
    assert BitLength(n4) == 1 + BitLength(n5) && BitLength(n5) == 1 + BitLength(n6);
    assert BitLength(n6) == 1 + BitLength(n7) && BitLength(n7) == 1 + BitLength(n8);
  }

  lemma {:induction false} BitLengthBound(n: nat, k: nat)
    requires n < Power(2, k)
    ensures BitLength(n) <= k
  {
    if n > 0 {
      BitLengthBound(n / 2, k - 1);
    }
  }

  lemma OneByteLong(n: nat)
    requires 0 < n < 256
    ensures (BitLength(n) + 7) / 8 == 1
  {
    assert Power(2, 8) == 256;
    BitLengthBound(n, 8);
  }

  lemma OneByte(n: nat)
    requires 0 < n < 256
    ensures ToBytes(n, 1) == [n] == Digits(n, 256)
  {
    assert n / 256 == 0 && n % 256 == n;
    assert ToBytes(0, 0) + [n] == [n] && Digits(0, 256) + [n] == [n];
  }

  /** The byte count computed from the bit length gives the shortest base-256 numeral. */
  lemma {:induction false} ToBytesIsShortest(n: nat)
    ensures ToBytes(n, (BitLength(n) + 7) / 8) == Digits(n, 256)
  {
    if n >= 256 {
      BitLengthByte(n);
      ToBytesIsShortest(n / 256);
    } else if n > 0 {
      OneByteLong(n);
      OneByte(n);
    }
  }

  /** One more character of a Horner evaluation. */
  lemma HornerStep(text: Text, i: nat)
    requires i < |text| && Base58Text(text[..i])
    ensures Base58Text(text[..i + 1]) <==> IndexOf(text[i]).Some?
    ensures IndexOf(text[i]).Some? ==>
              Value(DigitsOf(text[..i + 1]), 58) == Value(DigitsOf(text[..i]), 58) * 58 + IndexOf(text[i]).value
  {
    assert text[..i + 1] == text[..i] + [text[i]];
    if IndexOf(text[i]).Some? {
      var index := IndexOf(text[i]).value;
      assert Base58Text(text[..i + 1]);
      assert DigitsOf(text[..i + 1]) == DigitsOf(text[..i]) + [index];
      ValueAppend(DigitsOf(text[..i]), index, 58);
    } else {
      assert text[..i + 1][i] == text[i];
    }
  }

  /** The character loop: None at the first character outside the alphabet. */
  method Horner(text: Text) returns (n: Option<nat>)
    ensures n.Some? <==> Base58Text(text)
    ensures n.Some? ==> n.value == Value(DigitsOf(text), 58)
  {
    var v: nat := 0;
    for i := 0 to |text|
      invariant Base58Text(text[..i]) && v == Value(DigitsOf(text[..i]), 58)
    {
      HornerStep(text, i);
      var index := IndexOf(text[i]);
      if index.None? {
        return None;
      }
      v := v * 58 + index.value;
    }
    assert text[..|text|] == text;
    return Some(v);
  }

  lemma LeadingOnes(text: Text, k: nat)
    requires Base58Text(text) && k <= |text|
    requires (forall i :: 0 <= i < k ==> text[i] == ONE) && (k < |text| ==> text[k] != ONE)
    ensures LeadingZeros(DigitsOf(text)) == k
  {
    AlphabetAscends();
    IndexOfChar(0);
    LeadingZerosUnique(DigitsOf(text), k);
  }

  /** `n.to_bytes((n.bit_length() + 7) // 8, "big") if n else b""`. */
  function MinimalBytes(n: nat): (b: seq<nat>)
    ensures b == Digits(n, 256)
  {
    ToBytesIsShortest(n);
    if n > 0 then ToBytes(n, (BitLength(n) + 7) / 8) else []
  }

  /** `_b58decode`. */
  method Base58Decode(text: Text) returns (res: Result<seq<Byte>, DidError>)
    ensures res == FromBase58(text)
  {
    if text == [] {
      return Error(Malformed);
    }
    if !AsciiText(text) {
      return Error(NotAscii);
    }
    var n := Horner(text);
    if n.None? {
      return Error(Malformed);
    }
    var body := MinimalBytes(n.value);
    var leading := CountLeading(text, ONE);
    LeadingOnes(text, leading);
    ConvertBack(DigitsOf(text), 58, 256);
    return Ok(AsBytes(Zeros(leading) + body));
  }

  /** The stand-in server's own decoder: bytes least significant first, then left-padded. None is its
      ValueError. */
  method ServerBase58Decode(text: Text) returns (res: Option<seq<Byte>>)
    ensures text != [] ==> (res.Some? <==> FromBase58(text).Ok?)
    ensures text != [] && res.Some? ==> FromBase58(text) == Ok(res.value)
    ensures text == [] ==> res == Some([])
  {
    var num := Horner(text);
    if num.None? {
      return None;
    }
    Base58TextIsAscii(text);
    var raw := LowDigitsFirst(num.value, 256);
    var pad := CountLeading(text, ONE);
    LeadingOnes(text, pad);
    ConvertBack(DigitsOf(text), 58, 256);
    return Some(AsBytes(Zeros(pad) + Reverse(raw)));
  }

  // ----- did:key ----------------------------------------------------------------------------------

  const DID_PREFIX: Text := Lit("did:key:")
  const MULTIBASE: CodePoint := 'z' as int
  const MULTICODEC: seq<Byte> := [0xED, 0x01]
  const KEY_LENGTH := 32

  function EncodeDidKey(key: seq<Byte>): Result<Text, DidError> {
    if |key| != KEY_LENGTH then Error(Malformed)
    else Ok(DID_PREFIX + [MULTIBASE] + Base58(MULTICODEC + key))
  }

  function DecodeDidKey(did: Text): Result<seq<Byte>, DidError> {
    if !(DID_PREFIX <= did) then Error(Malformed)
    else
      var body := did[|DID_PREFIX|..];
      if body == [] || body[0] != MULTIBASE then Error(Malformed)
      else
        match FromBase58(body[1..])
        case Error(e) => Error(e)
        case Ok(decoded) =>
          if !(MULTICODEC <= decoded) then Error(Malformed)
          else if |decoded| - 2 != KEY_LENGTH then Error(Malformed)
          else Ok(decoded[2..])
  }

  lemma PrefixStripped(did: Text, text: Text)
    ensures did == DID_PREFIX + [MULTIBASE] + text <==>
              DID_PREFIX <= did && did[|DID_PREFIX|..] != [] && did[|DID_PREFIX|] == MULTIBASE &&
              did[|DID_PREFIX|..][1..] == text
  {
    var k := |DID_PREFIX|;
    if DID_PREFIX <= did && did[k..] != [] && did[k] == MULTIBASE {
      assert did == did[..k] + [did[k]] + did[k..][1..];
    }
    if did == DID_PREFIX + [MULTIBASE] + text {
      assert did[k..][1..] == text;
    }
  }

  lemma EncodedDidDecodes(key: seq<Byte>)
    requires |key| == KEY_LENGTH
    ensures DecodeDidKey(EncodeDidKey(key).value) == Ok(key)
  {
    var payload := MULTICODEC + key;
    PrefixStripped(EncodeDidKey(key).value, Base58(payload));
    Base58Inverse(Base58(payload), payload);
    assert payload[..2] == MULTICODEC && payload[2..] == key;
  }

  lemma DecodedDidEncodes(did: Text)
    requires DecodeDidKey(did).Ok?
    ensures EncodeDidKey(DecodeDidKey(did).value) == Ok(did)
  {
    var text := did[|DID_PREFIX|..][1..];
    var payload := FromBase58(text).value;
    PrefixStripped(did, text);
    Base58Inverse(text, payload);
    assert payload == MULTICODEC + payload[2..];
  }

  /** Every accepted did:key has one spelling: decoding gives a key exactly for that key's encoding. */
  lemma DidKeyInverse(did: Text, key: seq<Byte>)
    ensures DecodeDidKey(did) == Ok(key) <==> EncodeDidKey(key) == Ok(did)
  {
    if EncodeDidKey(key) == Ok(did) {
      EncodedDidDecodes(key);
    }
    if DecodeDidKey(did) == Ok(key) {
      DecodedDidEncodes(did);
    }
  }

  lemma WholePrefix(did: Text)
    ensures DID_PREFIX + [MULTIBASE] <= did <==>
              DID_PREFIX <= did && did[|DID_PREFIX|..] != [] && did[|DID_PREFIX|] == MULTIBASE
  {
    var k := |DID_PREFIX|;
    if DID_PREFIX <= did && did[k..] != [] && did[k] == MULTIBASE {
      assert did[..k + 1] == DID_PREFIX + [MULTIBASE];
    }
  }

  // ----- which error a malformed DID raises -------------------------------------------------------

  /** Decoding a DID raises UnicodeEncodeError instead of DidKeyError exactly when it starts like a
      base58btc did:key and is not ASCII: the prefix is compared before anything is encoded. */
  lemma NotAsciiExactly(did: Text)
    ensures DecodeDidKey(did) == Error(NotAscii) <==> DID_PREFIX + [MULTIBASE] <= did && !AsciiText(did)
  {
    WholePrefix(did);
    if DID_PREFIX + [MULTIBASE] <= did {
      var k := |DID_PREFIX|;
      var text := did[k..][1..];
      assert forall i :: 0 <= i < |text| ==> text[i] == did[k + 1 + i];
      assert forall i :: 0 <= i <= k ==> did[i] == (DID_PREFIX + [MULTIBASE])[i];
      assert AsciiText(did) <==> AsciiText(text);
      assert text == [] ==> AsciiText(text);
    }
  }

  /** `is_valid_did_key` catches DidKeyError only. */
  function IsValidDidKey(did: Text): Result<bool, DidError> {
    match DecodeDidKey(did)
    case Ok(_) => Ok(true)
    case Error(Malformed) => Ok(false)
    case Error(NotAscii) => Error(NotAscii)
  }

  /** It answers true exactly on the encodings of keys, and raises exactly on those non-ASCII DIDs. */
  lemma ValidityAnswered(did: Text)
    ensures IsValidDidKey(did) == Ok(true) <==> exists key :: EncodeDidKey(key) == Ok(did)
    ensures IsValidDidKey(did).Error? <==> DID_PREFIX + [MULTIBASE] <= did && !AsciiText(did)
  {
    NotAsciiExactly(did);
    if key :| EncodeDidKey(key) == Ok(did) {
      DidKeyInverse(did, key);
    }
    if DecodeDidKey(did).Ok? {
      DidKeyInverse(did, DecodeDidKey(did).value);
    }
  }

  /** "did:key:z" and an e with an acute accent raises; "did:web:" and the same letter is only malformed. */
  lemma AccentedDids()
    ensures DecodeDidKey(DID_PREFIX + [MULTIBASE, 0xE9]) == Error(NotAscii)
    ensures DecodeDidKey(Lit("did:web:") + [0xE9]) == Error(Malformed)
  {
    var did, web := DID_PREFIX + [MULTIBASE, 0xE9], Lit("did:web:") + [0xE9];
    NotAsciiExactly(did);
    assert DID_PREFIX + [MULTIBASE] <= did && did[|did| - 1] == 0xE9;
    assert web[4] == 'w' as int && DID_PREFIX[4] == 'k' as int;
  }

  /** The server's `_pubkey_from_did`, built on its own decoder, accepts the same DIDs as the client and
      reads the same key from each. */
  method ServerPublicKey(did: Text) returns (key: Option<seq<Byte>>)
    ensures key.Some? <==> DecodeDidKey(did).Ok?
    ensures key.Some? ==> DecodeDidKey(did) == Ok(key.value)
  {
    var k := |DID_PREFIX|;
    WholePrefix(did);
    if !(DID_PREFIX + [MULTIBASE] <= did) {
      return None;
    }
    assert did[..k] == DID_PREFIX && did[k] == MULTIBASE && did[k..][1..] == did[k + 1..];
    var decoded := ServerBase58Decode(did[k + 1..]);
    if decoded.None? || !(MULTICODEC <= decoded.value) || |decoded.value| - 2 != KEY_LENGTH {
      return None;
    }
    return Some(decoded.value[2..]);
  }

  /** `assert_key_matches_did`: the outcome of comparing the derived and the expected identity. */
  datatype Match = Same | DifferentKey | DifferentSpelling

  function MatchDids(got: Text, want: Text): Match
    requires DecodeDidKey(got).Ok? && DecodeDidKey(want).Ok?
  {
    if DecodeDidKey(got) != DecodeDidKey(want) then DifferentKey
    else if got != want then DifferentSpelling
    else Same
  }

  /** The second mismatch branch cannot be reached, and the first is taken for every other DID. */
  lemma SpellingNeverDiffers(got: Text, want: Text)
    ensures DecodeDidKey(got).Ok? && DecodeDidKey(want).Ok? ==>
              MatchDids(got, want) == if got == want then Same else DifferentKey
  {
    if DecodeDidKey(got).Ok? && DecodeDidKey(want).Ok? {
      DidKeyInverse(got, DecodeDidKey(got).value);
      DidKeyInverse(want, DecodeDidKey(want).value);
    }
  }

  /** What follows a numeral's first digits adds less than one to them. */
  lemma {:induction false} ValueOfConcat(a: seq<nat>, b: seq<nat>, base: nat)
    requires base >= 1 && DigitsIn(b, base)
    ensures Value(a, base) * Power(base, |b|) <= Value(a + b, base) < (Value(a, base) + 1) * Power(base, |b|)
  {
    if b == [] {
      assert a + b == a;
    } else {
      var front, last := b[..|b| - 1], b[|b| - 1];
      ValueOfConcat(a, front, base);
      assert a + b == a + front + [last];
      ValueAppend(a + front, last, base);
      ScaleBounds(Value(a, base), Value(a + front, base), Power(base, |front|), base, last);
    }
  }

  lemma ScaleBounds(a: nat, v: nat, p: nat, base: nat, last: nat)
    requires a * p <= v < (a + 1) * p && last < base
    ensures a * (base * p) <= v * base + last < (a + 1) * (base * p)
  {
    Reassociate(a, base, p);
    Reassociate(a + 1, base, p);
    MulMono(a * p, v, base);
    MulMono(v + 1, (a + 1) * p, base);
  }

  lemma {:induction false} PowerAdd(base: nat, i: nat, j: nat)
    ensures Power(base, i + j) == Power(base, i) * Power(base, j)
  {
    if i > 0 {
      PowerAdd(base, i - 1, j);
      assert Power(base, i + j) == base * Power(base, i - 1 + j);
      Reassociate(Power(base, j), base, Power(base, i - 1));
    }
  }

  lemma PowersUsed()
    ensures Power(256, 32) == 0x1_0000_0000_0000_0000_0000_0000_0000_0000_0000_0000_0000_0000_0000_0000_0000_0000
    ensures Power(58, 44) == 389790918707373377135528568990913592653094657612049369038476873218241589149696
  {
    assert Power(256, 4) == 0x1_0000_0000;
    PowerAdd(256, 4, 4);
    PowerAdd(256, 8, 8);
    PowerAdd(256, 16, 16);
    assert Power(58, 2) == 3364;
    assert Power(58, 3) == 195112;
    PowerAdd(58, 2, 3);
    PowerAdd(58, 5, 6);
    PowerAdd(58, 5, 1);
    PowerAdd(58, 11, 11);
    PowerAdd(58, 22, 22);
  }

  lemma PayloadRange(key: seq<Byte>)
    requires |key| == KEY_LENGTH
    ensures 18023 * Power(58, 44) <= Value(MULTICODEC + key, 256) < 18024 * Power(58, 44)
  {
    assert Value(MULTICODEC, 256) == 0xED01 by {
      ValueAppend([0xED], 0x01, 256);
      ValueAppend([], 0xED, 256);
      assert MULTICODEC == [0xED] + [0x01] && [] + [0xED] == [0xED];
    }
    ValueOfConcat(MULTICODEC, key, 256);
    PowersUsed();
  }

  lemma TopDigits()
    ensures Digits(18023, 58) == [5, 20, 43]
  {
    DigitsStep(18023, 58);
    DigitsStep(310, 58);
    DigitsStep(5, 58);
  }

  lemma PayloadDigits(key: seq<Byte>)
    requires |key| == KEY_LENGTH
    ensures var ds := Digits(Value(MULTICODEC + key, 256), 58); |ds| == 47 && ds[..3] == [5, 20, 43]
  {
    PayloadRange(key);
    DropDigits(Value(MULTICODEC + key, 256), 58, 44, 18023);
    TopDigits();
  }

  lemma NoLeadingOnes(key: seq<Byte>)
    ensures Convert(MULTICODEC + key, 256, 58) == Digits(Value(MULTICODEC + key, 256), 58)
  {
    var payload: seq<nat> := MULTICODEC + key;
    assert payload[0] == 0xED;
    LeadingZerosUnique(payload, 0);
  }

  lemma CharsOfPrefix(ds: seq<nat>)
    requires DigitsIn(ds, 58) && |ds| >= 3 && ds[..3] == [5, 20, 43]
    ensures CharsOf(ds)[..3] == Lit("6Mk")
  {
    assert ds[0] == ds[..3][0] && ds[1] == ds[..3][1] && ds[2] == ds[..3][2];
  }

  /** Every encoded key has forty-seven Base58 digits after the 'z', beginning "6Mk". */
  lemma EncodedKeyShape(key: seq<Byte>)
    requires |key| == KEY_LENGTH
    ensures |Base58(MULTICODEC + key)| == 47
    ensures Base58(MULTICODEC + key)[..3] == Lit("6Mk")
  {
    PayloadDigits(key);
    NoLeadingOnes(key);
    CharsOfPrefix(Digits(Value(MULTICODEC + key, 256), 58));
  }

  /** The whole identifier of a key: "did:key:z6Mk" and forty-four more characters of the alphabet, which,
      after the 'z', spell the two bytes ED 01 and the key. */
  lemma DidKeyShape(key: seq<Byte>)
    requires |key| == KEY_LENGTH
    ensures var did := EncodeDidKey(key).value;
            && |did| == 56 && did[..12] == Lit("did:key:z6Mk")
            && FromBase58(did[9..]) == Ok([0xED, 0x01] + key)
            && forall i :: 9 <= i < 56 ==> Base58Char(did[i])
  {
    var did, text := EncodeDidKey(key).value, Base58(MULTICODEC + key);
    EncodedKeyShape(key);
    Base58Inverse(text, MULTICODEC + key);
    assert did[9..] == text && did == (DID_PREFIX + [MULTIBASE]) + text;
    assert did[..12] == (DID_PREFIX + [MULTIBASE]) + text[..3];
    forall i | 9 <= i < 56 ensures Base58Char(did[i]) {
      EncodedChars(MULTICODEC + key, i - 9);
      assert did[i] == text[i - 9];
    }
  }
}
