/** UTF-8 as Python's strict codec reads and writes it (section 3 of RFC 3629). */
module Utf8 {
  import opened Common

  predicate Surrogate(c: CodePoint) {
    0xD800 <= c < 0xE000
  }

  /** `str.encode("utf-8")` raises UnicodeEncodeError exactly when a surrogate is present. */
  predicate Encodable(t: Text) {
    forall i :: 0 <= i < |t| ==> !Surrogate(t[i])
  }

  function EncodeChar(c: CodePoint): (b: seq<Byte>)
    requires !Surrogate(c)
    ensures 1 <= |b| <= 4
  {
    var (c1, c2, c3) := (c / 64, c / 64 / 64, c / 64 / 64 / 64);
    if c < 0x80 then [c]
    else if c < 0x800 then [0xC0 + c1, 0x80 + c % 64]
    else if c < 0x10000 then [0xE0 + c2, 0x80 + c1 % 64, 0x80 + c % 64]
    else [0xF0 + c3, 0x80 + c2 % 64, 0x80 + c1 % 64, 0x80 + c % 64]
  }

  function Encode(t: Text): seq<Byte>
    requires Encodable(t)
  {
    if t == [] then [] else EncodeChar(t[0]) + Encode(t[1..])
  }

  predicate Continuation(b: Byte) {
    0x80 <= b < 0xC0
  }

  /** Append the six payload bits of a continuation byte. */
  function Extend(high: int, b: Byte): int {
    64 * high + (b - 0x80)
  }

  /** One scalar value and the number of bytes it took; overlong forms and surrogates are refused. */
  function DecodeChar(b: seq<Byte>): Option<(CodePoint, nat)>
    requires |b| > 0
  {
    var lead: int := b[0];
    if lead < 0x80 then
      Some((lead, 1))
    else if 0xC2 <= lead < 0xE0 && |b| >= 2 && Continuation(b[1]) then
      Some((Extend(lead - 0xC0, b[1]), 2))
    else if 0xE0 <= lead < 0xF0 && |b| >= 3 && Continuation(b[1]) && Continuation(b[2]) then
      var c := Extend(Extend(lead - 0xE0, b[1]), b[2]);
      if c < 0x800 || Surrogate(c) then None else Some((c, 3))
    else if 0xF0 <= lead < 0xF5 && |b| >= 4 && Continuation(b[1]) && Continuation(b[2]) && Continuation(b[3]) then
      var c := Extend(Extend(Extend(lead - 0xF0, b[1]), b[2]), b[3]);
      if 0x10000 <= c < 0x110000 then Some((c, 4)) else None
    else
      None
  }

  function Decode(b: seq<Byte>): Option<Text>
    decreases |b|
  {
    if b == [] then Some([])
    else
      match DecodeChar(b)
      case None => None
      case Some((c, n)) =>
        if n > |b| || n == 0 then None
        else
          match Decode(b[n..])
          case None => None
          case Some(t) => Some([c] + t)
  }

  lemma DecodeEncodedChar(c: CodePoint, rest: seq<Byte>)
    requires !Surrogate(c)
    ensures DecodeChar(EncodeChar(c) + rest) == Some((c, |EncodeChar(c)|))
  {
    var e := EncodeChar(c);
    var b := e + rest;
    assert b[0] == e[0];
    assert |e| > 1 ==> b[1] == e[1];
    assert |e| > 2 ==> b[2] == e[2];
    assert |e| > 3 ==> b[3] == e[3];
  }

  /** Adding a six-bit group and dividing it off again. */
  lemma ExtendSplit(high: int, b: Byte)
    requires Continuation(b)
    ensures Extend(high, b) / 64 == high && Extend(high, b) % 64 == b - 0x80
  {
  }

  lemma EncodeDecodedTwo(b: seq<Byte>)
    requires |b| > 0 && DecodeChar(b).Some? && DecodeChar(b).value.1 == 2
    ensures !Surrogate(DecodeChar(b).value.0) && EncodeChar(DecodeChar(b).value.0) == b[..2]
  {
    ExtendSplit(b[0] as int - 0xC0, b[1]);
  }

  lemma EncodeDecodedThree(b: seq<Byte>)
    requires |b| > 0 && DecodeChar(b).Some? && DecodeChar(b).value.1 == 3
    ensures !Surrogate(DecodeChar(b).value.0) && EncodeChar(DecodeChar(b).value.0) == b[..3]
  {
    ExtendSplit(b[0] as int - 0xE0, b[1]);
    ExtendSplit(Extend(b[0] as int - 0xE0, b[1]), b[2]);
  }

  lemma EncodeDecodedFour(b: seq<Byte>)
    requires |b| > 0 && DecodeChar(b).Some? && DecodeChar(b).value.1 == 4
    ensures !Surrogate(DecodeChar(b).value.0) && EncodeChar(DecodeChar(b).value.0) == b[..4]
  {
    var c1 := Extend(b[0] as int - 0xF0, b[1]);
    ExtendSplit(b[0] as int - 0xF0, b[1]);
    ExtendSplit(c1, b[2]);
    ExtendSplit(Extend(c1, b[2]), b[3]);
  }

  lemma EncodeDecodedChar(b: seq<Byte>)
    requires |b| > 0 && DecodeChar(b).Some?
    ensures var (c, n) := DecodeChar(b).value;
            !Surrogate(c) && 0 < n <= |b| && EncodeChar(c) == b[..n]
  {
    var n := DecodeChar(b).value.1;
    if n == 2 {
      EncodeDecodedTwo(b);
    } else if n == 3 {
      EncodeDecodedThree(b);
    } else if n == 4 {
      EncodeDecodedFour(b);
    }
  }

  lemma {:induction false} DecodeEncode(t: Text)
    requires Encodable(t)
    ensures Decode(Encode(t)) == Some(t)
  {
    if t != [] {
      DecodeEncode(t[1..]);
      DecodeEncodedChar(t[0], Encode(t[1..]));
      assert Encode(t)[|EncodeChar(t[0])|..] == Encode(t[1..]);
      assert [t[0]] + t[1..] == t;
    }
  }

  lemma EncodeCons(c: CodePoint, t: Text)
    requires !Surrogate(c) && Encodable(t)
    ensures Encodable([c] + t) && Encode([c] + t) == EncodeChar(c) + Encode(t)
  {
    assert ([c] + t)[1..] == t;
  }

  /** What was decoded starts with a character whose encoding starts the bytes. */
  lemma DecodeUnfold(b: seq<Byte>) returns (c: CodePoint, n: nat)
    requires b != [] && Decode(b).Some?
    ensures 0 < n <= |b| && !Surrogate(c) && EncodeChar(c) == b[..n]
    ensures Decode(b[n..]).Some? && Decode(b).value == [c] + Decode(b[n..]).value
  {
    EncodeDecodedChar(b);
    c, n := DecodeChar(b).value.0, DecodeChar(b).value.1;
  }

  lemma {:induction false} EncodeDecode(b: seq<Byte>)
    requires Decode(b).Some?
    ensures Encodable(Decode(b).value) && Encode(Decode(b).value) == b
    decreases |b|
  {
    if b != [] {
      var c, n := DecodeUnfold(b);
      EncodeDecode(b[n..]);
      EncodeCons(c, Decode(b[n..]).value);
      assert b == b[..n] + b[n..];
    }
  }

  /** Decoding succeeds with `t` exactly on the bytes that encode `t`: the codec is a bijection. */
  lemma CodecIsBijective(b: seq<Byte>, t: Text)
    ensures Decode(b) == Some(t) <==> Encodable(t) && Encode(t) == b
  {
    if Encodable(t) {
      DecodeEncode(t);
    }
    if Decode(b).Some? {
      EncodeDecode(b);
    }
  }

  lemma EncodeInjective(s: Text, t: Text)
    requires Encodable(s) && Encodable(t) && Encode(s) == Encode(t)
    ensures s == t
  {
    DecodeEncode(s);
    DecodeEncode(t);
  }

  /** The characters of the examples in section 7 of RFC 3629. */
  lemma RfcExamples()
    ensures EncodeChar(0x41) == [0x41] && EncodeChar(0x2E) == [0x2E]
    ensures EncodeChar(0x2262) == [0xE2, 0x89, 0xA2] && EncodeChar(0x391) == [0xCE, 0x91]
    ensures EncodeChar(0xD55C) == [0xED, 0x95, 0x9C] && EncodeChar(0xAD6D) == [0xEA, 0xB5, 0xAD]
    ensures EncodeChar(0xC5B4) == [0xEC, 0x96, 0xB4] && EncodeChar(0x65E5) == [0xE6, 0x97, 0xA5]
    ensures EncodeChar(0x672C) == [0xE6, 0x9C, 0xAC] && EncodeChar(0x8A9E) == [0xE8, 0xAA, 0x9E]
    ensures EncodeChar(0xFEFF) == [0xEF, 0xBB, 0xBF] && EncodeChar(0x233B4) == [0xF0, 0xA3, 0x8E, 0xB4]
  {
  }
}
