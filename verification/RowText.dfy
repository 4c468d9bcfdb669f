/** Which text a ledger row is hashed over: of all JSON texts that hold its columns, the shortest. */
module RowText {
  import opened Common
  import opened HashChain
  import Decimal
  import EntryHash
  import Utf8

  /** The same character, or an upper-case hexadecimal letter for which the other has the lower-case one. */
  predicate SameOrLower(c: CodePoint, d: CodePoint) {
    c == d || ('A' as int <= c <= 'F' as int && d == c + 32)
  }

  predicate Respelled(t: Text, d: Text)
    requires |t| == |d|
  {
    forall i :: 0 <= i < |t| ==> SameOrLower(t[i], d[i])
  }

  /** No longer, and of the same length only in the same spelling. */
  predicate Shorter(d: Text, t: Text) {
    |d| <= |t| && (|d| == |t| ==> Respelled(t, d))
  }

  lemma ShorterConcat(d: Text, t: Text, e: Text, u: Text)
    requires Shorter(d, t) && Shorter(e, u)
    ensures Shorter(d + e, t + u)
  {
  }

  lemma ShorterSame(t: Text)
    ensures Shorter(t, t)
  {
  }

  // ----- strings ----------------------------------------------------------------------------------

  lemma HexSpelling(c: CodePoint, d: int)
    requires HexValue(c) == Some(d)
    ensures 0 <= d < 16 && SameOrLower(c, HexDigit(d))
  {
  }

  /** A control character has no shorter spelling than its escape. */
  lemma LongEscape(t: Text, c: CodePoint)
    requires |t| >= 6 && t[0] == BACKSLASH && t[1] == 'u' as int && FourHex(t[2..]) == Some(c)
    ensures Shorter(EscapeChar(c), t[..6])
  {
    var u := t[2..];
    assert u[0] == t[2] && u[1] == t[3] && u[2] == t[4] && u[3] == t[5];
    if |EscapeChar(c)| == 6 {
      var (a, b, x, y) := (HexValue(u[0]).value, HexValue(u[1]).value, HexValue(u[2]).value, HexValue(u[3]).value);
      HexSpelling(u[0], a);
      HexSpelling(u[1], b);
      HexSpelling(u[2], x);
      HexSpelling(u[3], y);
      assert c < 0x20 && a == 0 && b == 0 && x == c / 16 && y == c % 16;
    }
  }

  lemma CharShortest(t: Text)
    requires t != [] && ReadChar(t).Some? && ReadChar(t).value.1 <= |t|
    ensures var (c, n) := ReadChar(t).value; Shorter(EscapeChar(c), t[..n])
  {
    var (c, n) := ReadChar(t).value;
    if n == 6 {
      LongEscape(t, c);
    }
  }

  /** What a reader took of a text. */
  predicate Took(t: Text, taken: Text, rest: Text) {
    t == taken + rest
  }

  /** A reader takes one character of a literal, and then the rest. */
  lemma StringStep(t: Text)
    requires t != [] && t[0] != QUOTE && ReadString(t).Some?
    ensures ReadChar(t).Some? && 1 <= ReadChar(t).value.1 <= |t|
    ensures var (c, n) := ReadChar(t).value;
            && ReadString(t[n..]).Some?
            && ReadString(t).value == ([c] + ReadString(t[n..]).value.0, ReadString(t[n..]).value.1)
  {
  }

  lemma LiteralStep(c: CodePoint, s: Text)
    ensures Escape([c] + s) + [QUOTE] == EscapeChar(c) + (Escape(s) + [QUOTE])
  {
    assert ([c] + s)[1..] == s;
  }

  lemma TookMore(t: Text, n: nat, taken: Text, rest: Text)
    requires n <= |t| && Took(t[n..], taken, rest)
    ensures Took(t, t[..n] + taken, rest)
  {
    assert t == t[..n] + t[n..];
  }

  lemma {:induction false} StringShortest(t: Text, s: Text, rest: Text) returns (taken: Text)
    requires ReadString(t) == Some((s, rest))
    ensures Took(t, taken, rest) && Shorter(Escape(s) + [QUOTE], taken)
    decreases |t|
  {
    if t[0] == QUOTE {
      taken := [QUOTE];
      assert Escape(s) + [QUOTE] == [QUOTE];
    } else {
      StringStep(t);
      var (c, n) := ReadChar(t).value;
      CharShortest(t);
      taken := StringShortest(t[n..], s[1..], rest);
      ShorterConcat(EscapeChar(c), t[..n], Escape(s[1..]) + [QUOTE], taken);
      TookMore(t, n, taken, rest);
      LiteralStep(c, s[1..]);
      taken := t[..n] + taken;
    }
  }

  /** A whole string literal, opening quote included. */
  lemma LiteralShortest(t: Text, s: Text, rest: Text) returns (taken: Text)
    requires t != [] && t[0] == QUOTE && ReadString(t[1..]) == Some((s, rest))
    ensures Took(t, taken, rest) && Shorter(Dump(Str(s)), taken)
  {
    taken := StringShortest(t[1..], s, rest);
    ShorterSame([QUOTE]);
    ShorterConcat([QUOTE], [QUOTE], Escape(s) + [QUOTE], taken);
    Associate([QUOTE], Escape(s), [QUOTE]);
    TookMore(t, 1, taken, rest);
    assert t[..1] == [QUOTE];
    taken := t[..1] + taken;
  }

  // ----- numbers and words ------------------------------------------------------------------------

  /** The digits a reader takes, against the numeral of what they read as. */
  lemma DigitsShortest(u: Text)
    requires CountDigits(u) > 0
    ensures var digits := u[..CountDigits(u)];
            Took(u, digits, u[CountDigits(u)..]) && Shorter(Decimal.Print(Decimal.Read(digits)), digits)
  {
    var digits := u[..CountDigits(u)];
    Decimal.PrintIsShortest(digits);
    ShorterSame(digits);
  }

  lemma MinusShortest(n: nat, digits: Text)
    requires Shorter(Decimal.Print(n), digits)
    ensures Shorter(Decimal.PrintInt(-(n as int)), [Decimal.MINUS] + digits)
  {
    ShorterSame([Decimal.MINUS]);
    ShorterConcat([Decimal.MINUS], [Decimal.MINUS], Decimal.Print(n), digits);
  }

  lemma IntShortest(t: Text, n: int, rest: Text) returns (taken: Text)
    requires ReadInt(t) == Some((n, rest))
    ensures Took(t, taken, rest) && Shorter(Decimal.PrintInt(n), taken)
  {
    if t != [] && t[0] == Decimal.MINUS {
      var digits := t[1..][..CountDigits(t[1..])];
      DigitsShortest(t[1..]);
      MinusShortest(Decimal.Read(digits), digits);
      TookMore(t, 1, digits, rest);
      assert t[..1] == [Decimal.MINUS];
      taken := t[..1] + digits;
    } else {
      DigitsShortest(t);
      taken := t[..CountDigits(t)];
    }
  }

  lemma WordRead(t: Text, word: Text)
    requires word <= t
    ensures Took(t, word, t[|word|..]) && Shorter(word, word)
  {
  }

  lemma ValueShortest(t: Text, v: Value, rest: Text) returns (taken: Text)
    requires ReadValue(t) == Some((v, rest))
    ensures Took(t, taken, rest) && Shorter(Dump(v), taken)
  {
    if t != [] && t[0] == QUOTE {
      taken := LiteralShortest(t, v.t, rest);
    } else if Lit("null") <= t {
      taken := Lit("null");
      WordRead(t, taken);
    } else if Lit("true") <= t {
      taken := Lit("true");
      WordRead(t, taken);
    } else if Lit("false") <= t {
      taken := Lit("false");
      WordRead(t, taken);
    } else {
      taken := IntShortest(t, v.n, rest);
    }
  }

  // ----- objects ----------------------------------------------------------------------------------

  lemma ZipFirst(keys: seq<string>, vs: seq<Value>)
    requires |keys| == |vs| > 0
    ensures Zip(keys, vs)[0] == (Lit(keys[0]), vs[0]) && Zip(keys, vs)[1..] == Zip(keys[1..], vs[1..])
    ensures |Zip(keys, vs)| == |vs|
  {
    ZipLength(keys, vs);
  }

  lemma {:induction false} ZipLength(keys: seq<string>, vs: seq<Value>)
    requires |keys| == |vs|
    ensures |Zip(keys, vs)| == |vs|
  {
    if keys != [] {
      ZipLength(keys[1..], vs[1..]);
    }
  }

  lemma ThreeParts(d: Text, t: Text, e: Text, u: Text)
    requires Shorter(d, t) && Shorter(e, u)
    ensures Shorter(d + [COLON] + e, t + [COLON] + u)
  {
    ShorterConcat(d, t, [COLON], [COLON]);
    ShorterConcat(d + [COLON], t + [COLON], e, u);
  }

  lemma TookThree(t: Text, key: Text, after: Text, value: Text, rest: Text)
    requires Took(t, key, after) && after != [] && after[0] == COLON && Took(after[1..], value, rest)
    ensures Took(t, key + [COLON] + value, rest)
  {
    assert after == [COLON] + after[1..];
  }

  /** The first member of an object, and what follows it. */
  predicate FirstMember(t: Text, name: Text, v: Value, rest: Text) {
    && t != [] && t[0] == QUOTE && ReadString(t[1..]).Some?
    && var k := ReadString(t[1..]).value;
       k.0 == name && k.1 != [] && k.1[0] == COLON && ReadValue(k.1[1..]) == Some((v, rest))
  }

  lemma MemberShortest(t: Text, name: Text, v: Value, rest: Text) returns (taken: Text)
    requires FirstMember(t, name, v, rest)
    ensures Took(t, taken, rest) && Shorter(Dump(Str(name)) + [COLON] + Dump(v), taken)
  {
    var after := ReadString(t[1..]).value.1;
    var key := LiteralShortest(t, name, after);
    var value := ValueShortest(after[1..], v, rest);
    ThreeParts(Dump(Str(name)), key, Dump(v), value);
    TookThree(t, key, after, value, rest);
    taken := key + [COLON] + value;
  }

  /** A reader takes the first member, and then the rest. */
  lemma MembersStep(t: Text, members: seq<(Text, Value)>) returns (rest: Text)
    requires ReadMembers(t) == Some(members)
    ensures members != [] && FirstMember(t, members[0].0, members[0].1, rest) && rest != []
    ensures rest == [CLOSE] ==> |members| == 1
    ensures rest != [CLOSE] ==> |members| > 1 && rest[0] == COMMA && ReadMembers(rest[1..]) == Some(members[1..])
  {
    rest := ReadValue(ReadString(t[1..]).value.1[1..]).value.1;
    if rest != [CLOSE] {
      NoMembersLess(rest[1..]);
    }
  }

  lemma {:induction false} MembersShortest(t: Text, keys: seq<string>, vs: seq<Value>)
    requires |keys| == |vs| > 0 && ReadMembers(t) == Some(Zip(keys, vs))
    ensures Shorter(Members(keys, vs), t)
    decreases |vs|
  {
    ZipFirst(keys, vs);
    var rest := MembersStep(t, Zip(keys, vs));
    var taken := MemberShortest(t, Lit(keys[0]), vs[0], rest);
    var last := if |vs| == 1 then [CLOSE] else [COMMA] + Members(keys[1..], vs[1..]);
    if |vs| == 1 {
      ShorterSame([CLOSE]);
    } else {
      MembersShortest(rest[1..], keys[1..], vs[1..]);
      ShorterSame([COMMA]);
      ShorterConcat([COMMA], [COMMA], Members(keys[1..], vs[1..]), rest[1..]);
      assert rest == [COMMA] + rest[1..];
    }
    ShorterConcat(Key(keys[0]) + Dump(vs[0]), taken, last, rest);
  }

  lemma NoMembersLess(t: Text)
    ensures ReadMembers(t).Some? ==> |ReadMembers(t).value| > 0
  {
  }

  /** Of all JSON texts that read as these values under the sorted names, the one that is hashed is no longer
      than any, and any other of its length only has some hexadecimal digits in upper case: so no "-0", no
      leading zeros, no escape that is not needed. */
  lemma TextIsShortest(t: Text, vs: seq<Value>)
    requires |vs| == 20 && ReadObject(t) == Some(Zip(Names(), vs))
    ensures |TextOf(vs)| <= |t|
    ensures |TextOf(vs)| == |t| ==> forall i :: 0 <= i < |t| ==> SameOrLower(t[i], TextOf(vs)[i])
  {
    MembersShortest(t[1..], Names(), vs);
    ShorterSame([OPEN]);
    ShorterConcat([OPEN], [OPEN], Members(Names(), vs), t[1..]);
    assert t == [OPEN] + t[1..];
  }

  // ----- which values under which names ------------------------------------------------------------

  /** The object a row is hashed as: its twenty chained columns by name. */
  function Columns(r: Row): seq<(Text, Value)> {
    [(Lit("activity_id"), Str(r.activityId)), (Lit("activity_type"), Str(r.activityType)),
     (Lit("agent_did"), Str(r.agentDid)), (Lit("chain_index"), Int(r.chainIndex)),
     (Lit("cost_amount"), OptText(r.costAmount)), (Lit("cost_unit"), Str(r.costUnit)),
     (Lit("meta_json"), OptText(r.metaJson)), (Lit("model"), OptText(r.model)),
     (Lit("occurred_at"), Str(r.occurredAt)), (Lit("prev_hash"), Str(r.prevHash)),
     (Lit("provider_id"), OptText(r.providerId)), (Lit("recorded_at"), Str(r.recordedAt)),
     (Lit("ref_activity_id"), OptText(r.refActivityId)), (Lit("result_hash"), OptText(r.resultHash)),
     (Lit("signature"), OptText(r.signature)), (Lit("signed_payload_hash"), OptText(r.signedPayloadHash)),
     (Lit("task_id"), OptText(r.taskId)), (Lit("tc_nonce"), OptInt(r.tcNonce)),
     (Lit("tc_room"), OptText(r.tcRoom)), (Lit("tc_seq"), OptInt(r.tcSeq))]
  }

  lemma {:induction false} ZipAt(keys: seq<string>, vs: seq<Value>, i: nat)
    requires |keys| == |vs| && i < |vs|
    ensures |Zip(keys, vs)| == |vs| && Zip(keys, vs)[i] == (Lit(keys[i]), vs[i])
  {
    ZipFirst(keys, vs);
    if i > 0 {
      ZipAt(keys[1..], vs[1..], i - 1);
    }
  }

  lemma ColumnAt(r: Row, i: nat)
    requires i < 20
    ensures Columns(r)[i] == (Lit(SORTED[i].Name()), SORTED[i].Of(r))
  {
  }

  lemma ColumnsSorted(r: Row)
    ensures Zip(Names(), Fields(r)) == Columns(r)
  {
    ZipLength(Names(), Fields(r));
    forall i | 0 <= i < 20 ensures Zip(Names(), Fields(r))[i] == Columns(r)[i] {
      ZipAt(Names(), Fields(r), i);
      ColumnAt(r, i);
    }
  }

  /** What a row is hashed over: the text that a JSON reader reads as its columns, and of all such texts the
      shortest. */
  lemma HashedText(sha: Sha, r: Row) returns (text: Text)
    ensures ReadObject(text) == Some(Columns(r))
    ensures forall t :: ReadObject(t) == Some(Columns(r)) ==> Shorter(text, t)
    ensures Utf8.Encodable(text) ==> EntryHash.ComputeEntryHash(sha)(r) == sha(Utf8.Encode(text))
    ensures CanonicalBytes(r) == if Utf8.Encodable(text) then Some(Utf8.Encode(text)) else None
  {
    text := TextOf(Fields(r));
    ColumnsSorted(r);
    TextReadsBack(Fields(r));
    forall t | ReadObject(t) == Some(Columns(r)) ensures Shorter(text, t) {
      TextIsShortest(t, Fields(r));
    }
  }
}
