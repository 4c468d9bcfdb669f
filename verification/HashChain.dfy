/** The serialisation every ledger row is hashed over: JSON with sorted keys, no spaces and no ASCII
    escaping, then UTF-8 (sections 6 and 7 of RFC 8259 for numbers and strings). */
module HashChain {
  import opened Common
  import Decimal
  import Utf8

  /** One row of the `activities` table: the twenty chained columns and `entry_hash`. */
  datatype Row = Row(
    activityId: Text,
    chainIndex: int,
    agentDid: Text,
    activityType: Text,
    taskId: Option<Text>,
    refActivityId: Option<Text>,
    tcRoom: Option<Text>,
    tcSeq: Option<int>,
    tcNonce: Option<int>,
    signedPayloadHash: Option<Text>,
    signature: Option<Text>,
    resultHash: Option<Text>,
    providerId: Option<Text>,
    model: Option<Text>,
    costAmount: Option<Text>,
    costUnit: Text,
    occurredAt: Text,
    recordedAt: Text,
    metaJson: Option<Text>,
    prevHash: Text,
    entryHash: Text)

  /** What a column of a row can serialise from; a Python bool passes for an int and prints as a word. */
  datatype Value = Null | Int(n: int) | Str(t: Text) | Bool(b: bool)

  const QUOTE: CodePoint := 0x22
  const BACKSLASH: CodePoint := 0x5C
  const COMMA: CodePoint := 0x2C
  const COLON: CodePoint := 0x3A
  const OPEN: CodePoint := 0x7B
  const CLOSE: CodePoint := 0x7D

  function OptText(t: Option<Text>): Value {
    if t.None? then Null else Str(t.value)
  }

  function OptInt(n: Option<int>): Value {
    if n.None? then Null else Int(n.value)
  }

  function OptPyInt(n: Option<PyInt>): Value {
    match n
    case None => Null
    case Some(PyInt(i)) => Int(i)
    case Some(PyBool(b)) => Bool(b)
  }

  /** CHAINED_FIELDS, in the source's order; `entry_hash` is not among them. */
  datatype Column =
    | ActivityId | ChainIndex | AgentDid | ActivityType | TaskId | RefActivityId | TcRoom | TcSeq | TcNonce
    | SignedPayloadHash | Signature | ResultHash | ProviderId | Model | CostAmount | CostUnit | OccurredAt
    | RecordedAt | MetaJson | PrevHash
  {
    function Name(): string {
      match this
      case ActivityId => "activity_id"
      case ChainIndex => "chain_index"
      case AgentDid => "agent_did"
      case ActivityType => "activity_type"
      case TaskId => "task_id"
      case RefActivityId => "ref_activity_id"
      case TcRoom => "tc_room"
      case TcSeq => "tc_seq"
      case TcNonce => "tc_nonce"
      case SignedPayloadHash => "signed_payload_hash"
      case Signature => "signature"
      case ResultHash => "result_hash"
      case ProviderId => "provider_id"
      case Model => "model"
      case CostAmount => "cost_amount"
      case CostUnit => "cost_unit"
      case OccurredAt => "occurred_at"
      case RecordedAt => "recorded_at"
      case MetaJson => "meta_json"
      case PrevHash => "prev_hash"
    }

    /** Where `sort_keys` puts the column. */
    function Rank(): nat {
      match this
      case ActivityId => 0
      case ChainIndex => 3
      case AgentDid => 2
      case ActivityType => 1
      case TaskId => 16
      case RefActivityId => 12
      case TcRoom => 18
      case TcSeq => 19
      case TcNonce => 17
      case SignedPayloadHash => 15
      case Signature => 14
      case ResultHash => 13
      case ProviderId => 10
      case Model => 7
      case CostAmount => 4
      case CostUnit => 5
      case OccurredAt => 8
      case RecordedAt => 11
      case MetaJson => 6
      case PrevHash => 9
    }

    function Of(r: Row): Value {
      match this
      case ActivityId => Str(r.activityId)
      case ChainIndex => Int(r.chainIndex)
      case AgentDid => Str(r.agentDid)
      case ActivityType => Str(r.activityType)
      case TaskId => OptText(r.taskId)
      case RefActivityId => OptText(r.refActivityId)
      case TcRoom => OptText(r.tcRoom)
      case TcSeq => OptInt(r.tcSeq)
      case TcNonce => OptInt(r.tcNonce)
      case SignedPayloadHash => OptText(r.signedPayloadHash)
      case Signature => OptText(r.signature)
      case ResultHash => OptText(r.resultHash)
      case ProviderId => OptText(r.providerId)
      case Model => OptText(r.model)
      case CostAmount => OptText(r.costAmount)
      case CostUnit => Str(r.costUnit)
      case OccurredAt => Str(r.occurredAt)
      case RecordedAt => Str(r.recordedAt)
      case MetaJson => OptText(r.metaJson)
      case PrevHash => Str(r.prevHash)
    }
  }

  /** The columns as `sort_keys` orders them. */
  const SORTED: seq<Column> := [
    ActivityId, Column.ActivityType, AgentDid, ChainIndex, CostAmount, CostUnit, MetaJson, Model, OccurredAt, PrevHash,
    ProviderId, RecordedAt, RefActivityId, ResultHash, Signature, SignedPayloadHash, TaskId, TcNonce, TcRoom, TcSeq]

  function Fields(r: Row): (vs: seq<Value>)
    ensures |vs| == |SORTED| == 20
  {
    seq(|SORTED|, i requires 0 <= i < |SORTED| => SORTED[i].Of(r))
  }

  predicate FirstDiffersAt(a: string, b: string, d: nat) {
    d < |a| && d < |b| && a[..d] == b[..d] && a[d] < b[d]
  }

  predicate Precedes(a: string, b: string) {
    exists d :: 0 <= d < |a| && FirstDiffersAt(a, b, d)
  }

  /** The sorted columns are all the chained columns, each once. */
  lemma SortedColumns()
    ensures |SORTED| == 20 && forall c: Column :: c.Rank() < 20 && SORTED[c.Rank()] == c
  {
  }

  lemma FirstNamesAscend(c: Column, d: Column)
    requires c.Rank() + 1 == d.Rank() <= 9
    ensures Precedes(c.Name(), d.Name())
  {
    match c {
      case ActivityId => assert FirstDiffersAt(ActivityId.Name(), Column.ActivityType.Name(), 9);
      case ActivityType => assert FirstDiffersAt(Column.ActivityType.Name(), AgentDid.Name(), 1);
      case AgentDid => assert FirstDiffersAt(AgentDid.Name(), ChainIndex.Name(), 0);
      case ChainIndex => assert FirstDiffersAt(ChainIndex.Name(), CostAmount.Name(), 1);
      case CostAmount => assert FirstDiffersAt(CostAmount.Name(), CostUnit.Name(), 5);
      case CostUnit => assert FirstDiffersAt(CostUnit.Name(), MetaJson.Name(), 0);
      case MetaJson => assert FirstDiffersAt(MetaJson.Name(), Model.Name(), 1);
      case Model => assert FirstDiffersAt(Model.Name(), OccurredAt.Name(), 0);
      case OccurredAt => assert FirstDiffersAt(OccurredAt.Name(), PrevHash.Name(), 0);
      case _ =>
    }
  }

  lemma LastNamesAscend(c: Column, d: Column)
    requires 10 <= c.Rank() + 1 == d.Rank()
    ensures Precedes(c.Name(), d.Name())
  {
    match c {
      case PrevHash => assert FirstDiffersAt(PrevHash.Name(), ProviderId.Name(), 2);
      case ProviderId => assert FirstDiffersAt(ProviderId.Name(), RecordedAt.Name(), 0);
      case RecordedAt => assert FirstDiffersAt(RecordedAt.Name(), RefActivityId.Name(), 2);
      case RefActivityId => assert FirstDiffersAt(RefActivityId.Name(), ResultHash.Name(), 2);
      case ResultHash => assert FirstDiffersAt(ResultHash.Name(), Signature.Name(), 0);
      case Signature => assert FirstDiffersAt(Signature.Name(), SignedPayloadHash.Name(), 4);
      case SignedPayloadHash => assert FirstDiffersAt(SignedPayloadHash.Name(), TaskId.Name(), 0);
      case TaskId => assert FirstDiffersAt(TaskId.Name(), TcNonce.Name(), 1);
      case TcNonce => assert FirstDiffersAt(TcNonce.Name(), TcRoom.Name(), 3);
      case TcRoom => assert FirstDiffersAt(TcRoom.Name(), TcSeq.Name(), 3);
      case _ =>
    }
  }

  /** Each name in the order precedes the next. */
  lemma NamesAscend(c: Column, d: Column)
    requires c.Rank() + 1 == d.Rank()
    ensures Precedes(c.Name(), d.Name())
  {
    if d.Rank() <= 9 {
      FirstNamesAscend(c, d);
    } else {
      LastNamesAscend(c, d);
    }
  }

  function Names(): (names: seq<string>)
    ensures |names| == 20
  {
    seq(20, i requires 0 <= i < 20 => SORTED[i].Name())
  }

  function HexDigit(d: int): CodePoint
    requires 0 <= d < 16
  {
    if d < 10 then 0x30 + d else 0x61 + d - 10
  }

  function EscapeChar(c: CodePoint): (e: Text)
    ensures |e| >= 1
  {
    if c == QUOTE || c == BACKSLASH then [BACKSLASH, c]
    else if c == 0x08 then Lit("\\b")
    else if c == 0x0C then Lit("\\f")
    else if c == 0x0A then Lit("\\n")
    else if c == 0x0D then Lit("\\r")
    else if c == 0x09 then Lit("\\t")
    else if c < 0x20 then Lit("\\u00") + [HexDigit(c / 16), HexDigit(c % 16)]
    else [c]
  }

  function Escape(t: Text): Text {
    if t == [] then [] else EscapeChar(t[0]) + Escape(t[1..])
  }

  function Dump(v: Value): Text {
    match v
    case Null => Lit("null")
    case Int(n) => Decimal.PrintInt(n)
    case Str(t) => [QUOTE] + Escape(t) + [QUOTE]
    case Bool(b) => if b then Lit("true") else Lit("false")
  }

  function Key(k: string): Text {
    Dump(Str(Lit(k))) + [COLON]
  }

  /** The members of an object and its closing brace. */
  function Members(keys: seq<string>, vs: seq<Value>): Text
    requires |keys| == |vs| > 0
  {
    Key(keys[0]) + Dump(vs[0]) +
    if |vs| == 1 then [CLOSE] else [COMMA] + Members(keys[1..], vs[1..])
  }

  /** The object with these values under the sorted names. */
  function TextOf(vs: seq<Value>): Text
    requires |vs| == 20
  {
    [OPEN] + Members(Names(), vs)
  }

  /** `json.dumps(...).encode`: None stands for the UnicodeEncodeError a lone surrogate raises. */
  function BytesOf(vs: seq<Value>): Option<seq<Byte>>
    requires |vs| == 20
  {
    if Utf8.Encodable(TextOf(vs)) then Some(Utf8.Encode(TextOf(vs))) else None
  }

  /** `canonical_bytes` of a row whose columns hold what their annotations say. */
  function CanonicalBytes(r: Row): Option<seq<Byte>> {
    BytesOf(Fields(r))
  }

  // ----- reading it back (sections 6 and 7 of RFC 8259) -----------------------------------------

  function FourHex(t: Text): Option<CodePoint>
    requires |t| >= 4
  {
    match (HexValue(t[0]), HexValue(t[1]), HexValue(t[2]), HexValue(t[3]))
    case (Some(a), Some(b), Some(c), Some(d)) =>
      var n := 4096 * a + 256 * b + 16 * c + d;
      if 0 <= n < 0x10000 then Some(n) else None
    case _ => None
  }

  /** One character inside a string literal, and how much of the literal it took. */
  function ReadChar(t: Text): Option<(CodePoint, nat)>
    requires t != []
  {
    if t[0] == QUOTE || t[0] < 0x20 then None
    else if t[0] != BACKSLASH then Some((t[0], 1))
    else if |t| < 2 then None
    else if t[1] == QUOTE || t[1] == BACKSLASH || t[1] == SLASH then Some((t[1], 2))
    else if t[1] == 'b' as int then Some((0x08, 2))
    else if t[1] == 'f' as int then Some((0x0C, 2))
    else if t[1] == 'n' as int then Some((0x0A, 2))
    else if t[1] == 'r' as int then Some((0x0D, 2))
    else if t[1] == 't' as int then Some((0x09, 2))
    else if t[1] == 'u' as int && |t| >= 6 && FourHex(t[2..]).Some? then Some((FourHex(t[2..]).value, 6))
    else None
  }

  /** The rest of a literal whose opening quote has been read, and what follows its closing quote. */
  function ReadString(t: Text): (r: Option<(Text, Text)>)
    ensures r.Some? ==> |r.value.1| < |t|
    decreases |t|
  {
    if t == [] then None
    else if t[0] == QUOTE then Some(([], t[1..]))
    else
      match ReadChar(t)
      case None => None
      case Some((c, n)) =>
        if n > |t| then None
        else
          match ReadString(t[n..])
          case None => None
          case Some((s, rest)) => Some(([c] + s, rest))
  }

  function CountDigits(t: Text): (k: nat)
    ensures k <= |t| && Decimal.AllDigits(t[..k])
  {
    if t == [] || !Decimal.Digit(t[0]) then 0
    else
      var k := 1 + CountDigits(t[1..]);
      assert t[..k] == [t[0]] + t[1..][..k - 1];
      k
  }

  function ReadInt(t: Text): (r: Option<(int, Text)>)
    ensures r.Some? ==> |r.value.1| < |t|
  {
    var negative := t != [] && t[0] == Decimal.MINUS;
    var u := if negative then t[1..] else t;
    var k := CountDigits(u);
    if k == 0 then None
    else var n: int := Decimal.Read(u[..k]); Some((if negative then -n else n, u[k..]))
  }

  function ReadValue(t: Text): (r: Option<(Value, Text)>)
    ensures r.Some? ==> |r.value.1| < |t|
  {
    if t != [] && t[0] == QUOTE then
      var s := ReadString(t[1..]);
      if s.None? then None else Some((Str(s.value.0), s.value.1))
    else if Lit("null") <= t then Some((Null, t[4..]))
    else if Lit("true") <= t then Some((Bool(true), t[4..]))
    else if Lit("false") <= t then Some((Bool(false), t[5..]))
    else
      var n := ReadInt(t);
      if n.None? then None else Some((Int(n.value.0), n.value.1))
  }

  /** The members up to the closing brace, which must end the text. */
  function ReadMembers(t: Text): Option<seq<(Text, Value)>>
    decreases |t|
  {
    if t == [] || t[0] != QUOTE then None
    else
      var k := ReadString(t[1..]);
      if k.None? || k.value.1 == [] || k.value.1[0] != COLON then None
      else
        var v := ReadValue(k.value.1[1..]);
        if v.None? || v.value.1 == [] then None
        else
          var member := (k.value.0, v.value.0);
          if v.value.1 == [CLOSE] then Some([member])
          else if v.value.1[0] != COMMA then None
          else
            var rest := ReadMembers(v.value.1[1..]);
            if rest.None? then None else Some([member] + rest.value)
  }

  /** A JSON reader for one flat object. */
  function ReadObject(t: Text): Option<seq<(Text, Value)>> {
    if t == [] || t[0] != OPEN then None else ReadMembers(t[1..])
  }

  lemma ReadEscapedChar(c: CodePoint, x: Text)
    ensures EscapeChar(c)[0] != QUOTE
    ensures ReadChar(EscapeChar(c) + x) == Some((c, |EscapeChar(c)|))
  {
    var e, t := EscapeChar(c), EscapeChar(c) + x;
    assert t[0] == e[0];
    assert |e| > 1 ==> t[1] == e[1];
    assert |e| > 5 ==> t[2..][0] == e[2] && t[2..][1] == e[3] && t[2..][2] == e[4] && t[2..][3] == e[5];
  }

  /** The rest of a string literal whose opening quote has been read, and what follows it. */
  function Literal(s: Text, x: Text): Text {
    Escape(s) + [QUOTE] + x
  }

  lemma LiteralUnfold(s: Text, x: Text)
    ensures s == [] ==> Literal(s, x) == [QUOTE] + x
    ensures s != [] ==> Literal(s, x) == EscapeChar(s[0]) + Literal(s[1..], x)
  {
  }

  lemma ReadOneMore(c: CodePoint, rest: Text)
    requires ReadString(rest).Some?
    ensures var (s, x) := ReadString(rest).value; ReadString(EscapeChar(c) + rest) == Some(([c] + s, x))
  {
    var t := EscapeChar(c) + rest;
    ReadEscapedChar(c, rest);
    assert t[0] == EscapeChar(c)[0];
    assert t[|EscapeChar(c)|..] == rest;
  }

  lemma {:induction false} ReadEscaped(s: Text, x: Text)
    ensures ReadString(Literal(s, x)) == Some((s, x))
  {
    LiteralUnfold(s, x);
    if s == [] {
      assert ([QUOTE] + x)[1..] == x;
    } else {
      ReadEscaped(s[1..], x);
      ReadOneMore(s[0], Literal(s[1..], x));
      assert s == [s[0]] + s[1..];
    }
  }

  lemma DumpedString(s: Text, x: Text)
    ensures Dump(Str(s)) + x == [QUOTE] + Literal(s, x)
    ensures ([QUOTE] + Literal(s, x))[1..] == Literal(s, x)
  {
  }

  lemma {:induction false} CountAllDigits(ds: Text, x: Text)
    requires Decimal.AllDigits(ds) && (x != [] ==> !Decimal.Digit(x[0]))
    ensures CountDigits(ds + x) == |ds|
  {
    if ds == [] {
      assert ds + x == x;
    } else {
      CountAllDigits(ds[1..], x);
      assert (ds + x)[1..] == ds[1..] + x;
    }
  }

  lemma ReadNumeral(n: nat, x: Text)
    requires x != [] ==> !Decimal.Digit(x[0])
    ensures var t := Decimal.Print(n) + x;
            && t[0] != Decimal.MINUS
            && CountDigits(t) == |Decimal.Print(n)|
            && Decimal.Read(t[..CountDigits(t)]) == n && t[CountDigits(t)..] == x
  {
    var ds := Decimal.Print(n);
    CountAllDigits(ds, x);
    Decimal.ReadPrint(n);
    assert (ds + x)[..|ds|] == ds && (ds + x)[|ds|..] == x && (ds + x)[0] == ds[0];
  }

  lemma ReadNegative(n: nat, x: Text)
    requires n > 0 && (x != [] ==> !Decimal.Digit(x[0]))
    ensures ReadInt([Decimal.MINUS] + (Decimal.Print(n) + x)) == Some((-(n as int), x))
  {
    var u := Decimal.Print(n) + x;
    assert ([Decimal.MINUS] + u)[1..] == u;
    ReadNumeral(n, x);
  }

  lemma Associate(a: Text, b: Text, c: Text)
    ensures a + b + c == a + (b + c)
  {
  }

  lemma ReadPrintedInt(n: int, x: Text)
    requires x != [] ==> !Decimal.Digit(x[0])
    ensures ReadInt(Decimal.PrintInt(n) + x) == Some((n, x))
  {
    if n < 0 {
      ReadNegative(-n, x);
      Associate([Decimal.MINUS], Decimal.Print(-n), x);
    } else {
      ReadNumeral(n, x);
    }
  }

  predicate Separator(c: CodePoint) {
    c == COMMA || c == CLOSE
  }

  lemma ReadDumped(v: Value, x: Text)
    requires x != [] && Separator(x[0])
    ensures ReadValue(Dump(v) + x) == Some((v, x))
  {
    var t := Dump(v) + x;
    assert t[0] == Dump(v)[0];
    match v {
      case Null =>
        assert t[..4] == Lit("null") && t[4..] == x;
      case Int(n) =>
        assert Dump(v)[0] == Decimal.MINUS || Decimal.Digit(Dump(v)[0]);
        ReadPrintedInt(n, x);
      case Str(s) =>
        DumpedString(s, x);
        ReadEscaped(s, x);
      case Bool(b) =>
        assert t[..|Dump(v)|] == Dump(v) && t[|Dump(v)|..] == x;
    }
  }

  /** What follows the first value of an object. */
  function After(keys: seq<string>, vs: seq<Value>): (t: Text)
    requires |keys| == |vs| > 0
    ensures t != [] && Separator(t[0])
  {
    if |vs| == 1 then [CLOSE] else [COMMA] + Members(keys[1..], vs[1..])
  }

  lemma Reassociate(a: Text, b: Text, c: Text, d: Text)
    ensures a + b + c + d == a + (b + (c + d))
  {
  }

  /** The first key, its colon, the first value. */
  lemma ReadFirstMember(keys: seq<string>, vs: seq<Value>)
    requires |keys| == |vs| > 0
    ensures var t := Members(keys, vs);
            && t != [] && t[0] == QUOTE
            && ReadString(t[1..]) == Some((Lit(keys[0]), [COLON] + (Dump(vs[0]) + After(keys, vs))))
  {
    var k := Lit(keys[0]);
    var x := [COLON] + (Dump(vs[0]) + After(keys, vs));
    Reassociate(Dump(Str(k)), [COLON], Dump(vs[0]), After(keys, vs));
    DumpedString(k, x);
    ReadEscaped(k, x);
    assert Members(keys, vs) == [QUOTE] + Literal(k, x);
  }

  function Zip(keys: seq<string>, vs: seq<Value>): seq<(Text, Value)>
    requires |keys| == |vs|
  {
    if keys == [] then [] else [(Lit(keys[0]), vs[0])] + Zip(keys[1..], vs[1..])
  }

  lemma {:induction false} ReadPrintedMembers(keys: seq<string>, vs: seq<Value>)
    requires |keys| == |vs| > 0
    ensures ReadMembers(Members(keys, vs)) == Some(Zip(keys, vs))
  {
    var x := After(keys, vs);
    ReadFirstMember(keys, vs);
    ReadDumped(vs[0], x);
    assert ([COLON] + (Dump(vs[0]) + x))[1..] == Dump(vs[0]) + x;
    if |vs| > 1 {
      ReadPrintedMembers(keys[1..], vs[1..]);
      assert x[1..] == Members(keys[1..], vs[1..]);
      assert |x| > 1;
    } else {
      assert Zip(keys, vs) == [(Lit(keys[0]), vs[0])];
    }
  }

  /** A JSON reader finds in the text exactly the sorted names and the values. */
  lemma TextReadsBack(vs: seq<Value>)
    requires |vs| == 20
    ensures ReadObject(TextOf(vs)) == Some(Zip(Names(), vs))
  {
    ReadPrintedMembers(Names(), vs);
    assert TextOf(vs)[1..] == Members(Names(), vs);
  }

  lemma {:induction false} ZipInjective(keys: seq<string>, vs: seq<Value>, ws: seq<Value>)
    requires |keys| == |vs| == |ws| && Zip(keys, vs) == Zip(keys, ws)
    ensures vs == ws
  {
    if keys != [] {
      assert Zip(keys, vs)[0] == Zip(keys, ws)[0];
      assert Zip(keys, vs)[1..] == Zip(keys[1..], vs[1..]) && Zip(keys, ws)[1..] == Zip(keys[1..], ws[1..]);
      ZipInjective(keys[1..], vs[1..], ws[1..]);
      assert vs == [vs[0]] + vs[1..] && ws == [ws[0]] + ws[1..];
    }
  }

  lemma BytesInjective(vs: seq<Value>, ws: seq<Value>)
    requires |vs| == |ws| == 20 && BytesOf(vs).Some? && BytesOf(vs) == BytesOf(ws)
    ensures vs == ws
  {
    Utf8.EncodeInjective(TextOf(vs), TextOf(ws));
    TextReadsBack(vs);
    TextReadsBack(ws);
    ZipInjective(Names(), vs, ws);
  }

  /** Rows that agree on every chained column; `entry_hash` is free. */
  predicate SameChained(r: Row, s: Row) {
    r == s.(entryHash := r.entryHash)
  }

  /** The values under the sorted names, written out. */
  function Listed(r: Row): seq<Value> {
    [Str(r.activityId), Str(r.activityType), Str(r.agentDid), Int(r.chainIndex), OptText(r.costAmount),
     Str(r.costUnit), OptText(r.metaJson), OptText(r.model), Str(r.occurredAt), Str(r.prevHash),
     OptText(r.providerId), Str(r.recordedAt), OptText(r.refActivityId), OptText(r.resultHash),
     OptText(r.signature), OptText(r.signedPayloadHash), OptText(r.taskId), OptInt(r.tcNonce),
     OptText(r.tcRoom), OptInt(r.tcSeq)]
  }

  lemma FieldsInOrder(r: Row)
    ensures Fields(r) == Listed(r)
  {
  }

  lemma ListedFirstTen(r: Row, s: Row)
    requires Listed(r) == Listed(s)
    ensures r.activityId == s.activityId && r.activityType == s.activityType && r.agentDid == s.agentDid
    ensures r.chainIndex == s.chainIndex && r.costAmount == s.costAmount && r.costUnit == s.costUnit
    ensures r.metaJson == s.metaJson && r.model == s.model && r.occurredAt == s.occurredAt && r.prevHash == s.prevHash
  {
    var f, g := Listed(r), Listed(s);
    assert f[0] == g[0] && f[1] == g[1] && f[2] == g[2] && f[3] == g[3] && f[4] == g[4];
    assert f[5] == g[5] && f[6] == g[6] && f[7] == g[7] && f[8] == g[8] && f[9] == g[9];
  }

  lemma ListedLastTen(r: Row, s: Row)
    requires Listed(r) == Listed(s)
    ensures r.providerId == s.providerId && r.recordedAt == s.recordedAt && r.refActivityId == s.refActivityId
    ensures r.resultHash == s.resultHash && r.signature == s.signature && r.signedPayloadHash == s.signedPayloadHash
    ensures r.taskId == s.taskId && r.tcNonce == s.tcNonce && r.tcRoom == s.tcRoom && r.tcSeq == s.tcSeq
  {
    var f, g := Listed(r), Listed(s);
    assert f[10] == g[10] && f[11] == g[11] && f[12] == g[12] && f[13] == g[13] && f[14] == g[14];
    assert f[15] == g[15] && f[16] == g[16] && f[17] == g[17] && f[18] == g[18] && f[19] == g[19];
  }

  lemma ListedDetermineRow(r: Row, s: Row)
    requires Listed(r) == Listed(s)
    ensures SameChained(r, s)
  {
    ListedFirstTen(r, s);
    ListedLastTen(r, s);
  }

  lemma FieldsDetermineRow(r: Row, s: Row)
    requires Fields(r) == Fields(s)
    ensures SameChained(r, s)
  {
    FieldsInOrder(r);
    FieldsInOrder(s);
    ListedDetermineRow(r, s);
  }

  lemma SameRowSameFields(r: Row, s: Row)
    requires SameChained(r, s)
    ensures Fields(r) == Fields(s)
  {
    FieldsInOrder(r);
    FieldsInOrder(s);
  }

  /** Equal canonical bytes mean equal chained columns, whatever the strings contain, and conversely. */
  lemma CanonicalBytesInjective(r: Row, s: Row)
    requires CanonicalBytes(r).Some?
    ensures CanonicalBytes(r) == CanonicalBytes(s) <==> SameChained(r, s)
  {
    if CanonicalBytes(r) == CanonicalBytes(s) {
      BytesInjective(Fields(r), Fields(s));
      FieldsDetermineRow(r, s);
    }
    if SameChained(r, s) {
      SameRowSameFields(r, s);
    }
  }

  // ----- which rows can be hashed --------------------------------------------------------------

  predicate ValueEncodable(v: Value) {
    v.Str? ==> Utf8.Encodable(v.t)
  }

  lemma EscapeCharEncodable(c: CodePoint)
    ensures Utf8.Encodable(EscapeChar(c)) <==> !Utf8.Surrogate(c)
  {
    if Utf8.Surrogate(c) {
      assert EscapeChar(c)[0] == c;
    }
  }

  lemma EncodableConcat(s: Text, t: Text)
    ensures Utf8.Encodable(s + t) <==> Utf8.Encodable(s) && Utf8.Encodable(t)
  {
    assert forall i :: 0 <= i < |s| ==> (s + t)[i] == s[i];
    assert forall i :: 0 <= i < |t| ==> (s + t)[|s| + i] == t[i];
  }

  lemma {:induction false} EscapeEncodable(t: Text)
    ensures Utf8.Encodable(Escape(t)) <==> Utf8.Encodable(t)
  {
    if t != [] {
      EscapeCharEncodable(t[0]);
      EscapeEncodable(t[1..]);
      EncodableConcat(EscapeChar(t[0]), Escape(t[1..]));
      EncodableConcat([t[0]], t[1..]);
      assert t == [t[0]] + t[1..];
    }
  }

  lemma DumpEncodable(v: Value)
    ensures Utf8.Encodable(Dump(v)) <==> ValueEncodable(v)
  {
    if v.Str? {
      EscapeEncodable(v.t);
      EncodableConcat([QUOTE], Escape(v.t));
      EncodableConcat([QUOTE] + Escape(v.t), [QUOTE]);
    }
  }

  lemma EncodableConcat4(a: Text, b: Text, c: Text, d: Text)
    ensures Utf8.Encodable(a + b + c + d) <==>
              Utf8.Encodable(a) && Utf8.Encodable(b) && Utf8.Encodable(c) && Utf8.Encodable(d)
  {
    EncodableConcat(a, b);
    EncodableConcat(a + b, c);
    EncodableConcat(a + b + c, d);
  }

  /** An object can be encoded exactly when its first value and the rest can. */
  lemma FirstMemberEncodable(keys: seq<string>, vs: seq<Value>)
    requires |keys| == |vs| > 0 && Utf8.Encodable(Lit(keys[0]))
    ensures Utf8.Encodable(Members(keys, vs)) <==> ValueEncodable(vs[0]) && Utf8.Encodable(After(keys, vs))
  {
    DumpEncodable(vs[0]);
    DumpEncodable(Str(Lit(keys[0])));
    EncodableConcat4(Dump(Str(Lit(keys[0]))), [COLON], Dump(vs[0]), After(keys, vs));
  }

  lemma {:induction false} MembersEncodable(keys: seq<string>, vs: seq<Value>)
    requires |keys| == |vs| > 0
    requires forall i :: 0 <= i < |keys| ==> Utf8.Encodable(Lit(keys[i]))
    ensures Utf8.Encodable(Members(keys, vs)) <==> forall i :: 0 <= i < |vs| ==> ValueEncodable(vs[i])
  {
    FirstMemberEncodable(keys, vs);
    if |vs| > 1 {
      MembersEncodable(keys[1..], vs[1..]);
      EncodableConcat([COMMA], Members(keys[1..], vs[1..]));
      assert forall i :: 1 <= i < |vs| ==> vs[i] == vs[1..][i - 1];
    }
  }

  /** Hashing a row fails exactly when one of its strings holds a lone surrogate. */
  lemma HashableRows(r: Row)
    ensures CanonicalBytes(r).Some? <==> forall c: Column :: ValueEncodable(c.Of(r))
  {
    MembersEncodable(Names(), Fields(r));
    EncodableConcat([OPEN], Members(Names(), Fields(r)));
    ColumnsEncodable(r);
  }

  lemma ColumnsEncodable(r: Row)
    ensures (forall i :: 0 <= i < 20 ==> ValueEncodable(Fields(r)[i])) <==> forall c: Column :: ValueEncodable(c.Of(r))
  {
    SortedColumns();
    if forall i :: 0 <= i < 20 ==> ValueEncodable(Fields(r)[i]) {
      forall c: Column ensures ValueEncodable(c.Of(r)) {
        assert ValueEncodable(Fields(r)[c.Rank()]);
      }
    }
  }
}
