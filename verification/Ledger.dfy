/** The append-only writer over the `activities` table. */
module Ledger {
  import opened Common
  import opened HashChain
  import opened Verify

  /** One entry before its chain columns are assigned; `metaJson` is the metadata already serialised. */
  datatype Activity = Activity(
    agentDid: Text,
    activityType: Text,
    occurredAt: Text,
    taskId: Option<Text>,
    refActivityId: Option<Text>,
    tcRoom: Option<Text>,
    tcSeq: Option<PyInt>,
    tcNonce: Option<PyInt>,
    signedPayloadHash: Option<Text>,
    signature: Option<Text>,
    resultHash: Option<Text>,
    providerId: Option<Text>,
    model: Option<Text>,
    costAmount: Option<Text>,
    costUnit: Text,
    metaJson: Option<Text>)

  datatype LedgerError = Invalid | SecretRefused | ReferenceMissing | NotStored

  datatype AppendResult = Appended(row: Row) | Refused(error: LedgerError)

  const NO_COST: Text := Lit("NONE")

  const COST_UNITS: seq<Text> := [NO_COST, Lit("FLOP_TEST"), Lit("USD")]

  const ACTIVITY_TYPES: seq<Text> := [
    Lit("ledger.genesis"), Lit("technocore.read"), Lit("technocore.write.intent"),
    Lit("technocore.write.result"), Lit("technocore.write.failed"),
    Lit("technocore_message_prepare_intent"), Lit("technocore_message_signed_local"),
    Lit("technocore_message_verified_local"), Lit("technocore_message_publish_blocked"),
    Lit("technocore_message_publish_result"), Lit("identity.nonce.reserved"), Lit("note")]

  /** `_validate`: what is refused before anything else happens. */
  predicate ValidActivity(a: Activity) {
    && a.agentDid != []
    && a.activityType in ACTIVITY_TYPES
    && a.costUnit in COST_UNITS
    && (a.costAmount.Some? ==> a.costUnit != NO_COST)
  }

  /** What the surroundings decide about one append. */
  datatype Surroundings = Surroundings(
    activityId: Text,           // uuid4
    recordedAt: Text,           // the clock
    secret: bool,               // the secret scanner found something
    storable: Row -> bool)      // the row can be hashed and written: text is UTF-8, integers fit, no I/O error

  /** How the file stores an int: a bool becomes 0 or 1. */
  function Stored(n: Option<PyInt>): Option<int> {
    if n.None? then None else Some(n.value.Number())
  }

  predicate IsBool(n: Option<PyInt>) {
    n.Some? && n.value.PyBool?
  }

  predicate HasBool(a: Activity) {
    IsBool(a.tcSeq) || IsBool(a.tcNonce)
  }

  /** The hash of a row as it is read back, and the hash an append computes, over the row with its
      sequence number and nonce as they came. */
  datatype Hashing = Hashing(row: RowHash, given: (Row, Option<PyInt>, Option<PyInt>) -> Text) {
    /** `entry_hash` is not covered by itself, and without a bool both hashes agree. */
    ghost predicate Valid() {
      && IgnoresEntryHash(row)
      && forall r: Row, seqno: Option<PyInt>, nonce: Option<PyInt> ::
           r.tcSeq == Stored(seqno) && r.tcNonce == Stored(nonce) && !IsBool(seqno) && !IsBool(nonce) ==>
             given(r, seqno, nonce) == row(r)
    }
  }

  function UnhashedRow(a: Activity, env: Surroundings, index: int, prev: Text): Row {
    Row(env.activityId, index, a.agentDid, a.activityType, a.taskId, a.refActivityId, a.tcRoom, Stored(a.tcSeq),
        Stored(a.tcNonce), a.signedPayloadHash, a.signature, a.resultHash, a.providerId, a.model, a.costAmount,
        a.costUnit, a.occurredAt, env.recordedAt, a.metaJson, prev, [])
  }

  function HashedRow(h: Hashing, a: Activity, env: Surroundings, index: int, prev: Text): Row {
    var r := UnhashedRow(a, env, index, prev);
    r.(entryHash := h.given(r, a.tcSeq, a.tcNonce))
  }

  /** The row holds every field of the activity under its own name, and what the surroundings supplied. */
  predicate Carries(r: Row, a: Activity, env: Surroundings) {
    && r.agentDid == a.agentDid && r.activityType == a.activityType && r.occurredAt == a.occurredAt
    && r.taskId == a.taskId && r.refActivityId == a.refActivityId && r.tcRoom == a.tcRoom && r.tcSeq == Stored(a.tcSeq)
    && r.tcNonce == Stored(a.tcNonce) && r.signedPayloadHash == a.signedPayloadHash && r.signature == a.signature
    && r.resultHash == a.resultHash && r.providerId == a.providerId && r.model == a.model
    && r.costAmount == a.costAmount && r.costUnit == a.costUnit && r.metaJson == a.metaJson
    && r.activityId == env.activityId && r.recordedAt == env.recordedAt
  }

  function Ids(rows: seq<Row>): set<Text> {
    set i | 0 <= i < |rows| :: rows[i].activityId
  }

  function Hashes(rows: seq<Row>): set<Text> {
    set i | 0 <= i < |rows| :: rows[i].entryHash
  }

  /** The row a successful append adds. */
  function NewRow(h: Hashing, rows: seq<Row>, a: Activity, env: Surroundings): Row {
    HashedRow(h, a, env, |rows|, ExpectedPrev(rows, |rows|))
  }

  /** Every way an append can be refused, in the order it is found. */
  function Refusal(h: Hashing, rows: seq<Row>, a: Activity, env: Surroundings): Option<LedgerError> {
    var r := NewRow(h, rows, a, env);
    if !ValidActivity(a) then Some(Invalid)
    else if env.secret then Some(SecretRefused)
    else if a.refActivityId.Some? && a.refActivityId.value !in Ids(rows) then Some(ReferenceMissing)
    else if !env.storable(r) || r.activityId in Ids(rows) || r.entryHash in Hashes(rows) then Some(NotStored)
    else None
  }

  /** What an activity must be: by somebody, of a known type, in a known cost unit, and with an amount only
      in a unit other than NONE. */
  predicate WellSpecified(a: Activity) {
    && a.agentDid != []
    && a.activityType in ACTIVITY_TYPES
    && (a.costUnit == Lit("NONE") || a.costUnit == Lit("FLOP_TEST") || a.costUnit == Lit("USD"))
    && (a.costAmount.Some? ==> a.costUnit != Lit("NONE"))
  }

  predicate HasId(rows: seq<Row>, id: Text) {
    exists i :: 0 <= i < |rows| && rows[i].activityId == id
  }

  predicate HasHash(rows: seq<Row>, hash: Text) {
    exists i :: 0 <= i < |rows| && rows[i].entryHash == hash
  }

  /** An append is accepted exactly when the activity is well specified and holds no secret, what it refers to
      is in the table, and the row can be stored under an id and a hash of its own. What comes first of the
      reasons against it: the activity, a secret, the reference. */
  lemma AcceptedExactly(h: Hashing, rows: seq<Row>, a: Activity, env: Surroundings)
    ensures var refused := Refusal(h, rows, a, env);
            var r := NewRow(h, rows, a, env);
            var refers := a.refActivityId.Some? ==> HasId(rows, a.refActivityId.value);
            && (refused == Some(Invalid) <==> !WellSpecified(a))
            && (refused == Some(SecretRefused) <==> WellSpecified(a) && env.secret)
            && (refused == Some(ReferenceMissing) <==> WellSpecified(a) && !env.secret && !refers)
            && (refused.None? <==>
                  && WellSpecified(a) && !env.secret && refers
                  && env.storable(r) && !HasId(rows, r.activityId) && !HasHash(rows, r.entryHash))
  {
    if a.refActivityId.Some? {
      IdsAreRows(rows, a.refActivityId.value, []);
    }
    IdsAreRows(rows, env.activityId, NewRow(h, rows, a, env).entryHash);
    UnitsDiffer(a.costUnit);
  }

  lemma IdsAreRows(rows: seq<Row>, id: Text, hash: Text)
    ensures id in Ids(rows) <==> HasId(rows, id)
    ensures hash in Hashes(rows) <==> HasHash(rows, hash)
  {
  }

  lemma UnitsDiffer(unit: Text)
    ensures unit in COST_UNITS <==> unit == Lit("NONE") || unit == Lit("FLOP_TEST") || unit == Lit("USD")
  {
    if unit == Lit("NONE") {
      assert COST_UNITS[0] == unit;
    } else if unit == Lit("FLOP_TEST") {
      assert COST_UNITS[1] == unit;
    } else if unit == Lit("USD") {
      assert COST_UNITS[2] == unit;
    }
  }

  // ----- what every ledger keeps ---------------------------------------------------------------

  predicate RefersBack(rows: seq<Row>, i: nat)
    requires i < |rows|
  {
    rows[i].refActivityId.Some? ==> rows[i].refActivityId.value in Ids(rows[..i])
  }

  predicate DistinctIds(rows: seq<Row>) {
    forall i, j :: 0 <= i < j < |rows| ==> rows[i].activityId != rows[j].activityId
  }

  predicate LinkOk(rows: seq<Row>, i: nat)
    requires i < |rows|
  {
    rows[i].chainIndex == i && rows[i].prevHash == ExpectedPrev(rows, i)
  }

  /** Numbered from zero, each row linked to the one before, ids never repeated, and every reference
      naming an earlier row. */
  predicate Linked(rows: seq<Row>) {
    && (forall i :: 0 <= i < |rows| ==> LinkOk(rows, i))
    && DistinctIds(rows)
    && forall i :: 0 <= i < |rows| ==> RefersBack(rows, i)
  }

  /** The row's own hash is the one that verification recomputes. */
  predicate Sound(h: Hashing, r: Row) {
    r.entryHash == h.row(r)
  }

  predicate AllSound(h: Hashing, rows: seq<Row>) {
    forall i :: 0 <= i < |rows| ==> Sound(h, rows[i])
  }

  /** Linked, and every hash as verification recomputes it. */
  predicate WellFormed(hash: RowHash, rows: seq<Row>) {
    && Chained(hash, rows)
    && DistinctIds(rows)
    && forall i :: 0 <= i < |rows| ==> RefersBack(rows, i)
  }

  lemma WellFormedIsSound(h: Hashing, rows: seq<Row>)
    ensures WellFormed(h.row, rows) <==> Linked(rows) && AllSound(h, rows)
  {
    assert forall i :: 0 <= i < |rows| ==> (RowOk(h.row, rows, i) <==> LinkOk(rows, i) && Sound(h, rows[i]));
    if Chained(h.row, rows) {
      forall i | 0 <= i < |rows| ensures LinkOk(rows, i) && Sound(h, rows[i]) {
        assert RowOk(h.row, rows, i);
      }
    }
  }

  /** `entry_hash` is not covered by itself. */
  ghost predicate IgnoresEntryHash(hash: RowHash) {
    forall r: Row, h: Text :: hash(r.(entryHash := h)) == hash(r)
  }

  /** Whatever is appended, the table stays linked. */
  lemma AppendKeepsLinked(h: Hashing, rows: seq<Row>, a: Activity, env: Surroundings)
    requires Linked(rows) && Refusal(h, rows, a, env).None?
    ensures Linked(rows + [NewRow(h, rows, a, env)])
  {
    var r := NewRow(h, rows, a, env);
    var t := rows + [r];
    forall i | 0 <= i < |t| ensures LinkOk(t, i) && RefersBack(t, i) {
      if i < |rows| {
        assert LinkOk(rows, i) && RefersBack(rows, i);
        assert t[..i] == rows[..i];
      } else {
        assert t[..i] == rows;
      }
    }
  }

  /** A row without bools is sound. */
  lemma NewRowSound(h: Hashing, rows: seq<Row>, a: Activity, env: Surroundings)
    ensures h.Valid() && !HasBool(a) ==> Sound(h, NewRow(h, rows, a, env))
  {
    if h.Valid() && !HasBool(a) {
      var r := UnhashedRow(a, env, |rows|, ExpectedPrev(rows, |rows|));
      assert h.row(r.(entryHash := h.given(r, a.tcSeq, a.tcNonce))) == h.row(r);
    }
  }

  /** Rows appended to a well-formed table keep it so exactly when each of them is sound. */
  lemma ExtendWellFormed(h: Hashing, rows: seq<Row>, added: seq<Row>)
    requires WellFormed(h.row, rows) && Linked(rows + added)
    ensures WellFormed(h.row, rows + added) <==> AllSound(h, added)
  {
    WellFormedIsSound(h, rows);
    WellFormedIsSound(h, rows + added);
    SoundAppend(h, rows, added);
  }

  lemma SoundAppend(h: Hashing, rows: seq<Row>, added: seq<Row>)
    ensures AllSound(h, rows + added) <==> AllSound(h, rows) && AllSound(h, added)
  {
    var t := rows + added;
    assert forall i :: 0 <= i < |rows| ==> t[i] == rows[i];
    assert forall i :: 0 <= i < |added| ==> t[|rows| + i] == added[i];
  }

  /** An append to a well-formed table keeps it well formed exactly when the new row is sound, as every
      row without bools is. */
  lemma AppendKeepsWellFormed(h: Hashing, rows: seq<Row>, a: Activity, env: Surroundings)
    requires h.Valid() && WellFormed(h.row, rows) && Refusal(h, rows, a, env).None?
    ensures WellFormed(h.row, rows + [NewRow(h, rows, a, env)]) <==> Sound(h, NewRow(h, rows, a, env))
    ensures !HasBool(a) ==> Sound(h, NewRow(h, rows, a, env))
  {
    WellFormedIsSound(h, rows);
    AppendKeepsLinked(h, rows, a, env);
    var r := NewRow(h, rows, a, env);
    ExtendWellFormed(h, rows, [r]);
    assert [r][0] == r && (AllSound(h, [r]) <==> Sound(h, r));
    NewRowSound(h, rows, a, env);
  }

  /** A well-formed table verifies VALID, or EMPTY when it has no rows. */
  lemma WellFormedVerifies(hash: RowHash, rows: seq<Row>, res: VerifyResult)
    requires WellFormed(hash, rows) && Reports(hash, rows, res)
    ensures res == if rows == [] then Empty else Valid(|rows|, rows[|rows| - 1].entryHash)
  {
    OneVerdict(hash, rows, res, if rows == [] then Empty else Valid(|rows|, rows[|rows| - 1].entryHash));
  }

  /** Linked, and while only rows without bools were appended, every row hashed as it is read back. */
  ghost predicate Kept(h: Hashing, rows: seq<Row>, clean: bool) {
    Linked(rows) && (clean ==> h.Valid() && AllSound(h, rows))
  }

  lemma AppendKeeps(h: Hashing, rows: seq<Row>, clean: bool, a: Activity, env: Surroundings)
    requires Kept(h, rows, clean) && Refusal(h, rows, a, env).None?
    ensures Kept(h, rows + [NewRow(h, rows, a, env)], clean && !HasBool(a))
  {
    var r := NewRow(h, rows, a, env);
    AppendKeepsLinked(h, rows, a, env);
    NewRowSound(h, rows, a, env);
    SoundAppend(h, rows, [r]);
  }

  // ----- the writer ----------------------------------------------------------------------------

  class Ledger {
    const hashing: Hashing
    var rows: seq<Row>
    ghost var clean: bool       // both hashes agree without bools, and no append here held one

    /** Always linked; and while it is clean, every row is hashed as it is read back. */
    ghost predicate Valid()
      reads this
    {
      Kept(hashing, rows, clean)
    }

    constructor (hashing: Hashing)
      ensures this.hashing == hashing && rows == [] && Valid() && clean == hashing.Valid()
    {
      this.hashing := hashing;
      rows := [];
      clean := hashing.Valid();
    }

    /** The row with this id, if any. */
    method ById(id: Text) returns (found: Option<Row>)
      ensures found.Some? ==> found.value in rows && found.value.activityId == id
      ensures found.None? <==> id !in Ids(rows)
    {
      var i := 0;
      while i < |rows|
        invariant 0 <= i <= |rows|
        invariant forall j :: 0 <= j < i ==> rows[j].activityId != id
      {
        if rows[i].activityId == id {
          return Some(rows[i]);
        }
        i := i + 1;
      }
      return None;
    }

    /** Where the next row goes: after the last one, or at the start. */
    method Head() returns (index: int, prev: Text)
      requires Linked(rows)
      ensures index == |rows| && prev == ExpectedPrev(rows, |rows|)
    {
      if |rows| == 0 {
        return 0, GENESIS;
      }
      var head := rows[|rows| - 1];
      assert LinkOk(rows, |rows| - 1);
      return head.chainIndex + 1, head.entryHash;
    }

    /** `append`: one transaction that reads the head and inserts one row, or leaves the table alone. */
    method Append(a: Activity, env: Surroundings) returns (res: AppendResult)
      requires Valid()
      modifies this
      ensures Valid() && clean == (old(clean) && (res.Refused? || !HasBool(a)))
      ensures res.Refused? ==> rows == old(rows) && Refusal(hashing, old(rows), a, env) == Some(res.error)
      ensures res.Appended? ==>
        && Refusal(hashing, old(rows), a, env).None?
        && rows == old(rows) + [res.row]
        && res.row == NewRow(hashing, old(rows), a, env)
        && Carries(res.row, a, env)
    {
      if !ValidActivity(a) {
        return Refused(Invalid);
      }
      if env.secret {
        return Refused(SecretRefused);
      }
      var chainIndex, prevHash := Head();
      if a.refActivityId.Some? {
        var found := ById(a.refActivityId.value);
        if found.None? {
          return Refused(ReferenceMissing);
        }
      }
      var row := UnhashedRow(a, env, chainIndex, prevHash);
      row := row.(entryHash := hashing.given(row, a.tcSeq, a.tcNonce));
      var same := ById(row.activityId);
      if !env.storable(row) || same.Some? || row.entryHash in Hashes(rows) {
        return Refused(NotStored);
      }
      assert row == NewRow(hashing, rows, a, env);
      AppendKeeps(hashing, rows, clean, a, env);
      rows := rows + [row];
      clean := clean && !HasBool(a);
      return Appended(row);
    }
  }

  /** A clean ledger verifies VALID, or EMPTY when it has no rows. */
  lemma CleanLedgerVerifies(ledger: Ledger, res: VerifyResult)
    requires ledger.Valid() && ledger.clean && Reports(ledger.hashing.row, ledger.rows, res)
    ensures WellFormed(ledger.hashing.row, ledger.rows)
    ensures res == if ledger.rows == [] then Empty else Valid(|ledger.rows|, ledger.rows[|ledger.rows| - 1].entryHash)
  {
    WellFormedIsSound(ledger.hashing, ledger.rows);
    WellFormedVerifies(ledger.hashing.row, ledger.rows, res);
  }
}

/** Any number of connections appending at once, each able to fail or stop at any point. The one
    assumption is SQLite's write lock: at most one transaction is open. */
module LedgerProtocol {
  import opened Common
  import opened HashChain
  import opened Verify
  import opened Ledger

  datatype Phase =
    | Began
    | HeadRead(index: int, prev: Text)
    | Inserted

  /** The open transaction: who holds the lock, what it appends, how far it is, its uncommitted view. */
  datatype Transaction = Transaction(conn: nat, a: Activity, env: Surroundings, phase: Phase, view: seq<Row>)

  datatype State = State(rows: seq<Row>, open: Option<Transaction>)

  datatype Step =
    | Begin(conn: nat, a: Activity, env: Surroundings)
    | ReadHead
    | Insert
    | Commit
    | Rollback

  predicate Init(s: State) {
    s == State([], None)
  }

  predicate Enabled(h: Hashing, s: State, step: Step) {
    match step
    case Begin(conn, a, env) => s.open.None? && ValidActivity(a) && !env.secret
    case ReadHead => s.open.Some? && s.open.value.phase.Began?
    case Insert =>
      && s.open.Some? && s.open.value.phase.HeadRead?
      && var tx := s.open.value;
         var r := HashedRow(h, tx.a, tx.env, tx.phase.index, tx.phase.prev);
         && (tx.a.refActivityId.Some? ==> tx.a.refActivityId.value in Ids(tx.view))
         && tx.env.storable(r) && r.activityId !in Ids(tx.view) && r.entryHash !in Hashes(tx.view)
    case Commit => s.open.Some? && s.open.value.phase.Inserted?
    case Rollback => s.open.Some?
  }

  function Next(h: Hashing, s: State, step: Step): State
    requires Enabled(h, s, step)
  {
    match step
    case Begin(conn, a, env) => s.(open := Some(Transaction(conn, a, env, Began, s.rows)))
    case ReadHead =>
      var tx := s.open.value;
      var phase :=
        if tx.view == [] then HeadRead(0, GENESIS)
        else var head := tx.view[|tx.view| - 1]; HeadRead(head.chainIndex + 1, head.entryHash);
      s.(open := Some(tx.(phase := phase)))
    case Insert =>
      var tx := s.open.value;
      var r := HashedRow(h, tx.a, tx.env, tx.phase.index, tx.phase.prev);
      s.(open := Some(tx.(phase := Inserted, view := tx.view + [r])))
    case Commit => State(s.open.value.view, None)
    case Rollback => s.(open := None)
  }

  predicate Inv(h: Hashing, s: State) {
    && Linked(s.rows)
    && (s.open.Some? ==>
          var tx := s.open.value;
          && ValidActivity(tx.a) && !tx.env.secret
          && match tx.phase
             case Began => tx.view == s.rows
             case HeadRead(index, prev) =>
               tx.view == s.rows && index == |s.rows| && prev == ExpectedPrev(s.rows, |s.rows|)
             case Inserted =>
               && Refusal(h, s.rows, tx.a, tx.env).None?
               && tx.view == s.rows + [NewRow(h, s.rows, tx.a, tx.env)])
  }

  lemma StepKeepsInv(h: Hashing, s: State, step: Step)
    requires Inv(h, s) && Enabled(h, s, step)
    ensures Inv(h, Next(h, s, step))
  {
    match step {
      case Begin(_, _, _) =>
      case ReadHead =>
        assert s.rows != [] ==> LinkOk(s.rows, |s.rows| - 1);
      case Insert =>
      case Commit =>
        AppendKeepsLinked(h, s.rows, s.open.value.a, s.open.value.env);
      case Rollback =>
    }
  }

  /** The committed table changes only when a transaction commits, and then exactly as one whole
      append to the table at that moment would change it. */
  lemma CommitsAreAtomicAppends(h: Hashing, s: State, step: Step)
    requires Inv(h, s) && Enabled(h, s, step)
    ensures step.Commit? ==>
      && Refusal(h, s.rows, s.open.value.a, s.open.value.env).None?
      && Next(h, s, step).rows == s.rows + [NewRow(h, s.rows, s.open.value.a, s.open.value.env)]
    ensures !step.Commit? ==> Next(h, s, step).rows == s.rows
  {
  }

  /** The state after a whole run, or None when some step was not possible. */
  function Run(h: Hashing, s: State, steps: seq<Step>): Option<State>
    decreases |steps|
  {
    if steps == [] then Some(s)
    else if !Enabled(h, s, steps[0]) then None
    else Run(h, Next(h, s, steps[0]), steps[1..])
  }

  lemma {:induction false} RunKeepsInv(h: Hashing, s: State, steps: seq<Step>)
    requires Inv(h, s) && Run(h, s, steps).Some?
    ensures Inv(h, Run(h, s, steps).value)
    ensures s.rows <= Run(h, s, steps).value.rows
    decreases |steps|
  {
    if steps != [] {
      StepKeepsInv(h, s, steps[0]);
      CommitsAreAtomicAppends(h, s, steps[0]);
      RunKeepsInv(h, Next(h, s, steps[0]), steps[1..]);
    }
  }

  /** What the transactions that commit during a run append, in commit order. */
  function Committed(h: Hashing, s: State, steps: seq<Step>): seq<(Activity, Surroundings)>
    requires Run(h, s, steps).Some?
    decreases |steps|
  {
    if steps == [] then []
    else
      (if steps[0].Commit? then [(s.open.value.a, s.open.value.env)] else []) +
      Committed(h, Next(h, s, steps[0]), steps[1..])
  }

  /** Appending one after the other with nobody else at the ledger; None when one is refused. */
  function AppendEach(h: Hashing, rows: seq<Row>, todo: seq<(Activity, Surroundings)>): Option<seq<Row>>
    decreases |todo|
  {
    if todo == [] then Some(rows)
    else if Refusal(h, rows, todo[0].0, todo[0].1).Some? then None
    else AppendEach(h, rows + [NewRow(h, rows, todo[0].0, todo[0].1)], todo[1..])
  }

  /** Runs are serialisable: the committed table is what appending the same activities one after the
      other, in commit order, would have left, and none of them would have been refused. */
  lemma {:induction false} RunsAreSequential(h: Hashing, s: State, steps: seq<Step>)
    requires Inv(h, s) && Run(h, s, steps).Some?
    ensures AppendEach(h, s.rows, Committed(h, s, steps)) == Some(Run(h, s, steps).value.rows)
    decreases |steps|
  {
    if steps != [] {
      var next, rest := Next(h, s, steps[0]), steps[1..];
      StepKeepsInv(h, s, steps[0]);
      CommitsAreAtomicAppends(h, s, steps[0]);
      RunsAreSequential(h, next, rest);
      if steps[0].Commit? {
        assert Committed(h, s, steps)[1..] == Committed(h, next, rest);
      } else {
        assert Committed(h, s, steps) == Committed(h, next, rest);
      }
    }
  }

  /** A row as an accepted append leaves it. */
  predicate Admitted(r: Row, a: Activity, env: Surroundings) {
    Carries(r, a, env) && WellSpecified(a) && !env.secret
  }

  lemma {:induction false} AppendEachRows(h: Hashing, rows: seq<Row>, todo: seq<(Activity, Surroundings)>)
    requires AppendEach(h, rows, todo).Some?
    ensures var all := AppendEach(h, rows, todo).value;
            && rows <= all && |all| == |rows| + |todo|
            && forall k :: 0 <= k < |todo| ==> Admitted(all[|rows| + k], todo[k].0, todo[k].1)
    decreases |todo|
  {
    if todo != [] {
      var (a, env) := todo[0];
      var more := rows + [NewRow(h, rows, a, env)];
      AcceptedExactly(h, rows, a, env);
      AppendEachRows(h, more, todo[1..]);
      var all := AppendEach(h, more, todo[1..]).value;
      assert more[|rows|] == all[|rows|];
      forall k | 0 <= k < |todo| ensures Admitted(all[|rows| + k], todo[k].0, todo[k].1) {
        if k > 0 {
          assert todo[1..][k - 1] == todo[k] && all[|more| + (k - 1)] == all[|rows| + k];
        }
      }
    }
  }

  /** Every row of a reachable ledger is that of one committed append, in commit order: it carries what was
      asked for, which was well specified, and in which the scanner found no secret. */
  lemma RowsAreAdmitted(h: Hashing, init: State, steps: seq<Step>)
    requires Init(init) && Run(h, init, steps).Some?
    ensures var rows := Run(h, init, steps).value.rows;
            var committed := Committed(h, init, steps);
            && |rows| == |committed|
            && forall i :: 0 <= i < |rows| ==> Admitted(rows[i], committed[i].0, committed[i].1)
  {
    RunsAreSequential(h, init, steps);
    AppendEachRows(h, [], Committed(h, init, steps));
  }

  lemma {:induction false} CleanKeepsWellFormed(h: Hashing, rows: seq<Row>, todo: seq<(Activity, Surroundings)>)
    requires h.Valid() && WellFormed(h.row, rows) && AppendEach(h, rows, todo).Some?
    requires forall k :: 0 <= k < |todo| ==> !HasBool(todo[k].0)
    ensures WellFormed(h.row, AppendEach(h, rows, todo).value)
    decreases |todo|
  {
    if todo != [] {
      AppendKeepsWellFormed(h, rows, todo[0].0, todo[0].1);
      CleanKeepsWellFormed(h, rows + [NewRow(h, rows, todo[0].0, todo[0].1)], todo[1..]);
    }
  }

  /** Whatever the interleaving of successful and aborted appends, the table that readers see is linked,
      its references point strictly backward, and later runs only extend it; and it verifies VALID or
      EMPTY as long as no append that committed held a bool for an int. */
  lemma ReachableLedgersVerify(h: Hashing, init: State, steps: seq<Step>, more: seq<Step>, res: VerifyResult)
    requires h.Valid() && Init(init) && Run(h, init, steps).Some?
    requires Run(h, Run(h, init, steps).value, more).Some?
    requires Reports(h.row, Run(h, init, steps).value.rows, res)
    ensures Linked(Run(h, init, steps).value.rows)
    ensures Run(h, init, steps).value.rows <= Run(h, Run(h, init, steps).value, more).value.rows
    ensures (forall k :: 0 <= k < |Committed(h, init, steps)| ==> !HasBool(Committed(h, init, steps)[k].0)) ==>
              (res.Valid? || res.Empty?) && WellFormed(h.row, Run(h, init, steps).value.rows)
  {
    RunKeepsInv(h, init, steps);
    RunsAreSequential(h, init, steps);
    RunKeepsInv(h, Run(h, init, steps).value, more);
    if forall k :: 0 <= k < |Committed(h, init, steps)| ==> !HasBool(Committed(h, init, steps)[k].0) {
      CleanKeepsWellFormed(h, init.rows, Committed(h, init, steps));
      WellFormedVerifies(h.row, Run(h, init, steps).value.rows, res);
    }
  }
}
