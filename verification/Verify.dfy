/** Chain verification: the walk over the `activities` table that reports the first break. */
module Verify {
  import opened Common
  import opened HashChain
  import Decimal

  /** `compute_entry_hash`; rows read from the database file hold UTF-8, so it is defined on them. */
  type RowHash = Row -> Text

  /** The genesis `prev_hash`: sixty-four zeros. */
  const GENESIS: Text := Repeat(Decimal.ZERO, 64)

  datatype BreakKind = HashMismatch | LinkMismatch | IndexGap | BadGenesis

  datatype Break = Break(chainIndex: int, activityId: Text, kind: BreakKind, expected: Text, found: Text)

  datatype VerifyResult =
    | Empty
    | Valid(checked: nat, headHash: Text)
    | Broken(checked: nat, firstBreak: Break)

  // ----- the chain relation --------------------------------------------------------------------

  function ExpectedPrev(rows: seq<Row>, i: nat): Text
    requires i <= |rows|
  {
    if i == 0 then GENESIS else rows[i - 1].entryHash
  }

  predicate RowOk(hash: RowHash, rows: seq<Row>, i: nat)
    requires i < |rows|
  {
    && rows[i].chainIndex == i
    && rows[i].prevHash == ExpectedPrev(rows, i)
    && rows[i].entryHash == hash(rows[i])
  }

  predicate Chained(hash: RowHash, rows: seq<Row>) {
    forall i :: 0 <= i < |rows| ==> RowOk(hash, rows, i)
  }

  /** What is wrong with a row, index before link before hash. */
  function BreakAt(hash: RowHash, rows: seq<Row>, i: nat): Break
    requires i < |rows|
  {
    var r := rows[i];
    if r.chainIndex != i then
      Break(r.chainIndex, r.activityId, IndexGap, Decimal.Print(i), Decimal.PrintInt(r.chainIndex))
    else if r.prevHash != ExpectedPrev(rows, i) then
      Break(i, r.activityId, if i == 0 then BadGenesis else LinkMismatch, ExpectedPrev(rows, i), r.prevHash)
    else
      Break(i, r.activityId, HashMismatch, hash(r), r.entryHash)
  }

  /** `res` reports the least row that breaks the chain relation, or that there is none. */
  predicate Reports(hash: RowHash, rows: seq<Row>, res: VerifyResult) {
    match res
    case Empty => rows == []
    case Valid(checked, headHash) =>
      rows != [] && Chained(hash, rows) && checked == |rows| && headHash == rows[|rows| - 1].entryHash
    case Broken(checked, firstBreak) =>
      && checked < |rows|
      && !RowOk(hash, rows, checked)
      && Chained(hash, rows[..checked])
      && firstBreak == BreakAt(hash, rows, checked)
  }

  lemma ChainedPrefix(hash: RowHash, rows: seq<Row>, n: nat)
    requires n <= |rows|
    ensures Chained(hash, rows[..n]) <==> forall i :: 0 <= i < n ==> RowOk(hash, rows, i)
  {
    var pre := rows[..n];
    assert forall i :: 0 <= i < n ==> pre[i] == rows[i] && ExpectedPrev(pre, i) == ExpectedPrev(rows, i);
    assert forall i :: 0 <= i < n ==> RowOk(hash, pre, i) == RowOk(hash, rows, i);
  }

  /** A table has one verdict: BROKEN exactly when some row breaks the relation, at the least such row. */
  lemma OneVerdict(hash: RowHash, rows: seq<Row>, a: VerifyResult, b: VerifyResult)
    requires Reports(hash, rows, a) && Reports(hash, rows, b)
    ensures a == b
    ensures a.Broken? <==> exists i :: 0 <= i < |rows| && !RowOk(hash, rows, i)
  {
    if a.Broken? {
      ChainedPrefix(hash, rows, a.checked);
    }
    if b.Broken? {
      ChainedPrefix(hash, rows, b.checked);
    }
  }

  /** `verify_chain`, over the rows of the ordered query. */
  method VerifyChain(hash: RowHash, rows: seq<Row>) returns (res: VerifyResult)
    ensures Reports(hash, rows, res)
  {
    if rows == [] {
      return Empty;
    }
    var expectedPrev := GENESIS;
    var checked := 0;
    while checked < |rows|
      invariant 0 <= checked <= |rows|
      invariant expectedPrev == ExpectedPrev(rows, checked)
      invariant forall i :: 0 <= i < checked ==> RowOk(hash, rows, i)
    {
      ChainedPrefix(hash, rows, checked);
      var row := rows[checked];
      var index := row.chainIndex;
      if index != checked {
        return Broken(checked, Break(index, row.activityId, IndexGap, Decimal.Print(checked), Decimal.PrintInt(index)));
      }
      if row.prevHash != expectedPrev {
        var kind := if checked == 0 then BadGenesis else LinkMismatch;
        return Broken(checked, Break(index, row.activityId, kind, expectedPrev, row.prevHash));
      }
      var recomputed := hash(row);
      if recomputed != row.entryHash {
        return Broken(checked, Break(index, row.activityId, HashMismatch, recomputed, row.entryHash));
      }
      expectedPrev := row.entryHash;
      checked := checked + 1;
    }
    return Valid(checked, expectedPrev);
  }

  // ----- what a VALID verdict commits to -------------------------------------------------------

  /** Among these rows, equal hashes mean equal chained columns. */
  predicate Commits(hash: RowHash, rows: seq<Row>) {
    forall i, j :: 0 <= i < |rows| && 0 <= j < |rows| && hash(rows[i]) == hash(rows[j]) ==>
      SameChained(rows[i], rows[j])
  }

  lemma {:induction false} SameFromHead(hash: RowHash, t: seq<Row>, u: seq<Row>, n: nat)
    requires Chained(hash, t) && Chained(hash, u) && Commits(hash, t + u)
    requires n <= |t| && n <= |u| && ExpectedPrev(t, n) == ExpectedPrev(u, n)
    ensures t[..n] == u[..n]
  {
    if n > 0 {
      var all, k := t + u, |t| + (n - 1);
      assert all[n - 1] == t[n - 1] && all[k] == u[n - 1];
      assert RowOk(hash, t, n - 1) && RowOk(hash, u, n - 1);
      assert SameChained(all[n - 1], all[k]);
      assert t[n - 1] == u[n - 1];
      SameFromHead(hash, t, u, n - 1);
      assert t[..n] == t[..n - 1] + [t[n - 1]] && u[..n] == u[..n - 1] + [u[n - 1]];
    }
  }

  /** The head hash commits to the whole table: two VALID tables that report the same head are equal
      in length and in every column of every row. */
  lemma HeadHashCommits(hash: RowHash, t: seq<Row>, u: seq<Row>, a: VerifyResult, b: VerifyResult)
    requires Reports(hash, t, a) && Reports(hash, u, b)
    requires a.Valid? && b.Valid? && a.headHash == b.headHash
    requires Commits(hash, t + u)
    ensures t == u
  {
    var all, m, n := t + u, |t| - 1, |t| + (|u| - 1);
    assert all[m] == t[m] && all[n] == u[|u| - 1];
    assert RowOk(hash, t, m) && RowOk(hash, u, |u| - 1);
    assert SameChained(all[m], all[n]);
    SameFromHead(hash, t, u, |t|);
    assert t[..|t|] == t && u[..|u|] == u;
  }
}
