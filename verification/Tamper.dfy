/** Where a tampered copy of a VALID table breaks, and which tampering leaves no break. */
module Tamper {
  import opened Common
  import opened HashChain
  import opened Verify
  import Decimal

  /** The rows whose flag is set, in order. */
  function Keep(rows: seq<Row>, flags: seq<bool>): (kept: seq<Row>)
    requires |rows| == |flags|
    ensures |kept| <= |rows|
  {
    if rows == [] then []
    else (if flags[0] then [rows[0]] else []) + Keep(rows[1..], flags[1..])
  }

  lemma {:induction false} KeepPrefix(rows: seq<Row>, flags: seq<bool>, d: nat)
    requires |rows| == |flags| && d <= |rows|
    requires forall i :: 0 <= i < d ==> flags[i]
    ensures Keep(rows, flags) == rows[..d] + Keep(rows[d..], flags[d..])
  {
    if d > 0 {
      KeepPrefix(rows[1..], flags[1..], d - 1);
      assert rows[1..][d - 1..] == rows[d..] && flags[1..][d - 1..] == flags[d..];
      assert rows[..d] == [rows[0]] + rows[1..][..d - 1];
    }
  }

  lemma {:induction false} KeepSkips(rows: seq<Row>, flags: seq<bool>, e: nat)
    requires |rows| == |flags| && e <= |rows|
    requires forall i :: 0 <= i < e ==> !flags[i]
    ensures Keep(rows, flags) == Keep(rows[e..], flags[e..])
  {
    if e > 0 {
      KeepSkips(rows[1..], flags[1..], e - 1);
      assert rows[1..][e - 1..] == rows[e..] && flags[1..][e - 1..] == flags[e..];
    }
  }

  /** Deleting rows of which `d` is the first, with `e` the first survivor after it, is reported as a
      gap at position `d` against row `e`. */
  lemma DeletionLocated(hash: RowHash, rows: seq<Row>, flags: seq<bool>, d: nat, e: nat, res: VerifyResult)
    requires Chained(hash, rows) && |flags| == |rows|
    requires d < e < |rows| && flags[e]
    requires forall i :: 0 <= i < d ==> flags[i]
    requires forall i :: d <= i < e ==> !flags[i]
    requires Reports(hash, Keep(rows, flags), res)
    ensures res == Broken(d, Break(e, rows[e].activityId, IndexGap, Decimal.Print(d), Decimal.PrintInt(e)))
  {
    KeepPrefix(rows, flags, d);
    KeepSkips(rows[d..], flags[d..], e - d);
    assert rows[d..][e - d..] == rows[e..] && flags[d..][e - d..] == flags[e..];
    var t := Keep(rows, flags);
    assert t == rows[..d] + Keep(rows[e..], flags[e..]);
    assert t[d] == rows[e] && t[..d] == rows[..d];
    assert RowOk(hash, rows, e);
    ChainedPrefix(hash, rows, d);
    OneVerdict(hash, t, res, Broken(d, BreakAt(hash, t, d)));
  }

  /** Deleting a suffix goes unnoticed: what is left is VALID, or EMPTY when nothing is left. */
  lemma SuffixDeletionUnnoticed(hash: RowHash, rows: seq<Row>, flags: seq<bool>, d: nat, res: VerifyResult)
    requires Chained(hash, rows) && |flags| == |rows| && d <= |rows|
    requires forall i :: 0 <= i < |rows| ==> (flags[i] <==> i < d)
    requires Reports(hash, Keep(rows, flags), res)
    ensures res == if d == 0 then Empty else Valid(d, rows[d - 1].entryHash)
  {
    KeepPrefix(rows, flags, d);
    KeepSkips(rows[d..], flags[d..], |rows| - d);
    var t := Keep(rows, flags);
    assert t == rows[..d];
    ChainedPrefix(hash, rows, d);
    OneVerdict(hash, t, res, if d == 0 then Empty else Valid(d, rows[d - 1].entryHash));
  }

  predicate SuffixDeleted(flags: seq<bool>) {
    forall i, j :: 0 <= i < j < |flags| && flags[j] ==> flags[i]
  }

  function FirstWhere(flags: seq<bool>, want: bool, i: nat): (k: nat)
    requires i <= |flags|
    ensures i <= k <= |flags|
    ensures forall j :: i <= j < k ==> flags[j] != want
    ensures k < |flags| ==> flags[k] == want
    decreases |flags| - i
  {
    if i == |flags| || flags[i] == want then i else FirstWhere(flags, want, i + 1)
  }

  /** A deletion is detected exactly when some deleted row is followed by a surviving one. */
  lemma DeletionDetectedExactly(hash: RowHash, rows: seq<Row>, flags: seq<bool>, res: VerifyResult)
    requires Chained(hash, rows) && |flags| == |rows|
    requires Reports(hash, Keep(rows, flags), res)
    ensures res.Broken? <==> !SuffixDeleted(flags)
  {
    var d := FirstWhere(flags, false, 0);
    var e := FirstWhere(flags, true, d);
    if e < |rows| {
      assert !flags[d] && flags[e] && d < e;
      DeletionLocated(hash, rows, flags, d, e, res);
    } else {
      SuffixDeletionUnnoticed(hash, rows, flags, d, res);
    }
  }

  /** The columns the walk compares between rows are untouched. */
  predicate SameLinks(r: Row, s: Row) {
    r.chainIndex == s.chainIndex && r.prevHash == s.prevHash && r.entryHash == s.entryHash
  }

  /** Editing other columns of any set of rows, `k` the least, is reported as a hash mismatch at `k`. */
  lemma EditLocated(hash: RowHash, rows: seq<Row>, edited: seq<Row>, k: nat, res: VerifyResult)
    requires Chained(hash, rows) && |edited| == |rows|
    requires Commits(hash, rows + edited)
    requires forall i :: 0 <= i < |rows| ==> SameLinks(rows[i], edited[i])
    requires k < |rows| && edited[k] != rows[k]
    requires forall i :: 0 <= i < k ==> edited[i] == rows[i]
    requires Reports(hash, edited, res)
    ensures res == Broken(k, Break(k, edited[k].activityId, HashMismatch, hash(edited[k]), rows[k].entryHash))
  {
    var all := rows + edited;
    assert all[k] == rows[k] && all[|rows| + k] == edited[k];
    assert RowOk(hash, rows, k);
    assert !SameChained(all[k], all[|rows| + k]);
    assert edited[..k] == rows[..k];
    ChainedPrefix(hash, rows, k);
    assert SameLinks(rows[k], edited[k]);
    assert k > 0 ==> edited[k - 1] == rows[k - 1];
    OneVerdict(hash, edited, res, Broken(k, BreakAt(hash, edited, k)));
  }

  /** Whatever is edited, the walk passes the rows that are as they were and comes to the first that is not. */
  lemma FirstEditReached(hash: RowHash, rows: seq<Row>, edited: seq<Row>, k: nat, res: VerifyResult)
    requires Chained(hash, rows) && k < |rows| && k < |edited| && edited[..k] == rows[..k]
    requires Reports(hash, edited, res) && !RowOk(hash, edited, k)
    ensures res == Broken(k, BreakAt(hash, edited, k))
    ensures ExpectedPrev(edited, k) == ExpectedPrev(rows, k) == rows[k].prevHash && rows[k].chainIndex == k
  {
    ChainedPrefix(hash, rows, k);
    assert RowOk(hash, rows, k);
    assert k > 0 ==> edited[..k][k - 1] == rows[..k][k - 1];
    OneVerdict(hash, edited, res, Broken(k, BreakAt(hash, edited, k)));
  }

  /** What a table shows as `prev_hash` before its first row: sixty-four zeros. */
  function Before(rows: seq<Row>, k: nat): Text
    requires k <= |rows|
  {
    if k == 0 then Repeat('0' as int, 64) else rows[k - 1].entryHash
  }

  /** An edited link is reported as such, at the first edited row, whatever else was edited and whatever the
      row's own hash is: at the first row of the table as a bad genesis, at every other as a broken link. */
  lemma LinkEditLocated(hash: RowHash, rows: seq<Row>, edited: seq<Row>, k: nat, res: VerifyResult)
    requires Chained(hash, rows) && k < |rows| && k < |edited| && edited[..k] == rows[..k]
    requires edited[k].chainIndex == rows[k].chainIndex && edited[k].prevHash != rows[k].prevHash
    requires Reports(hash, edited, res)
    ensures res == Broken(k, Break(k, edited[k].activityId, if k == 0 then BadGenesis else LinkMismatch,
                                   Before(rows, k), edited[k].prevHash))
  {
    assert RowOk(hash, rows, k);
    assert k > 0 ==> edited[..k][k - 1] == rows[..k][k - 1];
    assert !RowOk(hash, edited, k);
    FirstEditReached(hash, rows, edited, k, res);
  }

  /** An edited index is reported before anything else: as a gap, with the position and what was found. */
  lemma IndexEditLocated(hash: RowHash, rows: seq<Row>, edited: seq<Row>, k: nat, res: VerifyResult)
    requires Chained(hash, rows) && k < |rows| && k < |edited| && edited[..k] == rows[..k]
    requires edited[k].chainIndex != rows[k].chainIndex
    requires Reports(hash, edited, res)
    ensures res == Broken(k, Break(edited[k].chainIndex, edited[k].activityId, IndexGap,
                                   Decimal.Print(k), Decimal.PrintInt(edited[k].chainIndex)))
  {
    assert RowOk(hash, rows, k);
    FirstEditReached(hash, rows, edited, k, res);
  }

  /** With index and link as they were, a row whose hash is not its own is a hash mismatch. */
  lemma HashEditLocated(hash: RowHash, rows: seq<Row>, edited: seq<Row>, k: nat, res: VerifyResult)
    requires Chained(hash, rows) && k < |rows| && k < |edited| && edited[..k] == rows[..k]
    requires edited[k].chainIndex == rows[k].chainIndex && edited[k].prevHash == rows[k].prevHash
    requires edited[k].entryHash != hash(edited[k]) && Reports(hash, edited, res)
    ensures res == Broken(k, Break(k, edited[k].activityId, HashMismatch, hash(edited[k]), edited[k].entryHash))
  {
    FirstEditReached(hash, rows, edited, k, res);
  }

  /** One row edited outside the links and given a fresh `entry_hash` of its own. */
  predicate Rehashed(hash: RowHash, was: Row, redone: Row) {
    && redone.chainIndex == was.chainIndex && redone.prevHash == was.prevHash
    && !SameChained(was, redone)
    && redone.entryHash == hash(redone)
  }

  lemma RehashChangesHash(hash: RowHash, rows: seq<Row>, k: nat, redone: Row)
    requires Chained(hash, rows) && k < |rows|
    requires Rehashed(hash, rows[k], redone) && Commits(hash, rows + [redone])
    ensures redone.entryHash != rows[k].entryHash
  {
    var all := rows + [redone];
    assert all[k] == rows[k] && all[|rows|] == redone;
    assert RowOk(hash, rows, k);
    assert !SameChained(all[k], all[|rows|]);
  }

  /** Up to and including the re-hashed row the chain relation still holds. */
  lemma RehashedPrefix(hash: RowHash, rows: seq<Row>, k: nat, redone: Row)
    requires Chained(hash, rows) && k < |rows| && Rehashed(hash, rows[k], redone)
    ensures Chained(hash, rows[k := redone][..k + 1])
  {
    var t := rows[k := redone];
    forall i | 0 <= i < k + 1 ensures RowOk(hash, t, i) {
      assert RowOk(hash, rows, i);
      assert i > 0 ==> t[i - 1] == rows[i - 1];
    }
    ChainedPrefix(hash, t, k + 1);
  }

  /** Editing and re-hashing a row that is not the last is reported as a broken link at the next row. */
  lemma RehashLocated(hash: RowHash, rows: seq<Row>, k: nat, redone: Row, res: VerifyResult)
    requires Chained(hash, rows) && k + 1 < |rows|
    requires Rehashed(hash, rows[k], redone) && Commits(hash, rows + [redone])
    requires Reports(hash, rows[k := redone], res)
    ensures res ==
            Broken(k + 1, Break(k + 1, rows[k + 1].activityId, LinkMismatch, redone.entryHash, rows[k].entryHash))
  {
    RehashChangesHash(hash, rows, k, redone);
    RehashedPrefix(hash, rows, k, redone);
    var t := rows[k := redone];
    assert RowOk(hash, rows, k + 1);
    assert t[k + 1] == rows[k + 1] && t[k] == redone;
    OneVerdict(hash, t, res, Broken(k + 1, BreakAt(hash, t, k + 1)));
  }

  /** Re-hashing the last row goes unnoticed, but it changes the head hash. */
  lemma LastRehashUnnoticed(hash: RowHash, rows: seq<Row>, redone: Row, res: VerifyResult)
    requires Chained(hash, rows) && rows != []
    requires Rehashed(hash, rows[|rows| - 1], redone) && Commits(hash, rows + [redone])
    requires Reports(hash, rows[|rows| - 1 := redone], res)
    ensures res == Valid(|rows|, redone.entryHash) && redone.entryHash != rows[|rows| - 1].entryHash
  {
    var k := |rows| - 1;
    RehashChangesHash(hash, rows, k, redone);
    RehashedPrefix(hash, rows, k, redone);
    assert rows[k := redone][..k + 1] == rows[k := redone];
    OneVerdict(hash, rows[k := redone], res, Valid(|rows|, redone.entryHash));
  }
}
