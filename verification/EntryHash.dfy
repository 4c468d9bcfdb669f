/** The row hash built from SHA-256, and what the chain then commits to. */
module EntryHash {
  import opened Common
  import opened HashChain
  import opened Ledger
  import opened Verify

  predicate Hashable(rows: seq<Row>) {
    forall i :: 0 <= i < |rows| ==> CanonicalBytes(rows[i]).Some?
  }

  /** The digest of the serialised values, where they can be serialised. */
  function HashOf(sha: Sha, vs: seq<Value>): Text
    requires |vs| == 20
  {
    var b := BytesOf(vs);
    if b.Some? then sha(b.value) else []
  }

  /** `compute_entry_hash`, defined on rows whose text is UTF-8. */
  function ComputeEntryHash(sha: Sha): RowHash {
    (r: Row) => HashOf(sha, Fields(r))
  }

  /** The only thing asked of SHA-256: no collision among the canonical bytes of these rows. */
  predicate CollisionFree(sha: Sha, rows: seq<Row>)
    requires Hashable(rows)
  {
    forall i, j | 0 <= i < |rows| && 0 <= j < |rows| ::
      sha(CanonicalBytes(rows[i]).value) == sha(CanonicalBytes(rows[j]).value) ==>
        CanonicalBytes(rows[i]) == CanonicalBytes(rows[j])
  }

  lemma CollisionFreeCommits(sha: Sha, rows: seq<Row>)
    requires Hashable(rows) && CollisionFree(sha, rows)
    ensures Commits(ComputeEntryHash(sha), rows)
  {
    var hash := ComputeEntryHash(sha);
    forall i, j | 0 <= i < |rows| && 0 <= j < |rows| && hash(rows[i]) == hash(rows[j])
      ensures SameChained(rows[i], rows[j])
    {
      CanonicalBytesInjective(rows[i], rows[j]);
    }
  }

  /** The serialisation leaves `entry_hash` out, so the row can be hashed before it is filled in. */
  lemma HashIgnoresEntryHash(sha: Sha)
    ensures IgnoresEntryHash(ComputeEntryHash(sha))
  {
    forall r: Row, h: Text ensures CanonicalBytes(r.(entryHash := h)) == CanonicalBytes(r) {
      assert Fields(r.(entryHash := h)) == Fields(r);
    }
  }

  /** Two tables that both verify VALID and report the same head hash are the same table, unless two of
      their own rows are a SHA-256 collision. */
  lemma HeadHashCommitsToTable(sha: Sha, t: seq<Row>, u: seq<Row>, a: VerifyResult, b: VerifyResult)
    requires Hashable(t + u) && CollisionFree(sha, t + u)
    requires Reports(ComputeEntryHash(sha), t, a) && Reports(ComputeEntryHash(sha), u, b)
    requires a.Valid? && b.Valid? && a.headHash == b.headHash
    ensures t == u
  {
    CollisionFreeCommits(sha, t + u);
    HeadHashCommits(ComputeEntryHash(sha), t, u, a, b);
  }

  // ----- ints that are bools ----------------------------------------------------------------------

  /** The values hashed at an append: the row's, with the sequence number and the nonce as they came. */
  function HashedWith(r: Row, seqno: Option<PyInt>, nonce: Option<PyInt>): (vs: seq<Value>)
    ensures |vs| == 20
  {
    Fields(r)[TcSeq.Rank() := OptPyInt(seqno)][TcNonce.Rank() := OptPyInt(nonce)]
  }

  lemma HashedAsStored(r: Row, seqno: Option<PyInt>, nonce: Option<PyInt>)
    requires r.tcSeq == Stored(seqno) && r.tcNonce == Stored(nonce)
    ensures HashedWith(r, seqno, nonce) == Fields(r) <==> !IsBool(seqno) && !IsBool(nonce)
  {
    FieldsInOrder(r);
    var f, g := Fields(r), HashedWith(r, seqno, nonce);
    assert f[19] == OptInt(r.tcSeq) && g[19] == OptPyInt(seqno);
    assert f[17] == OptInt(r.tcNonce) && g[17] == OptPyInt(nonce);
  }

  /** Both hashes of the ledger, from SHA-256. */
  function ComputeHashing(sha: Sha): Hashing {
    Hashing(ComputeEntryHash(sha),
            (r: Row, seqno: Option<PyInt>, nonce: Option<PyInt>) => HashOf(sha, HashedWith(r, seqno, nonce)))
  }

  lemma HashingIsValid(sha: Sha)
    ensures ComputeHashing(sha).Valid()
  {
    var h := ComputeHashing(sha);
    HashIgnoresEntryHash(sha);
    forall r: Row, seqno: Option<PyInt>, nonce: Option<PyInt>
      | r.tcSeq == Stored(seqno) && r.tcNonce == Stored(nonce) && !IsBool(seqno) && !IsBool(nonce)
      ensures h.given(r, seqno, nonce) == h.row(r)
    {
      HashedAsStored(r, seqno, nonce);
      assert h.given(r, seqno, nonce) == HashOf(sha, HashedWith(r, seqno, nonce));
    }
  }

  /** SHA-256 tells what was hashed at the append from what is read back, if they differ. */
  predicate Distinguishes(sha: Sha, r: Row, seqno: Option<PyInt>, nonce: Option<PyInt>) {
    var (hashed, read) := (BytesOf(HashedWith(r, seqno, nonce)), CanonicalBytes(r));
    hashed.Some? && read.Some? && (sha(hashed.value) == sha(read.value) ==> hashed == read)
  }

  lemma GivenIsReadExactly(sha: Sha, r: Row, seqno: Option<PyInt>, nonce: Option<PyInt>)
    requires r.tcSeq == Stored(seqno) && r.tcNonce == Stored(nonce) && Distinguishes(sha, r, seqno, nonce)
    ensures ComputeHashing(sha).given(r, seqno, nonce) == ComputeHashing(sha).row(r) <==>
              !IsBool(seqno) && !IsBool(nonce)
  {
    HashedAsStored(r, seqno, nonce);
    if BytesOf(HashedWith(r, seqno, nonce)) == CanonicalBytes(r) {
      BytesInjective(HashedWith(r, seqno, nonce), Fields(r));
    }
  }

  /** An int that is a bool is hashed as a word and read back as 0 or 1. The table verifies after an append
      exactly when the activity held no such int: one server reply `"seq": true`, or one nonce True on an
      intent, breaks the chain at that row for good. */
  lemma BoolsBreakChain(sha: Sha, rows: seq<Row>, a: Activity, env: Surroundings, res: VerifyResult)
    requires Chained(ComputeEntryHash(sha), rows)
    requires Distinguishes(sha, UnhashedRow(a, env, |rows|, ExpectedPrev(rows, |rows|)), a.tcSeq, a.tcNonce)
    requires Reports(ComputeEntryHash(sha), rows + [NewRow(ComputeHashing(sha), rows, a, env)], res)
    ensures res.Broken? <==> HasBool(a)
    ensures HasBool(a) ==>
      var r := NewRow(ComputeHashing(sha), rows, a, env);
      res == Broken(|rows|, Break(|rows|, r.activityId, HashMismatch, ComputeEntryHash(sha)(r), r.entryHash))
  {
    var h, bare := ComputeHashing(sha), UnhashedRow(a, env, |rows|, ExpectedPrev(rows, |rows|));
    var r := NewRow(h, rows, a, env);
    GivenIsReadExactly(sha, bare, a.tcSeq, a.tcNonce);
    HashIgnoresEntryHash(sha);
    assert h.row(bare.(entryHash := r.entryHash)) == h.row(bare);
    LastRowDecides(ComputeEntryHash(sha), rows, r, res);
  }

  /** A linked row after a chained table: only its hash can be wrong. */
  lemma LastRowDecides(hash: RowHash, rows: seq<Row>, r: Row, res: VerifyResult)
    requires Chained(hash, rows) && r.chainIndex == |rows| && r.prevHash == ExpectedPrev(rows, |rows|)
    requires Reports(hash, rows + [r], res)
    ensures res == if r.entryHash == hash(r) then VerifyResult.Valid(|rows| + 1, r.entryHash)
                   else Broken(|rows|, Break(|rows|, r.activityId, HashMismatch, hash(r), r.entryHash))
  {
    var t := rows + [r];
    assert t[..|rows|] == rows;
    forall i | 0 <= i < |rows| ensures RowOk(hash, t, i) {
      assert RowOk(hash, rows, i);
    }
    OneVerdict(hash, t, res, if r.entryHash == hash(r) then VerifyResult.Valid(|t|, r.entryHash)
                             else Broken(|rows|, BreakAt(hash, t, |rows|)));
  }
}
