/** Everything that ever happened to one bucket: the locked sections of all its threads, in order. */
module BucketHistory {
  import opened RateLimit

  /** One locked section: which thread's, what it did, whether it was granted tokens, and what it left. */
  datatype Visit = Visit(who: nat, op: Op, granted: bool, left: Level)

  function OpsOf(h: seq<Visit>): (ops: seq<Op>)
    ensures |ops| == |h| && forall i :: 0 <= i < |h| ==> ops[i] == h[i].op
  {
    seq(|h|, i requires 0 <= i < |h| => h[i].op)
  }

  /** What the last visit left of a bucket that began at `s`. */
  function Left(s: Level, h: seq<Visit>): Level {
    if h == [] then s else h[|h| - 1].left
  }

  /** The k-th visit came after the one before, and did what its operation does to the level it found. */
  predicate VisitOk(c: Config, s: Level, h: seq<Visit>, k: nat)
    requires k < |h|
  {
    var found := if k == 0 then s else h[k - 1].left;
    found.updated <= h[k].op.now && (h[k].left, h[k].granted) == Played(c, found, h[k].op)
  }

  predicate Faithful(c: Config, s: Level, h: seq<Visit>) {
    forall k :: 0 <= k < |h| ==> VisitOk(c, s, h, k)
  }

  lemma FaithfulPrefix(c: Config, s: Level, h: seq<Visit>, n: nat)
    requires Faithful(c, s, h) && n <= |h|
    ensures Faithful(c, s, h[..n])
  {
    forall k | 0 <= k < n ensures VisitOk(c, s, h[..n], k) {
      assert VisitOk(c, s, h, k);
    }
  }

  lemma FaithfulAdds(c: Config, s: Level, h: seq<Visit>, v: Visit)
    requires Faithful(c, s, h) && Left(s, h).updated <= v.op.now && (v.left, v.granted) == Played(c, Left(s, h), v.op)
    ensures Faithful(c, s, h + [v]) && Left(s, h + [v]) == v.left
  {
    var g := h + [v];
    forall k | 0 <= k < |g| ensures VisitOk(c, s, g, k) {
      assert k < |h| ==> VisitOk(c, s, h, k);
    }
  }

  function GrantTimes(h: seq<Visit>): seq<real> {
    if h == [] then []
    else GrantTimes(h[..|h| - 1]) + if h[|h| - 1].granted then [h[|h| - 1].op.now] else []
  }

  /** What one thread was granted, in order. */
  function GrantedTo(h: seq<Visit>, who: nat): seq<Op> {
    if h == [] then []
    else GrantedTo(h[..|h| - 1], who) + if h[|h| - 1].granted && h[|h| - 1].who == who then [h[|h| - 1].op] else []
  }

  /** The bucket after a list of operations. */
  function LevelAfter(c: Config, s: Level, ops: seq<Op>): Level
    decreases |ops|
  {
    if ops == [] then s else LevelAfter(c, Played(c, s, ops[0]).0, ops[1..])
  }

  lemma {:induction false} RunLast(c: Config, s: Level, ops: seq<Op>, op: Op)
    ensures Grants(c, s, ops + [op]) ==
            Grants(c, s, ops) + if Played(c, LevelAfter(c, s, ops), op).1 then [op.now] else []
    ensures LevelAfter(c, s, ops + [op]) == Played(c, LevelAfter(c, s, ops), op).0
    decreases |ops|
  {
    if ops == [] {
      assert [] + [op] == [op] && [op][1..] == [];
    } else {
      assert (ops + [op])[1..] == ops[1..] + [op];
      RunLast(c, Played(c, s, ops[0]).0, ops[1..], op);
    }
  }

  /** A faithful history is a run in order: it was granted what the run of its operations grants, and it
      left what that run leaves. */
  lemma {:induction false} HistoryIsRun(c: Config, s: Level, h: seq<Visit>)
    requires Faithful(c, s, h)
    ensures Grants(c, s, OpsOf(h)) == GrantTimes(h)
    ensures LevelAfter(c, s, OpsOf(h)) == Left(s, h)
    ensures InOrder(OpsOf(h), s.updated) && s.updated <= Left(s, h).updated
    ensures forall i :: 0 <= i < |h| ==> h[i].op.now <= Left(s, h).updated
    decreases |h|
  {
    if h != [] {
      var front, last := h[..|h| - 1], h[|h| - 1];
      FaithfulPrefix(c, s, h, |front|);
      assert VisitOk(c, s, h, |front|);
      HistoryIsRun(c, s, front);
      RunLast(c, s, OpsOf(front), last.op);
      assert OpsOf(h) == OpsOf(front) + [last.op];
    }
  }

  /** Whatever threads a bucket of advertised size is shared by, and however their locked sections
      interleave, all their one-token grants together keep the limit. */
  lemma HistoryKeepsLimit(limit: int, start: real, h: seq<Visit>)
    requires limit >= 2
    requires var c := FromAdvertised(limit, SAFETY_FACTOR); Faithful(c, Full(c, start), h)
    requires Single(OpsOf(h))
    ensures AtMostPerWindow(GrantTimes(h), WINDOW, limit)
  {
    var c := FromAdvertised(limit, SAFETY_FACTOR);
    HistoryIsRun(c, Full(c, start), h);
    WindowBound(limit, start, OpsOf(h));
  }

  // ----- who was granted what ---------------------------------------------------------------------

  /** Only other threads' visits were added. */
  predicate Elsewhere(h: seq<Visit>, g: seq<Visit>, who: nat) {
    h <= g && forall k :: |h| <= k < |g| ==> g[k].who != who
  }

  /** Only this thread's visits were added. */
  predicate Mine(h: seq<Visit>, g: seq<Visit>, who: nat) {
    h <= g && forall k :: |h| <= k < |g| ==> g[k].who == who
  }

  /** Visits were added, and this thread was granted this much by them. */
  predicate Granted(h: seq<Visit>, g: seq<Visit>, who: nat, ops: seq<Op>) {
    h <= g && GrantedTo(g, who) == GrantedTo(h, who) + ops
  }

  /** What this thread saw last of the bucket; the start, if it never did. */
  function LastSeen(s: Level, h: seq<Visit>, who: nat): Level {
    if h == [] then s
    else if h[|h| - 1].who == who then h[|h| - 1].left
    else LastSeen(s, h[..|h| - 1], who)
  }

  lemma {:induction false} ElsewhereUnseen(s: Level, h: seq<Visit>, g: seq<Visit>, who: nat)
    requires Elsewhere(h, g, who)
    ensures LastSeen(s, g, who) == LastSeen(s, h, who)
    decreases |g|
  {
    if |g| > |h| {
      ElsewhereUnseen(s, h, g[..|g| - 1], who);
    } else {
      assert g == h;
    }
  }

  lemma ElsewhereAdds(h: seq<Visit>, g: seq<Visit>, v: Visit, who: nat)
    requires Elsewhere(h, g, who) && v.who != who
    ensures Elsewhere(h, g + [v], who)
  {
  }

  lemma GrantedAdds(h: seq<Visit>, v: Visit, who: nat)
    ensures Granted(h, h + [v], who, if v.granted && v.who == who then [v.op] else [])
  {
    assert (h + [v])[..|h|] == h;
  }

  lemma GrantedThen(h: seq<Visit>, g: seq<Visit>, f: seq<Visit>, who: nat, a: seq<Op>, b: seq<Op>)
    requires Granted(h, g, who, a) && Granted(g, f, who, b)
    ensures Granted(h, f, who, a + b)
  {
    assert GrantedTo(h, who) + a + b == GrantedTo(h, who) + (a + b);
  }

  lemma {:induction false} ElsewhereUngranted(h: seq<Visit>, g: seq<Visit>, who: nat)
    requires Elsewhere(h, g, who)
    ensures Granted(h, g, who, [])
    decreases |g|
  {
    if |g| > |h| {
      ElsewhereUngranted(h, g[..|g| - 1], who);
      GrantedAdds(g[..|g| - 1], g[|g| - 1], who);
      assert g == g[..|g| - 1] + [g[|g| - 1]];
      GrantedThen(h, g[..|g| - 1], g, who, [], []);
    } else {
      assert g == h;
    }
  }

  lemma RefilledInSteps(c: Config, s: Level, t: real, now: real)
    requires c.rate > 0.0 && s.tokens <= c.capacity && s.updated <= t <= now
    ensures Refilled(c, Refilled(c, s, t), now) == Refilled(c, s, now)
  {
    assert (now - s.updated) * c.rate == (t - s.updated) * c.rate + (now - t) * c.rate;
    MulLe(0.0, now - t, c.rate);
    MulLe(0.0, t - s.updated, c.rate);
  }

  lemma UngrantedFront(h: seq<Visit>, g: seq<Visit>, who: nat)
    requires h < g && Mine(h, g, who) && Granted(h, g, who, [])
    ensures Mine(h, g[..|g| - 1], who) && Granted(h, g[..|g| - 1], who, []) && !g[|g| - 1].granted
  {
    GrantedToGrows(h, g[..|g| - 1], who);
  }

  lemma {:induction false} GrantedToGrows(h: seq<Visit>, g: seq<Visit>, who: nat)
    requires h <= g
    ensures GrantedTo(h, who) <= GrantedTo(g, who)
    decreases |g|
  {
    if |g| > |h| {
      GrantedToGrows(h, g[..|g| - 1], who);
    } else {
      assert g == h;
    }
  }

  /** A lone caller that is granted nothing leaves the bucket as a single refill would. */
  lemma {:induction false} RefusalOnlyRefills(c: Config, s: Level, h: seq<Visit>, g: seq<Visit>, who: nat)
    requires c.rate > 0.0 && Faithful(c, s, g) && Mine(h, g, who) && Granted(h, g, who, [])
    requires Left(s, h).tokens <= c.capacity
    ensures Left(s, h).updated <= Left(s, g).updated
    ensures Left(s, g) == Refilled(c, Left(s, h), Left(s, g).updated)
    decreases |g|
  {
    if |g| > |h| {
      var front := g[..|g| - 1];
      UngrantedFront(h, g, who);
      FaithfulPrefix(c, s, g, |front|);
      assert VisitOk(c, s, g, |front|);
      RefusalOnlyRefills(c, s, h, front, who);
      RefilledInSteps(c, Left(s, h), Left(s, front).updated, g[|g| - 1].op.now);
    } else {
      assert g == h;
    }
  }

  lemma GrantedFront(h: seq<Visit>, g: seq<Visit>, who: nat, op: Op)
    requires h < g && Mine(h, g, who) && Granted(h, g, who, [op])
    ensures Mine(h, g[..|g| - 1], who)
    ensures Granted(h, g[..|g| - 1], who, if g[|g| - 1].granted then [] else [op])
    ensures g[|g| - 1].granted ==> g[|g| - 1].op == op
  {
    var front, last := g[..|g| - 1], g[|g| - 1];
    GrantedToGrows(h, front, who);
    if last.granted {
      var x, y := GrantedTo(front, who), GrantedTo(h, who);
      assert x + [last.op] == y + [op];
      assert (x + [last.op])[|x|] == last.op && (y + [op])[|y|] == op;
      assert x == y;
    }
  }

  /** A lone caller that is granted tokens leaves the bucket as one `try_acquire` of them would, refilled. */
  lemma {:induction false} GrantTakesOnce(c: Config, s: Level, h: seq<Visit>, g: seq<Visit>, who: nat, op: Op)
    returns (left: Level)
    requires c.rate > 0.0 && Faithful(c, s, g) && Mine(h, g, who) && Granted(h, g, who, [op])
    requires Left(s, h).tokens <= c.capacity && op.Take? && op.tokens >= 0.0
    ensures Left(s, h).updated <= op.now && Tried(c, Left(s, h), op.now, op.tokens) == (left, true)
    ensures op.now <= Left(s, g).updated && Left(s, g) == Refilled(c, left, Left(s, g).updated)
    decreases |g|
  {
    assert |GrantedTo(g, who)| == |GrantedTo(h, who)| + 1;
    assert |g| == |h| ==> g == h;
    var front, last := g[..|g| - 1], g[|g| - 1];
    GrantedFront(h, g, who, op);
    FaithfulPrefix(c, s, g, |front|);
    assert VisitOk(c, s, g, |front|);
    if last.granted {
      RefusalOnlyRefills(c, s, h, front, who);
      RefilledInSteps(c, Left(s, h), Left(s, front).updated, last.op.now);
      left := last.left;
    } else {
      left := GrantTakesOnce(c, s, h, front, who, op);
      RefilledInSteps(c, left, Left(s, front).updated, last.op.now);
    }
  }
}
