/** The client's token bucket and the server's sliding window, over real time. */
module RateLimit {
  import opened Common

  const WINDOW := 60.0

  // ----- the bucket as a value --------------------------------------------------------------------

  datatype Config = Config(capacity: real, rate: real)

  datatype Level = Level(tokens: real, updated: real)

  function MaxReal(a: real, b: real): real {
    if a < b then b else a
  }

  function MinReal(a: real, b: real): real {
    if b < a then b else a
  }

  /** `_refill`. */
  function Refilled(c: Config, s: Level, now: real): Level {
    Level(MinReal(c.capacity, s.tokens + MaxReal(0.0, now - s.updated) * c.rate), now)
  }

  /** `try_acquire`. */
  function Tried(c: Config, s: Level, now: real, tokens: real): (Level, bool) {
    var r := Refilled(c, s, now);
    if r.tokens >= tokens then (r.(tokens := r.tokens - tokens), true) else (r, false)
  }

  /** `TokenBucket.__post_init__`: full at the start. */
  function Full(c: Config, now: real): Level {
    Level(c.capacity, now)
  }

  /** One of the two buckets of `Budget.from_advertised`. */
  function FromAdvertised(perMinute: int, safety: real): (c: Config)
    ensures c.capacity >= 1.0 && c.rate > 0.0
  {
    var capacity := MaxReal(1.0, perMinute as real * safety);
    Config(capacity, capacity / 60.0)
  }

  const SAFETY_FACTOR := 0.5

  // ----- runs of one bucket -----------------------------------------------------------------------

  /** What threads do to the bucket, each under its lock: ask for tokens, or only refill (the second
      half of `acquire`'s loop, and `available`). */
  datatype Op = Take(now: real, tokens: real) | Peek(now: real)

  /** Every request is for one token, as each HTTP request's is. */
  predicate Single(ops: seq<Op>) {
    forall i :: 0 <= i < |ops| && ops[i].Take? ==> ops[i].tokens == 1.0
  }

  predicate InOrder(ops: seq<Op>, from: real) {
    && (forall i :: 0 <= i < |ops| ==> from <= ops[i].now)
    && (forall i, j :: 0 <= i < j < |ops| ==> ops[i].now <= ops[j].now)
  }

  /** The bucket after one operation, and whether a token was granted. */
  function Played(c: Config, s: Level, op: Op): (Level, bool) {
    match op
    case Peek(now) => (Refilled(c, s, now), false)
    case Take(now, tokens) => Tried(c, s, now, tokens)
  }

  /** The times at which a run grants a token. */
  function Grants(c: Config, s: Level, ops: seq<Op>): seq<real>
    decreases |ops|
  {
    if ops == [] then []
    else
      var (s', ok) := Played(c, s, ops[0]);
      (if ok then [ops[0].now] else []) + Grants(c, s', ops[1..])
  }

  predicate Sane(c: Config, s: Level) {
    c.rate > 0.0 && 0.0 <= s.tokens <= c.capacity
  }

  /** What trickles in between two instants. */
  function Flow(c: Config, from: real, to: real): real {
    (to - from) * c.rate
  }

  lemma FlowAdds(c: Config, x: real, y: real, z: real)
    ensures Flow(c, x, y) + Flow(c, y, z) == Flow(c, x, z)
    ensures Flow(c, x, x) == 0.0
  {
  }

  lemma MulLe(x: real, y: real, k: real)
    requires k > 0.0
    ensures x <= y ==> x * k <= y * k
    ensures x < y ==> x * k < y * k
  {
  }

  lemma FlowGrows(c: Config, x: real, y: real, width: real)
    requires c.rate > 0.0
    ensures y - x <= width ==> Flow(c, x, y) <= width * c.rate
    ensures y - x < width ==> Flow(c, x, y) < width * c.rate
    ensures x <= y ==> 0.0 <= Flow(c, x, y)
  {
    MulLe(y - x, width, c.rate);
    MulLe(0.0, y - x, c.rate);
  }

  /** One operation: the bucket stays sane, and tokens plus grants grow by no more than the flow. */
  lemma PlayedGain(c: Config, s: Level, op: Op)
    requires Sane(c, s) && s.updated <= op.now && (op.Take? ==> op.tokens == 1.0)
    ensures var (s', ok) := Played(c, s, op);
            && Sane(c, s') && s'.updated == op.now
            && (ok ==> s'.tokens + 1.0 <= c.capacity)
            && s'.tokens + (if ok then 1.0 else 0.0) <= s.tokens + Flow(c, s.updated, op.now)
  {
    FlowGrows(c, s.updated, op.now, 0.0);
  }

  lemma TailInOrder(ops: seq<Op>, from: real)
    requires ops != [] && InOrder(ops, from)
    ensures from <= ops[0].now && InOrder(ops[1..], ops[0].now)
    ensures Single(ops) ==> Single(ops[1..])
  {
  }

  /** What has been taken grows no faster than what was in the bucket and the refill since. */
  lemma {:induction false} GrantsWithinRefill(c: Config, s: Level, ops: seq<Op>, q: nat)
    requires Sane(c, s) && InOrder(ops, s.updated) && Single(ops)
    requires q < |Grants(c, s, ops)|
    ensures s.updated <= Grants(c, s, ops)[q]
    ensures (q + 1) as real <= s.tokens + Flow(c, s.updated, Grants(c, s, ops)[q])
    decreases |ops|
  {
    var (s', ok) := Played(c, s, ops[0]);
    PlayedGain(c, s, ops[0]);
    TailInOrder(ops, s.updated);
    FlowAdds(c, s.updated, s'.updated, Grants(c, s, ops)[q]);
    FlowAdds(c, s'.updated, s'.updated, s'.updated);
    if !ok {
      GrantsWithinRefill(c, s', ops[1..], q);
    } else if q > 0 {
      GrantsWithinRefill(c, s', ops[1..], q - 1);
    }
  }

  /** Between any two grants of one bucket: no more than a full bucket and the refill of the time between. */
  lemma {:induction false} GrantsBetween(c: Config, s: Level, ops: seq<Op>, p: nat, q: nat)
    requires Sane(c, s) && InOrder(ops, s.updated) && Single(ops)
    requires p <= q < |Grants(c, s, ops)|
    ensures Grants(c, s, ops)[p] <= Grants(c, s, ops)[q]
    ensures (q - p + 1) as real <= c.capacity + Flow(c, Grants(c, s, ops)[p], Grants(c, s, ops)[q])
    decreases |ops|
  {
    var (s', ok) := Played(c, s, ops[0]);
    PlayedGain(c, s, ops[0]);
    TailInOrder(ops, s.updated);
    FlowAdds(c, s'.updated, s'.updated, s'.updated);
    if !ok {
      GrantsBetween(c, s', ops[1..], p, q);
    } else if p > 0 {
      GrantsBetween(c, s', ops[1..], p - 1, q - 1);
    } else if q > 0 {
      GrantsWithinRefill(c, s', ops[1..], q - 1);
    }
  }

  /** A sorted list of times has at most `limit` members in every closed window of `width` seconds. */
  predicate AtMostPerWindow(times: seq<real>, width: real, limit: int) {
    forall p, q :: 0 <= p <= q < |times| && times[q] - times[p] <= width ==> q - p + 1 <= limit
  }

  /** At the default safety factor, an advertised limit of two or more is never exceeded in any
      sixty seconds, whatever the threads do. */
  lemma WindowBound(limit: int, start: real, ops: seq<Op>)
    requires limit >= 2
    requires InOrder(ops, start) && Single(ops)
    ensures var c := FromAdvertised(limit, SAFETY_FACTOR);
            AtMostPerWindow(Grants(c, Full(c, start), ops), WINDOW, limit)
  {
    var c := FromAdvertised(limit, SAFETY_FACTOR);
    var g := Grants(c, Full(c, start), ops);
    forall p, q | 0 <= p <= q < |g| && g[q] - g[p] <= WINDOW ensures q - p + 1 <= limit {
      GrantsBetween(c, Full(c, start), ops, p, q);
      FlowGrows(c, g[p], g[q], WINDOW);
      MinuteRefills(c, limit);
    }
  }

  /** A minute refills the bucket once, and for a limit of two or more the bucket is half the limit. */
  lemma MinuteRefills(c: Config, limit: int)
    requires c == FromAdvertised(limit, SAFETY_FACTOR)
    ensures WINDOW * c.rate == c.capacity
    ensures limit >= 2 ==> c.capacity == limit as real / 2.0
  {
  }

  // ----- the bound is attained --------------------------------------------------------------------

  function Takes(n: nat, now: real): (ops: seq<Op>)
    ensures |ops| == n && forall i :: 0 <= i < n ==> ops[i] == Take(now, 1.0)
  {
    Repeat(Take(now, 1.0), n)
  }

  /** Taking n tokens in one instant from a bucket that holds them, then going on. */
  lemma {:induction false} Burst(c: Config, s: Level, n: nat, now: real, rest: seq<Op>)
    requires s.tokens >= n as real && s.updated == now && s.tokens <= c.capacity
    ensures Grants(c, s, Takes(n, now) + rest) ==
            Repeat(now, n) + Grants(c, s.(tokens := s.tokens - n as real), rest)
    decreases n
  {
    var ops := Takes(n, now) + rest;
    if n == 0 {
      assert ops == rest && s.(tokens := s.tokens - 0.0) == s;
      assert Repeat(now, 0) + Grants(c, s, rest) == Grants(c, s, rest);
    } else {
      var (s', ok) := Tried(c, s, now, 1.0);
      assert ok && s' == s.(tokens := s.tokens - 1.0);
      assert ops[1..] == Takes(n - 1, now) + rest;
      Burst(c, s', n - 1, now, rest);
      assert s'.tokens - (n - 1) as real == s.tokens - n as real;
      assert [now] + Repeat(now, n - 1) == Repeat(now, n);
    }
  }

  /** Refilling at the instant of the next operation changes nothing. */
  lemma RefillFirst(c: Config, s: Level, ops: seq<Op>, now: real)
    requires ops != [] && ops[0].now == now && s.updated <= now && c.rate >= 0.0
    ensures Grants(c, s, ops) == Grants(c, Refilled(c, s, now), ops)
  {
    assert Refilled(c, Refilled(c, s, now), now) == Refilled(c, s, now);
  }

  /** Taking n tokens in a later instant, once the bucket holds them again, then going on. */
  lemma LaterBurst(c: Config, s: Level, n: nat, now: real, rest: seq<Op>)
    requires Sane(c, s) && s.updated <= now && Refilled(c, s, now).tokens >= n as real && (n > 0 || rest == [])
    ensures var r := Refilled(c, s, now);
            Grants(c, s, Takes(n, now) + rest) == Repeat(now, n) + Grants(c, r.(tokens := r.tokens - n as real), rest)
  {
    if n > 0 {
      RefillFirst(c, s, Takes(n, now) + rest, now);
      Burst(c, Refilled(c, s, now), n, now, rest);
    }
  }

  /** A full bucket emptied of n tokens, of k more at a later instant, then going on. */
  lemma TwoBursts(c: Config, start: real, n: nat, k: nat, later: real, rest: seq<Op>)
    requires c.rate > 0.0 && n as real <= c.capacity && start <= later && (k > 0 || rest == [])
    requires Refilled(c, Level(c.capacity - n as real, start), later).tokens >= k as real
    ensures var left := Refilled(c, Level(c.capacity - n as real, start), later).tokens - k as real;
            Grants(c, Full(c, start), Takes(n, start) + (Takes(k, later) + rest)) ==
            Repeat(start, n) + (Repeat(later, k) + Grants(c, Level(left, later), rest))
  {
    Burst(c, Full(c, start), n, start, Takes(k, later) + rest);
    LaterBurst(c, Level(c.capacity - n as real, start), k, later, rest);
  }

  /** When half a token has grown to one. */
  function Soon(limit: nat, start: real): real
    requires limit > 0
  {
    start + 60.0 / limit as real
  }

  /** Half the limit, rounded down, at the start and again a minute later; for an odd limit one more as
      soon as the half token that was left has grown to one. */
  function LimitRun(limit: nat, start: real): seq<Op>
    requires limit > 0
  {
    Takes(limit / 2, start) + (Takes(limit % 2, Soon(limit, start)) + Takes(limit / 2, start + WINDOW))
  }

  function LimitGrants(limit: nat, start: real): seq<real>
    requires limit > 0
  {
    Repeat(start, limit / 2) + (Repeat(Soon(limit, start), limit % 2) + Repeat(start + WINDOW, limit / 2))
  }

  /** The minute of an odd limit: half a token grows to one, and from nothing on to half the limit. */
  lemma OddRefills(limit: nat, start: real, c: Config)
    requires limit >= 2 && c == FromAdvertised(limit, SAFETY_FACTOR)
    ensures start < Soon(limit, start) <= start + WINDOW
    ensures Flow(c, start, Soon(limit, start)) == 0.5
    ensures Flow(c, Soon(limit, start), start + WINDOW) == c.capacity - 0.5
  {
    var (l, gap) := (limit as real, 60.0 / limit as real);
    assert gap * l == 60.0 && c.rate == l / 120.0;
    assert gap * (l / 120.0) == gap * l / 120.0;
    FlowAdds(c, start, Soon(limit, start), start + WINDOW);
  }

  lemma RefilledAfter(c: Config, s: Level, now: real)
    requires s.updated <= now
    ensures Refilled(c, s, now) == Level(MinReal(c.capacity, s.tokens + Flow(c, s.updated, now)), now)
  {
  }

  /** k tokens, one more when the half that is left has grown to one, and k more when they are back. */
  lemma ThreeBursts(c: Config, start: real, k: nat, soon: real, last: real, rest: seq<Op>)
    requires c.rate > 0.0 && start <= soon <= last && c.capacity == k as real + 0.5 && k > 0
    requires Flow(c, start, soon) == 0.5 && Flow(c, soon, last) == k as real
    ensures Grants(c, Full(c, start), Takes(k, start) + (Takes(1, soon) + (Takes(k, last) + rest))) ==
            Repeat(start, k) + (Repeat(soon, 1) + (Repeat(last, k) + Grants(c, Level(0.0, last), rest)))
  {
    Burst(c, Full(c, start), k, start, Takes(1, soon) + (Takes(k, last) + rest));
    RefilledAfter(c, Level(0.5, start), soon);
    LaterBurst(c, Level(0.5, start), 1, soon, Takes(k, last) + rest);
    RefilledAfter(c, Level(0.0, soon), last);
    LaterBurst(c, Level(0.0, soon), k, last, rest);
  }

  lemma Regrouped<T>(a: seq<T>, b: seq<T>, c: seq<T>, d: seq<T>)
    ensures a + (b + c) + d == a + (b + (c + d))
    ensures b == [] ==> a + (b + c) + d == a + (c + d)
  {
  }

  /** The run empties the bucket. */
  lemma LimitBursts(limit: nat, start: real, c: Config, rest: seq<Op>)
    requires limit >= 2 && c == FromAdvertised(limit, SAFETY_FACTOR)
    ensures Grants(c, Full(c, start), LimitRun(limit, start) + rest) ==
            LimitGrants(limit, start) + Grants(c, Level(0.0, start + WINDOW), rest)
  {
    var k, soon, last := limit / 2, Soon(limit, start), start + WINDOW;
    Regrouped(Takes(k, start), Takes(limit % 2, soon), Takes(k, last), rest);
    Regrouped(Repeat(start, k), Repeat(soon, limit % 2), Repeat(last, k), Grants(c, Level(0.0, last), rest));
    OddRefills(limit, start, c);
    MinuteRefills(c, limit);
    if limit % 2 == 0 {
      RefilledAfter(c, Level(0.0, start), last);
      TwoBursts(c, start, k, k, last, rest);
    } else {
      ThreeBursts(c, start, k, soon, last, rest);
    }
  }

  /** The minute bound is attained for every advertised limit from two up. */
  lemma LimitIsAttained(limit: nat, start: real)
    requires limit >= 2
    ensures var (c, ops) := (FromAdvertised(limit, SAFETY_FACTOR), LimitRun(limit, start));
            && InOrder(ops, start) && Single(ops) && |Grants(c, Full(c, start), ops)| == limit
            && forall i :: 0 <= i < limit ==> start <= Grants(c, Full(c, start), ops)[i] <= start + WINDOW
  {
    var c := FromAdvertised(limit, SAFETY_FACTOR);
    OddRefills(limit, start, c);
    LimitBursts(limit, start, c, []);
    assert LimitRun(limit, start) + [] == LimitRun(limit, start);
    assert LimitGrants(limit, start) + [] == LimitGrants(limit, start);
  }

  /** No run of this bucket grants more than `limit` tokens in any closed sixty seconds. */
  ghost predicate KeepsLimit(c: Config, start: real, limit: int) {
    forall ops: seq<Op> :: InOrder(ops, start) && Single(ops) ==>
      AtMostPerWindow(Grants(c, Full(c, start), ops), WINDOW, limit)
  }

  /** The advertised limit is kept over closed windows exactly when it is at least two: from one down, and
      for the negative numbers a server may advertise, the bucket is the same and grants two a minute. */
  lemma LimitKeptExactly(limit: int, start: real)
    ensures KeepsLimit(FromAdvertised(limit, SAFETY_FACTOR), start, limit) <==> limit >= 2
  {
    var c := FromAdvertised(limit, SAFETY_FACTOR);
    if limit >= 2 {
      forall ops: seq<Op> | InOrder(ops, start) && Single(ops)
        ensures AtMostPerWindow(Grants(c, Full(c, start), ops), WINDOW, limit)
      {
        WindowBound(limit, start, ops);
      }
    } else {
      assert c == FromAdvertised(2, SAFETY_FACTOR);
      LimitIsAttained(2, start);
      var g := Grants(c, Full(c, start), LimitRun(2, start));
      assert g[1] - g[0] <= WINDOW;
    }
  }

  // ----- the server's sliding window --------------------------------------------------------------

  function Recent(times: seq<real>, now: real): seq<real> {
    if times == [] then []
    else (if now - times[0] < WINDOW then [times[0]] else []) + Recent(times[1..], now)
  }

  /** `rate_limited`: the remembered times afterwards, and whether the request is let through. */
  function Admit(limit: int, times: seq<real>, now: real): (seq<real>, bool) {
    var recent := Recent(times, now);
    if |recent| >= limit then (recent, false) else (recent + [now], true)
  }

  /** The server's answers to a list of arrivals. */
  function Answers(limit: int, times: seq<real>, arrivals: seq<real>): seq<bool>
    decreases |arrivals|
  {
    if arrivals == [] then []
    else
      var (times', ok) := Admit(limit, times, arrivals[0]);
      [ok] + Answers(limit, times', arrivals[1..])
  }

  predicate Sorted(times: seq<real>) {
    forall i, j :: 0 <= i < j < |times| ==> times[i] <= times[j]
  }

  lemma {:induction false} AllRecent(times: seq<real>, now: real)
    requires forall i :: 0 <= i < |times| ==> now - times[i] < WINDOW
    ensures Recent(times, now) == times
  {
    if times != [] {
      AllRecent(times[1..], now);
    }
  }

  /** Of sorted times, the recent ones are a suffix. */
  lemma {:induction false} RecentIsSuffix(times: seq<real>, now: real) returns (k: nat)
    requires Sorted(times)
    ensures k <= |times| && Recent(times, now) == times[k..]
    ensures forall i :: k <= i < |times| ==> now - times[i] < WINDOW
  {
    if times == [] {
      return 0;
    }
    if now - times[0] < WINDOW {
      AllRecent(times, now);
      return 0;
    }
    var rest := times[1..];
    assert Sorted(rest);
    k := RecentIsSuffix(rest, now);
    assert rest[k..] == times[k + 1..];
    assert forall i :: k + 1 <= i < |times| ==> times[i] == rest[i - 1];
    k := k + 1;
  }

  /** Fewer than `limit` earlier times lie within sixty seconds before each one. */
  predicate Sparse(times: seq<real>, limit: int) {
    forall p, q :: 0 <= p <= q < |times| && times[q] - times[p] < WINDOW ==> q - p < limit
  }

  lemma SuffixSparse(all: seq<real>, k: nat, limit: int)
    requires k <= |all| && Sorted(all) && Sparse(all, limit)
    ensures Sorted(all[k..]) && Sparse(all[k..], limit)
  {
  }

  /** Sparse arrivals are let through, and what is remembered stays a suffix of what has arrived. */
  lemma SparseAdmitted(limit: int, times: seq<real>, arrivals: seq<real>) returns (k: nat)
    requires limit >= 1 && arrivals != []
    requires Sorted(times + arrivals) && Sparse(times + arrivals, limit)
    ensures k <= |times| && Admit(limit, times, arrivals[0]) == (times[k..] + [arrivals[0]], true)
    ensures times[k..] + [arrivals[0]] + arrivals[1..] == (times + arrivals)[k..]
  {
    var all := times + arrivals;
    assert all[..|times|] == times;
    SuffixSparse(all, 0, limit);
    assert forall i :: 0 <= i < |times| ==> all[i] == times[i];
    k := RecentIsSuffix(times, arrivals[0]);
    assert k < |times| ==> all[|times|] - all[k] < WINDOW;
  }

  lemma {:induction false} SparseAnswered(limit: int, times: seq<real>, arrivals: seq<real>)
    requires limit >= 1 && Sorted(times + arrivals) && Sparse(times + arrivals, limit)
    ensures Answers(limit, times, arrivals) == Repeat(true, |arrivals|)
    decreases |arrivals|
  {
    if arrivals != [] {
      var k := SparseAdmitted(limit, times, arrivals);
      SuffixSparse(times + arrivals, k, limit);
      SparseAnswered(limit, times[k..] + [arrivals[0]], arrivals[1..]);
    }
  }

  /** Each request arrives no earlier than its grant, at most `delay` later, and in order. */
  predicate Arrive(grants: seq<real>, arrivals: seq<real>, delay: real) {
    && |arrivals| == |grants|
    && Sorted(arrivals)
    && forall i :: 0 <= i < |grants| ==> grants[i] <= arrivals[i] <= grants[i] + delay
  }

  /** A server that limits writes at the advertised rate never refuses a client whose bucket was sized
      from it, as long as the delay between grant and arrival varies by no more than the bucket's
      slack: with no delay for every limit of at least one, and up to 120 / limit seconds above that. */
  lemma ServerNeverRefuses(limit: int, start: real, ops: seq<Op>, arrivals: seq<real>, delay: real)
    requires limit >= 1 && delay >= 0.0 && InOrder(ops, start) && Single(ops)
    requires limit >= 2 ==> delay * limit as real <= 120.0
    requires limit == 1 ==> delay == 0.0
    requires var c := FromAdvertised(limit, SAFETY_FACTOR); Arrive(Grants(c, Full(c, start), ops), arrivals, delay)
    ensures Answers(limit, [], arrivals) == Repeat(true, |arrivals|)
  {
    var c := FromAdvertised(limit, SAFETY_FACTOR);
    var g := Grants(c, Full(c, start), ops);
    forall p, q | 0 <= p <= q < |arrivals| && arrivals[q] - arrivals[p] < WINDOW ensures q - p < limit {
      GrantsBetween(c, Full(c, start), ops, p, q);
      ArrivalsApart(g, arrivals, delay, p, q);
      FewWithin(limit, delay, c, q - p, g[p], g[q]);
    }
    assert [] + arrivals == arrivals;
    SparseAnswered(limit, [], arrivals);
  }

  lemma ArrivalsApart(grants: seq<real>, arrivals: seq<real>, delay: real, p: nat, q: nat)
    requires Arrive(grants, arrivals, delay) && p <= q < |grants| && arrivals[q] - arrivals[p] < WINDOW
    ensures grants[q] - grants[p] < WINDOW + delay
  {
  }

  lemma FewWithin(limit: int, delay: real, c: Config, n: nat, from: real, to: real)
    requires limit >= 1 && delay >= 0.0 && c == FromAdvertised(limit, SAFETY_FACTOR)
    requires limit >= 2 ==> delay * limit as real <= 120.0
    requires limit == 1 ==> delay == 0.0
    requires to - from < WINDOW + delay && (n + 1) as real <= c.capacity + Flow(c, from, to)
    ensures n < limit
  {
    FlowGrows(c, from, to, WINDOW + delay);
    SlackFits(limit, delay, c);
  }

  lemma SlackFits(limit: int, delay: real, c: Config)
    requires limit >= 1 && delay >= 0.0 && c == FromAdvertised(limit, SAFETY_FACTOR)
    requires limit >= 2 ==> delay * limit as real <= 120.0
    requires limit == 1 ==> delay == 0.0
    ensures c.capacity + (WINDOW + delay) * c.rate <= limit as real + 1.0
  {
    assert (WINDOW + delay) * c.rate == c.capacity + delay * c.rate;
    if limit >= 2 {
      assert c.capacity == limit as real / 2.0;
      assert delay * c.rate == delay * limit as real / 120.0;
    }
  }

  /** The lag the server can take: none for a limit of one, 120 / limit seconds from two up. */
  predicate Tolerable(limit: int, delay: real) {
    if limit >= 2 then delay * limit as real <= 120.0 else limit == 1 && delay == 0.0
  }

  /** The server refuses nothing that this bucket grants and that arrives at most `delay` later. */
  ghost predicate Tolerated(limit: int, start: real, delay: real) {
    var c := FromAdvertised(limit, SAFETY_FACTOR);
    forall ops: seq<Op>, arrivals: seq<real> ::
      InOrder(ops, start) && Single(ops) && Arrive(Grants(c, Full(c, start), ops), arrivals, delay) ==>
        Answers(limit, [], arrivals) == Repeat(true, |arrivals|)
  }

  predicate ShortOfMinute(times: seq<real>, from: real) {
    forall i :: 0 <= i < |times| ==> from <= times[i] < from + WINDOW
  }

  /** More requests than the limit, all within less than a minute: one of them is refused. */
  lemma {:induction false} TooMany(limit: int, times: seq<real>, arrivals: seq<real>, from: real)
    requires arrivals != [] && |times| + |arrivals| > limit
    requires ShortOfMinute(times, from) && ShortOfMinute(arrivals, from)
    ensures false in Answers(limit, times, arrivals)
    decreases |arrivals|
  {
    AllRecent(times, arrivals[0]);
    var (kept, ok) := Admit(limit, times, arrivals[0]);
    if ok {
      TooMany(limit, kept, arrivals[1..], from);
    }
    assert Answers(limit, times, arrivals) == [ok] + Answers(limit, kept, arrivals[1..]);
  }

  /** What was granted before a given instant arrives then, everything else as it is granted. */
  function HeldBack(grants: seq<real>, until: real): (arrivals: seq<real>)
    ensures |arrivals| == |grants|
    ensures forall i :: 0 <= i < |grants| ==> arrivals[i] == MaxReal(grants[i], until)
  {
    seq(|grants|, i requires 0 <= i < |grants| => MaxReal(grants[i], until))
  }

  /** A run whose grants, held back by the delay, are too many for less than a minute. */
  lemma TooManyHeldBack(limit: int, start: real, ops: seq<Op>, delay: real, c: Config)
    requires c == FromAdvertised(limit, SAFETY_FACTOR) && InOrder(ops, start) && Single(ops) && delay >= 0.0
    requires var g := Grants(c, Full(c, start), ops);
             |g| > Max(0, limit) && forall i :: 0 <= i < |g| ==> start <= g[i] < start + delay + WINDOW
    ensures !Tolerated(limit, start, delay)
  {
    var g := Grants(c, Full(c, start), ops);
    var arrivals := HeldBack(g, start + delay);
    GrantsSorted(c, Full(c, start), ops);
    assert Arrive(g, arrivals, delay);
    TooMany(limit, [], arrivals, start + delay);
    assert false !in Repeat(true, |arrivals|);
  }

  /** The limit in a closed minute, and one more as soon as it is there. */
  lemma LimitAndOneMore(limit: nat, start: real, ops: seq<Op>, late: real)
    requires limit >= 2 && late == start + WINDOW + 120.0 / limit as real
    requires ops == LimitRun(limit, start) + Takes(1, late)
    ensures var c := FromAdvertised(limit, SAFETY_FACTOR);
            && start + WINDOW <= late && InOrder(ops, start) && Single(ops)
            && Grants(c, Full(c, start), ops) == LimitGrants(limit, start) + [late]
  {
    var c, last := FromAdvertised(limit, SAFETY_FACTOR), start + WINDOW;
    OddRefills(limit, start, c);
    LimitBursts(limit, start, c, Takes(1, late));
    OneToken(limit, c, last, late);
    RefilledAfter(c, Level(0.0, last), late);
    LaterBurst(c, Level(0.0, last), 1, late, []);
    assert Takes(1, late) + [] == Takes(1, late) && Repeat(late, 1) + [] == [late];
  }

  lemma OneToken(limit: nat, c: Config, from: real, to: real)
    requires limit >= 2 && c == FromAdvertised(limit, SAFETY_FACTOR) && to == from + 120.0 / limit as real
    ensures from < to && Flow(c, from, to) == 1.0
  {
    var (l, gap) := (limit as real, 120.0 / limit as real);
    assert gap * l == 120.0 && c.rate == l / 120.0;
    assert gap * (l / 120.0) == gap * l / 120.0;
  }

  lemma LessByProduct(x: real, y: real, k: real, product: real)
    requires k > 0.0 && x * k <= product < y * k
    ensures x < y
  {
  }

  lemma BeyondQuotient(l: real, delay: real)
    requires l > 0.0 && delay * l > 120.0
    ensures delay > 120.0 / l
  {
    LessByProduct(120.0 / l, delay, l, 120.0);
  }

  /** All of the limit and the one more come before this. */
  lemma OneMoreBefore(limit: nat, start: real, late: real, end: real)
    requires limit >= 2 && start + WINDOW <= late < end
    ensures var g := LimitGrants(limit, start) + [late];
            |g| == limit + 1 && forall i :: 0 <= i < |g| ==> start <= g[i] < end
  {
    OddRefills(limit, start, FromAdvertised(limit, SAFETY_FACTOR));
  }

  lemma OneMoreBreaks(limit: nat, start: real, delay: real, late: real)
    requires limit >= 2 && late == start + WINDOW + 120.0 / limit as real && late < start + WINDOW + delay
    ensures !Tolerated(limit, start, delay)
  {
    var c, ops := FromAdvertised(limit, SAFETY_FACTOR), LimitRun(limit, start) + Takes(1, late);
    LimitAndOneMore(limit, start, ops, late);
    OneMoreBefore(limit, start, late, start + WINDOW + delay);
    TooManyHeldBack(limit, start, ops, delay, c);
  }

  /** A longer lag breaks every limit from two up. */
  lemma LagBreaksFromTwo(limit: nat, start: real, delay: real)
    requires limit >= 2 && delay * limit as real > 120.0
    ensures !Tolerated(limit, start, delay)
  {
    BeyondQuotient(limit as real, delay);
    OneMoreBreaks(limit, start, delay, start + WINDOW + 120.0 / limit as real);
  }

  /** For a limit of one any lag is too long, below that everything is refused. */
  lemma LagBreaksOne(limit: int, start: real, delay: real)
    requires limit <= 1 && delay >= 0.0 && (limit == 1 ==> delay > 0.0)
    ensures !Tolerated(limit, start, delay)
  {
    var c := FromAdvertised(limit, SAFETY_FACTOR);
    if limit == 1 {
      assert c == FromAdvertised(2, SAFETY_FACTOR);
      LimitIsAttained(2, start);
      TooManyHeldBack(limit, start, LimitRun(2, start), delay, c);
    } else {
      Burst(c, Full(c, start), 1, start, []);
      assert Takes(1, start) + [] == Takes(1, start) && Repeat(start, 1) + [] == [start];
      TooManyHeldBack(limit, start, Takes(1, start), delay, c);
    }
  }

  lemma ShortLagTolerated(limit: int, start: real, delay: real)
    requires delay >= 0.0 && Tolerable(limit, delay)
    ensures Tolerated(limit, start, delay)
  {
    var c := FromAdvertised(limit, SAFETY_FACTOR);
    forall ops: seq<Op>, arrivals: seq<real>
      | InOrder(ops, start) && Single(ops) && Arrive(Grants(c, Full(c, start), ops), arrivals, delay)
      ensures Answers(limit, [], arrivals) == Repeat(true, |arrivals|)
    {
      ServerNeverRefuses(limit, start, ops, arrivals, delay);
    }
  }

  /** The server's half-open window takes exactly this lag: one instant more, and the limit and one more
      request arrive in less than a minute. */
  lemma LagToleratedExactly(limit: int, start: real, delay: real)
    requires delay >= 0.0
    ensures Tolerated(limit, start, delay) <==> Tolerable(limit, delay)
  {
    if Tolerable(limit, delay) {
      ShortLagTolerated(limit, start, delay);
    } else if limit <= 1 {
      LagBreaksOne(limit, start, delay);
    } else {
      LagBreaksFromTwo(limit, start, delay);
    }
  }

  /** With a limit below one the server refuses everything, so one is the exact threshold. */
  lemma {:induction false} NoLimitNoService(limit: int, times: seq<real>, arrivals: seq<real>)
    requires limit <= 0
    ensures Answers(limit, times, arrivals) == Repeat(false, |arrivals|)
    decreases |arrivals|
  {
    if arrivals != [] {
      NoLimitNoService(limit, Admit(limit, times, arrivals[0]).0, arrivals[1..]);
    }
  }

  /** The server refuses nothing of what this bucket grants when requests arrive as they are granted. */
  ghost predicate NeverRefused(limit: int, start: real) {
    var c := FromAdvertised(limit, SAFETY_FACTOR);
    forall ops: seq<Op> :: InOrder(ops, start) && Single(ops) ==>
      var g := Grants(c, Full(c, start), ops); Answers(limit, [], g) == Repeat(true, |g|)
  }

  /** The server's window is half open, so against it one is the threshold. */
  lemma NeverRefusedExactly(limit: int, start: real)
    ensures NeverRefused(limit, start) <==> limit >= 1
  {
    var c := FromAdvertised(limit, SAFETY_FACTOR);
    if limit >= 1 {
      forall ops: seq<Op> | InOrder(ops, start) && Single(ops)
        ensures var g := Grants(c, Full(c, start), ops); Answers(limit, [], g) == Repeat(true, |g|)
      {
        GrantsSorted(c, Full(c, start), ops);
        ServerNeverRefuses(limit, start, ops, Grants(c, Full(c, start), ops), 0.0);
      }
    } else {
      var ops := Takes(1, start);
      Burst(c, Full(c, start), 1, start, []);
      assert ops + [] == ops;
      var g := Grants(c, Full(c, start), ops);
      assert g == [start];
      NoLimitNoService(limit, [], g);
      assert Repeat(false, 1)[0] != Repeat(true, 1)[0];
    }
  }

  lemma GrantsSorted(c: Config, s: Level, ops: seq<Op>)
    requires Sane(c, s) && InOrder(ops, s.updated) && Single(ops)
    ensures Sorted(Grants(c, s, ops))
  {
    forall i, j | 0 <= i < j < |Grants(c, s, ops)| ensures Grants(c, s, ops)[i] <= Grants(c, s, ops)[j] {
      GrantsBetween(c, s, ops, i, j);
    }
  }
}
