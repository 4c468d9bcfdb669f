/** A client that installs a fresh, full bucket each time it discovers the server's limits, while threads
    that are already waiting go on drawing from the bucket it replaces. */
module Rediscovery {
  import opened Common
  import opened RateLimit

  /** A bucket, when it was put in place, and all that its threads ever do to it, in the order of its lock. */
  datatype Bucket = Bucket(config: Config, installed: real, ops: seq<Op>)

  /** At most `m` tokens, refilled in no less than a minute. */
  predicate Modest(c: Config, m: real) {
    0.0 < c.capacity <= m && 0.0 < c.rate <= m / 60.0
  }

  /** One-token requests to a modest bucket, from its installation on. */
  predicate BucketOk(b: Bucket, m: real) {
    Modest(b.config, m) && InOrder(b.ops, b.installed) && Single(b.ops)
  }

  /** Nothing happens to the bucket after this. */
  predicate Over(b: Bucket, end: real) {
    forall i :: 0 <= i < |b.ops| ==> b.ops[i].now <= end
  }

  /** The buckets of one client in the order it installs them. Each is drawn from until the next one is in
      place, and for at most `delay` seconds more by the threads that wait in it. */
  predicate Succession(bs: seq<Bucket>, m: real, delay: real) {
    bs == [] ||
    (&& BucketOk(bs[0], m)
     && (|bs| > 1 ==> bs[0].installed <= bs[1].installed && Over(bs[0], bs[1].installed + delay))
     && Succession(bs[1..], m, delay))
  }

  function GrantsOf(b: Bucket): seq<real> {
    Grants(b.config, Full(b.config, b.installed), b.ops)
  }

  predicate Within(t: real, from: real, to: real) {
    from <= t <= to
  }

  function CountIn(times: seq<real>, from: real, to: real): nat {
    if times == [] then 0 else (if Within(times[0], from, to) then 1 else 0) + CountIn(times[1..], from, to)
  }

  /** What all the buckets together grant between two instants, both included. */
  function Total(bs: seq<Bucket>, from: real, to: real): nat {
    if bs == [] then 0 else CountIn(GrantsOf(bs[0]), from, to) + Total(bs[1..], from, to)
  }

  function InstalledIn(bs: seq<Bucket>, from: real, to: real): nat {
    if bs == [] then 0 else (if Within(bs[0].installed, from, to) then 1 else 0) + InstalledIn(bs[1..], from, to)
  }

  /** The replacements that a closed minute can feel: in it, or so little before that the bucket they
      replace is still drawn from. */
  function Replacements(bs: seq<Bucket>, minute: real, delay: real): nat {
    if bs == [] then 0 else InstalledIn(bs[1..], minute - delay, minute + WINDOW)
  }

  // ----- the bound that holds ---------------------------------------------------------------------

  /** What a bucket of `m` refills between two instants. */
  function Inflow(m: real, from: real, to: real): real {
    (to - from) * (m / 60.0)
  }

  lemma InflowAdds(m: real, x: real, y: real, z: real)
    ensures Inflow(m, x, y) + Inflow(m, y, z) == Inflow(m, x, z)
  {
  }

  lemma InflowGrows(m: real, x: real, y: real, from: real, to: real)
    requires m > 0.0 && y - x <= to - from
    ensures Inflow(m, x, y) <= Inflow(m, from, to)
  {
    MulLe(y - x, to - from, m / 60.0);
  }

  lemma NoInflow(m: real, x: real)
    ensures Inflow(m, x, x) == 0.0
  {
  }

  lemma FlowWithin(c: Config, m: real, x: real, y: real)
    requires Modest(c, m) && x <= y
    ensures Flow(c, x, y) <= Inflow(m, x, y)
  {
    if x < y {
      MulLe(c.rate, m / 60.0, y - x);
    } else {
      assert Flow(c, x, y) == 0.0 == Inflow(m, x, y);
    }
  }

  /** n times x. */
  function Times(n: nat, x: real): real {
    if n == 0 then 0.0 else x + Times(n - 1, x)
  }

  lemma {:induction false} TimesGrow(n: nat, r: nat, x: real)
    requires n <= r && x >= 0.0
    ensures 0.0 <= Times(n, x) <= Times(r, x)
  {
    if n > 0 {
      TimesGrow(n - 1, r - 1, x);
    } else if r > 0 {
      TimesGrow(0, r - 1, x);
    }
  }

  lemma {:induction false} WholeTimes(n: nat, x: nat)
    ensures Times(n, x as real) == (n * x) as real
  {
    if n > 0 {
      WholeTimes(n - 1, x);
      assert n * x == x + (n - 1) * x;
    }
  }

  /** Grants happen when operations do. */
  lemma {:induction false} GrantsAmong(c: Config, s: Level, ops: seq<Op>, lo: real, hi: real)
    requires forall i :: 0 <= i < |ops| ==> Within(ops[i].now, lo, hi)
    ensures forall j :: 0 <= j < |Grants(c, s, ops)| ==> Within(Grants(c, s, ops)[j], lo, hi)
    decreases |ops|
  {
    if ops != [] {
      GrantsAmong(c, Played(c, s, ops[0]).0, ops[1..], lo, hi);
      assert Within(ops[0].now, lo, hi);
    }
  }

  /** The first and the last of the times counted. */
  lemma {:induction false} CountSpan(times: seq<real>, from: real, to: real) returns (p: nat, q: nat)
    requires CountIn(times, from, to) > 0
    ensures p <= q < |times| && Within(times[p], from, to) && Within(times[q], from, to)
    ensures CountIn(times, from, to) <= q - p + 1
  {
    if !Within(times[0], from, to) {
      p, q := CountSpan(times[1..], from, to);
      p, q := p + 1, q + 1;
    } else if CountIn(times[1..], from, to) == 0 {
      p, q := 0, 0;
    } else {
      p, q := CountSpan(times[1..], from, to);
      p, q := 0, q + 1;
    }
  }

  /** The bucket is not drawn from after `end`, or not before `to`. */
  predicate Ends(b: Bucket, end: real, to: real) {
    Over(b, end) || to <= end
  }

  /** Where the bucket grants anything in a stretch, it grants no more than its capacity and the inflow of
      the part of the stretch in which it is drawn from. */
  lemma BucketShare(b: Bucket, m: real, from: real, to: real, end: real)
    requires BucketOk(b, m) && Ends(b, end, to) && CountIn(GrantsOf(b), from, to) > 0
    ensures MaxReal(from, b.installed) <= MinReal(to, end)
    ensures CountIn(GrantsOf(b), from, to) as real <= m + Inflow(m, MaxReal(from, b.installed), MinReal(to, end))
  {
    var (c, s, g) := (b.config, Full(b.config, b.installed), GrantsOf(b));
    var p, q := CountSpan(g, from, to);
    GrantsBetween(c, s, b.ops, p, q);
    FlowWithin(c, m, g[p], g[q]);
    var hi := if Over(b, end) then end else MaxReal(g[q], LastOf(b));
    GrantsAmong(c, s, b.ops, b.installed, hi);
    assert Within(g[p], b.installed, hi) && Within(g[q], b.installed, hi);
    InflowGrows(m, g[p], g[q], MaxReal(from, b.installed), MinReal(to, end));
  }

  function LastOf(b: Bucket): real {
    if b.ops == [] then b.installed else b.ops[|b.ops| - 1].now
  }

  /** Nothing is granted before the first installation. */
  lemma {:induction false} NotYet(bs: seq<Bucket>, m: real, delay: real, from: real, to: real)
    requires Succession(bs, m, delay) && (bs != [] ==> to < bs[0].installed)
    ensures Total(bs, from, to) == 0
  {
    if bs != [] {
      if CountIn(GrantsOf(bs[0]), from, to) > 0 {
        BucketShare(bs[0], m, from, to, to);
      }
      NotYet(bs[1..], m, delay, from, to);
    }
  }

  /** The bound on a stretch: one bucket, the inflow from the first installation on, and for every
      replacement a bucket and the inflow of the delay. */
  predicate Bounded(bs: seq<Bucket>, m: real, delay: real, from: real, to: real)
    requires bs != []
  {
    Total(bs, from, to) as real <=
      m + Inflow(m, MaxReal(from, bs[0].installed), to)
      + Times(InstalledIn(bs[1..], from - delay, to), m + Inflow(m, 0.0, delay))
  }

  /** A bucket that is no longer drawn from in the stretch adds nothing. */
  lemma PassedBucket(bs: seq<Bucket>, m: real, delay: real, from: real, to: real)
    requires |bs| > 1 && Succession(bs, m, delay) && bs[1].installed < from - delay && delay >= 0.0
    requires Bounded(bs[1..], m, delay, from, to)
    ensures Bounded(bs, m, delay, from, to)
  {
    if CountIn(GrantsOf(bs[0]), from, to) > 0 {
      BucketShare(bs[0], m, from, to, bs[1].installed + delay);
    }
  }

  /** A bucket replaced in time for the stretch, and the delay in which both are drawn from. */
  lemma ReplacedBucket(bs: seq<Bucket>, m: real, delay: real, from: real, to: real)
    requires |bs| > 1 && Succession(bs, m, delay) && Within(bs[1].installed, from - delay, to) && from <= to
    requires delay >= 0.0 && Bounded(bs[1..], m, delay, from, to)
    ensures Bounded(bs, m, delay, from, to)
  {
    var lo, mid := MaxReal(from, bs[0].installed), MaxReal(from, bs[1].installed);
    var hi := MinReal(to, bs[1].installed + delay);
    InflowAdds(m, lo, mid, to);
    InflowAdds(m, lo, mid, hi);
    InflowGrows(m, mid, hi, 0.0, delay);
    NoInflow(m, 0.0);
    InflowGrows(m, 0.0, 0.0, lo, mid);
    InflowGrows(m, 0.0, 0.0, 0.0, delay);
    if CountIn(GrantsOf(bs[0]), from, to) > 0 {
      BucketShare(bs[0], m, from, to, bs[1].installed + delay);
    }
  }

  /** The bucket in use to the end of the stretch. */
  lemma LastBucket(bs: seq<Bucket>, m: real, delay: real, from: real, to: real)
    requires bs != [] && Succession(bs, m, delay) && bs[0].installed <= to && from <= to && delay >= 0.0
    requires Total(bs[1..], from, to) == 0
    ensures Bounded(bs, m, delay, from, to)
  {
    NoInflow(m, 0.0);
    InflowGrows(m, 0.0, 0.0, MaxReal(from, bs[0].installed), to);
    InflowGrows(m, 0.0, 0.0, 0.0, delay);
    TimesGrow(0, InstalledIn(bs[1..], from - delay, to), m + Inflow(m, 0.0, delay));
    if CountIn(GrantsOf(bs[0]), from, to) > 0 {
      BucketShare(bs[0], m, from, to, to);
    }
  }

  lemma {:induction false} StretchBound(bs: seq<Bucket>, m: real, delay: real, from: real, to: real)
    requires bs != [] && Succession(bs, m, delay) && bs[0].installed <= to && from <= to && delay >= 0.0
    ensures Bounded(bs, m, delay, from, to)
  {
    if |bs| == 1 || to < bs[1].installed {
      NotYet(bs[1..], m, delay, from, to);
      LastBucket(bs, m, delay, from, to);
    } else {
      StretchBound(bs[1..], m, delay, from, to);
      if bs[1].installed < from - delay {
        PassedBucket(bs, m, delay, from, to);
      } else {
        ReplacedBucket(bs, m, delay, from, to);
      }
    }
  }

  /** In any closed minute that feels at most r replacements, all threads and buckets together are granted
      no more than two buckets, and for each replacement one more and what it refills in the delay. */
  lemma ReplacementBound(bs: seq<Bucket>, m: real, delay: real, minute: real, r: nat)
    requires m > 0.0 && delay >= 0.0 && Succession(bs, m, delay) && Replacements(bs, minute, delay) <= r
    ensures Total(bs, minute, minute + WINDOW) as real <= m + m + Times(r, m + Inflow(m, 0.0, delay))
  {
    var to := minute + WINDOW;
    NoInflow(m, 0.0);
    InflowGrows(m, 0.0, 0.0, 0.0, delay);
    TimesGrow(0, r, m + Inflow(m, 0.0, delay));
    if bs == [] || to < bs[0].installed {
      NotYet(bs, m, delay, minute, to);
    } else {
      StretchBound(bs, m, delay, minute, to);
      TimesGrow(Replacements(bs, minute, delay), r, m + Inflow(m, 0.0, delay));
      InflowGrows(m, MaxReal(minute, bs[0].installed), to, 0.0, WINDOW);
      assert Inflow(m, 0.0, WINDOW) == m;
    }
  }

  /** Every client of buckets of at most m tokens, whose threads stay for at most `delay` seconds in a bucket
      that is replaced, is granted at most n tokens in any closed minute that feels at most r replacements. */
  ghost predicate KeepsLimit(m: real, delay: real, r: nat, n: real) {
    forall bs: seq<Bucket>, minute: real :: Succession(bs, m, delay) && Replacements(bs, minute, delay) <= r ==>
      Total(bs, minute, minute + WINDOW) as real <= n
  }

  lemma EnoughKeeps(m: real, delay: real, r: nat, n: real)
    requires m > 0.0 && delay >= 0.0 && m + m + Times(r, m + Inflow(m, 0.0, delay)) <= n
    ensures KeepsLimit(m, delay, r, n)
  {
    forall bs: seq<Bucket>, minute: real | Succession(bs, m, delay) && Replacements(bs, minute, delay) <= r
      ensures Total(bs, minute, minute + WINDOW) as real <= n
    {
      ReplacementBound(bs, m, delay, minute, r);
    }
  }

  // ----- the run that attains it ------------------------------------------------------------------

  lemma {:induction false} AllCount(times: seq<real>, from: real, to: real)
    requires forall i :: 0 <= i < |times| ==> Within(times[i], from, to)
    ensures CountIn(times, from, to) == |times|
  {
    if times != [] {
      AllCount(times[1..], from, to);
    }
  }

  function Whole(m: nat): Config {
    Config(m as real, m as real / 60.0)
  }

  /** A bucket that is emptied at once, and drawn from for x tokens more at a later instant. */
  function TwiceUsed(m: nat, now: real, x: nat, later: real): Bucket {
    Bucket(Whole(m), now, Takes(m, now) + Takes(x, later))
  }

  lemma TwiceUsedGrants(m: nat, now: real, x: nat, later: real)
    requires 1 <= m && x <= m && now <= later <= now + WINDOW && Inflow(m as real, now, later) == x as real
    ensures var b := TwiceUsed(m, now, x, later);
            BucketOk(b, m as real) && Over(b, later) && CountIn(GrantsOf(b), now, now + WINDOW) == m + x
  {
    RefilledAfter(Whole(m), Level(0.0, now), later);
    TwoBursts(Whole(m), now, m, x, later, []);
    assert Takes(x, later) + [] == Takes(x, later) && Repeat(later, x) + [] == Repeat(later, x);
    AllCount(Repeat(now, m) + Repeat(later, x), now, now + WINDOW);
  }

  /** r buckets replaced in one instant, each drawn from again when the delay is over, and one more, drawn
      from again a minute later. */
  function Spree(m: nat, now: real, x: nat, delay: real, r: nat): (bs: seq<Bucket>)
    ensures |bs| == r + 1 && bs[0].installed == now
  {
    if r == 0 then [TwiceUsed(m, now, m, now + WINDOW)]
    else [TwiceUsed(m, now, x, now + delay)] + Spree(m, now, x, delay, r - 1)
  }

  /** In the delay the bucket refills x tokens. */
  predicate Refills(m: nat, delay: real, x: nat) {
    1 <= m && x <= m && 0.0 <= delay <= WINDOW && delay * (m as real / 60.0) == x as real
  }

  /** One bucket more in front. */
  lemma FrontBucket(b: Bucket, bs: seq<Bucket>, m: real, delay: real, from: real, to: real)
    requires BucketOk(b, m) && Succession(bs, m, delay)
    requires bs != [] ==> b.installed <= bs[0].installed && Over(b, bs[0].installed + delay)
    ensures Succession([b] + bs, m, delay)
    ensures Total([b] + bs, from, to) == CountIn(GrantsOf(b), from, to) + Total(bs, from, to)
    ensures InstalledIn([b] + bs, from, to) ==
            (if Within(b.installed, from, to) then 1 else 0) + InstalledIn(bs, from, to)
    ensures Replacements([b] + bs, from, delay) == InstalledIn(bs, from - delay, from + WINDOW)
  {
    assert ([b] + bs)[1..] == bs;
  }

  /** Put in place at `now`, over by `end`, and granting n tokens in the minute from `now` on. */
  predicate Yields(b: Bucket, m: real, now: real, end: real, n: nat) {
    b.installed == now && BucketOk(b, m) && Over(b, end) && CountIn(GrantsOf(b), now, now + WINDOW) == n
  }

  lemma SpreeBuckets(m: nat, now: real, x: nat, delay: real)
    requires Refills(m, delay, x)
    ensures Yields(TwiceUsed(m, now, x, now + delay), m as real, now, now + delay, m + x)
    ensures Yields(TwiceUsed(m, now, m, now + WINDOW), m as real, now, now + WINDOW, m + m)
  {
    assert Inflow(m as real, now, now + WINDOW) == m as real;
    TwiceUsedGrants(m, now, m, now + WINDOW);
    TwiceUsedGrants(m, now, x, now + delay);
  }

  lemma {:induction false} SpreeIsSuccession(m: nat, now: real, x: nat, delay: real, r: nat)
    requires Yields(TwiceUsed(m, now, x, now + delay), m as real, now, now + delay, m + x)
    requires Yields(TwiceUsed(m, now, m, now + WINDOW), m as real, now, now + WINDOW, m + m)
    ensures Succession(Spree(m, now, x, delay, r), m as real, delay)
    ensures Total(Spree(m, now, x, delay, r), now, now + WINDOW) as real == (m + m) as real + Times(r, (m + x) as real)
  {
    if r == 0 {
      var b := TwiceUsed(m, now, m, now + WINDOW);
      FrontBucket(b, [], m as real, delay, now, now + WINDOW);
      assert [b] + [] == [b];
    } else {
      SpreeIsSuccession(m, now, x, delay, r - 1);
      FrontBucket(
        TwiceUsed(m, now, x, now + delay), Spree(m, now, x, delay, r - 1), m as real, delay, now, now + WINDOW);
    }
  }

  lemma WholeBound(m: nat, x: nat, r: nat)
    ensures (m + m) as real + Times(r, (m + x) as real) == ((r + 2) * m + r * x) as real
  {
    WholeTimes(r, m + x);
    assert (r + 2) * m + r * x == m + m + r * (m + x);
  }

  lemma {:induction false} SpreeReplaces(m: nat, now: real, x: nat, delay: real, r: nat, from: real, to: real)
    requires Within(now, from, to)
    ensures InstalledIn(Spree(m, now, x, delay, r), from, to) == r + 1
  {
    var bs := Spree(m, now, x, delay, r);
    if r == 0 {
      assert bs[1..] == [];
    } else {
      SpreeReplaces(m, now, x, delay, r - 1, from, to);
      assert bs[1..] == Spree(m, now, x, delay, r - 1);
    }
  }

  lemma SpreeBreaks(m: nat, x: nat, delay: real, r: nat, n: int)
    requires Refills(m, delay, x) && n < (r + 2) * m + r * x
    ensures !KeepsLimit(m as real, delay, r, n as real)
  {
    var bs := Spree(m, 0.0, x, delay, r);
    SpreeBuckets(m, 0.0, x, delay);
    SpreeIsSuccession(m, 0.0, x, delay, r);
    SpreeReplaces(m, 0.0, x, delay, r, 0.0 - delay, 0.0 + WINDOW);
    WholeBound(m, x, r);
    assert Replacements(bs, 0.0, delay) == r;
    assert Total(bs, 0.0, 0.0 + WINDOW) as real > n as real;
  }

  /** For buckets of m tokens that refill x in the delay the bound is exact: with r replacements, n grants a
      minute are kept exactly from (r + 2) * m + r * x up. */
  lemma ReplacementsKeptExactly(m: nat, x: nat, delay: real, r: nat, n: int)
    requires Refills(m, delay, x)
    ensures KeepsLimit(m as real, delay, r, n as real) <==> n >= (r + 2) * m + r * x
  {
    if n < (r + 2) * m + r * x {
      SpreeBreaks(m, x, delay, r, n);
    } else {
      WholeBound(m, x, r);
      EnoughKeeps(m as real, delay, r, n as real);
    }
  }

  // ----- the advertised limit ---------------------------------------------------------------------

  /** One replacement is too many for any limit: half of it, rounded down, from the bucket that goes, and
      all of it from the bucket that comes. */
  lemma OneReplacementBreaks(limit: nat, delay: real, r: nat)
    requires limit >= 2 && delay >= 0.0 && r >= 1
    ensures !KeepsLimit(limit as real / 2.0, delay, r, limit as real)
  {
    var c, k, m := FromAdvertised(limit, SAFETY_FACTOR), limit / 2, limit as real / 2.0;
    var goes, comes := Bucket(c, 0.0, Takes(k, 0.0)), Bucket(c, 0.0, LimitRun(limit, 0.0));
    Burst(c, Full(c, 0.0), k, 0.0, []);
    assert Takes(k, 0.0) + [] == Takes(k, 0.0) && Repeat(0.0, k) + [] == Repeat(0.0, k);
    AllCount(Repeat(0.0, k), 0.0, 0.0 + WINDOW);
    LimitIsAttained(limit, 0.0);
    AllCount(GrantsOf(comes), 0.0, 0.0 + WINDOW);
    FrontBucket(comes, [], m, delay, 0.0, 0.0 + WINDOW);
    FrontBucket(comes, [], m, delay, 0.0 - delay, 0.0 + WINDOW);
    FrontBucket(goes, [comes] + [], m, delay, 0.0, 0.0 + WINDOW);
    assert Total([goes] + ([comes] + []), 0.0, 0.0 + WINDOW) == k + limit;
    assert Replacements([goes] + ([comes] + []), 0.0, delay) == 1;
  }

  /** A client whose buckets are half the advertised limit keeps below the limit exactly when it does not
      replace them: true of every limit from two up and however short its threads stay in the old bucket. */
  lemma LimitKeptWithoutReplacement(limit: nat, delay: real, r: nat)
    requires limit >= 2 && delay >= 0.0
    ensures KeepsLimit(limit as real / 2.0, delay, r, limit as real) <==> r == 0
  {
    if r == 0 {
      EnoughKeeps(limit as real / 2.0, delay, 0, limit as real);
    } else {
      OneReplacementBreaks(limit, delay, r);
    }
  }
}
