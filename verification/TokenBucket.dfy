/** The bucket and the window as the objects that threads share, and the waiting loop of `acquire`. */
module TokenBucket {
  import opened BucketHistory
  import opened RateLimit

  /** `time.monotonic()` and `time.sleep()`. An exact clock stands still between readings and sleeps for
      exactly as long as asked; any other clock may run on at both. */
  class Clock {
    const exact: bool
    var now: real

    constructor (exact: bool, now: real)
      ensures this.exact == exact && this.now == now
    {
      this.exact, this.now := exact, now;
    }

    method Monotonic() returns (t: real)
      modifies this`now
      ensures t == now >= old(now)
      ensures exact ==> now == old(now)
    {
      var drift: real := *;
      if !exact && drift > 0.0 {
        now := now + drift;
      }
      t := now;
    }

    method Sleep(d: real)
      modifies this`now
      ensures now >= old(now) + d
      ensures exact ==> now == old(now) + d
    {
      var drift: real := *;
      now := now + d + if !exact && drift > 0.0 then drift else 0.0;
    }
  }

  /** The bucket; `history` is a ghost record of every locked section anyone ever ran on it. */
  class TokenBucket {
    const config: Config
    const born: real
    var level: Level
    ghost var history: seq<Visit>

    /** The level is what a faithful history leaves of a full bucket. */
    ghost predicate Valid()
      reads this
    {
      && config.capacity > 0.0 && config.rate > 0.0
      && Faithful(config, Full(config, born), history)
      && level == Left(Full(config, born), history)
    }

    /** `__post_init__`; a capacity or rate that is not positive is the ValueError of Create. */
    constructor (config: Config, clock: Clock)
      requires config.capacity > 0.0 && config.rate > 0.0
      ensures this.config == config && level == Full(config, clock.now) && history == [] && Valid()
    {
      this.config, born := config, clock.now;
      level := Full(config, clock.now);
      history := [];
    }

    static method Create(config: Config, clock: Clock) returns (bucket: TokenBucket?)
      ensures bucket == null <==> config.capacity <= 0.0 || config.rate <= 0.0
      ensures bucket != null ==>
        fresh(bucket) && bucket.config == config && bucket.level == Full(config, clock.now) && bucket.Valid()
    {
      if config.capacity <= 0.0 || config.rate <= 0.0 {
        return null;
      }
      bucket := new TokenBucket(config, clock);
    }

    /** Note a visit that finds the bucket as it is. */
    ghost method Record(v: Visit)
      requires Valid() && level.updated <= v.op.now && (v.left, v.granted) == Played(config, level, v.op)
      modifies this`history
      ensures history == old(history) + [v]
      ensures Faithful(config, Full(config, born), history) && Left(Full(config, born), history) == v.left
    {
      FaithfulAdds(config, Full(config, born), history, v);
      history := history + [v];
    }

    /** `try_acquire`: read the clock, refill and take, all under the lock. */
    method TryAcquire(clock: Clock, tokens: real, who: nat) returns (ok: bool)
      requires Valid() && level.updated <= clock.now
      modifies this`level, this`history, clock`now
      ensures Valid() && level.updated == clock.now
      ensures clock.now >= old(clock.now) && (clock.exact ==> clock.now == old(clock.now))
      ensures (level, ok) == Tried(config, old(level), clock.now, tokens)
      ensures ok ==> tokens <= config.capacity
      ensures history == old(history) + [Visit(who, Take(clock.now, tokens), ok, level)]
    {
      var now := clock.Monotonic();
      ghost var tried := Tried(config, level, now, tokens);
      Record(Visit(who, Take(now, tokens), tried.1, tried.0));
      level := Refilled(config, level, now);
      ok := level.tokens >= tokens;
      if ok {
        level := level.(tokens := level.tokens - tokens);
      }
      assert (level, ok) == tried;
    }

    /** The second locked section of `acquire`: refill and compute how long to wait. */
    method Shortfall(clock: Clock, tokens: real, who: nat) returns (wait: real)
      requires Valid() && level.updated <= clock.now
      modifies this`level, this`history, clock`now
      ensures Valid() && level.updated == clock.now
      ensures clock.now >= old(clock.now) && (clock.exact ==> clock.now == old(clock.now))
      ensures level == Refilled(config, old(level), clock.now)
      ensures wait == WaitTime(config, level, tokens)
      ensures history == old(history) + [Visit(who, Peek(clock.now), false, level)]
    {
      var now := clock.Monotonic();
      Record(Visit(who, Peek(now), false, Refilled(config, level, now)));
      level := Refilled(config, level, now);
      wait := MaxReal(0.01, (tokens - level.tokens) / config.rate);
    }

    /** Other threads use the bucket between our locked sections, as often and for as much as they like,
        unless we are alone. */
    method Others(clock: Clock, who: nat, alone: bool)
      requires Valid() && level.updated <= clock.now
      modifies this`level, this`history, clock`now
      ensures Valid() && level.updated <= clock.now && clock.now >= old(clock.now)
      ensures Elsewhere(old(history), history, who) && (clock.exact ==> clock.now == old(clock.now))
      ensures alone ==> level == old(level) && history == old(history) && clock.now == old(clock.now)
    {
      var rounds: int := *;
      if alone || rounds < 0 {
        rounds := 0;
      }
      for i := 0 to rounds
        invariant Valid() && level.updated <= clock.now && clock.now >= old(clock.now)
        invariant Elsewhere(old(history), history, who) && (clock.exact ==> clock.now == old(clock.now))
        invariant alone ==> level == old(level) && history == old(history) && clock.now == old(clock.now)
      {
        var other: nat, tokens: real, peeks: bool := *, *, *;
        if other != who {
          ghost var h := history;
          if peeks {
            var wait := Shortfall(clock, tokens, other);
          } else {
            var ok := TryAcquire(clock, tokens, other);
          }
          ElsewhereAdds(old(history), h, history[|h|], who);
        }
      }
    }

    /** The wait that this thread works out from what it saw last of the bucket. */
    ghost function WaitFor(tokens: real, who: nat): real
      requires config.rate > 0.0
      reads this
    {
      WaitTime(config, LastSeen(Full(config, born), history, who), tokens)
    }

    /** After a failed take: look how long to wait, while others go on before and after. */
    method Reckon(clock: Clock, tokens: real, who: nat, alone: bool) returns (wait: real)
      requires Valid() && level.updated <= clock.now
      modifies this`level, this`history, clock`now
      ensures Valid() && level.updated <= clock.now && clock.now >= old(clock.now)
      ensures Granted(old(history), history, who, []) && (alone ==> Mine(old(history), history, who))
      ensures wait == WaitFor(tokens, who) && (clock.exact ==> clock.now == old(clock.now))
      ensures alone && clock.exact ==> level == Refilled(config, old(level), clock.now)
      ensures alone ==> wait == WaitTime(config, level, tokens)
    {
      ghost var h := history;
      Others(clock, who, alone);
      ElsewhereUngranted(h, history, who);
      ghost var g := history;
      wait := Shortfall(clock, tokens, who);
      GrantedAdds(g, Visit(who, Peek(clock.now), false, level), who);
      GrantedThen(h, g, history, who, [], []);
      g := history;
      assert LastSeen(Full(config, born), g, who) == level;
      Others(clock, who, alone);
      ElsewhereUngranted(g, history, who);
      ElsewhereUnseen(Full(config, born), g, history, who);
      GrantedThen(h, g, history, who, [], []);
    }

    /** One round of `acquire`: take, or else compute how long to wait. */
    method Attempt(clock: Clock, tokens: real, who: nat, alone: bool) returns (ok: bool, wait: real)
      requires Valid() && level.updated <= clock.now
      modifies this`level, this`history, clock`now
      ensures Valid() && level.updated <= clock.now && clock.now >= old(clock.now)
      ensures Granted(old(history), history, who, if ok then [Take(clock.now, tokens)] else [])
      ensures alone ==> Mine(old(history), history, who)
      ensures ok ==> tokens <= config.capacity
      ensures !ok ==> wait == WaitFor(tokens, who)
      ensures clock.exact ==> clock.now == old(clock.now)
      ensures alone && clock.exact && !ok ==> Refused(config, old(level), clock.now, tokens, level)
      ensures alone && !ok ==> wait == WaitTime(config, level, tokens)
    {
      ghost var h := history;
      ok := TryAcquire(clock, tokens, who);
      GrantedAdds(h, Visit(who, Take(clock.now, tokens), ok, level), who);
      wait := 0.0;
      if !ok {
        ghost var g := history;
        wait := Reckon(clock, tokens, who, alone);
        GrantedThen(h, g, history, who, [], []);
      }
    }

    /** Between two rounds: sleep, while others go on. */
    method Pause(clock: Clock, nap: real, who: nat, alone: bool)
      requires Valid() && level.updated <= clock.now && nap >= 0.0
      modifies this`level, this`history, clock`now
      ensures Valid() && level.updated <= clock.now && clock.now >= old(clock.now) + nap
      ensures Granted(old(history), history, who, [])
      ensures alone ==> level == old(level) && history == old(history)
      ensures clock.exact ==> clock.now == old(clock.now) + nap
    {
      clock.Sleep(nap);
      ghost var h := history;
      Others(clock, who, alone);
      ElsewhereUngranted(h, history, who);
    }

    /** `acquire`: take, or wait in steps of at most half a second, or give up. Whatever other threads do
        to the bucket meanwhile, this call is granted its tokens in exactly one locked section if it
        returns, and in none if it gives up; giving up comes only when waiting is not allowed or would
        overrun the deadline, and is told the wait that this thread worked out last; no grant comes later than
        max_wait on an exact clock. It sleeps at most max_wait / 0.01 times for any request, clock and competing
        threads; and a lone caller on an exact clock gets its tokens whenever they fit the bucket and are
        refilled 0.01 s before the deadline. */
    method Acquire(clock: Clock, tokens: real, block: bool, maxWait: real, who: nat, alone: bool)
      returns (granted: bool, retryAfter: real, sleeps: nat)
      requires Valid() && level.updated <= clock.now
      modifies this`level, this`history, clock`now
      ensures Valid() && level.updated <= clock.now
      ensures Granted(old(history), history, who, if granted then [Take(clock.now, tokens)] else [])
      ensures alone ==> Mine(old(history), history, who)
      ensures !granted ==> retryAfter == WaitFor(tokens, who)
      ensures !granted && block ==> clock.now + retryAfter > old(clock.now) + maxWait
      ensures sleeps > 0 ==> block && sleeps as real * 0.01 <= maxWait
      ensures tokens > config.capacity ==> !granted
      ensures clock.exact ==> clock.now <= old(clock.now) + sleeps as real * 0.5
      ensures granted && clock.exact ==> clock.now <= old(clock.now) + MaxReal(0.0, maxWait)
      ensures alone && clock.exact && old(InTime(config, level, clock.now, tokens, block, maxWait)) ==> granted
    {
      ghost var lone := alone && clock.exact && InTime(config, level, clock.now, tokens, block, maxWait);
      ghost var slept := 0.0;
      var start := clock.Monotonic();
      var deadline := start + maxWait;
      sleeps := 0;
      while true
        invariant Valid() && level.updated <= clock.now && Granted(old(history), history, who, [])
        invariant alone ==> Mine(old(history), history, who)
        invariant slept == sleeps as real * 0.01 && slept <= clock.now - start
        invariant sleeps > 0 ==> block && slept <= maxWait
        invariant clock.exact ==> start == old(clock.now) && clock.now <= MaxReal(start, deadline)
        invariant clock.exact ==> clock.now <= start + sleeps as real * 0.5
        invariant lone ==> InTime(config, level, clock.now, tokens, block, deadline - clock.now)
        decreases (deadline - clock.now) * 100.0
      {
        ghost var before, h := level, history;
        var ok, wait := Attempt(clock, tokens, who, alone);
        GrantedThen(old(history), h, history, who, [], if ok then [Take(clock.now, tokens)] else []);
        if ok {
          return true, 0.0, sleeps;
        }
        var now := clock.Monotonic();
        if lone {
          StillInTime(config, before, now, tokens, block, deadline - now, level, wait);
        }
        if !block || now + wait > deadline {
          return false, wait, sleeps;
        }
        h := history;
        Pause(clock, MinReal(wait, 0.5), who, alone);
        GrantedThen(old(history), h, history, who, [], []);
        sleeps, slept := sleeps + 1, slept + 0.01;
      }
    }
  }

  /** The wait that a level leads to. */
  function WaitTime(c: Config, left: Level, tokens: real): real
    requires c.rate > 0.0
  {
    MaxReal(0.01, (tokens - left.tokens) / c.rate)
  }

  lemma ShortOf(wait: real, d: real, rate: real, missing: real)
    requires rate > 0.0 && wait * rate == missing
    ensures d < wait ==> d * rate < missing
    ensures wait <= d ==> missing <= d * rate
  {
    MulLe(d, wait, rate);
    MulLe(wait, d, rate);
  }

  /** A bucket that nobody else uses holds the tokens, if they fit it, when the wait is over, and at no earlier
      moment after the first hundredth of a second. */
  lemma WaitServes(c: Config, s: Level, tokens: real, d: real)
    requires c.rate > 0.0 && tokens <= c.capacity && s.tokens <= c.capacity && d >= 0.01
    ensures WaitTime(c, s, tokens) >= 0.01
    ensures Refilled(c, s, s.updated + d).tokens >= tokens <==> d >= WaitTime(c, s, tokens)
  {
    var q := (tokens - s.tokens) / c.rate;
    Quotient(tokens - s.tokens, c.rate);
    ShortOf(q, d, c.rate, tokens - s.tokens);
    assert s.updated + d - s.updated == d;
  }

  /** How long the bucket still needs, seen at `now`, to hold `tokens`; not positive once it does. */
  function Needs(c: Config, s: Level, now: real, tokens: real): real
    requires c.rate > 0.0
  {
    (tokens - Refilled(c, s, now).tokens) / c.rate
  }

  /** The request fits the bucket and is served now, or 0.01 s before our patience runs out. */
  predicate InTime(c: Config, s: Level, now: real, tokens: real, block: bool, patience: real) {
    && c.rate > 0.0 && tokens <= c.capacity && s.updated <= now
    && (Needs(c, s, now, tokens) <= 0.0 || (block && Needs(c, s, now, tokens) <= patience - 0.01))
  }

  lemma Quotient(x: real, r: real)
    requires r > 0.0
    ensures x / r * r == x && (x <= 0.0 <==> x / r <= 0.0)
  {
  }

  lemma RefilledTwice(c: Config, s: Level, now: real)
    ensures Refilled(c, Refilled(c, s, now), now) == Refilled(c, s, now)
  {
  }

  /** After a nap of `nap` seconds the need has shrunk by as much, or is gone. */
  lemma NeedsAfterNap(c: Config, s: Level, now: real, tokens: real, nap: real)
    requires c.rate > 0.0 && tokens <= c.capacity && s.updated == now && s.tokens <= c.capacity && nap >= 0.0
    ensures Needs(c, s, now, tokens) == (tokens - s.tokens) / c.rate
    ensures Needs(c, s, now + nap, tokens) <= 0.0 ||
            Needs(c, s, now + nap, tokens) == Needs(c, s, now, tokens) - nap
  {
    var later := Refilled(c, s, now + nap);
    assert now + nap - s.updated == nap;
    Quotient(tokens - later.tokens, c.rate);
    if later.tokens < c.capacity {
      assert later.tokens == s.tokens + nap * c.rate;
      assert (tokens - s.tokens - nap * c.rate) / c.rate == (tokens - s.tokens) / c.rate - nap;
    }
  }

  /** Two looks at one instant, both short of the tokens. */
  predicate Refused(c: Config, s: Level, now: real, tokens: real, left: Level) {
    Refilled(c, s, now).tokens < tokens && left == Refilled(c, Refilled(c, s, now), now)
  }

  /** One failed round of the loop: it does not give up, and after the nap it is still in time. */
  lemma StillInTime(
      c: Config, s: Level, now: real, tokens: real, block: bool, patience: real, left: Level, wait: real)
    requires InTime(c, s, now, tokens, block, patience) && Refused(c, s, now, tokens, left)
    requires wait == WaitTime(c, left, tokens)
    ensures block && wait <= patience
    ensures var nap := MinReal(wait, 0.5); InTime(c, left, now + nap, tokens, block, patience - nap)
  {
    RefilledTwice(c, s, now);
    Quotient(tokens - left.tokens, c.rate);
    NeedsAfterNap(c, left, now, tokens, MinReal(wait, 0.5));
  }
}
