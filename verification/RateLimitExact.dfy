/**
 How long the limiter must remember an idle address, exactly: eviction goes unnoticed if and
 only if a drained bucket refills within the TTL less twice the time a request may take
 between reading the clock and reserving.
 */
module RateLimitExact {
  import opened Text
  import opened RateLimit

  const CLIENT := "10.0.0.1"

  // ----- runs -----

  lemma {:induction false} ExecuteMono(c: Config, start: System, acts: seq<Action>, s: System, gap: real, wider: real)
    requires gap <= wider && Execute(c, start, acts, gap) == Some(s)
    ensures Execute(c, start, acts, wider) == Some(s)
  {
    hide Apply, Enabled;
    if acts != [] {
      var n := |acts| - 1;
      ExecuteMono(c, start, acts[..n], Execute(c, start, acts[..n], gap).value, gap, wider);
    }
  }

  /** What can happen with fast requests can happen with slower ones. */
  lemma ReachMono(c: Config, s: System, gap: real, wider: real)
    requires gap <= wider && Reachable(c, s, gap)
    ensures Reachable(c, s, wider)
  {
    hide Execute, Initial;
    var start, acts :| Initial(start) && Execute(c, start, acts, gap) == Some(s);
    ExecuteMono(c, start, acts, s, gap, wider);
  }

  lemma ReachInitial(c: Config, s: System, gap: real)
    requires Initial(s)
    ensures Reachable(c, s, gap)
  {
    assert Execute(c, s, [], gap) == Some(s);
  }

  lemma ReachStep(c: Config, s: System, a: Action, gap: real) returns (s': System)
    requires Reachable(c, s, gap) && Enabled(s, a) && Timely(Apply(c, s, a), gap)
    ensures s' == Apply(c, s, a) && Reachable(c, s', gap)
  {
    hide Apply, Enabled, Timely, Initial;
    s' := Apply(c, s, a);
    var start, acts :| Initial(start) && Execute(c, start, acts, gap) == Some(s);
    assert (acts + [a])[..|acts|] == acts;
    assert Execute(c, start, acts + [a], gap) == Some(s');
  }

  /** The state is reachable, every open request is in time, and numbers from n on are unused. */
  ghost predicate Live(c: Config, s: System, n: nat, gap: real) {
    Reachable(c, s, gap) && Timely(s, gap) && forall r :: r in s.requests ==> r < n
  }

  lemma TimelyMore(s: System, t: System, r: nat, gap: real)
    requires Timely(s, gap) && gap >= 0.0 && t.clock == s.clock && r in t.requests && t.requests == s.requests[r := t.requests[r]]
    requires t.requests[r].Answered? || s.clock <= t.requests[r].now + gap
    ensures Timely(t, gap)
  {}

  /** CLIENT's entry, if there is one, has its bucket. */
  predicate Kept(s: System) {
    CLIENT in s.limiter.limiters ==> s.limiter.limiters[CLIENT].limiter in s.limiter.buckets
  }

  lemma SameMemory(c: Config, s: System, t: System)
    requires s.memory == t.memory && s.clock == t.clock
    ensures Remembered(c, s, CLIENT) == Remembered(c, t, CLIENT)
  {}

  /** One whole request of CLIENT, made and answered in an instant. */
  lemma Request(c: Config, s: System, n: nat, gap: real) returns (s': System)
    requires Live(c, s, n, gap) && gap >= 0.0 && Kept(s)
    ensures Live(c, s', n + 1, gap) && s'.clock == s.clock
    ensures var (l, id) := Lookup(c, s.limiter, CLIENT, s.clock);
            && id in l.buckets
            && var (mine, accepted) := Reserve(c, l.buckets[id], s.clock);
            && var (theirs, reference) := Reserve(c, Remembered(c, s, CLIENT), s.clock);
            && s' == System(l.(buckets := l.buckets[id := mine]), s.memory[CLIENT := theirs],
                            s.requests[n := Answered(CLIENT, accepted, reference)], s.clock)
  {
    hide Reachable, Timely, Reserve, Remembered;
    TimelyMore(s, Apply(c, s, ReadClock(n, CLIENT)), n, gap);
    var s1 := ReachStep(c, s, ReadClock(n, CLIENT), gap);
    TimelyMore(s1, Apply(c, s1, GetLimiter(n)), n, gap);
    var s2 := ReachStep(c, s1, GetLimiter(n), gap);
    SameMemory(c, s, s2);
    TimelyMore(s2, Apply(c, s2, TakeToken(n)), n, gap);
    s' := ReachStep(c, s2, TakeToken(n), gap);
    assert s'.requests == s.requests[n := s'.requests[n]];
  }

  // ----- a client served in an instant -----

  /** CLIENT's entry was just used, its bucket holds mine tokens and the never-forgetting
      limiter's holds theirs; no collection is due. */
  predicate Served(c: Config, s: System, mine: real, theirs: real) {
    && CLIENT in s.limiter.limiters
    && var e := s.limiter.limiters[CLIENT];
    && e.lastSeen == s.clock && e.limiter in s.limiter.buckets
    && s.limiter.buckets[e.limiter] == Bucket(mine, s.clock)
    && CLIENT in s.memory && s.memory[CLIENT] == Bucket(theirs, s.clock)
    && s.clock - s.limiter.lastGC < c.ttl
  }

  function Left(tokens: real): real {
    if tokens >= 1.0 then tokens - 1.0 else tokens
  }

  lemma ReserveNow(c: Config, tokens: real, t: real)
    requires tokens <= c.burst as real
    ensures Reserve(c, Bucket(tokens, t), t) == (Bucket(Left(tokens), t), tokens >= 1.0)
  {
    assert Refill(c, t - t) == 0.0;
    assert Tokens(c, Bucket(tokens, t), t) == tokens;
  }

  lemma ServeOne(c: Config, s: System, n: nat, mine: real, theirs: real, gap: real) returns (s': System)
    requires Live(c, s, n, gap) && gap >= 0.0 && Served(c, s, mine, theirs)
    requires mine <= c.burst as real && theirs <= c.burst as real
    ensures Live(c, s', n + 1, gap) && Served(c, s', Left(mine), Left(theirs))
    ensures s'.clock == s.clock && s'.limiter.lastGC == s.limiter.lastGC
    ensures s'.requests == s.requests[n := Answered(CLIENT, mine >= 1.0, theirs >= 1.0)]
  {
    hide Live, Tokens;
    ReserveNow(c, mine, s.clock);
    ReserveNow(c, theirs, s.clock);
    assert Collect(s.limiter, s.clock, c.ttl) == s.limiter;
    s' := Request(c, s, n, gap);
  }

  /** A limiter that has never seen CLIENT, with no collection due. */
  predicate Unseen(c: Config, s: System) {
    CLIENT !in s.limiter.limiters && CLIENT !in s.memory && s.clock - s.limiter.lastGC < c.ttl
  }

  /** k requests of a new client, all in an instant; other requests stay as they are. */
  lemma {:induction false} Drain(c: Config, s0: System, n: nat, k: nat, gap: real) returns (s: System)
    requires Live(c, s0, n, gap) && gap >= 0.0 && Unseen(c, s0) && 1 <= k <= c.burst
    ensures Live(c, s, n + k, gap) && Served(c, s, (c.burst - k) as real, (c.burst - k) as real)
    ensures s.clock == s0.clock && s.limiter.lastGC == s0.limiter.lastGC
    ensures forall r :: r in s0.requests ==> r in s.requests && s.requests[r] == s0.requests[r]
    ensures forall r :: r in s.requests && r !in s0.requests ==> r >= n && s.requests[r].Answered?
  {
    hide Reachable, Timely;
    if k == 1 {
      assert Collect(s0.limiter, s0.clock, c.ttl) == s0.limiter;
      ReserveNow(c, c.burst as real, s0.clock);
      s := Request(c, s0, n, gap);
    } else {
      var t := Drain(c, s0, n, k - 1, gap);
      s := ServeOne(c, t, n + k - 1, (c.burst - (k - 1)) as real, (c.burst - (k - 1)) as real, gap);
    }
  }

  /** While the limiter has more tokens than memory, some next request tells them apart. */
  lemma {:induction false} FindDifference(c: Config, s: System, n: nat, mine: nat, theirs: real, gap: real) returns (t: System)
    requires Live(c, s, n, gap) && gap >= 0.0 && Served(c, s, mine as real, theirs)
    requires 0.0 <= theirs < mine as real && mine <= c.burst
    ensures Reachable(c, t, gap) && !Unnoticed(t)
    decreases mine
  {
    hide Reachable, Timely;
    t := ServeOne(c, s, n, mine as real, theirs, gap);
    if theirs >= 1.0 {
      t := FindDifference(c, t, n + 1, mine - 1, theirs - 1.0, gap);
    } else {
      assert n in t.requests && t.requests[n].Answered?;
    }
  }

  // ----- a client forgotten too early -----

  /** All is quiet, CLIENT's entry is stale and a collection is due, but the bucket, empty at
      time zero, has not refilled. */
  predicate Overdue(c: Config, s: System, zero: real) {
    && CLIENT in s.limiter.limiters && s.clock - s.limiter.limiters[CLIENT].lastSeen > c.ttl
    && s.clock - s.limiter.lastGC >= c.ttl && zero <= s.clock
    && CLIENT in s.memory && s.memory[CLIENT] == Bucket(0.0, zero)
    && 0.0 <= Refill(c, s.clock - zero) < c.burst as real
  }

  /** Coming back then, the client starts again with a full burst it has not earned. */
  lemma Forgotten(c: Config, s: System, n: nat, zero: real, gap: real) returns (t: System)
    requires c.rate > 0.0 && c.ttl > 0.0 && gap >= 0.0 && Live(c, s, n, gap) && Kept(s) && Overdue(c, s, zero)
    ensures Reachable(c, t, gap) && !Unnoticed(t)
  {
    hide Reachable, Timely, Refill;
    var theirs := Refill(c, s.clock - zero);
    assert CLIENT !in Collect(s.limiter, s.clock, c.ttl).limiters;
    ReserveNow(c, c.burst as real, s.clock);
    assert Tokens(c, Bucket(0.0, zero), s.clock) == theirs;
    t := Request(c, s, n, gap);
    assert t.requests[n] == Answered(CLIENT, true, theirs >= 1.0);
    if theirs >= 1.0 {
      t := FindDifference(c, t, n + 1, c.burst - 1, theirs - 1.0, gap);
    }
  }

  /** A moment after t at which x seconds' worth of tokens is still less than a burst. */
  lemma SoonAfter(c: Config, x: real) returns (d: real)
    requires c.rate > 0.0 && Refill(c, x) < c.burst as real
    ensures d > 0.0 && Refill(c, x + d) < c.burst as real
  {
    d := (c.burst as real - Refill(c, x)) / (2.0 * c.rate);
    assert Refill(c, d) == (c.burst as real - Refill(c, x)) / 2.0;
    RefillAdd(c, x, d);
    if d <= 0.0 {
      RefillMono(c, d, 0.0);
      assert false;
    }
  }

  /** Nothing is open. */
  predicate Quiet(s: System) {
    forall r :: r in s.requests ==> s.requests[r].Answered?
  }

  lemma TickQuiet(c: Config, s: System, n: nat, d: real, gap: real) returns (s': System)
    requires Live(c, s, n, gap) && Quiet(s) && d >= 0.0
    ensures s' == s.(clock := s.clock + d) && Live(c, s', n, gap) && Quiet(s')
  {
    hide Reachable;
    assert Timely(s.(clock := s.clock + d), gap);
    s' := ReachStep(c, s, Tick(d), gap);
  }

  function Start(): System {
    System(Limiter(map[], map[], 0.0, 0), map[], map[], 0.0)
  }

  lemma StartLive(c: Config, n: nat, gap: real)
    ensures Live(c, Start(), n, gap)
  {
    ReachInitial(c, Start(), gap);
  }

  /** A TTL too short even for instant requests: drain the bucket and come back. */
  lemma ShortTtl(c: Config, gap: real) returns (t: System)
    requires c.rate > 0.0 && c.ttl > 0.0 && gap >= 0.0 && Refill(c, c.ttl) < c.burst as real
    ensures Reachable(c, t, gap) && !Unnoticed(t)
  {
    hide Reachable, Timely, Refill;
    RefillMono(c, 0.0, c.ttl);
    StartLive(c, 0, gap);
    var s := Drain(c, Start(), 0, c.burst, gap);
    var d := SoonAfter(c, c.ttl);
    s := TickQuiet(c, s, c.burst, c.ttl + d, gap);
    RefillMono(c, 0.0, c.ttl + d);
    t := Forgotten(c, s, c.burst, 0.0, gap);
  }

  // ----- a stamp older than the last use -----

  /** A clock reading of CLIENT that is gap old, request 0, is the only open request. The
      bucket, emptied delta ago, has less than one token. No collection is due for a while. */
  predicate Poised(c: Config, s: System, a: real, delta: real, gap: real) {
    && 0.0 <= a && s.clock == a + gap && s.clock < c.ttl && s.limiter.lastGC == 0.0
    && 0 in s.requests && s.requests[0] == ClockRead(CLIENT, a)
    && (forall r :: r in s.requests && r != 0 ==> s.requests[r].Answered?)
    && CLIENT in s.limiter.limiters && s.limiter.limiters[CLIENT].limiter in s.limiter.buckets
    && s.limiter.buckets[s.limiter.limiters[CLIENT].limiter] == Bucket(0.0, s.clock - delta)
    && CLIENT in s.memory && s.memory[CLIENT] == Bucket(0.0, s.clock - delta)
  }

  /** The bucket is drained after request 0 has read the clock. */
  lemma PoiseLate(c: Config, delta: real, gap: real) returns (s: System)
    requires c.burst >= 1 && 0.0 <= delta <= gap < c.ttl
    ensures Live(c, s, c.burst + 1, gap) && Poised(c, s, 0.0, delta, gap)
  {
    hide Reachable;
    StartLive(c, 1, gap);
    s := ReachStep(c, Start(), ReadClock(0, CLIENT), gap);
    s := ReachStep(c, s, Tick(gap - delta), gap);
    s := Drain(c, s, 1, c.burst, gap);
    s := ReachStep(c, s, Tick(delta), gap);
  }

  /** The bucket is drained before request 0 reads the clock. */
  lemma PoiseEarly(c: Config, delta: real, gap: real) returns (s: System)
    requires c.burst >= 1 && 0.0 <= gap <= delta < c.ttl
    ensures Live(c, s, c.burst + 1, gap) && Poised(c, s, delta - gap, delta, gap)
  {
    hide Reachable;
    StartLive(c, 1, gap);
    s := Drain(c, Start(), 1, c.burst, gap);
    s := TickQuiet(c, s, c.burst + 1, delta - gap, gap);
    s := ReachStep(c, s, ReadClock(0, CLIENT), gap);
    s := ReachStep(c, s, Tick(gap), gap);
  }

  /** After k further requests, numbered from m, have read the clock and found CLIENT's
      bucket, but not reserved. */
  predicate Lined(s: System, m: nat, k: nat, now: real, id: nat) {
    && (forall r :: r in s.requests && r >= m ==> r < m + k)
    && (forall r :: m <= r < m + k ==> r in s.requests && s.requests[r] == Looked(CLIENT, now, id))
  }

  lemma {:induction false} LineUp(c: Config, s: System, m: nat, k: nat, a: real, delta: real, gap: real) returns (t: System)
    requires Live(c, s, m, gap) && gap >= 0.0 && m > 0 && Poised(c, s, a, delta, gap)
    ensures Live(c, t, m + k, gap) && t == s.(limiter := t.limiter, requests := t.requests)
    ensures t.limiter == s.limiter.(limiters := t.limiter.limiters)
    ensures CLIENT in t.limiter.limiters && t.limiter.limiters[CLIENT].limiter == s.limiter.limiters[CLIENT].limiter
    ensures Lined(t, m, k, s.clock, s.limiter.limiters[CLIENT].limiter)
    ensures forall r :: r < m ==> (r in t.requests <==> r in s.requests) && (r in s.requests ==> t.requests[r] == s.requests[r])
  {
    hide Reachable, Timely;
    if k == 0 {
      t := s;
    } else {
      var u := LineUp(c, s, m, k - 1, a, delta, gap);
      var r := m + k - 1;
      TimelyMore(u, Apply(c, u, ReadClock(r, CLIENT)), r, gap);
      var v := ReachStep(c, u, ReadClock(r, CLIENT), gap);
      assert Collect(v.limiter, v.clock, c.ttl) == v.limiter;
      TimelyMore(v, Apply(c, v, GetLimiter(r)), r, gap);
      t := ReachStep(c, v, GetLimiter(r), gap);
    }
  }

  /** Request 0 stamps the entry with its old reading, and is refused. */
  lemma StampBack(c: Config, s: System, m: nat, k: nat, a: real, delta: real, gap: real) returns (t: System)
    requires Live(c, s, m, gap) && gap >= 0.0 && m > 0 && Poised(c, s, a, delta, gap) && c.burst >= 1
    requires delta >= 0.0 && 0.0 <= Refill(c, delta) < 1.0
    ensures Live(c, t, m + k, gap) && t.clock == s.clock && t.limiter.lastGC == 0.0
    ensures CLIENT in t.limiter.limiters && t.limiter.limiters[CLIENT].lastSeen == a
    ensures var id := t.limiter.limiters[CLIENT].limiter;
            && id in t.limiter.buckets && t.limiter.buckets[id] == Bucket(Refill(c, delta), t.clock)
            && Lined(t, m, k, t.clock, id)
    ensures CLIENT in t.memory && t.memory[CLIENT] == Bucket(Refill(c, delta), t.clock)
    ensures forall r :: r in t.requests && r < m ==> t.requests[r].Answered?
  {
    hide Reachable, Timely, Refill;
    var u := LineUp(c, s, m, k, a, delta, gap);
    assert Collect(u.limiter, a, c.ttl) == u.limiter;
    TimelyMore(u, Apply(c, u, GetLimiter(0)), 0, gap);
    var v := ReachStep(c, u, GetLimiter(0), gap);
    assert v.clock - (v.clock - delta) == delta;
    assert Tokens(c, Bucket(0.0, v.clock - delta), v.clock) == Refill(c, delta);
    TimelyMore(v, Apply(c, v, TakeToken(0)), 0, gap);
    t := ReachStep(c, v, TakeToken(0), gap);
  }

  /** The requests in line take their tokens, one by one, until the bucket is empty. */
  lemma {:induction false} TakeAll(c: Config, s: System, m: nat, k: nat, n: nat, now: real, gap: real) returns (t: System)
    requires Live(c, s, m + n, gap) && gap >= 0.0 && k <= n && c.burst >= n
    requires CLIENT in s.limiter.limiters && s.limiter.limiters[CLIENT].limiter in s.limiter.buckets
    requires var id := s.limiter.limiters[CLIENT].limiter;
             && (forall r :: m + n - k <= r < m + n ==> r in s.requests && s.requests[r] == Looked(CLIENT, now, id))
             && Reserve(c, s.limiter.buckets[id], s.clock) == Reserve(c, Bucket(k as real, s.clock), s.clock)
    requires CLIENT in s.memory && s.memory[CLIENT] == s.limiter.buckets[s.limiter.limiters[CLIENT].limiter]
    requires forall r :: r in s.requests && r < m + n - k ==> s.requests[r].Answered?
    requires k == 0 ==> s.memory[CLIENT] == Bucket(0.0, s.clock)
    ensures Live(c, t, m + n, gap) && Quiet(t) && t.clock == s.clock
    ensures t.limiter == s.limiter.(buckets := t.limiter.buckets) && Kept(t)
    ensures CLIENT in t.memory && t.memory[CLIENT] == Bucket(0.0, t.clock)
    decreases k
  {
    hide Reachable, Timely, Tokens, Reserve;
    if k == 0 {
      t := s;
    } else {
      var r := m + n - k;
      ReserveNow(c, k as real, s.clock);
      ReserveNow(c, (k - 1) as real, s.clock);
      TimelyMore(s, Apply(c, s, TakeToken(r)), r, gap);
      var u := ReachStep(c, s, TakeToken(r), gap);
      assert Left(k as real) == (k - 1) as real;
      t := TakeAll(c, u, m, k - 1, n, now, gap);
    }
  }

  lemma RefillLess(c: Config, x: real, y: real)
    requires c.rate > 0.0 && Refill(c, x) < Refill(c, y)
    ensures x < y
  {
    if x >= y {
      RefillMono(c, y, x);
    }
  }

  lemma RefillTime(c: Config, tokens: real) returns (d: real)
    requires c.rate > 0.0 && tokens >= 0.0
    ensures d >= 0.0 && Refill(c, d) == tokens
  {
    d := tokens / c.rate;
    if d < 0.0 {
      RefillLess(c, d, 0.0);
    }
  }

  /** The smallest whole number not below x. */
  lemma Ceiling(x: real) returns (n: int)
    ensures x <= n as real < x + 1.0
  {
    n := -(-x).Floor;
  }

  lemma RefillPositiveTime(c: Config, x: real)
    requires c.rate > 0.0 && x > 0.0
    ensures Refill(c, x) > 0.0
  {}

  /** How long to wait after draining, with less than a token gained, so that gap later the
      bucket holds a whole number of tokens. */
  lemma Aligned(c: Config, gap: real) returns (n: nat, delta: real)
    requires c.rate > 0.0 && gap > 0.0 && c.burst >= 1
    ensures 1 <= n <= c.burst && delta >= 0.0 && 0.0 <= Refill(c, delta) < 1.0
    ensures var grown := Refill(c, delta) + Refill(c, gap); n as real == if grown > c.burst as real then c.burst as real else grown
  {
    RefillPositiveTime(c, gap);
    if Refill(c, gap) >= c.burst as real {
      n, delta := c.burst, 0.0;
    } else {
      var m := Ceiling(Refill(c, gap));
      delta := RefillTime(c, m as real - Refill(c, gap));
      n := m;
    }
  }

  lemma TokensLater(c: Config, start: real, now: real, gap: real, n: nat)
    requires c.rate > 0.0 && gap >= 0.0 && start >= 0.0 && n <= c.burst
    requires var grown := start + Refill(c, gap); n as real == if grown > c.burst as real then c.burst as real else grown
    ensures Reserve(c, Bucket(start, now), now + gap) == Reserve(c, Bucket(n as real, now + gap), now + gap)
  {
    hide Refill;
    assert now + gap - now == gap;
    ReserveNow(c, n as real, now + gap);
  }

  /** The requests in line are all still in time gap after they read the clock. */
  lemma WaitInLine(c: Config, s: System, m: nat, n: nat, gap: real) returns (s': System)
    requires Live(c, s, m + n, gap) && gap >= 0.0 && CLIENT in s.limiter.limiters
    requires Lined(s, m, n, s.clock, s.limiter.limiters[CLIENT].limiter)
    requires forall r :: r in s.requests && r < m ==> s.requests[r].Answered?
    ensures s' == s.(clock := s.clock + gap) && Live(c, s', m + n, gap)
  {
    hide Reachable;
    s' := ReachStep(c, s, Tick(gap), gap);
  }

  /** Requests that take up to gap: the entry carries the stamp a while the bucket is emptied
      at a + 2 * gap. A collection just after the TTL forgets it too early. */
  lemma StampTooOld(c: Config, gap: real) returns (t: System)
    requires c.rate > 0.0 && c.burst >= 1 && 0.0 < gap && 2.0 * gap <= c.ttl
    requires Refill(c, c.ttl - 2.0 * gap) < c.burst as real <= Refill(c, c.ttl)
    ensures Reachable(c, t, gap) && !Unnoticed(t)
  {
    hide Reachable, Timely, Refill;
    var n, delta := Aligned(c, gap);
    var a := if delta <= gap then 0.0 else delta - gap;
    var s;
    if delta <= gap {
      s := PoiseLate(c, delta, gap);
    } else {
      RefillLess(c, delta, c.ttl);
      s := PoiseEarly(c, delta, gap);
    }
    var m := c.burst + 1;
    s := StampBack(c, s, m, n, a, delta, gap);
    var now := s.clock;
    TokensLater(c, Refill(c, delta), now, gap, n);
    s := WaitInLine(c, s, m, n, gap);
    s := TakeAll(c, s, m, n, n, now, gap);
    var d := SoonAfter(c, c.ttl - 2.0 * gap);
    var zero := s.clock;
    s := TickQuiet(c, s, m + n, c.ttl - 2.0 * gap + d, gap);
    RefillMono(c, 0.0, c.ttl - 2.0 * gap + d);
    assert s.clock - zero == c.ttl - 2.0 * gap + d;
    t := Forgotten(c, s, m + n, zero, gap);
  }

  // ----- the exact condition -----

  /** Some run tells the limiter from the one that never forgets. */
  lemma Noticed(c: Config, gap: real) returns (t: System)
    requires c.rate > 0.0 && c.ttl > 0.0 && gap >= 0.0 && c.burst >= 1 && Refill(c, c.ttl - 2.0 * gap) < c.burst as real
    ensures Reachable(c, t, gap) && !Unnoticed(t)
  {
    hide Reachable, Refill;
    if Refill(c, c.ttl) < c.burst as real {
      t := ShortTtl(c, gap);
    } else if 2.0 * gap <= c.ttl {
      assert gap == 0.0 ==> c.ttl - 2.0 * gap == c.ttl;
      t := StampTooOld(c, gap);
    } else {
      var g := c.ttl / 2.0;
      assert c.ttl - 2.0 * g == 0.0;
      RefillMono(c, 0.0, 0.0);
      t := StampTooOld(c, g);
      ReachMono(c, t, g, gap);
    }
  }

  /** Without a burst nothing is ever let through, by either limiter. */
  predicate AllRefused(s: System) {
    forall r :: r in s.requests && s.requests[r].Answered? ==> !s.requests[r].accepted && !s.requests[r].reference
  }

  lemma {:induction false} NoBurst(c: Config, start: System, acts: seq<Action>, s: System, gap: real)
    requires c.burst == 0 && Initial(start) && Execute(c, start, acts, gap) == Some(s)
    ensures AllRefused(s)
  {
    hide Timely, Lookup, Refill;
    if acts != [] {
      var n := |acts| - 1;
      NoBurst(c, start, acts[..n], Execute(c, start, acts[..n], gap).value, gap);
    }
  }

  lemma RefusedUnnoticed(s: System)
    requires AllRefused(s)
    ensures Unnoticed(s)
  {}

  /** With requests that reserve within gap of reading the clock, eviction is unnoticed in
      every run if and only if the TTL covers the time a drained bucket needs to refill and
      twice the gap (or there is no burst to forget). */
  lemma UnnoticedIff(c: Config, gap: real)
    requires c.rate > 0.0 && c.ttl > 0.0 && gap >= 0.0
    ensures (forall s :: Reachable(c, s, gap) ==> Unnoticed(s)) <==>
            c.burst == 0 || c.burst as real <= c.rate * (c.ttl - 2.0 * gap)
  {
    hide Unnoticed, Execute;
    assert Refill(c, c.ttl - 2.0 * gap) == c.rate * (c.ttl - 2.0 * gap);
    if c.burst == 0 {
      forall s | Reachable(c, s, gap) ensures Unnoticed(s) {
        var start, acts :| Initial(start) && Execute(c, start, acts, gap) == Some(s);
        NoBurst(c, start, acts, s, gap);
        RefusedUnnoticed(s);
      }
    } else if c.burst as real <= Refill(c, c.ttl - 2.0 * gap) {
      forall s | Reachable(c, s, gap) ensures Unnoticed(s) {
        EvictionUnnoticed(c, gap, s);
      }
    } else {
      var t := Noticed(c, gap);
    }
  }

  /** The two default limiters: eviction is unnoticed exactly as long as every request reserves
      within 298 and 297 seconds of reading the clock. */
  lemma DefaultsExact(gap: real)
    requires gap >= 0.0
    ensures (forall s :: Reachable(Config(30.0, 120, 600.0), s, gap) ==> Unnoticed(s)) <==> gap <= 298.0
    ensures (forall s :: Reachable(Config(5.0, 30, 600.0), s, gap) ==> Unnoticed(s)) <==> gap <= 297.0
  {
    hide Reachable, Unnoticed;
    UnnoticedIff(Config(30.0, 120, 600.0), gap);
    UnnoticedIff(Config(5.0, 30, 600.0), gap);
  }
}
