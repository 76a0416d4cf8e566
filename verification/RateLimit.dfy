/**
 The per-IP rate limiter of internal/middleware/ratelimit.go, with its idle-entry
 collection, next to a limiter that never forgets. golang.org/x/time/rate is modelled
 as an ideal token bucket that starts full; an over-limit Reserve followed by Cancel
 is a rejection that consumes nothing. Times are in seconds.

 A request reads the clock, looks its limiter up (getLimiter) and reserves a token in
 three separate moments, and requests interleave in every order.
 */
module RateLimit {
  import opened Text

  datatype Config = Config(rate: real, burst: nat, ttl: real)

  datatype Bucket = Bucket(tokens: real, last: real)

  /** The tokens gained in a stretch of time. */
  function Refill(c: Config, d: real): real {
    c.rate * d
  }

  /** The tokens a bucket holds at time t. */
  function Tokens(c: Config, b: Bucket, t: real): real {
    var grown := b.tokens + Refill(c, if t < b.last then 0.0 else t - b.last);
    if grown > c.burst as real then c.burst as real else grown
  }

  /** Reserve, and Cancel when it would have to wait. */
  function Reserve(c: Config, b: Bucket, t: real): (Bucket, bool) {
    var tokens := Tokens(c, b, t);
    if tokens >= 1.0 then (Bucket(tokens - 1.0, t), true) else (Bucket(tokens, t), false)
  }

  function NewBucket(c: Config, now: real): Bucket {
    Bucket(c.burst as real, now)
  }

  /** The limiter's map. A limiter object is a number that stands for its pointer;
      buckets holds every object ever made, whether or not the map still does. */
  datatype Entry = Entry(limiter: nat, lastSeen: real)

  datatype Limiter = Limiter(limiters: map<string, Entry>, buckets: map<nat, Bucket>, lastGC: real, made: nat)

  predicate Stale(l: Limiter, ip: string, now: real, ttl: real)
    requires ip in l.limiters
  {
    now - l.limiters[ip].lastSeen > ttl
  }

  /** gcLocked. */
  function Collect(l: Limiter, now: real, ttl: real): Limiter {
    if ttl <= 0.0 || now - l.lastGC < ttl then l
    else l.(limiters := map ip | ip in l.limiters && !Stale(l, ip, now, ttl) :: l.limiters[ip], lastGC := now)
  }

  /** getLimiter: collect, find or make, stamp. */
  function Lookup(c: Config, l: Limiter, ip: string, now: real): (Limiter, nat) {
    var kept := Collect(l, now, c.ttl);
    if ip in kept.limiters then
      var id := kept.limiters[ip].limiter;
      (kept.(limiters := kept.limiters[ip := Entry(id, now)]), id)
    else
      (kept.(limiters := kept.limiters[ip := Entry(kept.made, now)],
             buckets := kept.buckets[kept.made := NewBucket(c, now)], made := kept.made + 1), kept.made)
  }

  class RateLimiter {
    const config: Config
    var state: Limiter

    constructor (config: Config, now: real)
      ensures this.config == config && state == Limiter(map[], map[], now, 0)
    {
      this.config := config;
      state := Limiter(map[], map[], now, 0);
    }

    method GcLocked(now: real)
      modifies this`state
      ensures state == Collect(old(state), now, config.ttl)
    {
      if config.ttl <= 0.0 || now - state.lastGC < config.ttl {
        return;
      }
      ghost var before := state;
      state := state.(lastGC := now);
      var rest := state.limiters.Keys;
      while exists ip :: ip in rest
        invariant rest <= before.limiters.Keys
        invariant state == before.(lastGC := now,
                    limiters :=
                      map ip | ip in before.limiters && (ip in rest || !Stale(before, ip, now, config.ttl)) :: before.limiters[ip])
        decreases rest
      {
        var ip :| ip in rest;
        assert ip in state.limiters && Stale(state, ip, now, config.ttl) == Stale(before, ip, now, config.ttl);
        if Stale(state, ip, now, config.ttl) {
          state := state.(limiters := state.limiters - {ip});
        }
        rest := rest - {ip};
      }
    }

    method GetLimiter(ip: string, now: real) returns (id: nat)
      modifies this`state
      ensures (state, id) == Lookup(config, old(state), ip, now)
    {
      GcLocked(now);
      if ip in state.limiters {
        id := state.limiters[ip].limiter;
      } else {
        id := state.made;
        state := state.(buckets := state.buckets[id := NewBucket(config, now)], made := id + 1);
      }
      state := state.(limiters := state.limiters[ip := Entry(id, now)]);
    }
  }

  // ----- requests, against the limiter and against one that never forgets -----

  datatype Request =
    | ClockRead(ip: string, now: real)
    | Looked(ip: string, now: real, limiter: nat)
    | Answered(ip: string, accepted: bool, reference: bool)

  /** memory is the never-forgetting limiter: a bucket per address, full until used. */
  datatype System = System(limiter: Limiter, memory: map<string, Bucket>, requests: map<nat, Request>, clock: real)

  datatype Action =
    | Tick(d: real)
    | ReadClock(r: nat, ip: string)
    | GetLimiter(r: nat)
    | TakeToken(r: nat)

  function Remembered(c: Config, s: System, ip: string): Bucket {
    if ip in s.memory then s.memory[ip] else NewBucket(c, s.clock)
  }

  predicate Enabled(s: System, a: Action) {
    match a
    case Tick(d) => d >= 0.0
    case ReadClock(r, _) => r !in s.requests
    case GetLimiter(r) => r in s.requests && s.requests[r].ClockRead?
    case TakeToken(r) => r in s.requests && s.requests[r].Looked? && s.requests[r].limiter in s.limiter.buckets
  }

  function Apply(c: Config, s: System, a: Action): System
    requires Enabled(s, a)
  {
    match a
    case Tick(d) => s.(clock := s.clock + d)
    case ReadClock(r, ip) => s.(requests := s.requests[r := ClockRead(ip, s.clock)])
    case GetLimiter(r) =>
      var q := s.requests[r];
      var (limiter, id) := Lookup(c, s.limiter, q.ip, q.now);
      s.(limiter := limiter, requests := s.requests[r := Looked(q.ip, q.now, id)])
    case TakeToken(r) =>
      var q := s.requests[r];
      var (mine, accepted) := Reserve(c, s.limiter.buckets[q.limiter], s.clock);
      var (theirs, reference) := Reserve(c, Remembered(c, s, q.ip), s.clock);
      s.(limiter := s.limiter.(buckets := s.limiter.buckets[q.limiter := mine]),
         memory := s.memory[q.ip := theirs],
         requests := s.requests[r := Answered(q.ip, accepted, reference)])
  }

  /** The timing assumption: a request reserves within gap of reading the clock. */
  predicate Timely(s: System, gap: real) {
    forall r :: r in s.requests && !s.requests[r].Answered? ==> s.clock <= s.requests[r].now + gap
  }

  predicate Initial(s: System) {
    s.limiter == Limiter(map[], map[], s.clock, 0) && s.memory == map[] && s.requests == map[]
  }

  function Execute(c: Config, start: System, acts: seq<Action>, gap: real): Option<System> {
    if acts == [] then Some(start)
    else
      var n := |acts| - 1;
      match Execute(c, start, acts[..n], gap)
      case None => None
      case Some(s) =>
        if Enabled(s, acts[n]) && Timely(Apply(c, s, acts[n]), gap) then Some(Apply(c, s, acts[n])) else None
  }

  ghost predicate Reachable(c: Config, s: System, gap: real) {
    exists start, acts :: Initial(start) && Execute(c, start, acts, gap) == Some(s)
  }

  /** Every answer so far is the one the never-forgetting limiter gives. */
  predicate Unnoticed(s: System) {
    forall r :: r in s.requests && s.requests[r].Answered? ==> s.requests[r].accepted == s.requests[r].reference
  }

  // ----- eviction is invisible -----

  predicate Full(c: Config, b: Bucket, t: real) {
    b.last <= t && b.tokens + Refill(c, t - b.last) >= c.burst as real
  }

  /** Two buckets that no later reservation can tell apart. */
  predicate Alike(c: Config, a: Bucket, b: Bucket, t: real) {
    a == b || (Full(c, a, t) && Full(c, b, t))
  }

  /** A bucket in use: within its bounds, and not used later than twice the gap after
      its entry was last seen. */
  predicate Sound(c: Config, b: Bucket, lastSeen: real, clock: real, gap: real) {
    0.0 <= b.tokens <= c.burst as real && b.last <= clock && b.last <= lastSeen + 2.0 * gap
  }

  predicate EntryOk(c: Config, s: System, gap: real, ip: string)
    requires ip in s.limiter.limiters
  {
    var e := s.limiter.limiters[ip];
    && e.limiter in s.limiter.buckets && e.limiter < s.limiter.made && e.lastSeen <= s.clock
    && Sound(c, s.limiter.buckets[e.limiter], e.lastSeen, s.clock, gap)
    && Alike(c, s.limiter.buckets[e.limiter], Remembered(c, s, ip), s.clock)
  }

  predicate RequestOk(s: System, gap: real, r: nat)
    requires r in s.requests
  {
    var q := s.requests[r];
    && (!q.Answered? ==> q.now <= s.clock)
    && (q.Looked? ==> q.ip in s.limiter.limiters && s.limiter.limiters[q.ip].limiter == q.limiter
                      && s.limiter.limiters[q.ip].lastSeen >= q.now - gap)
  }

  ghost predicate Inv(c: Config, s: System, gap: real) {
    && (forall ip :: ip in s.limiter.limiters ==> EntryOk(c, s, gap, ip))
    && (forall ip :: ip !in s.limiter.limiters ==> Full(c, Remembered(c, s, ip), s.clock))
    && (forall r :: r in s.requests ==> RequestOk(s, gap, r))
    && (forall i, j :: i in s.limiter.limiters && j in s.limiter.limiters && i != j
          ==> s.limiter.limiters[i].limiter != s.limiter.limiters[j].limiter)
    && Unnoticed(s)
  }

  /** Either nothing is ever collected, or a drained bucket refills within the TTL less
      twice the gap. */
  predicate Fits(c: Config, gap: real) {
    c.rate > 0.0 && gap >= 0.0 && (c.ttl <= 0.0 || c.burst as real <= Refill(c, c.ttl - 2.0 * gap))
  }

  lemma RefillMono(c: Config, x: real, y: real)
    requires c.rate >= 0.0 && x <= y
    ensures Refill(c, x) <= Refill(c, y)
    ensures Refill(c, 0.0) == 0.0
  {}

  lemma RefillPositive(c: Config, x: real)
    requires c.rate > 0.0 && Refill(c, x) >= 0.0
    ensures x >= 0.0
  {}

  lemma RefillAdd(c: Config, x: real, y: real)
    ensures Refill(c, x + y) == Refill(c, x) + Refill(c, y)
  {}

  lemma FullLater(c: Config, b: Bucket, t: real, u: real)
    requires c.rate > 0.0 && Full(c, b, t) && t <= u
    ensures Full(c, b, u)
  {
    hide Refill;
    RefillMono(c, t - b.last, u - b.last);
  }

  lemma AlikeLater(c: Config, a: Bucket, b: Bucket, t: real, u: real)
    requires c.rate > 0.0 && Alike(c, a, b, t) && t <= u
    ensures Alike(c, a, b, u)
  {
    hide Refill;
    if a != b {
      FullLater(c, a, t, u);
      FullLater(c, b, t, u);
    }
  }

  /** A reservation answers alike buckets alike, and leaves them alike. */
  lemma ReserveAlike(c: Config, a: Bucket, b: Bucket, t: real)
    requires Alike(c, a, b, t)
    ensures Reserve(c, a, t) == Reserve(c, b, t)
  {
    hide Refill;
  }

  lemma ReserveSound(c: Config, b: Bucket, lastSeen: real, t: real, gap: real)
    requires c.rate > 0.0 && Sound(c, b, lastSeen, t, gap) && t <= lastSeen + 2.0 * gap
    ensures Sound(c, Reserve(c, b, t).0, lastSeen, t, gap)
  {
    hide Refill;
    RefillMono(c, 0.0, t - b.last);
  }

  /** An entry idle for longer than the TTL belongs to a bucket that has refilled. */
  lemma IdleIsFull(c: Config, b: Bucket, lastSeen: real, clock: real, gap: real)
    requires Fits(c, gap) && c.ttl > 0.0 && Sound(c, b, lastSeen, clock, gap) && clock - lastSeen > c.ttl
    ensures Full(c, b, clock)
  {
    hide Refill;
    RefillMono(c, c.ttl - 2.0 * gap, clock - b.last);
  }

  lemma StillFull(c: Config, s: System, t: System, ip: string)
    requires s.memory == t.memory && s.clock <= t.clock && c.rate > 0.0 && Full(c, Remembered(c, s, ip), s.clock)
    ensures Full(c, Remembered(c, t, ip), t.clock)
  {
    FullLater(c, Remembered(c, s, ip), s.clock, t.clock);
  }

  lemma RememberedLater(c: Config, s: System, t: System, ip: string)
    requires s.memory == t.memory && s.clock <= t.clock && c.rate > 0.0
    ensures forall b :: Alike(c, b, Remembered(c, s, ip), s.clock) ==> Alike(c, b, Remembered(c, t, ip), t.clock)
  {
    forall b | Alike(c, b, Remembered(c, s, ip), s.clock)
      ensures Alike(c, b, Remembered(c, t, ip), t.clock)
    {
      AlikeLater(c, b, Remembered(c, s, ip), s.clock, t.clock);
      if ip !in s.memory {
        assert Full(c, NewBucket(c, s.clock), s.clock);
        FullLater(c, b, s.clock, t.clock);
      }
    }
  }

  lemma TickInv(c: Config, s: System, d: real, gap: real)
    requires c.rate > 0.0 && Inv(c, s, gap) && d >= 0.0
    ensures Inv(c, s.(clock := s.clock + d), gap)
  {
    hide Full, Alike;
    var s' := s.(clock := s.clock + d);
    forall ip | ip in s'.limiter.limiters ensures EntryOk(c, s', gap, ip) {
      assert EntryOk(c, s, gap, ip);
      RememberedLater(c, s, s', ip);
      AlikeLater(c, s.limiter.buckets[s.limiter.limiters[ip].limiter], Remembered(c, s, ip), s.clock, s'.clock);
    }
    forall ip | ip !in s'.limiter.limiters ensures Full(c, Remembered(c, s', ip), s'.clock) {
      StillFull(c, s, s', ip);
    }
    forall r | r in s'.requests ensures RequestOk(s', gap, r) {
      assert RequestOk(s, gap, r);
    }
  }

  lemma FitsTtl(c: Config, gap: real)
    requires Fits(c, gap) && c.ttl > 0.0
    ensures c.ttl >= 2.0 * gap
  {
    RefillPositive(c, c.ttl - 2.0 * gap);
  }

  /** Collecting at a clock reading n drops only refilled buckets that no request is using. */
  lemma CollectInv(c: Config, s: System, n: real, gap: real)
    requires Fits(c, gap) && Inv(c, s, gap) && Timely(s, gap) && n <= s.clock
    ensures Inv(c, s.(limiter := Collect(s.limiter, n, c.ttl)), gap)
  {
    if c.ttl <= 0.0 {
      return;
    }
    FitsTtl(c, gap);
    var s' := s.(limiter := Collect(s.limiter, n, c.ttl));
    forall ip | ip in s'.limiter.limiters ensures EntryOk(c, s', gap, ip) {
      assert EntryOk(c, s, gap, ip);
    }
    forall ip | ip !in s'.limiter.limiters ensures Full(c, Remembered(c, s', ip), s'.clock) {
      if ip in s.limiter.limiters {
        assert EntryOk(c, s, gap, ip) && Stale(s.limiter, ip, n, c.ttl);
        var e := s.limiter.limiters[ip];
        IdleIsFull(c, s.limiter.buckets[e.limiter], e.lastSeen, s.clock, gap);
      }
    }
    forall r | r in s'.requests ensures RequestOk(s', gap, r) {
      assert RequestOk(s, gap, r);
    }
  }

  lemma FindInv(c: Config, s: System, r: nat, gap: real)
    requires Inv(c, s, gap) && Timely(s, gap) && gap >= 0.0
    requires r in s.requests && s.requests[r].ClockRead? && s.requests[r].ip in s.limiter.limiters
    ensures var q := s.requests[r];
            var id := s.limiter.limiters[q.ip].limiter;
            Inv(c, s.(limiter := s.limiter.(limiters := s.limiter.limiters[q.ip := Entry(id, q.now)]),
                      requests := s.requests[r := Looked(q.ip, q.now, id)]), gap)
  {
    hide Alike, Full, Tokens;
    var q := s.requests[r];
    var id := s.limiter.limiters[q.ip].limiter;
    var s' := s.(limiter := s.limiter.(limiters := s.limiter.limiters[q.ip := Entry(id, q.now)]),
                 requests := s.requests[r := Looked(q.ip, q.now, id)]);
    assert RequestOk(s, gap, r);
    forall ip | ip in s'.limiter.limiters ensures EntryOk(c, s', gap, ip) {
      assert EntryOk(c, s, gap, ip);
      assert Remembered(c, s', ip) == Remembered(c, s, ip);
    }
    forall ip | ip !in s'.limiter.limiters ensures Full(c, Remembered(c, s', ip), s'.clock) {
      assert Remembered(c, s', ip) == Remembered(c, s, ip);
    }
    forall p | p in s'.requests ensures RequestOk(s', gap, p) {
      assert RequestOk(s, gap, p);
    }
  }

  lemma NewBucketOk(c: Config, remembered: Bucket, now: real, clock: real, gap: real)
    requires c.rate > 0.0 && gap >= 0.0 && now <= clock && Full(c, remembered, clock)
    ensures Sound(c, NewBucket(c, now), now, clock, gap) && Alike(c, NewBucket(c, now), remembered, clock)
  {
    RefillMono(c, 0.0, clock - now);
  }

  lemma MakeInv(c: Config, s: System, ip: string, now: real, gap: real)
    requires Inv(c, s, gap) && ip !in s.limiter.limiters && now <= s.clock && c.rate > 0.0 && gap >= 0.0
    ensures var l := s.limiter;
            Inv(c, s.(limiter := l.(limiters := l.limiters[ip := Entry(l.made, now)],
                                    buckets := l.buckets[l.made := NewBucket(c, now)], made := l.made + 1)), gap)
  {
    hide Full, Alike, Sound, NewBucket;
    var l := s.limiter;
    var s' := s.(limiter := l.(limiters := l.limiters[ip := Entry(l.made, now)],
                               buckets := l.buckets[l.made := NewBucket(c, now)], made := l.made + 1));
    NewBucketOk(c, Remembered(c, s, ip), now, s.clock, gap);
    forall j | j in s'.limiter.limiters ensures EntryOk(c, s', gap, j) {
      assert Remembered(c, s', j) == Remembered(c, s, j);
      assert j != ip ==> EntryOk(c, s, gap, j);
    }
    forall j | j !in s'.limiter.limiters ensures Full(c, Remembered(c, s', j), s'.clock) {
      assert Remembered(c, s', j) == Remembered(c, s, j);
    }
    forall i, j | i in s'.limiter.limiters && j in s'.limiter.limiters && i != j
      ensures s'.limiter.limiters[i].limiter != s'.limiter.limiters[j].limiter
    {
      assert i != ip ==> EntryOk(c, s, gap, i);
      assert j != ip ==> EntryOk(c, s, gap, j);
    }
    forall p | p in s'.requests ensures RequestOk(s', gap, p) {
      assert RequestOk(s, gap, p);
    }
  }

  lemma ReadingIsPast(c: Config, s: System, r: nat, gap: real)
    requires Inv(c, s, gap) && r in s.requests && !s.requests[r].Answered?
    ensures s.requests[r].now <= s.clock
  {
    hide Refill;
    assert RequestOk(s, gap, r);
  }

  lemma TimelySame(s: System, t: System, gap: real)
    requires Timely(s, gap) && s.requests == t.requests && s.clock == t.clock
    ensures Timely(t, gap)
  {}

  lemma GetLimiterInv(c: Config, s: System, r: nat, gap: real)
    requires Fits(c, gap) && Inv(c, s, gap) && Timely(s, gap) && Enabled(s, GetLimiter(r))
    ensures Inv(c, Apply(c, s, GetLimiter(r)), gap)
  {
    hide EntryOk, Full, Inv, Collect, Timely;
    var q := s.requests[r];
    assert q.now <= s.clock by { ReadingIsPast(c, s, r, gap); }
    CollectInv(c, s, q.now, gap);
    var t := s.(limiter := Collect(s.limiter, q.now, c.ttl));
    TimelySame(s, t, gap);
    if q.ip !in t.limiter.limiters {
      MakeInv(c, t, q.ip, q.now, gap);
      var l := t.limiter;
      t := t.(limiter := l.(limiters := l.limiters[q.ip := Entry(l.made, q.now)],
                            buckets := l.buckets[l.made := NewBucket(c, q.now)], made := l.made + 1));
      TimelySame(s, t, gap);
    }
    FindInv(c, t, r, gap);
    var id := t.limiter.limiters[q.ip].limiter;
    assert Apply(c, s, GetLimiter(r)).limiter == t.limiter.(limiters := t.limiter.limiters[q.ip := Entry(id, q.now)]);
  }

  lemma AlikeSame(c: Config, b: Bucket, t: real)
    ensures Alike(c, b, b, t)
  {}

  lemma TakeTokenInv(c: Config, s: System, r: nat, gap: real)
    requires c.rate > 0.0 && gap >= 0.0 && Inv(c, s, gap) && Timely(s, gap) && Enabled(s, TakeToken(r))
    ensures Inv(c, Apply(c, s, TakeToken(r)), gap)
  {
    hide Full, Alike, Reserve, Sound, Refill;
    var s' := Apply(c, s, TakeToken(r));
    var q := s.requests[r];
    assert RequestOk(s, gap, r) && EntryOk(c, s, gap, q.ip);
    var e := s.limiter.limiters[q.ip];
    ReserveAlike(c, s.limiter.buckets[q.limiter], Remembered(c, s, q.ip), s.clock);
    ReserveSound(c, s.limiter.buckets[q.limiter], e.lastSeen, s.clock, gap);
    AlikeSame(c, Reserve(c, s.limiter.buckets[q.limiter], s.clock).0, s.clock);
    forall ip | ip in s'.limiter.limiters ensures EntryOk(c, s', gap, ip) {
      assert EntryOk(c, s, gap, ip);
    }
    forall ip | ip !in s'.limiter.limiters ensures Full(c, Remembered(c, s', ip), s'.clock) {
      assert Remembered(c, s', ip) == Remembered(c, s, ip);
    }
    forall p | p in s'.requests ensures RequestOk(s', gap, p) {
      assert RequestOk(s, gap, p);
    }
  }

  lemma ReadClockInv(c: Config, s: System, r: nat, ip: string, gap: real)
    requires Inv(c, s, gap) && Enabled(s, ReadClock(r, ip))
    ensures Inv(c, Apply(c, s, ReadClock(r, ip)), gap)
  {
    hide Full, Alike, Sound;
    var s' := Apply(c, s, ReadClock(r, ip));
    forall j | j in s'.limiter.limiters ensures EntryOk(c, s', gap, j) {
      assert EntryOk(c, s, gap, j);
    }
    forall j | j !in s'.limiter.limiters ensures Full(c, Remembered(c, s', j), s'.clock) {
      assert Remembered(c, s', j) == Remembered(c, s, j);
    }
    forall p | p in s'.requests ensures RequestOk(s', gap, p) {
      assert p != r ==> RequestOk(s, gap, p);
    }
  }

  lemma StepInv(c: Config, s: System, a: Action, gap: real)
    requires Fits(c, gap) && Inv(c, s, gap) && Timely(s, gap) && Enabled(s, a)
    ensures Inv(c, Apply(c, s, a), gap)
  {
    hide Inv;
    match a
    case Tick(d) => TickInv(c, s, d, gap);
    case ReadClock(r, ip) => ReadClockInv(c, s, r, ip, gap);
    case GetLimiter(r) => GetLimiterInv(c, s, r, gap);
    case TakeToken(r) => TakeTokenInv(c, s, r, gap);
  }

  lemma InitialInv(c: Config, s: System, gap: real)
    requires Initial(s)
    ensures Inv(c, s, gap) && Timely(s, gap)
  {
    assert forall ip :: Remembered(c, s, ip) == NewBucket(c, s.clock);
  }

  lemma {:induction false} ExecuteInv(c: Config, start: System, acts: seq<Action>, s: System, gap: real)
    requires Fits(c, gap) && Inv(c, start, gap) && Timely(start, gap) && Execute(c, start, acts, gap) == Some(s)
    ensures Inv(c, s, gap) && Timely(s, gap)
  {
    hide Inv;
    if acts != [] {
      var n := |acts| - 1;
      var mid := Execute(c, start, acts[..n], gap).value;
      ExecuteInv(c, start, acts[..n], mid, gap);
      StepInv(c, mid, acts[n], gap);
    }
  }

  /** Eviction is invisible: when a bucket refills within the TTL less twice the time a
      request may take, every request of every address gets the answer of a limiter that
      never forgets, in every interleaving. */
  lemma EvictionUnnoticed(c: Config, gap: real, s: System)
    requires Fits(c, gap) && Reachable(c, s, gap)
    ensures Unnoticed(s)
  {
    var start, acts :| Initial(start) && Execute(c, start, acts, gap) == Some(s);
    InitialInv(c, start, gap);
    ExecuteInv(c, start, acts, s, gap);
  }

  /** The two default limiters have room for requests that take almost five minutes
      between reading the clock and reserving. */
  lemma DefaultsFit()
    ensures Fits(Config(30.0, 120, 600.0), 297.0)
    ensures Fits(Config(5.0, 30, 600.0), 297.0)
  {}

  // ----- at most burst + rate * T in any window -----

  predicate MemoryOk(s: System) {
    forall ip :: ip in s.memory ==> s.memory[ip].last <= s.clock && s.memory[ip].tokens >= 0.0
  }

  predicate Grants(c: Config, s: System, a: Action, ip: string)
    requires Enabled(s, a)
  {
    a.TakeToken? && s.requests[a.r].ip == ip && Reserve(c, s.limiter.buckets[s.requests[a.r].limiter], s.clock).1
  }

  /** How many requests of ip the limiter lets through while acts run. */
  function Granted(c: Config, start: System, acts: seq<Action>, gap: real, ip: string): nat {
    if acts == [] then 0
    else
      var n := |acts| - 1;
      Granted(c, start, acts[..n], gap, ip) +
      match Execute(c, start, acts[..n], gap)
      case None => 0
      case Some(mid) => if Enabled(mid, acts[n]) && Grants(c, mid, acts[n], ip) then 1 else 0
  }

  /** The tokens the never-forgetting limiter holds for ip right now. */
  function Level(c: Config, s: System, ip: string): real {
    Tokens(c, Remembered(c, s, ip), s.clock)
  }

  lemma LevelBounds(c: Config, s: System, ip: string)
    requires c.rate > 0.0 && MemoryOk(s)
    ensures 0.0 <= Level(c, s, ip) <= c.burst as real
  {
    hide Refill;
    var b := Remembered(c, s, ip);
    RefillMono(c, 0.0, s.clock - b.last);
  }

  lemma TickLevel(c: Config, s: System, d: real, ip: string)
    requires c.rate > 0.0 && MemoryOk(s) && d >= 0.0
    ensures Level(c, s.(clock := s.clock + d), ip) <= Level(c, s, ip) + Refill(c, d)
  {
    hide Refill;
    var b := Remembered(c, s, ip);
    RefillMono(c, 0.0, d);
    RefillAdd(c, s.clock - b.last, d);
    assert s.clock + d - b.last == s.clock - b.last + d;
  }

  /** A reservation takes one token or none. */
  lemma ReserveTokens(c: Config, b: Bucket, t: real)
    requires c.rate > 0.0 && b.last <= t && b.tokens >= 0.0
    ensures var (after, ok) := Reserve(c, b, t);
            after.last <= t && after.tokens >= 0.0 && Tokens(c, after, t) + (if ok then 1.0 else 0.0) == Tokens(c, b, t)
  {
    hide Refill;
    RefillMono(c, 0.0, t - b.last);
  }

  lemma TakeLevel(c: Config, s: System, r: nat, ip: string, gap: real)
    requires c.rate > 0.0 && gap >= 0.0 && MemoryOk(s) && Inv(c, s, gap) && Enabled(s, TakeToken(r))
    ensures var s' := Apply(c, s, TakeToken(r));
            && MemoryOk(s')
            && Level(c, s', ip) + (if Grants(c, s, TakeToken(r), ip) then 1.0 else 0.0) == Level(c, s, ip)
  {
    hide Alike, Tokens, Reserve, Sound, Unnoticed;
    var q := s.requests[r];
    assert RequestOk(s, gap, r) && EntryOk(c, s, gap, q.ip);
    ReserveAlike(c, s.limiter.buckets[q.limiter], Remembered(c, s, q.ip), s.clock);
    ReserveTokens(c, Remembered(c, s, q.ip), s.clock);
  }

  lemma SameLevel(c: Config, s: System, t: System, ip: string)
    requires s.memory == t.memory && s.clock == t.clock
    ensures Level(c, t, ip) == Level(c, s, ip)
  {}

  lemma StepLevel(c: Config, s: System, a: Action, ip: string, gap: real)
    requires Fits(c, gap) && MemoryOk(s) && Inv(c, s, gap) && Enabled(s, a)
    ensures var s' := Apply(c, s, a);
            && MemoryOk(s') && s.clock <= s'.clock
            && Level(c, s', ip) + (if Grants(c, s, a, ip) then 1.0 else 0.0) <= Level(c, s, ip) + Refill(c, s'.clock - s.clock)
  {
    hide Inv, Level, Tokens, Refill;
    RefillMono(c, 0.0, 0.0);
    match a
    case Tick(d) => TickLevel(c, s, d, ip);
    case TakeToken(r) => TakeLevel(c, s, r, ip, gap);
    case _ => SameLevel(c, s, Apply(c, s, a), ip);
  }

  lemma {:induction false} GrantedLevel(c: Config, start: System, acts: seq<Action>, s: System, gap: real, ip: string)
    requires Fits(c, gap) && Inv(c, start, gap) && Timely(start, gap) && MemoryOk(start)
    requires Execute(c, start, acts, gap) == Some(s)
    ensures MemoryOk(s) && start.clock <= s.clock
    ensures Granted(c, start, acts, gap, ip) as real + Level(c, s, ip) <= Level(c, start, ip) + Refill(c, s.clock - start.clock)
  {
    hide Inv, Level, Timely, MemoryOk, Grants, Apply, Enabled, Refill;
    RefillMono(c, 0.0, 0.0);
    if acts != [] {
      var n := |acts| - 1;
      var mid := Execute(c, start, acts[..n], gap).value;
      GrantedLevel(c, start, acts[..n], mid, gap, ip);
      ExecuteInv(c, start, acts[..n], mid, gap);
      StepLevel(c, mid, acts[n], ip, gap);
      RefillAdd(c, s.clock - mid.clock, mid.clock - start.clock);
      assert s.clock - start.clock == (s.clock - mid.clock) + (mid.clock - start.clock);
    }
  }

  lemma {:induction false} ExecuteMemory(c: Config, start: System, acts: seq<Action>, s: System, gap: real)
    requires Fits(c, gap) && Initial(start) && Execute(c, start, acts, gap) == Some(s)
    ensures MemoryOk(s)
  {
    InitialInv(c, start, gap);
    GrantedLevel(c, start, acts, s, gap, "");
  }

  /** From any reachable moment on, in any stretch of length T, one address is let through
      at most burst + rate * T times - evictions included. */
  lemma WindowBound(c: Config, gap: real, s: System, acts: seq<Action>, t: System, ip: string)
    requires Fits(c, gap) && Reachable(c, s, gap) && Execute(c, s, acts, gap) == Some(t)
    ensures Granted(c, s, acts, gap, ip) as real <= c.burst as real + Refill(c, t.clock - s.clock)
  {
    var start, before :| Initial(start) && Execute(c, start, before, gap) == Some(s);
    InitialInv(c, start, gap);
    ExecuteInv(c, start, before, s, gap);
    ExecuteMemory(c, start, before, s, gap);
    GrantedLevel(c, s, acts, t, gap, ip);
    LevelBounds(c, s, ip);
    LevelBounds(c, t, ip);
  }
}
