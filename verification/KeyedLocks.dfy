/**
 The keyed mutex pool with idle eviction of internal/server/chunkupload.go
 (lockCache), under every interleaving of its callers.

 lock() reads the clock before it takes the pool's own mutex, so a caller that was
 delayed in between stamps its entry with an older time than the entry already
 carries. How long a caller may then keep a key is worked out exactly here.
 */
module KeyedLocks {
  import opened Text

  /** The pool. An entry is known by a number that stands for its pointer; seen is the
      stamp of every entry ever made, whether or not the table still holds it. */
  datatype Table = Table(entries: map<string, nat>, seen: map<nat, int>, lastGC: int, made: nat)

  predicate Idle(t: Table, key: string, now: int, ttl: int)
    requires key in t.entries
  {
    t.entries[key] in t.seen && now - t.seen[t.entries[key]] > ttl
  }

  function Sweep(t: Table, now: int, ttl: int): Table {
    if now - t.lastGC >= ttl then
      t.(entries := map key | key in t.entries && !Idle(t, key, now, ttl) :: t.entries[key], lastGC := now)
    else t
  }

  /** The part of lock() that runs under the pool's mutex: sweep, find or make, stamp. */
  function Stamp(t: Table, key: string, now: int, ttl: int): (Table, nat) {
    var swept := Sweep(t, now, ttl);
    if key in swept.entries then
      var e := swept.entries[key];
      (swept.(seen := swept.seen[e := now]), e)
    else
      (swept.(entries := swept.entries[key := t.made], seen := swept.seen[t.made := now], made := t.made + 1), t.made)
  }

  class LockCache {
    var table: Table
    const ttl: int

    constructor (ttl: int, lastGC: int)
      ensures this.ttl == ttl && table == Table(map[], map[], lastGC, 0)
    {
      this.ttl := ttl;
      table := Table(map[], map[], lastGC, 0);
    }

    method StampEntry(key: string, now: int) returns (e: nat)
      modifies this`table
      ensures (table, e) == Stamp(old(table), key, now, ttl)
    {
      ghost var before := table;
      if now - table.lastGC >= ttl {
        var rest := table.entries.Keys;
        while exists k :: k in rest
          invariant rest <= before.entries.Keys
          invariant table == before.(entries :=
                      map k | k in before.entries && (k in rest || !Idle(before, k, now, ttl)) :: before.entries[k])
          decreases rest
        {
          var k :| k in rest;
          assert k in table.entries && Idle(table, k, now, ttl) == Idle(before, k, now, ttl);
          if Idle(table, k, now, ttl) {
            table := table.(entries := table.entries - {k});
          }
          rest := rest - {k};
        }
        table := table.(lastGC := now);
      }
      assert table == Sweep(before, now, ttl);
      if key in table.entries {
        e := table.entries[key];
      } else {
        e := table.made;
        table := table.(entries := table.entries[key := e], made := e + 1);
      }
      table := table.(seen := table.seen[e := now]);
    }
  }

  // ----- the callers -----

  /** Where one caller is: not in lock() at all, between its clock read and the pool's
      mutex, waiting for the entry's mutex, or holding it until it calls unlock. */
  datatype Caller =
    | Away
    | ClockRead(key: string, stamp: int)
    | Waiting(key: string, entry: nat, stamp: int)
    | Holding(key: string, entry: nat, stamp: int)

  datatype System = System(table: Table, callers: map<nat, Caller>, clock: int)

  function At(s: System, c: nat): Caller {
    if c in s.callers then s.callers[c] else Away
  }

  datatype Action =
    | Tick(d: nat)
    | ReadClock(c: nat, key: string)
    | EnterPool(c: nat)
    | TakeEntry(c: nat)
    | Unlock(c: nat)

  predicate Held(s: System, entry: nat) {
    exists c :: c in s.callers && s.callers[c].Holding? && s.callers[c].entry == entry
  }

  predicate Enabled(s: System, a: Action) {
    match a
    case Tick(_) => true
    case ReadClock(c, _) => At(s, c).Away?
    case EnterPool(c) => At(s, c).ClockRead?
    case TakeEntry(c) => At(s, c).Waiting? && !Held(s, At(s, c).entry)
    case Unlock(c) => At(s, c).Holding?
  }

  function Apply(s: System, a: Action, ttl: int): System
    requires Enabled(s, a)
  {
    match a
    case Tick(d) => s.(clock := s.clock + d)
    case ReadClock(c, key) => s.(callers := s.callers[c := ClockRead(key, s.clock)])
    case EnterPool(c) =>
      var me := At(s, c);
      var (table, e) := Stamp(s.table, me.key, me.stamp, ttl);
      s.(table := table, callers := s.callers[c := Waiting(me.key, e, me.stamp)])
    case TakeEntry(c) =>
      var me := At(s, c);
      s.(callers := s.callers[c := Holding(me.key, me.entry, me.stamp)])
    case Unlock(c) => s.(callers := s.callers[c := Away])
  }

  /** The timing assumption: a caller reaches the pool's mutex within delay of reading
      the clock, and has unlocked within hold of that same reading. */
  predicate Timely(s: System, delay: nat, hold: nat) {
    forall c :: c in s.callers ==>
      && (s.callers[c].ClockRead? ==> s.clock <= s.callers[c].stamp + delay)
      && (!s.callers[c].Away? ==> s.clock <= s.callers[c].stamp + hold)
  }

  /** A fresh pool long after its zero lastGC. */
  predicate Initial(s: System, ttl: int) {
    s.callers == map[] && s.table.entries == map[] && s.table.seen == map[] && s.table.made == 0
    && s.clock - s.table.lastGC >= ttl
  }

  /** Performing acts one after the other; None when one is not enabled or breaks the
      timing assumption. */
  function Execute(start: System, acts: seq<Action>, ttl: int, delay: nat, hold: nat): Option<System> {
    if acts == [] then Some(start)
    else
      var n := |acts| - 1;
      match Execute(start, acts[..n], ttl, delay, hold)
      case None => None
      case Some(s) =>
        if Enabled(s, acts[n]) && Timely(Apply(s, acts[n], ttl), delay, hold) then Some(Apply(s, acts[n], ttl)) else None
  }

  ghost predicate Reachable(s: System, ttl: int, delay: nat, hold: nat) {
    exists start, acts :: Initial(start, ttl) && Execute(start, acts, ttl, delay, hold) == Some(s)
  }

  /** No key has two holders. */
  predicate Exclusive(s: System) {
    forall c, d :: c in s.callers && d in s.callers && c != d && s.callers[c].Holding? && s.callers[d].Holding?
      ==> s.callers[c].key != s.callers[d].key
  }

  // ----- when exclusion holds -----

  function Slack(delay: nat, hold: nat): nat {
    if delay <= hold then delay else hold
  }

  /** Every caller past the pool is still in the table under its key, and its entry's
      stamp is at most the slack older than its own. */
  ghost predicate Anchored(s: System, slack: nat) {
    && (forall key :: key in s.table.entries ==> s.table.entries[key] in s.table.seen)
    && (forall c :: c in s.callers && !s.callers[c].Away? ==> s.callers[c].stamp <= s.clock)
    && (forall c :: c in s.callers && (s.callers[c].Waiting? || s.callers[c].Holding?) ==>
          var me := s.callers[c];
          && me.key in s.table.entries && s.table.entries[me.key] == me.entry
          && s.table.seen[me.entry] >= me.stamp - slack)
    && (forall c, d :: c in s.callers && d in s.callers && c != d && s.callers[c].Holding? && s.callers[d].Holding?
          ==> s.callers[c].entry != s.callers[d].entry)
  }

  lemma AnchoredIsExclusive(s: System, slack: nat)
    requires Anchored(s, slack)
    ensures Exclusive(s)
  {}

  lemma EnterPoolAnchored(s: System, c: nat, ttl: int, delay: nat, hold: nat)
    requires hold + Slack(delay, hold) <= ttl
    requires Anchored(s, Slack(delay, hold)) && Timely(s, delay, hold) && Enabled(s, EnterPool(c))
    ensures Anchored(Apply(s, EnterPool(c), ttl), Slack(delay, hold))
  {
    var slack := Slack(delay, hold);
    var me := At(s, c);
    var swept := Sweep(s.table, me.stamp, ttl);
    forall d | d in s.callers && (s.callers[d].Waiting? || s.callers[d].Holding?)
      ensures s.callers[d].key in swept.entries
      ensures me.stamp >= s.callers[d].stamp - slack
    {
      assert !Idle(s.table, s.callers[d].key, me.stamp, ttl);
    }
  }

  lemma StepAnchored(s: System, a: Action, ttl: int, delay: nat, hold: nat)
    requires hold + Slack(delay, hold) <= ttl
    requires Anchored(s, Slack(delay, hold)) && Timely(s, delay, hold) && Enabled(s, a)
    ensures Anchored(Apply(s, a, ttl), Slack(delay, hold))
  {
    if a.EnterPool? {
      EnterPoolAnchored(s, a.c, ttl, delay, hold);
    } else {
      if a.TakeEntry? {
        var entry := At(s, a.c).entry;
        assert forall d :: d in s.callers && s.callers[d].Holding? ==> s.callers[d].entry != entry;
      }
    }
  }

  lemma {:induction false} ExecutionAnchored(start: System, acts: seq<Action>, s: System, ttl: int, delay: nat, hold: nat)
    requires hold + Slack(delay, hold) <= ttl
    requires Initial(start, ttl) && Execute(start, acts, ttl, delay, hold) == Some(s)
    ensures Anchored(s, Slack(delay, hold)) && Timely(s, delay, hold)
  {
    if acts != [] {
      var n := |acts| - 1;
      var mid := Execute(start, acts[..n], ttl, delay, hold).value;
      ExecutionAnchored(start, acts[..n], mid, ttl, delay, hold);
      StepAnchored(mid, acts[n], ttl, delay, hold);
    }
  }

  // ----- different keys -----

  predicate PastPool(c: Caller) {
    c.Waiting? || c.Holding?
  }

  /** No entry is listed under two keys, and none is numbered past the last one made. */
  predicate Injective(t: Table) {
    && (forall k, l :: k in t.entries && l in t.entries && t.entries[k] == t.entries[l] ==> k == l)
    && (forall k :: k in t.entries ==> t.entries[k] < t.made)
  }

  /** An entry is listed, if at all, under the key of the caller who has it. */
  predicate Known(t: Table, me: Caller)
    requires PastPool(me)
  {
    me.entry < t.made && forall k :: k in t.entries && t.entries[k] == me.entry ==> k == me.key
  }

  /** An entry serves one key: the one it is listed under, and that of all who have it. */
  predicate Apart(s: System) {
    && Injective(s.table)
    && (forall c :: c in s.callers && PastPool(s.callers[c]) ==> Known(s.table, s.callers[c]))
    && (forall c, d :: c in s.callers && d in s.callers && PastPool(s.callers[c]) && PastPool(s.callers[d])
          ==> (s.callers[c].entry == s.callers[d].entry ==> s.callers[c].key == s.callers[d].key))
  }

  /** Sweeping and stamping keep what is known of an entry, and the entry handed out is new or
      was listed under the key asked for. */
  lemma StampApart(t: Table, key: string, now: int, ttl: int)
    requires Injective(t)
    ensures var (t', e) := Stamp(t, key, now, ttl);
            && Injective(t') && e < t'.made && t.made <= t'.made
            && (forall k :: k in t'.entries && t'.entries[k] == e ==> k == key)
            && (e == t.made || (key in t.entries && t.entries[key] == e))
            && (forall k :: k in t'.entries && t'.entries[k] != e ==> k in t.entries && t.entries[k] == t'.entries[k])
  {
    var swept := Sweep(t, now, ttl);
    assert forall k :: k in swept.entries ==> k in t.entries && swept.entries[k] == t.entries[k];
  }

  lemma PoolApart(s: System, c: nat, ttl: int)
    requires Apart(s) && Enabled(s, EnterPool(c))
    ensures Apart(Apply(s, EnterPool(c), ttl))
  {
    hide Stamp, Injective;
    var me := At(s, c);
    StampApart(s.table, me.key, me.stamp, ttl);
  }

  lemma StepApart(s: System, a: Action, ttl: int)
    requires Apart(s) && Enabled(s, a)
    ensures Apart(Apply(s, a, ttl))
  {
    hide Stamp, Injective, Held;
    if a.EnterPool? {
      PoolApart(s, a.c, ttl);
    }
  }

  lemma NobodyYet(start: System, ttl: int)
    requires Initial(start, ttl)
    ensures Apart(start)
  {}

  lemma {:induction false} ExecutionApart(start: System, acts: seq<Action>, s: System, ttl: int, delay: nat, hold: nat)
    requires Initial(start, ttl) && Execute(start, acts, ttl, delay, hold) == Some(s)
    ensures Apart(s)
  {
    hide Apart, Apply, Enabled;
    if acts == [] {
      NobodyYet(start, ttl);
    } else {
      var n := |acts| - 1;
      var mid := Execute(start, acts[..n], ttl, delay, hold).value;
      ExecutionApart(start, acts[..n], mid, ttl, delay, hold);
      StepApart(mid, acts[n], ttl);
    }
  }

  /** Whatever the timing, a caller that cannot have its entry's mutex is kept waiting by a
      holder of its own key, who can unlock: callers of different keys never block each other. */
  lemma OnlyOwnKeyBlocks(s: System, ttl: int, delay: nat, hold: nat, c: nat)
    requires Reachable(s, ttl, delay, hold) && c in s.callers && s.callers[c].Waiting?
    ensures Enabled(s, TakeEntry(c))
            || exists d :: d in s.callers && s.callers[d].Holding? && s.callers[d].key == s.callers[c].key && Enabled(s, Unlock(d))
  {
    var start, acts :| Initial(start, ttl) && Execute(start, acts, ttl, delay, hold) == Some(s);
    ExecutionApart(start, acts, s, ttl, delay, hold);
    if Held(s, s.callers[c].entry) {
      var d :| d in s.callers && s.callers[d].Holding? && s.callers[d].entry == s.callers[c].entry;
      assert PastPool(s.callers[c]) && PastPool(s.callers[d]);
      assert Enabled(s, Unlock(d));
    }
  }

  // ----- when it does not -----

  lemma ReachInitial(s: System, ttl: int, delay: nat, hold: nat)
    requires Initial(s, ttl)
    ensures Reachable(s, ttl, delay, hold)
  {
    assert Execute(s, [], ttl, delay, hold) == Some(s);
  }

  lemma ReachStep(s: System, a: Action, ttl: int, delay: nat, hold: nat) returns (s': System)
    requires Reachable(s, ttl, delay, hold) && Enabled(s, a) && Timely(Apply(s, a, ttl), delay, hold)
    ensures s' == Apply(s, a, ttl) && Reachable(s', ttl, delay, hold)
  {
    hide Apply, Enabled, Timely, Initial;
    s' := Apply(s, a, ttl);
    var start, acts :| Initial(start, ttl) && Execute(start, acts, ttl, delay, hold) == Some(s);
    assert (acts + [a])[..|acts|] == acts;
    assert Execute(start, acts + [a], ttl, delay, hold) == Some(s');
  }

  /** The smallest delay that, with this holding time, defeats the pool. */
  function Lateness(ttl: int, delay: nat, hold: nat): (g: nat)
    requires ttl > 0 && hold + Slack(delay, hold) > ttl
    ensures g <= Slack(delay, hold) && hold + g > ttl && g <= ttl && (g == ttl ==> ttl == 1)
  {
    if hold > ttl then 0 else ttl + 1 - hold
  }

  /** A pool that swept at time 0, or at g if a whole TTL has passed by then, after
      entry 0 was made for "z"; entry 1, for "k", carries the stamp 0. */
  function Pool(ttl: int, g: nat): Table {
    Table(map["z" := 0, "k" := 1], map[0 := 0, 1 := 0], if g >= ttl then g else 0, 2)
  }

  function SweptAtZero(callers: map<nat, Caller>, clock: int): System {
    System(Table(map["z" := 0], map[0 := 0], 0, 1), callers, clock)
  }

  /** Caller 0 makes the pool sweep at time 0 and leaves. */
  lemma ReachSwept(ttl: int, delay: nat, hold: nat)
    requires ttl > 0
    ensures Reachable(SweptAtZero(map[0 := Away], 0), ttl, delay, hold)
  {
    hide Reachable;
    var s := System(Table(map[], map[], -ttl, 0), map[], 0);
    ReachInitial(s, ttl, delay, hold);
    s := ReachStep(s, ReadClock(0, "z"), ttl, delay, hold);
    assert s.callers == map[0 := ClockRead("z", 0)];
    s := ReachStep(s, EnterPool(0), ttl, delay, hold);
    assert s == SweptAtZero(map[0 := Waiting("z", 0, 0)], 0);
    s := ReachStep(s, TakeEntry(0), ttl, delay, hold);
    s := ReachStep(s, Unlock(0), ttl, delay, hold);
    assert s == SweptAtZero(map[0 := Away], 0);
  }

  /** Callers 1 and 2 read the clock at 0 and at g. */
  lemma ReachBothRead(ttl: int, delay: nat, hold: nat, g: nat)
    requires ttl > 0 && g <= Slack(delay, hold)
    ensures Reachable(SweptAtZero(map[0 := Away, 1 := ClockRead("k", 0), 2 := ClockRead("k", g)], g), ttl, delay, hold)
  {
    hide Reachable;
    ReachSwept(ttl, delay, hold);
    var s := ReachStep(SweptAtZero(map[0 := Away], 0), ReadClock(1, "k"), ttl, delay, hold);
    s := ReachStep(s, Tick(g), ttl, delay, hold);
    s := ReachStep(s, ReadClock(2, "k"), ttl, delay, hold);
    assert s == SweptAtZero(map[0 := Away, 1 := ClockRead("k", 0), 2 := ClockRead("k", g)], g);
  }

  lemma StampedTwice(ttl: int, g: nat)
    requires ttl > 0 && g <= ttl
    ensures var late := Pool(ttl, g).(seen := map[0 := 0, 1 := g]);
            && Stamp(Table(map["z" := 0], map[0 := 0], 0, 1), "k", g, ttl) == (late, 1)
            && Stamp(late, "k", 0, ttl) == (Pool(ttl, g), 1)
  {
    var table := Table(map["z" := 0], map[0 := 0], 0, 1);
    assert Sweep(table, g, ttl).entries == table.entries;
    var late := Pool(ttl, g).(seen := map[0 := 0, 1 := g]);
    assert late.seen[1 := 0] == Pool(ttl, g).seen;
  }

  /** They pass the pool in the opposite order, so "k" is stamped with the older reading. */
  lemma ReachStaleStamp(ttl: int, delay: nat, hold: nat, g: nat)
    requires ttl > 0 && g <= Slack(delay, hold) && g <= ttl
    ensures Reachable(System(Pool(ttl, g), map[0 := Away, 1 := Waiting("k", 1, 0), 2 := Waiting("k", 1, g)], g), ttl, delay, hold)
  {
    hide Reachable, Stamp, Pool;
    ReachBothRead(ttl, delay, hold, g);
    StampedTwice(ttl, g);
    var s := SweptAtZero(map[0 := Away, 1 := ClockRead("k", 0), 2 := ClockRead("k", g)], g);
    s := ReachStep(s, EnterPool(2), ttl, delay, hold);
    s := ReachStep(s, EnterPool(1), ttl, delay, hold);
    assert s.callers == map[0 := Away, 1 := Waiting("k", 1, 0), 2 := Waiting("k", 1, g)];
  }

  /** Caller 1 comes and goes. */
  lemma ReachFirstGone(ttl: int, delay: nat, hold: nat, g: nat)
    requires ttl > 0 && g <= Slack(delay, hold) && g <= ttl
    ensures Reachable(System(Pool(ttl, g), map[0 := Away, 1 := Away, 2 := Waiting("k", 1, g)], g), ttl, delay, hold)
  {
    hide Reachable, Pool, Stamp;
    ReachStaleStamp(ttl, delay, hold, g);
    var s := System(Pool(ttl, g), map[0 := Away, 1 := Waiting("k", 1, 0), 2 := Waiting("k", 1, g)], g);
    s := ReachStep(s, TakeEntry(1), ttl, delay, hold);
    s := ReachStep(s, Unlock(1), ttl, delay, hold);
    assert s.callers == map[0 := Away, 1 := Away, 2 := Waiting("k", 1, g)];
  }

  /** Caller 2 then holds the key until the stale stamp has aged past the TTL. */
  lemma ReachStaleHolder(ttl: int, delay: nat, hold: nat, g: nat)
    requires ttl > 0 && g <= Slack(delay, hold) && g <= ttl < hold + g
    ensures Reachable(System(Pool(ttl, g), map[0 := Away, 1 := Away, 2 := Holding("k", 1, g)], ttl + 1), ttl, delay, hold)
  {
    hide Reachable, Pool, Stamp;
    ReachFirstGone(ttl, delay, hold, g);
    var s := System(Pool(ttl, g), map[0 := Away, 1 := Away, 2 := Waiting("k", 1, g)], g);
    s := ReachStep(s, TakeEntry(2), ttl, delay, hold);
    assert s.callers == map[0 := Away, 1 := Away, 2 := Holding("k", 1, g)];
    s := ReachStep(s, Tick(ttl + 1 - g), ttl, delay, hold);
  }

  /** A third caller's sweep evicts the entry that caller 2 still holds. */
  lemma SweptPool(ttl: int, g: nat)
    requires ttl > 0 && g <= ttl && (g == ttl ==> ttl == 1)
    ensures var (table, e) := Stamp(Pool(ttl, g), "k", ttl + 1, ttl); e == 2
  {
    assert Idle(Pool(ttl, g), "k", ttl + 1, ttl);
    assert "k" !in Sweep(Pool(ttl, g), ttl + 1, ttl).entries;
  }

  lemma ReachEvicted(ttl: int, delay: nat, hold: nat, g: nat) returns (s: System)
    requires ttl > 0 && g <= Slack(delay, hold) && g <= ttl < hold + g && (g == ttl ==> ttl == 1)
    ensures Reachable(s, ttl, delay, hold)
    ensures s.callers == map[0 := Away, 1 := Away, 2 := Holding("k", 1, g), 3 := Waiting("k", 2, ttl + 1)]
    ensures s.clock == ttl + 1
  {
    hide Reachable, Stamp, Pool;
    ReachStaleHolder(ttl, delay, hold, g);
    s := System(Pool(ttl, g), map[0 := Away, 1 := Away, 2 := Holding("k", 1, g)], ttl + 1);
    SweptPool(ttl, g);
    s := ReachStep(s, ReadClock(3, "k"), ttl, delay, hold);
    s := ReachStep(s, EnterPool(3), ttl, delay, hold);
  }

  /** It takes the key through a new entry: two holders. */
  lemma TwoHolders(ttl: int, delay: nat, hold: nat) returns (s: System)
    requires ttl > 0 && hold + Slack(delay, hold) > ttl
    ensures Reachable(s, ttl, delay, hold) && !Exclusive(s)
  {
    hide Reachable, Stamp;
    s := ReachEvicted(ttl, delay, hold, Lateness(ttl, delay, hold));
    s := ReachStep(s, TakeEntry(3), ttl, delay, hold);
    assert s.callers[2].Holding? && s.callers[3].Holding?;
  }

  /** The exact condition. With callers that reach the pool within delay of reading the
      clock and unlock within hold of it, no interleaving gives a key two holders if and
      only if hold plus the smaller of the two bounds fits in the TTL. A caller that
      merely finishes within the TTL of its stamp is not enough; half the TTL is. */
  lemma ExclusiveIff(ttl: int, delay: nat, hold: nat)
    requires ttl > 0
    ensures (forall s :: Reachable(s, ttl, delay, hold) ==> Exclusive(s)) <==> hold + Slack(delay, hold) <= ttl
  {
    if hold + Slack(delay, hold) <= ttl {
      forall s | Reachable(s, ttl, delay, hold)
        ensures Exclusive(s)
      {
        var start, acts :| Initial(start, ttl) && Execute(start, acts, ttl, delay, hold) == Some(s);
        ExecutionAnchored(start, acts, s, ttl, delay, hold);
        AnchoredIsExclusive(s, Slack(delay, hold));
      }
    } else {
      var s := TwoHolders(ttl, delay, hold);
    }
  }

  /** lockIdleTTL in seconds. With the clock read under the pool's mutex (no delay) a full
      TTL is safe, as the source intends; with the clock read before it, half of it is. */
  const LOCK_IDLE_TTL := 3600

  lemma SafeHoldingTimes(hold: nat)
    ensures (forall s :: Reachable(s, LOCK_IDLE_TTL, 0, hold) ==> Exclusive(s)) <==> hold <= LOCK_IDLE_TTL
    ensures (forall s :: Reachable(s, LOCK_IDLE_TTL, hold, hold) ==> Exclusive(s)) <==> 2 * hold <= LOCK_IDLE_TTL
  {
    ExclusiveIff(LOCK_IDLE_TTL, 0, hold);
    ExclusiveIff(LOCK_IDLE_TTL, hold, hold);
  }
}
