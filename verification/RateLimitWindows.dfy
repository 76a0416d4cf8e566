/**
 When the limiter of internal/middleware/ratelimit.go says no: exactly when letting one more
 request through would exceed burst + rate * T in some stretch of length T that ends now.
 Every bucket's level is accounted for by the stretch that began when it was last full.
 */
module RateLimitWindows {
  import opened Text
  import opened RateLimit

  function Least(a: real, b: real): real {
    if a < b then a else b
  }

  lemma {:induction false} ExecuteParts(c: Config, start: System, acts: seq<Action>, k: nat, s: System, gap: real)
    requires k <= |acts| && Execute(c, start, acts, gap) == Some(s)
    ensures Execute(c, start, acts[..k], gap).Some?
    ensures Execute(c, Execute(c, start, acts[..k], gap).value, acts[k..], gap) == Some(s)
    decreases |acts|
  {
    hide Apply, Enabled, Timely;
    if k == |acts| {
      assert acts[..k] == acts && acts[k..] == [];
    } else {
      var n := |acts| - 1;
      ExecuteParts(c, start, acts[..n], k, Execute(c, start, acts[..n], gap).value, gap);
      assert acts[..n][..k] == acts[..k] && acts[k..][..n - k] == acts[..n][k..] && acts[k..][n - k] == acts[n];
    }
  }

  /** The level after a tick is the one before plus what has flowed in, up to the brim. */
  lemma TickExact(c: Config, s: System, d: real, ip: string)
    requires c.rate > 0.0 && MemoryOk(s) && d >= 0.0
    ensures Level(c, s.(clock := s.clock + d), ip) == Least(c.burst as real, Level(c, s, ip) + Refill(c, d))
  {
    hide Refill;
    var b := Remembered(c, s, ip);
    RefillMono(c, 0.0, d);
    RefillAdd(c, s.clock - b.last, d);
    assert s.clock + d - b.last == s.clock - b.last + d;
  }

  lemma StepExact(c: Config, s: System, a: Action, ip: string, gap: real)
    requires Fits(c, gap) && MemoryOk(s) && Inv(c, s, gap) && Enabled(s, a)
    ensures var s' := Apply(c, s, a);
            && s'.clock == s.clock + (if a.Tick? then a.d else 0.0)
            && (a.Tick? ==> Level(c, s', ip) == Least(c.burst as real, Level(c, s, ip) + Refill(c, a.d)))
            && (!a.Tick? ==> Level(c, s', ip) + (if Grants(c, s, a, ip) then 1.0 else 0.0) == Level(c, s, ip))
  {
    hide Inv, Level, Tokens, Refill;
    match a
    case Tick(d) => TickExact(c, s, d, ip);
    case TakeToken(r) => TakeLevel(c, s, r, ip, gap);
    case _ => SameLevel(c, s, Apply(c, s, a), ip);
  }

  /** Since k the bucket has given what it had when full and what has flowed in, less its level. */
  ghost predicate Accounts(c: Config, start: System, acts: seq<Action>, s: System, gap: real, ip: string, k: nat) {
    && k <= |acts| && Execute(c, start, acts[..k], gap).Some?
    && var mid := Execute(c, start, acts[..k], gap).value;
       Granted(c, mid, acts[k..], gap, ip) as real + Level(c, s, ip) == c.burst as real + Refill(c, s.clock - mid.clock)
  }

  lemma FullNow(c: Config, start: System, acts: seq<Action>, s: System, gap: real, ip: string)
    requires Execute(c, start, acts, gap) == Some(s) && Level(c, s, ip) == c.burst as real
    ensures Accounts(c, start, acts, s, gap, ip, |acts|)
  {
    hide Execute, Level;
    assert acts[..|acts|] == acts && acts[|acts|..] == [];
    assert s.clock - s.clock == 0.0 && Refill(c, 0.0) == 0.0;
  }

  lemma GrantsTakes(c: Config, s: System, a: Action, ip: string)
    requires Enabled(s, a)
    ensures Grants(c, s, a, ip) ==> !a.Tick?
  {}

  /** One more step, unless it fills the bucket: the same stretch still accounts for it. */
  lemma AccountsOn(c: Config, start: System, acts: seq<Action>, mid: System, s: System, gap: real, ip: string, k: nat)
    requires acts != [] && Fits(c, gap) && MemoryOk(mid) && Inv(c, mid, gap)
    requires Execute(c, start, acts[..|acts| - 1], gap) == Some(mid) && Execute(c, start, acts, gap) == Some(s)
    requires Accounts(c, start, acts[..|acts| - 1], mid, gap, ip, k) && Level(c, s, ip) < c.burst as real
    ensures Accounts(c, start, acts, s, gap, ip, k)
  {
    hide Level, Inv, Apply, Enabled, Grants, Timely, MemoryOk, Refill;
    var n := |acts| - 1;
    assert acts[..n][..k] == acts[..k] && acts[k..][..n - k] == acts[..n][k..] && acts[k..][n - k] == acts[n];
    ExecuteParts(c, start, acts[..n], k, mid, gap);
    var from := Execute(c, start, acts[..k], gap).value;
    StepExact(c, mid, acts[n], ip, gap);
    RefillAdd(c, mid.clock - from.clock, s.clock - mid.clock);
    assert s.clock - from.clock == (mid.clock - from.clock) + (s.clock - mid.clock);
    RefillMono(c, 0.0, 0.0);
    GrantsTakes(c, mid, acts[n], ip);
  }

  lemma InitiallyFull(c: Config, start: System, ip: string)
    requires Initial(start)
    ensures Level(c, start, ip) == c.burst as real
  {}

  lemma {:induction false} SinceFull(c: Config, start: System, acts: seq<Action>, s: System, gap: real, ip: string) returns (k: nat)
    requires Fits(c, gap) && Initial(start) && Execute(c, start, acts, gap) == Some(s)
    ensures Accounts(c, start, acts, s, gap, ip, k)
  {
    hide Level, Inv, Apply, Enabled, Accounts, Initial, Timely;
    if acts == [] {
      InitiallyFull(c, start, ip);
      FullNow(c, start, acts, s, gap, ip);
      k := 0;
    } else {
      var n := |acts| - 1;
      var mid := Execute(c, start, acts[..n], gap).value;
      InitialInv(c, start, gap);
      ExecuteInv(c, start, acts[..n], mid, gap);
      ExecuteMemory(c, start, acts[..n], mid, gap);
      ExecuteMemory(c, start, acts, s, gap);
      k := SinceFull(c, start, acts[..n], mid, gap, ip);
      LevelBounds(c, s, ip);
      if Level(c, s, ip) == c.burst as real {
        FullNow(c, start, acts, s, gap, ip);
        k := |acts|;
      } else {
        AccountsOn(c, start, acts, mid, s, gap, ip, k);
      }
    }
  }

  /** Letting one more request through now would exceed burst + rate * T since k. */
  ghost predicate Exceeds(c: Config, start: System, acts: seq<Action>, s: System, gap: real, ip: string, k: nat) {
    && k <= |acts| && Execute(c, start, acts[..k], gap).Some?
    && var mid := Execute(c, start, acts[..k], gap).value;
       Granted(c, mid, acts[k..], gap, ip) as real + 1.0 > c.burst as real + Refill(c, s.clock - mid.clock)
  }

  /** The limiter's answer to a request that has looked its bucket up. */
  function Admits(c: Config, s: System, r: nat): bool
    requires Enabled(s, TakeToken(r))
  {
    Reserve(c, s.limiter.buckets[s.requests[r].limiter], s.clock).1
  }

  lemma AdmitsByLevel(c: Config, s: System, r: nat, gap: real)
    requires Inv(c, s, gap) && Enabled(s, TakeToken(r))
    ensures Admits(c, s, r) <==> Level(c, s, s.requests[r].ip) >= 1.0
  {
    hide Alike, Tokens;
    var q := s.requests[r];
    assert RequestOk(s, gap, r) && EntryOk(c, s, gap, q.ip);
    ReserveAlike(c, s.limiter.buckets[q.limiter], Remembered(c, s, q.ip), s.clock);
  }

  lemma ExceedsMeansEmpty(c: Config, start: System, acts: seq<Action>, s: System, gap: real, ip: string, k: nat)
    requires Fits(c, gap) && Initial(start) && Execute(c, start, acts, gap) == Some(s) && Exceeds(c, start, acts, s, gap, ip, k)
    ensures Level(c, s, ip) < 1.0
  {
    hide Level, Inv, MemoryOk, Initial, Timely, Refill;
    var mid := Execute(c, start, acts[..k], gap).value;
    ExecuteParts(c, start, acts, k, s, gap);
    InitialInv(c, start, gap);
    ExecuteInv(c, start, acts[..k], mid, gap);
    ExecuteMemory(c, start, acts[..k], mid, gap);
    GrantedLevel(c, mid, acts[k..], s, gap, ip);
    LevelBounds(c, mid, ip);
  }

  lemma EmptyExceeds(c: Config, start: System, acts: seq<Action>, s: System, gap: real, ip: string, k: nat)
    requires Accounts(c, start, acts, s, gap, ip, k) && Level(c, s, ip) < 1.0
    ensures Exceeds(c, start, acts, s, gap, ip, k)
  {
    hide Level, Execute;
  }

  /** Main result. A request is turned away if and only if letting it through would make more
      than burst + rate * T requests of its address in some stretch of length T up to now -
      concurrent requests and evictions included. */
  lemma RefusedIff(c: Config, gap: real, start: System, acts: seq<Action>, s: System, r: nat)
    requires Fits(c, gap) && Initial(start) && Execute(c, start, acts, gap) == Some(s) && Enabled(s, TakeToken(r))
    ensures !Admits(c, s, r) <==> exists k :: Exceeds(c, start, acts, s, gap, s.requests[r].ip, k)
  {
    hide Level, Inv, Admits, Exceeds, Initial;
    var ip := s.requests[r].ip;
    InitialInv(c, start, gap);
    ExecuteInv(c, start, acts, s, gap);
    AdmitsByLevel(c, s, r, gap);
    if k: nat :| Exceeds(c, start, acts, s, gap, ip, k) {
      ExceedsMeansEmpty(c, start, acts, s, gap, ip, k);
    }
    if !Admits(c, s, r) {
      var k := SinceFull(c, start, acts, s, gap, ip);
      EmptyExceeds(c, start, acts, s, gap, ip, k);
    }
  }
}
