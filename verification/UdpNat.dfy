/**
 The UDP side of internal/portfwd/portfwd.go: serveUDP's read loop, one reply goroutine
 per flow, and the reaper, over one flow table - in every interleaving. Steps under the
 table's mutex are atomic; socket calls outside it are steps of their own.
 */
module UdpNat {
  import opened Text

  const IDLE_TIMEOUT := 120
  type Addr = string
  type Datagram = string

  /** Where a flow's goroutine is: relaying, about to pass on an answer it read, out of
      the relay loop, past closeFlow's locked part, past its Close, or gone. */
  datatype Relay = Reading | Got(data: Datagram) | Returned | Unlisted | Closed | Gone

  datatype Flow = Flow(client: Addr, lastSeen: int, open: bool, relay: Relay)

  datatype Loop = Waiting | Sending(flow: nat, client: Addr, data: Datagram) | Stopped

  /** One datagram passed on: to a client (replies) or through a flow's socket (forwards). */
  datatype Transfer = Transfer(client: Addr, flow: nat, data: Datagram)

  /** flows is the table, by client; info every flow ever dialled, by number. toClose is
      the reaper's list of sockets it has retired but not closed yet. */
  datatype System = System(
    flows: map<Addr, nat>, info: map<nat, Flow>, made: nat,
    active: int, total: int,
    loop: Loop, toClose: set<nat>, stopping: bool, clock: int,
    replies: seq<Transfer>, forwards: seq<Transfer>)

  datatype Action =
    | Tick(d: nat)
    | Stop
    | Receive(client: Addr, data: Datagram, dialOk: bool)
    | Send
    | ExitLoop
    | Reap
    | ReapClose(f: nat)
    | ReplyRead(f: nat, data: Datagram)
    | ReplyError(f: nat)
    | ReplySend(f: nat, ok: bool)
    | Unlist(f: nat)
    | CloseOwn(f: nat)
    | Deactivate(f: nat)

  predicate Enabled(s: System, a: Action) {
    match a
    case Tick(_) => true
    case Stop => true
    case Receive(_, _, _) => s.loop.Waiting?
    case Send => s.loop.Sending? && s.loop.flow in s.info
    case ExitLoop => s.loop.Waiting? && s.stopping
    case Reap => s.toClose == {}
    case ReapClose(f) => f in s.toClose && f in s.info
    case ReplyRead(f, _) => f in s.info && s.info[f].relay.Reading? && s.info[f].open
    case ReplyError(f) => f in s.info && s.info[f].relay.Reading?
    case ReplySend(f, _) => f in s.info && s.info[f].relay.Got?
    case Unlist(f) => f in s.info && s.info[f].relay.Returned?
    case CloseOwn(f) => f in s.info && s.info[f].relay.Unlisted?
    case Deactivate(f) => f in s.info && s.info[f].relay.Closed?
  }

  predicate Stale(s: System, client: Addr) {
    client in s.flows && s.flows[client] in s.info && s.clock - s.info[s.flows[client]].lastSeen > IDLE_TIMEOUT
  }

  function At(s: System, f: nat, relay: Relay): System
    requires f in s.info
  {
    s.(info := s.info[f := s.info[f].(relay := relay)])
  }

  function Closing(s: System, f: nat): System
    requires f in s.info
  {
    s.(info := s.info[f := s.info[f].(open := false)])
  }

  /** The read loop's locked part: find or dial the client's flow, and stamp it. */
  function Listed(s: System, client: Addr): System {
    if client in s.flows then
      if s.flows[client] in s.info then
        s.(info := s.info[s.flows[client] := s.info[s.flows[client]].(lastSeen := s.clock)])
      else s
    else
      s.(flows := s.flows[client := s.made], info := s.info[s.made := Flow(client, s.clock, true, Reading)],
         made := s.made + 1, active := s.active + 1, total := s.total + 1)
  }

  function Apply(s: System, a: Action): System
    requires Enabled(s, a)
  {
    match a
    case Tick(d) => s.(clock := s.clock + d)
    case Stop => s.(stopping := true)
    case Receive(client, data, dialOk) =>
      if client !in s.flows && !dialOk then s
      else Listed(s, client).(loop := Sending(Listed(s, client).flows[client], client, data))
    case Send =>
      var f := s.loop.flow;
      (if s.info[f].open then s.(forwards := s.forwards + [Transfer(s.loop.client, f, s.loop.data)]) else s).(loop := Waiting)
    case ExitLoop =>
      s.(flows := map[], loop := Stopped,
         info := map f | f in s.info :: if f in s.flows.Values then s.info[f].(open := false) else s.info[f])
    case Reap =>
      s.(flows := map c | c in s.flows && !Stale(s, c) :: s.flows[c],
         toClose := set c | c in s.flows && Stale(s, c) :: s.flows[c])
    case ReapClose(f) => Closing(s, f).(toClose := s.toClose - {f})
    case ReplyRead(f, data) => At(s, f, Got(data))
    case ReplyError(f) => At(s, f, Returned)
    case ReplySend(f, ok) =>
      if ok then At(s, f, Reading).(replies := s.replies + [Transfer(s.info[f].client, f, s.info[f].relay.data)])
      else At(s, f, if s.stopping then Returned else Reading)
    case Unlist(f) =>
      var c := s.info[f].client;
      At(if c in s.flows && s.flows[c] == f then s.(flows := s.flows - {c}) else s, f, Unlisted)
    case CloseOwn(f) => At(Closing(s, f), f, Closed)
    case Deactivate(f) => At(s, f, Gone).(active := s.active - 1)
  }

  // ----- the inductive invariant -----

  function Alive(s: System): set<nat> {
    set f | f in s.info && !s.info[f].relay.Gone?
  }

  predicate Counted(s: System) {
    && s.active == |Alive(s)| && s.total == |s.info|
    && forall f :: f in s.info ==> f < s.made
  }

  /** A listed flow belongs to the client it is listed under, is open, and its goroutine
      has not reached closeFlow. */
  predicate ListedOk(s: System) {
    forall c :: c in s.flows ==>
      && s.flows[c] in s.info && s.info[s.flows[c]].client == c && s.info[s.flows[c]].open
      && (s.info[s.flows[c]].relay.Reading? || s.info[s.flows[c]].relay.Got? || s.info[s.flows[c]].relay.Returned?)
  }

  predicate IsListed(s: System, f: nat)
    requires f in s.info
  {
    s.info[f].client in s.flows && s.flows[s.info[f].client] == f
  }

  /** No socket leaks: an open one is in the table, on the reaper's list, or about to be
      closed by its own goroutine. A goroutine that is done has closed its socket. */
  predicate NoLeak(s: System) {
    && (forall f :: f in s.info && s.info[f].open ==> IsListed(s, f) || f in s.toClose || s.info[f].relay.Unlisted?)
    && (forall f :: f in s.info && (s.info[f].relay.Closed? || s.info[f].relay.Gone?) ==> !s.info[f].open)
    && (forall f :: f in s.toClose ==> f in s.info && !IsListed(s, f))
  }

  predicate Routed(s: System, t: Transfer) {
    t.flow in s.info && s.info[t.flow].client == t.client
  }

  predicate AllRouted(s: System) {
    && (forall i :: 0 <= i < |s.replies| ==> Routed(s, s.replies[i]))
    && (forall i :: 0 <= i < |s.forwards| ==> Routed(s, s.forwards[i]))
    && (s.loop.Sending? ==> Routed(s, Transfer(s.loop.client, s.loop.flow, s.loop.data)))
  }

  predicate Inv(s: System) {
    Counted(s) && ListedOk(s) && NoLeak(s) && AllRouted(s) && (s.loop.Stopped? ==> s.flows == map[])
  }

  predicate Initial(s: System) {
    && s.flows == map[] && s.info == map[] && s.made == 0 && s.active == 0 && s.total == 0
    && s.loop.Waiting? && s.toClose == {} && s.replies == [] && s.forwards == [] && !s.stopping
  }

  lemma InitialInv(s: System)
    requires Initial(s)
    ensures Inv(s)
  {
    assert Alive(s) == {};
  }

  // ----- what one step keeps -----

  /** Finding or dialling a flow changes nothing of the others but one time stamp. */
  lemma ListedFlows(s: System, client: Addr)
    requires s.made !in s.info
    ensures var t := Listed(s, client);
            && t == s.(flows := t.flows, info := t.info, made := t.made, active := t.active, total := t.total)
            && t.flows == (if client in s.flows then s.flows else s.flows[client := s.made])
            && t.info.Keys == (if client in s.flows then s.info.Keys else s.info.Keys + {s.made})
            && (client !in s.flows ==> t.info[s.made] == Flow(client, s.clock, true, Reading))
            && (forall f :: f in s.info ==> t.info[f] == s.info[f].(lastSeen := t.info[f].lastSeen))
            && (client !in s.flows ==> t.made == s.made + 1 && t.active == s.active + 1 && t.total == s.total + 1)
  {}

  /** What any step does to the flows already dialled: none disappears or changes client,
      none reopens, and only Deactivate ends a goroutine. */
  lemma FlowsStay(s: System, a: Action)
    requires Enabled(s, a) && s.made !in s.info
    ensures var s' := Apply(s, a);
            && (forall f :: f in s.info ==>
                  && f in s'.info && s'.info[f].client == s.info[f].client
                  && (s'.info[f].open ==> s.info[f].open)
                  && (s'.info[f].relay.Gone? <==> s.info[f].relay.Gone? || a == Deactivate(f)))
            && (forall f :: f in s'.info && f !in s.info ==> a.Receive? && f == s.made && !s'.info[f].relay.Gone?)
  {
    hide Stale, Listed;
    if a.Receive? {
      ListedFlows(s, a.client);
    }
  }

  /** What a flow just dialled adds to the counts. */
  lemma OneMoreAlive(s: System, t: System)
    requires s.made !in s.info && t.info.Keys == s.info.Keys + {s.made} && !t.info[s.made].relay.Gone?
    requires forall f :: f in s.info ==> t.info[f].relay == s.info[f].relay
    ensures |Alive(t)| == |Alive(s)| + 1 && |t.info| == |s.info| + 1
  {
    assert Alive(t) == Alive(s) + {s.made};
    assert |t.info.Keys| == |s.info.Keys| + 1;
  }

  lemma ReceiveCounted(s: System, a: Action)
    requires Counted(s) && Enabled(s, a) && a.Receive? && a.client !in s.flows && a.dialOk
    ensures Counted(Apply(s, a))
  {
    hide Listed, Alive;
    ListedFlows(s, a.client);
    OneMoreAlive(s, Apply(s, a));
  }

  lemma DeactivateCounted(s: System, f: nat)
    requires Counted(s) && Enabled(s, Deactivate(f))
    ensures Counted(Apply(s, Deactivate(f)))
  {
    var s' := Apply(s, Deactivate(f));
    assert Alive(s') == Alive(s) - {f};
    assert s'.info.Keys == s.info.Keys;
  }

  lemma QuietCounts(s: System, a: Action)
    requires Enabled(s, a) && !a.Deactivate? && !(a.Receive? && a.client !in s.flows && a.dialOk)
    ensures var s' := Apply(s, a);
            s'.active == s.active && s'.total == s.total && s'.made == s.made && s'.info.Keys == s.info.Keys
  {
    hide Stale;
  }

  lemma CountedKept(s: System, a: Action)
    requires Counted(s) && Enabled(s, a)
    ensures Counted(Apply(s, a))
  {
    hide Apply, Enabled;
    if a.Deactivate? {
      DeactivateCounted(s, a.f);
    } else if a.Receive? && a.client !in s.flows && a.dialOk {
      ReceiveCounted(s, a);
    } else {
      FlowsStay(s, a);
      QuietCounts(s, a);
      assert Alive(Apply(s, a)) == Alive(s);
      assert |Apply(s, a).info.Keys| == |s.info.Keys|;
    }
  }

  lemma ReceiveListed(s: System, a: Action)
    requires ListedOk(s) && s.made !in s.info && a.Receive? && Enabled(s, a)
    ensures ListedOk(Apply(s, a))
  {
    var s' := Apply(s, a);
    assert forall f :: f in s.info ==> (f in s'.info && s'.info[f] == s.info[f].(lastSeen := s'.info[f].lastSeen));
  }

  lemma RelayStepListed(s: System, a: Action)
    requires ListedOk(s) && Enabled(s, a)
    requires a.ReplyRead? || a.ReplyError? || a.ReplySend? || a.Deactivate? || a.CloseOwn?
    ensures ListedOk(Apply(s, a))
  {
    var s' := Apply(s, a);
    assert s'.flows == s.flows && s'.info.Keys == s.info.Keys;
    assert forall f :: f in s.info && f != a.f ==> s'.info[f] == s.info[f];
  }

  lemma UnlistListed(s: System, f: nat)
    requires ListedOk(s) && Enabled(s, Unlist(f))
    ensures ListedOk(Apply(s, Unlist(f)))
  {
    var s' := Apply(s, Unlist(f));
    assert forall g :: g in s.info && g != f ==> s'.info[g] == s.info[g];
    assert forall c :: c in s'.flows ==> s.flows[c] != f;
  }

  lemma ListedKept(s: System, a: Action)
    requires ListedOk(s) && Enabled(s, a) && s.made !in s.info
    requires forall f :: f in s.toClose ==> f in s.info && !IsListed(s, f)
    ensures ListedOk(Apply(s, a))
  {
    hide Stale, Listed, At;
    match a
    case Receive(_, _, _) => ReceiveListed(s, a);
    case Unlist(f) => UnlistListed(s, f);
    case ReapClose(f) => assert forall c :: c in s.flows ==> s.flows[c] != f;
    case Tick(_) =>
    case Stop =>
    case Send =>
    case ExitLoop =>
    case Reap =>
    case _ => RelayStepListed(s, a);
  }

  lemma StoppedKept(s: System, a: Action)
    requires Enabled(s, a) && (s.loop.Stopped? ==> s.flows == map[])
    ensures Apply(s, a).loop.Stopped? ==> Apply(s, a).flows == map[]
  {
    hide Stale, Listed;
  }

  /** A flow leaves the table only if it is stale, at shutdown, or by the hand of its own
      goroutine; a retired flow's late closeFlow never removes a newer one. */
  lemma OnlyOwnCloseUnlists(s: System, a: Action, c: Addr)
    requires Inv(s) && Enabled(s, a) && c in s.flows
    requires c !in Apply(s, a).flows || Apply(s, a).flows[c] != s.flows[c]
    ensures a.ExitLoop? || (a.Reap? && Stale(s, c)) || a == Unlist(s.flows[c])
    ensures c !in Apply(s, a).flows
  {
    hide AllRouted, Counted;
  }

  lemma ExitLoopNoLeak(s: System)
    requires NoLeak(s) && Enabled(s, ExitLoop)
    ensures NoLeak(Apply(s, ExitLoop))
  {
    var s' := Apply(s, ExitLoop);
    forall f | f in s'.info && s'.info[f].open
      ensures f in s'.toClose || s'.info[f].relay.Unlisted?
    {
      assert f !in s.flows.Values;
      assert !IsListed(s, f);
    }
  }

  lemma ReapNoLeak(s: System)
    requires NoLeak(s) && ListedOk(s) && Enabled(s, Reap)
    ensures NoLeak(Apply(s, Reap))
  {
    var s' := Apply(s, Reap);
    forall f | f in s'.info && s'.info[f].open
      ensures IsListed(s', f) || f in s'.toClose || s'.info[f].relay.Unlisted?
    {
      assert IsListed(s, f) || s.info[f].relay.Unlisted?;
    }
  }

  lemma ReceiveNoLeak(s: System, a: Action)
    requires NoLeak(s) && ListedOk(s) && s.made !in s.info && a.Receive? && Enabled(s, a)
    ensures NoLeak(Apply(s, a))
  {
    hide Listed, Stale;
    ListedFlows(s, a.client);
    var s' := Apply(s, a);
    assert forall f :: f in s.info ==> IsListed(s', f) == IsListed(s, f);
  }

  lemma SocketStepNoLeak(s: System, a: Action)
    requires NoLeak(s) && ListedOk(s) && Enabled(s, a) && (a.ReapClose? || a.CloseOwn?)
    ensures NoLeak(Apply(s, a))
  {
    var s' := Apply(s, a);
    assert forall f :: f in s.info ==> IsListed(s', f) == IsListed(s, f);
  }

  lemma UnlistNoLeak(s: System, f: nat)
    requires NoLeak(s) && Enabled(s, Unlist(f))
    ensures NoLeak(Apply(s, Unlist(f)))
  {
    var s' := Apply(s, Unlist(f));
    assert forall g :: g in s.info && g != f ==> IsListed(s', g) == IsListed(s, g);
  }

  /** The steps that close nothing and list nothing. */
  lemma RelayStepNoLeak(s: System, a: Action)
    requires NoLeak(s) && Enabled(s, a)
    requires a.Tick? || a.Stop? || a.Send? || a.ReplyRead? || a.ReplyError? || a.ReplySend? || a.Deactivate?
    ensures NoLeak(Apply(s, a))
  {
    var s' := Apply(s, a);
    assert s'.flows == s.flows && s'.toClose == s.toClose && s'.info.Keys == s.info.Keys;
    forall f | f in s.info
      ensures s'.info[f].client == s.info[f].client && s'.info[f].open == s.info[f].open
      ensures s'.info[f].relay.Unlisted? == s.info[f].relay.Unlisted?
      ensures (s'.info[f].relay.Closed? || s'.info[f].relay.Gone?) == (s.info[f].relay.Closed? || s.info[f].relay.Gone?)
    {
    }
  }

  lemma NoLeakKept(s: System, a: Action)
    requires NoLeak(s) && ListedOk(s) && s.made !in s.info && Enabled(s, a)
    ensures NoLeak(Apply(s, a))
  {
    hide Apply, NoLeak, ListedOk, Enabled;
    match a
    case ExitLoop => ExitLoopNoLeak(s);
    case Reap => ReapNoLeak(s);
    case Receive(_, _, _) => ReceiveNoLeak(s, a);
    case Unlist(f) => UnlistNoLeak(s, f);
    case ReapClose(_) => SocketStepNoLeak(s, a);
    case CloseOwn(_) => SocketStepNoLeak(s, a);
    case _ => RelayStepNoLeak(s, a);
  }

  /** What a step adds to the traffic: a reply that was written, to the client of the flow it
      was read from; and the pending datagram, if the socket of its flow is open. */
  lemma TrafficStep(s: System, a: Action)
    requires Enabled(s, a) && ListedOk(s) && s.made !in s.info
    ensures var s' := Apply(s, a);
            && s'.replies == s.replies
               + (if a.ReplySend? && a.ok then [Transfer(s.info[a.f].client, a.f, s.info[a.f].relay.data)] else [])
            && s'.forwards == s.forwards
               + (if a.Send? && s.info[s.loop.flow].open then [Transfer(s.loop.client, s.loop.flow, s.loop.data)] else [])
            && (a.Receive? ==> s'.loop == if a.client in s'.flows then Sending(s'.flows[a.client], a.client, a.data) else s.loop)
            && (a.Receive? && a.client in s'.flows ==> Routed(s', Transfer(a.client, s'.flows[a.client], a.data)))
            && (a.Send? ==> s'.loop == Waiting) && (a.ExitLoop? ==> s'.loop == Stopped)
            && (!a.Receive? && !a.Send? && !a.ExitLoop? ==> s'.loop == s.loop)
  {
    hide Stale;
  }

  lemma RoutedKept(s: System, a: Action)
    requires AllRouted(s) && ListedOk(s) && s.made !in s.info && Enabled(s, a)
    ensures AllRouted(Apply(s, a))
  {
    hide Apply, ListedOk;
    FlowsStay(s, a);
    TrafficStep(s, a);
    var s' := Apply(s, a);
    assert forall t :: Routed(s, t) ==> Routed(s', t);
  }

  lemma StepInv(s: System, a: Action)
    requires Inv(s) && Enabled(s, a)
    ensures Inv(Apply(s, a))
  {
    hide AllRouted, Apply, Enabled, Alive, IsListed;
    CountedKept(s, a);
    ListedKept(s, a);
    StoppedKept(s, a);
    NoLeakKept(s, a);
    RoutedKept(s, a);
  }

  // ----- whole executions -----

  function Execute(start: System, acts: seq<Action>): Option<System> {
    if acts == [] then Some(start)
    else
      var n := |acts| - 1;
      match Execute(start, acts[..n])
      case None => None
      case Some(s) => if Enabled(s, acts[n]) then Some(Apply(s, acts[n])) else None
  }

  lemma {:induction false} ExecuteInv(start: System, acts: seq<Action>, s: System)
    requires Initial(start) && Execute(start, acts) == Some(s)
    ensures Inv(s)
  {
    hide Inv, Apply, Enabled;
    InitialInv(start);
    if acts != [] {
      var n := |acts| - 1;
      var mid := Execute(start, acts[..n]).value;
      ExecuteInv(start, acts[..n], mid);
      StepInv(mid, acts[n]);
    }
  }

  /** In every interleaving: the active count is the number of flows whose goroutine has
      not ended, the total the number of flows opened; every reply went to the client
      whose datagram opened its flow, and every datagram went out through a flow of its
      own sender; no client's table entry is a flow of another. */
  lemma CountsAndRouting(start: System, acts: seq<Action>, s: System)
    requires Initial(start) && Execute(start, acts) == Some(s)
    ensures s.active == |Alive(s)| && s.total == |s.info|
    ensures forall i :: 0 <= i < |s.replies| ==> Routed(s, s.replies[i])
    ensures forall i :: 0 <= i < |s.forwards| ==> Routed(s, s.forwards[i])
    ensures forall c :: c in s.flows ==> s.flows[c] in s.info && s.info[s.flows[c]].client == c
  {
    ExecuteInv(start, acts, s);
  }

  predicate OwnStep(a: Action, f: nat) {
    a == ReplyError(f) || a == ReplySend(f, true) || a == Unlist(f) || a == CloseOwn(f) || a == Deactivate(f)
  }

  /** Nothing is left behind: once the loop has stopped, the reaper has closed its list
      and every flow's goroutine has ended, no socket is open and the count is zero; and
      until then, each unfinished flow has a step of its own to take. */
  lemma ShutdownCloses(start: System, acts: seq<Action>, s: System)
    requires Initial(start) && Execute(start, acts) == Some(s) && s.loop.Stopped? && s.toClose == {}
    ensures forall f :: f in s.info && s.info[f].open ==> s.info[f].relay.Unlisted?
    ensures (forall f :: f in s.info ==> s.info[f].relay.Gone?) ==> s.active == 0 && forall f :: f in s.info ==> !s.info[f].open
    ensures forall f :: f in s.info && !s.info[f].relay.Gone? ==> exists a :: OwnStep(a, f) && Enabled(s, a)
  {
    ExecuteInv(start, acts, s);
    if forall f :: f in s.info ==> s.info[f].relay.Gone? {
      assert Alive(s) == {};
    }
    forall f | f in s.info && !s.info[f].relay.Gone?
      ensures exists a :: OwnStep(a, f) && Enabled(s, a)
    {
      var a := match s.info[f].relay
        case Reading => ReplyError(f)
        case Got(_) => ReplySend(f, true)
        case Returned => Unlist(f)
        case Unlisted => CloseOwn(f)
        case Closed => Deactivate(f)
        case Gone => Stop;
      assert OwnStep(a, f) && Enabled(s, a);
    }
  }
}
