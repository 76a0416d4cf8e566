/**
 What the UDP relay has done, told from its actions alone: who is listed with which flow,
 which datagrams have gone out, and which answers have come back, in which order. The state
 machine of UdpNat agrees with it in every interleaving.
 */
module UdpHistory {
  import opened Text
  import opened UdpNat

  // ----- the history -----

  function SilenceNext(before: nat, a: Action, c: Addr): nat {
    match a
    case Receive(client, _, _) => if client == c then 0 else before
    case Tick(d) => before + d
    case _ => before
  }

  /** Time since a client was last heard. */
  function Silence(acts: seq<Action>, c: Addr): nat {
    if acts == [] then 0 else SilenceNext(Silence(acts[..|acts| - 1], c), acts[|acts| - 1], c)
  }

  /** How an action changes the flow that a client is listed with, when dialled flows have
      been dialled and the client has been silent for some time. */
  function FlowNext(before: Option<nat>, a: Action, c: Addr, dialled: nat, silence: int): Option<nat> {
    match a
    case Receive(client, _, dialOk) => if client == c && before == None && dialOk then Some(dialled) else before
    case Reap => if silence > 120 then None else before
    case Unlist(f) => if before == Some(f) then None else before
    case ExitLoop => None
    case _ => before
  }

  /** The flow a client is listed with: dialled by a datagram that finds none, and kept until
      the reaper finds the client silent for more than two minutes, the flow's own goroutine
      takes it off, or the loop ends. */
  function FlowOf(acts: seq<Action>, c: Addr): Option<nat>
    decreases |acts|, 1
  {
    if acts == [] then None
    else
      var before := acts[..|acts| - 1];
      FlowNext(FlowOf(before, c), acts[|acts| - 1], c, Dialled(before), Silence(before, c))
  }

  /** The last action is a datagram for which a flow is dialled. */
  predicate Dials(acts: seq<Action>)
    requires acts != []
    decreases |acts|, 0
  {
    var a := acts[|acts| - 1];
    a.Receive? && a.dialOk && FlowOf(acts[..|acts| - 1], a.client) == None
  }

  /** How many flows have been dialled; they are numbered in this order. */
  function Dialled(acts: seq<Action>): nat
    decreases |acts|, 1
  {
    if acts == [] then 0 else Dialled(acts[..|acts| - 1]) + if Dials(acts) then 1 else 0
  }

  /** The client whose datagram opened flow f. */
  function Opener(acts: seq<Action>, f: nat): Addr {
    if acts == [] then ""
    else
      var n := |acts| - 1;
      if Dials(acts) && Dialled(acts[..n]) == f then acts[n].client else Opener(acts[..n], f)
  }

  predicate OpenNext(before: bool, a: Action, f: nat, dialled: bool, listed: bool) {
    match a
    case Receive(_, _, _) => before || dialled
    case ReapClose(g) => before && g != f
    case CloseOwn(g) => before && g != f
    case ExitLoop => before && !listed
    case _ => before
  }

  /** Whether the socket of flow f is open: since it was dialled, until the reaper or its own
      goroutine closes it, or the loop ends while it is listed. */
  predicate IsOpen(acts: seq<Action>, f: nat) {
    acts != [] &&
      var before := acts[..|acts| - 1];
      OpenNext(IsOpen(before, f), acts[|acts| - 1], f, Dials(acts) && Dialled(before) == f,
               FlowOf(before, Opener(before, f)) == Some(f))
  }

  /** What flow f's goroutine read last. */
  function LastRead(acts: seq<Action>, f: nat): Datagram {
    if acts == [] then ""
    else
      var n := |acts| - 1;
      if acts[n].ReplyRead? && acts[n].f == f then acts[n].data else LastRead(acts[..n], f)
  }

  function PhaseNext(before: Relay, a: Action, f: nat, stopping: bool): Relay {
    match a
    case ReplyRead(g, data) => if g == f then Got(data) else before
    case ReplyError(g) => if g == f then Returned else before
    case ReplySend(g, ok) => if g != f then before else if !ok && stopping then Returned else Reading
    case Unlist(g) => if g == f then Unlisted else before
    case CloseOwn(g) => if g == f then Closed else before
    case Deactivate(g) => if g == f then Gone else before
    case _ => before
  }

  /** Where flow f's goroutine is: a failed write to the client ends it only when the listener
      is stopping. */
  function Phase(acts: seq<Action>, f: nat): Relay {
    if acts == [] then Reading
    else PhaseNext(Phase(acts[..|acts| - 1], f), acts[|acts| - 1], f, Stop in acts[..|acts| - 1])
  }

  /** The answers given: what was read from a flow and then written without an error goes to
      the client that opened it. */
  function Answered(acts: seq<Action>): seq<Transfer> {
    if acts == [] then []
    else
      var before, a := acts[..|acts| - 1], acts[|acts| - 1];
      Answered(before) +
      if a.ReplySend? && a.ok then [Transfer(Opener(before, a.f), a.f, LastRead(before, a.f))] else []
  }

  /** The datagram the loop has received and not yet written. */
  function Pending(acts: seq<Action>): Option<Transfer> {
    if acts == [] then None
    else
      var n := |acts| - 1;
      match acts[n]
      case Receive(c, data, _) => if FlowOf(acts, c).Some? then Some(Transfer(c, FlowOf(acts, c).value, data)) else None
      case Send => None
      case _ => Pending(acts[..n])
  }

  /** The datagrams passed on: each in its turn, unless its flow's socket has been closed. */
  function Forwarded(acts: seq<Action>): seq<Transfer> {
    if acts == [] then []
    else
      var n := |acts| - 1;
      var p := Pending(acts[..n]);
      Forwarded(acts[..n]) + if acts[n].Send? && p.Some? && IsOpen(acts[..n], p.value.flow) then [p.value] else []
  }

  /** How many goroutines have ended. */
  function Ended(acts: seq<Action>): nat {
    if acts == [] then 0 else Ended(acts[..|acts| - 1]) + if acts[|acts| - 1].Deactivate? then 1 else 0
  }

  // ----- one step of the machine -----

  function Entry(s: System, c: Addr): Option<nat> {
    if c in s.flows then Some(s.flows[c]) else None
  }

  function Age(s: System, c: Addr): int
    requires c in s.flows && s.flows[c] in s.info
  {
    s.clock - s.info[s.flows[c]].lastSeen
  }

  predicate DialsNow(s: System, a: Action) {
    a.Receive? && a.dialOk && a.client !in s.flows
  }

  lemma TableStep(s: System, a: Action, c: Addr)
    requires Enabled(s, a) && ListedOk(s) && s.made !in s.info
    ensures Entry(Apply(s, a), c) == FlowNext(Entry(s, c), a, c, s.made, if c in s.flows then Age(s, c) else 0)
  {
  }

  lemma AgeStep(s: System, a: Action, c: Addr)
    requires Enabled(s, a) && ListedOk(s) && s.made !in s.info
    requires c in Apply(s, a).flows && Apply(s, a).flows[c] in Apply(s, a).info
    requires c in s.flows ==> Age(s, c) >= 0
    ensures c in s.flows ==> Age(Apply(s, a), c) == SilenceNext(Age(s, c), a, c)
    ensures c !in s.flows ==> Age(Apply(s, a), c) == 0 && a.Receive? && a.client == c
  {
  }

  lemma CountStep(s: System, a: Action)
    requires Enabled(s, a) && ListedOk(s) && s.made !in s.info
    ensures var s' := Apply(s, a);
            && s'.made == s.made + (if DialsNow(s, a) then 1 else 0)
            && s'.total == s.total + (if DialsNow(s, a) then 1 else 0)
            && s'.active == s.active + (if DialsNow(s, a) then 1 else 0) - (if a.Deactivate? then 1 else 0)
            && s'.info.Keys == if DialsNow(s, a) then s.info.Keys + {s.made} else s.info.Keys
  {
  }

  lemma FlowStep(s: System, a: Action, f: nat)
    requires Enabled(s, a) && ListedOk(s) && s.made !in s.info && f in s.info
    ensures var s' := Apply(s, a);
            && f in s'.info && s'.info[f].client == s.info[f].client
            && s'.info[f].open == OpenNext(s.info[f].open, a, f, false, IsListed(s, f))
            && s'.info[f].relay == PhaseNext(s.info[f].relay, a, f, s.stopping)
  {
  }

  lemma StoppingStep(s: System, a: Action)
    requires Enabled(s, a)
    ensures Apply(s, a).stopping == (s.stopping || a.Stop?)
  {
    hide Stale;
  }

  lemma NewFlowStep(s: System, a: Action)
    requires Enabled(s, a) && ListedOk(s) && s.made !in s.info && DialsNow(s, a)
    ensures s.made in Apply(s, a).info && Apply(s, a).info[s.made] == Flow(a.client, s.clock, true, Reading)
  {
  }

  // ----- the machine agrees with its history -----

  ghost predicate Listing(s: System, acts: seq<Action>) {
    && (forall c :: FlowOf(acts, c) == Entry(s, c))
    && (forall c :: c in s.flows ==> s.flows[c] in s.info && Age(s, c) == Silence(acts, c))
  }

  ghost predicate Flows(s: System, acts: seq<Action>) {
    && s.made == s.total == Dialled(acts) && s.active == Dialled(acts) - Ended(acts)
    && (forall f: nat :: f in s.info <==> f < Dialled(acts))
    && (forall f :: f in s.info ==> s.info[f].client == Opener(acts, f) && s.info[f].open == IsOpen(acts, f))
    && (forall f :: f in s.info && s.info[f].relay.Got? ==> s.info[f].relay.data == LastRead(acts, f))
  }

  /** Each goroutine is where its own actions have brought it; an undialled flow's has none. */
  ghost predicate Goroutines(s: System, acts: seq<Action>) {
    && (s.stopping <==> Stop in acts)
    && (forall f: nat :: Phase(acts, f) == if f in s.info then s.info[f].relay else Reading)
  }

  ghost predicate Traffic(s: System, acts: seq<Action>) {
    && s.replies == Answered(acts) && s.forwards == Forwarded(acts)
    && Pending(acts) == if s.loop.Sending? then Some(Transfer(s.loop.client, s.loop.flow, s.loop.data)) else None
  }

  ghost predicate Agrees(s: System, acts: seq<Action>) {
    Inv(s) && Listing(s, acts) && Flows(s, acts) && Goroutines(s, acts) && Traffic(s, acts)
  }

  /** s' is the state after acts, s the one before the last of them. */
  ghost predicate LastStep(s: System, acts: seq<Action>, s': System) {
    acts != [] && Enabled(s, acts[|acts| - 1]) && s' == Apply(s, acts[|acts| - 1]) && Agrees(s, acts[..|acts| - 1])
  }

  lemma TableAgrees(s: System, acts: seq<Action>, s': System, c: Addr)
    requires LastStep(s, acts, s')
    ensures FlowOf(acts, c) == Entry(s', c)
  {
    hide Apply, Enabled, NoLeak, AllRouted, Traffic, Alive, Dialled, Age, Silence;
    var before, a := acts[..|acts| - 1], acts[|acts| - 1];
    TableStep(s, a, c);
    assert FlowOf(before, c) == Entry(s, c) && Dialled(before) == s.made;
    assert c in s.flows ==> Age(s, c) == Silence(before, c);
  }

  lemma AgeAgrees(s: System, acts: seq<Action>, s': System, c: Addr)
    requires LastStep(s, acts, s') && c in s'.flows && s'.flows[c] in s'.info
    ensures Age(s', c) == Silence(acts, c)
  {
    hide Apply, Enabled, NoLeak, AllRouted, Traffic, Alive, Flows, Age, FlowOf;
    var before := acts[..|acts| - 1];
    assert c in s.flows ==> s.flows[c] in s.info && Age(s, c) == Silence(before, c);
    AgeStep(s, acts[|acts| - 1], c);
  }

  lemma ListingAgrees(s: System, acts: seq<Action>, s': System)
    requires LastStep(s, acts, s') && Inv(s')
    ensures Listing(s', acts)
  {
    hide LastStep, FlowOf, Silence, Entry, Age, NoLeak, AllRouted, Counted;
    forall c ensures FlowOf(acts, c) == Entry(s', c) {
      TableAgrees(s, acts, s', c);
    }
    forall c | c in s'.flows ensures s'.flows[c] in s'.info && Age(s', c) == Silence(acts, c) {
      AgeAgrees(s, acts, s', c);
    }
  }

  lemma DialsAgree(s: System, acts: seq<Action>, s': System)
    requires LastStep(s, acts, s')
    ensures Dials(acts) == DialsNow(s, acts[|acts| - 1])
    ensures s.made !in s.info && s.made == Dialled(acts[..|acts| - 1]) && ListedOk(s)
  {
    hide Apply, Enabled, NoLeak, AllRouted, Traffic, Alive, Dialled, FlowOf, Opener, IsOpen;
    var a := acts[|acts| - 1];
    if a.Receive? {
      assert FlowOf(acts[..|acts| - 1], a.client) == Entry(s, a.client);
    }
  }

  lemma CountsAgree(s: System, acts: seq<Action>, s': System)
    requires LastStep(s, acts, s')
    ensures s'.made == s'.total == Dialled(acts) && s'.active == Dialled(acts) - Ended(acts)
    ensures forall f: nat :: f in s'.info <==> f < Dialled(acts)
    ensures s'.info.Keys == if Dials(acts) then s.info.Keys + {Dialled(acts[..|acts| - 1])} else s.info.Keys
  {
    hide Apply, Enabled, Inv, Listing, Traffic, Dials, DialsNow, Opener, IsOpen, LastRead;
    DialsAgree(s, acts, s');
    CountStep(s, acts[|acts| - 1]);
  }

  lemma FlowAgrees(s: System, acts: seq<Action>, s': System, f: nat)
    requires LastStep(s, acts, s') && f in s'.info
    ensures s'.info[f].client == Opener(acts, f) && s'.info[f].open == IsOpen(acts, f)
    ensures s'.info[f].relay.Got? ==> s'.info[f].relay.data == LastRead(acts, f)
  {
    hide Apply, Inv, Traffic, Dials, Dialled, FlowOf, ListedOk;
    var before, a := acts[..|acts| - 1], acts[|acts| - 1];
    DialsAgree(s, acts, s');
    CountsAgree(s, acts, s');
    if f in s.info {
      assert FlowOf(before, s.info[f].client) == Entry(s, s.info[f].client);
      FlowStep(s, a, f);
    } else {
      NewFlowStep(s, a);
    }
  }

  lemma FlowsAgree(s: System, acts: seq<Action>, s': System)
    requires LastStep(s, acts, s')
    ensures Flows(s', acts)
  {
    hide LastStep, Opener, IsOpen, LastRead, Dials;
    CountsAgree(s, acts, s');
    forall f | f in s'.info
      ensures s'.info[f].client == Opener(acts, f) && s'.info[f].open == IsOpen(acts, f)
      ensures s'.info[f].relay.Got? ==> s'.info[f].relay.data == LastRead(acts, f)
    {
      FlowAgrees(s, acts, s', f);
    }
  }

  lemma PhaseAgrees(s: System, acts: seq<Action>, s': System, f: nat)
    requires LastStep(s, acts, s')
    ensures Phase(acts, f) == if f in s'.info then s'.info[f].relay else Reading
  {
    hide Apply, Inv, Traffic, Dials, Dialled, Listing, Opener, IsOpen, LastRead;
    var before, a := acts[..|acts| - 1], acts[|acts| - 1];
    DialsAgree(s, acts, s');
    CountsAgree(s, acts, s');
    assert Phase(before, f) == if f in s.info then s.info[f].relay else Reading;
    if f in s.info {
      FlowStep(s, a, f);
    } else if f in s'.info {
      NewFlowStep(s, a);
    }
  }

  lemma GoroutinesAgree(s: System, acts: seq<Action>, s': System)
    requires LastStep(s, acts, s')
    ensures Goroutines(s', acts)
  {
    hide Inv, Listing, Flows, Traffic, Phase;
    var before, a := acts[..|acts| - 1], acts[|acts| - 1];
    assert acts == before + [a];
    StoppingStep(s, a);
    forall f: nat ensures Phase(acts, f) == if f in s'.info then s'.info[f].relay else Reading {
      PhaseAgrees(s, acts, s', f);
    }
  }

  lemma TrafficAgrees(s: System, acts: seq<Action>, s': System)
    requires LastStep(s, acts, s') && Listing(s', acts)
    ensures Traffic(s', acts)
  {
    hide Apply, NoLeak, Stale, Alive;
    TrafficStep(s, acts[|acts| - 1]);
  }

  lemma Beginning(start: System)
    requires Initial(start)
    ensures Agrees(start, [])
  {
    InitialInv(start);
  }

  lemma StepsLast(s: System, acts: seq<Action>, s': System)
    requires acts != [] && Enabled(s, acts[|acts| - 1]) && s' == Apply(s, acts[|acts| - 1]) && Agrees(s, acts[..|acts| - 1])
    ensures LastStep(s, acts, s')
  {
    hide Apply, Enabled, Agrees;
  }

  /** Main result. In every interleaving of the loop, the goroutines and the reaper the state
      is the one that the actions tell: the table, the open sockets, the counts, and above all
      every answer and every datagram, in order. */
  lemma {:induction false} HistoryTold(start: System, acts: seq<Action>, s: System)
    requires Initial(start) && Execute(start, acts) == Some(s)
    ensures s.replies == Answered(acts) && s.forwards == Forwarded(acts)
    ensures s.total == Dialled(acts) && s.active == Dialled(acts) - Ended(acts)
    ensures forall c :: FlowOf(acts, c) == Entry(s, c)
    ensures forall f: nat :: f in s.info <==> f < Dialled(acts)
    ensures forall f :: f in s.info ==>
              s.info[f].client == Opener(acts, f) && s.info[f].open == IsOpen(acts, f) && s.info[f].relay == Phase(acts, f)
    ensures Agrees(s, acts)
  {
    hide Apply, Enabled, Inv, LastStep;
    if acts == [] {
      Beginning(start);
    } else {
      var n := |acts| - 1;
      var mid := Execute(start, acts[..n]).value;
      HistoryTold(start, acts[..n], mid);
      StepInv(mid, acts[n]);
      StepsLast(mid, acts, s);
      ListingAgrees(mid, acts, s);
      FlowsAgree(mid, acts, s);
      GoroutinesAgree(mid, acts, s);
      TrafficAgrees(mid, acts, s);
    }
  }

  // ----- what can always happen -----

  lemma ExecuteNext(start: System, acts: seq<Action>, s: System, a: Action)
    requires Execute(start, acts) == Some(s) && Enabled(s, a)
    ensures Execute(start, acts + [a]) == Some(Apply(s, a))
  {
    hide Enabled, Apply;
    assert (acts + [a])[..|acts|] == acts;
  }

  /** A client that sends while the loop waits gets its datagram through to the container and
      the container's answer back, provided nothing fails and its flow's goroutine, if it has
      one, is waiting for an answer. */
  lemma Conversation(start: System, acts: seq<Action>, s: System, c: Addr, question: Datagram, answer: Datagram) returns (s': System)
    requires Initial(start) && Execute(start, acts) == Some(s) && s.loop.Waiting?
    requires c in s.flows && s.flows[c] in s.info ==> s.info[s.flows[c]].relay.Reading?
    ensures var f := if c in s.flows then s.flows[c] else s.made;
            && Execute(start, acts + [Receive(c, question, true)] + [Send] + [ReplyRead(f, answer)] + [ReplySend(f, true)]) == Some(s')
            && s'.forwards == s.forwards + [Transfer(c, f, question)]
            && s'.replies == s.replies + [Transfer(c, f, answer)]
  {
    hide Execute, Alive, NoLeak, AllRouted;
    ExecuteInv(start, acts, s);
    var f := if c in s.flows then s.flows[c] else s.made;
    assert s.made !in s.info;
    s' := Apply(s, Receive(c, question, true));
    ExecuteNext(start, acts, s, Receive(c, question, true));
    ExecuteNext(start, acts + [Receive(c, question, true)], s', Send);
    s' := Apply(s', Send);
    ExecuteNext(start, acts + [Receive(c, question, true)] + [Send], s', ReplyRead(f, answer));
    s' := Apply(s', ReplyRead(f, answer));
    ExecuteNext(start, acts + [Receive(c, question, true)] + [Send] + [ReplyRead(f, answer)], s', ReplySend(f, true));
    s' := Apply(s', ReplySend(f, true));
  }

  /** When the reaper comes round, a client's flow is retired and its socket closed exactly if
      the client has been silent for more than two minutes. */
  lemma SilentRetired(start: System, acts: seq<Action>, s: System, c: Addr) returns (s': System)
    requires Initial(start) && Execute(start, acts) == Some(s) && c in s.flows && s.toClose == {}
    ensures Execute(start, acts + [Reap]) == Some(s')
    ensures Silence(acts, c) <= 120 ==> c in s'.flows && s'.flows[c] == s.flows[c] && s.flows[c] !in s'.toClose
    ensures Silence(acts, c) > 120 ==>
              && c !in s'.flows && Enabled(s', ReapClose(s.flows[c]))
              && s.flows[c] in Apply(s', ReapClose(s.flows[c])).info && !Apply(s', ReapClose(s.flows[c])).info[s.flows[c]].open
  {
    hide Execute, Counted, NoLeak, AllRouted, Flows, Traffic;
    HistoryTold(start, acts, s);
    assert c in s.flows ==> s.flows[c] in s.info && Age(s, c) == Silence(acts, c);
    ExecuteNext(start, acts, s, Reap);
    s' := Apply(s, Reap);
  }
}
