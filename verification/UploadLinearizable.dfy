/**
 Concurrent chunk requests behave as if each were served at once: every interleaving is
 equivalent to serving the answered requests one at a time, in the order in which their
 answers were decided, by the abstract session that UploadSession shows handleChunk to be.
 */
module UploadLinearizable {
  import opened Text
  import opened UploadLayout
  import opened UploadProtocol
  import opened UploadSession
  import opened UploadInterleaving

  function Content(file: seq<Cell>): Bytes {
    seq(|file|, k requires 0 <= k < |file| => if file[k].Cell? then file[k].b else 0)
  }

  /** The session that a shared state stands for: each recorded index with the content of
      its segment file. */
  function Abstract(s: System): World {
    World(Some(Session(s.layout, s.id, map i | i in s.received && i in s.segs :: Content(s.segs[i]))), None)
  }

  lemma ContentTagged(w: nat, bytes: Bytes)
    ensures Content(Tagged(w, bytes)) == bytes
  {}

  /** The step on which a call's answer is decided. */
  predicate Decides(s: System, a: Action, crc: Bytes -> string)
    requires Enabled(s, a)
  {
    s.calls[a.r].reply.None? && Apply(s, a, crc).calls[a.r].reply.Some?
  }

  /** The request as served: its record can be written unless this step is the failure. */
  function Served(s: System, a: Action): Request
    requires Enabled(s, a)
  {
    s.calls[a.r].req.(canWrite := !a.FailWrite?)
  }

  lemma RecordedPresent(s: System, crc: Bytes -> string)
    requires RecordedAreWhole(s, crc)
    ensures forall i :: i in s.received ==> i in s.segs
    ensures Abstract(s).session.value.bodies.Keys == s.received
  {
    forall i | i in s.received ensures i in s.segs {
      assert WholeSegment(s, crc, i);
    }
  }

  lemma AbstractStays(s: System, a: Action, crc: Bytes -> string)
    requires Inv(s, crc) && Enabled(s, a) && Apply(s, a, crc).received == s.received
    ensures Abstract(Apply(s, a, crc)) == Abstract(s)
  {
    hide Apply, Enabled, Content, RecordedAreWhole, LocksAgree, CallsOk, WellFormed;
    var s' := Apply(s, a, crc);
    RecordedStay(s, a, crc);
    RecordedPresent(s, crc);
    ApplyFrame(s, a, crc);
    forall i | i in s.received ensures i in s'.segs && s'.segs[i] == s.segs[i] {
      assert i in s.segs;
    }
    assert Abstract(s').session.value.bodies == Abstract(s).session.value.bodies;
  }

  lemma RenameAdds(s: System, a: Action, crc: Bytes -> string)
    requires Inv(s, crc) && Enabled(s, a) && a.Rename?
    ensures var call := s.calls[a.r];
            && call.req.part.Whole?
            && Abstract(Apply(s, a, crc)).session.value.bodies ==
               Abstract(s).session.value.bodies[call.req.index := call.req.part.bytes]
  {
    hide Content, Tagged, RecordedAreWhole, LocksAgree, WellFormed;
    var s' := Apply(s, a, crc);
    var call := s.calls[a.r];
    assert CallOk(s, crc, a.r);
    RecordedPresent(s, crc);
    ContentTagged(a.r, call.req.part.bytes);
  }

  /** Every step either changes nothing of the session and decides nothing, or decides one
      answer and is then exactly one atomic service of that request. */
  lemma StepIsAtomic(s: System, a: Action, crc: Bytes -> string)
    requires Inv(s, crc) && Enabled(s, a)
    ensures var s' := Apply(s, a, crc);
            if Decides(s, a, crc)
            then SpecChunk(Abstract(s), crc, Served(s, a)) == (Abstract(s'), s'.calls[a.r].reply.value)
            else Abstract(s') == Abstract(s)
  {
    hide Content, Tagged, WriteAt, LocksAgree, WellFormed, RecordedAreWhole, DigestOk, ChunkLength;
    assert CallOk(s, crc, a.r);
    RecordedPresent(s, crc);
    if a.Rename? {
      RenameAdds(s, a, crc);
    } else {
      AbstractStays(s, a, crc);
    }
  }

  // ----- whole executions -----

  /** The answered requests, in the order of their decisions, each with its call. */
  ghost function Decided(start: System, acts: seq<Action>, crc: Bytes -> string): seq<(nat, Request)> {
    if acts == [] then []
    else
      var n := |acts| - 1;
      match Execute(start, acts[..n], crc)
      case None => Decided(start, acts[..n], crc)
      case Some(s) =>
        if Enabled(s, acts[n]) && Decides(s, acts[n], crc)
        then Decided(start, acts[..n], crc) + [(acts[n].r, Served(s, acts[n]))]
        else Decided(start, acts[..n], crc)
  }

  ghost predicate AllChunks(ops: seq<(nat, Request)>) {
    forall k :: 0 <= k < |ops| ==> ops[k].1.Chunk?
  }

  /** Serving them one at a time. */
  ghost function Serve(w: World, crc: Bytes -> string, ops: seq<(nat, Request)>): (r: (World, seq<Reply>))
    requires AllChunks(ops)
    ensures |r.1| == |ops|
  {
    if ops == [] then (w, [])
    else
      var n := |ops| - 1;
      var (mid, replies) := Serve(w, crc, ops[..n]);
      var (end, reply) := SpecChunk(mid, crc, ops[n].1);
      (end, replies + [reply])
  }

  /** The list names each answered call once, with its own request and the given reply. */
  ghost predicate Explains(s: System, ops: seq<(nat, Request)>, replies: seq<Reply>) {
    && |replies| == |ops|
    && (forall k :: 0 <= k < |ops| ==>
          && ops[k].0 in s.calls && s.calls[ops[k].0].reply == Some(replies[k])
          && s.calls[ops[k].0].req.Chunk? && ops[k].1.Chunk? && ops[k].1 == s.calls[ops[k].0].req.(canWrite := ops[k].1.canWrite))
    && (forall j, k :: 0 <= j < k < |ops| ==> ops[j].0 != ops[k].0)
    && (forall r :: r in s.calls && s.calls[r].reply.Some? ==> exists k :: 0 <= k < |ops| && ops[k].0 == r)
  }

  lemma StepExplains(s: System, a: Action, crc: Bytes -> string, ops: seq<(nat, Request)>, replies: seq<Reply>)
    requires Inv(s, crc) && Enabled(s, a) && AllChunks(ops) && Explains(s, ops, replies)
    ensures var s' := Apply(s, a, crc);
            if Decides(s, a, crc)
            then AllChunks(ops + [(a.r, Served(s, a))])
                 && Explains(s', ops + [(a.r, Served(s, a))], replies + [s'.calls[a.r].reply.value])
            else Explains(s', ops, replies)
  {
    hide Apply, Enabled, Inv;
    StepExtends(s, a, crc);
    ApplyFrame(s, a, crc);
    var s' := Apply(s, a, crc);
    if Decides(s, a, crc) {
      var more := ops + [(a.r, Served(s, a))];
      forall r | r in s'.calls && s'.calls[r].reply.Some?
        ensures exists k :: 0 <= k < |more| && more[k].0 == r
      {
        if r == a.r {
          assert more[|ops|].0 == r;
        } else {
          var k :| 0 <= k < |ops| && ops[k].0 == r;
          assert more[k].0 == r;
        }
      }
    }
  }

  lemma NothingDecided(start: System, crc: Bytes -> string)
    requires Initial(start, crc)
    ensures Explains(start, [], [])
  {}

  /** Main result. Whatever the interleaving, serving the decided requests one at a time
      from the session the start state stands for ends in the session the end state stands
      for, and gives every call the reply it got. */
  lemma {:induction false} Linearizable(start: System, acts: seq<Action>, s: System, crc: Bytes -> string)
    requires Initial(start, crc) && Execute(start, acts, crc) == Some(s)
    ensures var ops := Decided(start, acts, crc);
            AllChunks(ops) && Serve(Abstract(start), crc, ops).0 == Abstract(s)
            && Explains(s, ops, Serve(Abstract(start), crc, ops).1)
  {
    hide Inv, Apply, Enabled, Decides, Served, Abstract, Explains, Initial, SpecChunk;
    if acts == [] {
      NothingDecided(start, crc);
    } else {
      var n := |acts| - 1;
      var mid := Execute(start, acts[..n], crc).value;
      Linearizable(start, acts[..n], mid, crc);
      InitialInv(start, crc);
      ExecuteKeeps(start, acts[..n], mid, crc);
      StepIsAtomic(mid, acts[n], crc);
      var ops := Decided(start, acts[..n], crc);
      StepExplains(mid, acts[n], crc, ops, Serve(Abstract(start), crc, ops).1);
      if Decides(mid, acts[n], crc) {
        assert (ops + [(acts[n].r, Served(mid, acts[n]))])[..|ops|] == ops;
      }
    }
  }

  /** Going on only appends to the order. */
  lemma {:induction false} DecidedGrows(start: System, acts: seq<Action>, more: seq<Action>, crc: Bytes -> string)
    ensures Decided(start, acts, crc) <= Decided(start, acts + more, crc)
  {
    hide Execute, Apply, Enabled, Decides, Served;
    if more == [] {
      assert acts + more == acts;
    } else {
      var n := |more| - 1;
      DecidedGrows(start, acts, more[..n], crc);
      assert (acts + more)[..|acts| + n] == acts + more[..n];
    }
  }

  lemma UnansweredIsUndecided(s: System, crc: Bytes -> string, ops: seq<(nat, Request)>, replies: seq<Reply>, q: nat)
    requires Inv(s, crc) && Explains(s, ops, replies) && q in s.calls && s.calls[q].pc.Start?
    ensures forall k :: 0 <= k < |ops| ==> ops[k].0 != q
  {
    assert CallOk(s, crc, q);
  }

  /** The order respects time: a call answered before another one began comes before it. */
  lemma RealTimeOrder(start: System, acts: seq<Action>, more: seq<Action>, s: System, crc: Bytes -> string, p: nat, q: nat, k: nat)
    requires Initial(start, crc) && Execute(start, acts, crc) == Some(s)
    requires p in s.calls && s.calls[p].reply.Some? && q in s.calls && s.calls[q].pc.Start?
    requires k < |Decided(start, acts + more, crc)| && Decided(start, acts + more, crc)[k].0 == q
    ensures exists j :: 0 <= j < k && Decided(start, acts + more, crc)[j].0 == p
  {
    hide Decided, Serve, Inv, Execute, Initial;
    InitialInv(start, crc);
    ExecuteKeeps(start, acts, s, crc);
    Linearizable(start, acts, s, crc);
    DecidedGrows(start, acts, more, crc);
    var ops := Decided(start, acts, crc);
    UnansweredIsUndecided(s, crc, ops, Serve(Abstract(start), crc, ops).1, q);
    var j :| 0 <= j < |ops| && ops[j].0 == p;
    assert Decided(start, acts + more, crc)[j] == ops[j];
  }
}
