/**
 Concurrent chunk requests on one destination with a fixed layout
 (internal/server/chunkupload.go, handleChunk): every interleaving of any number of
 requests, retries of one index included. Each request is a program counter; the two
 keyed locks are the mutexes that KeyedLocks shows them to be.
 */
module UploadInterleaving {
  import opened RowMajor
  import opened Text
  import opened UploadLayout
  import opened UploadProtocol
  import opened UploadSession

  /** One byte of a segment file and the request that wrote it; a hole is what a write
      past the end of a file leaves behind. */
  datatype Cell = Hole | Cell(writer: nat, b: Byte)

  function Tagged(writer: nat, bytes: Bytes): seq<Cell> {
    seq(|bytes|, i requires 0 <= i < |bytes| => Cell(writer, bytes[i]))
  }

  datatype Pc =
    | Start
    | WantSegment
    | GotSegment
    | Writing(written: Bytes)
    | Written
    | GotState
    | HasCopy(received: set<int>)
    | TmpWritten
    | Leaving
    | Done

  /** One handleChunk call: its request, where it is, and its answer once it has one. */
  datatype Call = Call(req: Request, pc: Pc, reply: Option<Reply>)

  /** The shared state: the persisted received set, the temporary file next to it, the
      segment files, the two kinds of lock, and the calls. */
  datatype System = System(
    layout: Layout, id: string,
    received: set<int>, tmp: Option<set<int>>, segs: map<int, seq<Cell>>,
    segLock: map<int, nat>, stateLock: Option<nat>,
    calls: map<nat, Call>)

  datatype Action =
    | Begin(r: nat)
    | TakeSegment(r: nat)
    | Recheck(r: nat)
    | WriteByte(r: nat, b: Byte)
    | EndCopy(r: nat)
    | TakeState(r: nat)
    | ReadRecord(r: nat)
    | WriteTmp(r: nat)
    | Rename(r: nat)
    | FailWrite(r: nat)
    | Leave(r: nat)

  predicate Enabled(s: System, a: Action) {
    && a.r in s.calls && s.calls[a.r].req.Chunk?
    && var call := s.calls[a.r];
       match a
       case Begin(_) => call.pc.Start?
       case TakeSegment(_) => call.pc.WantSegment? && call.req.index !in s.segLock
       case Recheck(_) => call.pc.GotSegment?
       case WriteByte(_, b) =>
         call.pc.Writing? && (call.req.part.Whole? ==>
           |call.pc.written| < |call.req.part.bytes| && b == call.req.part.bytes[|call.pc.written|])
       case EndCopy(_) =>
         call.pc.Writing? && (call.req.part.Whole? ==> |call.pc.written| == |call.req.part.bytes|)
       case TakeState(_) => call.pc.Written? && s.stateLock.None?
       case ReadRecord(_) => call.pc.GotState?
       case WriteTmp(_) => call.pc.HasCopy?
       case Rename(_) => call.pc.TmpWritten? && s.tmp.Some?
       case FailWrite(_) => call.pc.HasCopy? || call.pc.TmpWritten?
       case Leave(_) => call.pc.Leaving?
  }

  /** A write at an offset: in place, or past the end with holes in between. */
  function WriteAt(file: seq<Cell>, off: nat, c: Cell): seq<Cell> {
    if off < |file| then file[off := c] else file + seq(off - |file|, _ => Hole) + [c]
  }

  function Move(s: System, r: nat, pc: Pc): System
    requires r in s.calls
  {
    s.(calls := s.calls[r := s.calls[r].(pc := pc)])
  }

  function Answer(s: System, r: nat, reply: Reply, pc: Pc): System
    requires r in s.calls
  {
    s.(calls := s.calls[r := s.calls[r].(pc := pc, reply := Some(reply))])
  }

  function Apply(s: System, a: Action, crc: Bytes -> string): System
    requires Enabled(s, a)
  {
    var r := a.r;
    var call := s.calls[r];
    var i := call.req.index;
    match a
    case Begin(_) =>
      if call.req.uploadId == "" then Answer(s, r, HandleRequired, Done)
      else if call.req.uploadId != s.id then Answer(s, r, WrongHandle, Done)
      else if i < 0 || i >= s.layout.totalChunks then Answer(s, r, OutOfRange, Done)
      else Move(s, r, WantSegment)
    case TakeSegment(_) => Move(s.(segLock := s.segLock[i := r]), r, GotSegment)
    case Recheck(_) =>
      if i in s.received then Answer(s, r, Resumed(i), Leaving)
      else if call.req.part.NotOnePart? then Answer(s, r, BadPart, Leaving)
      else Move(s.(segs := s.segs[i := []]), r, Writing([]))
    case WriteByte(_, b) =>
      var file := if i in s.segs then s.segs[i := WriteAt(s.segs[i], |call.pc.written|, Cell(r, b))] else s.segs;
      Move(s.(segs := file), r, Writing(call.pc.written + [b]))
    case EndCopy(_) =>
      if Acceptable(s.layout, crc, i, call.req.part, call.req.hash) then Move(s, r, Written)
      else Answer(s.(segs := s.segs - {i}), r, SegmentRejected, Leaving)
    case TakeState(_) => Move(s.(stateLock := Some(r)), r, GotState)
    case ReadRecord(_) => Move(s, r, HasCopy(s.received))
    case WriteTmp(_) => Move(s.(tmp := Some(call.pc.received + {i})), r, TmpWritten)
    case Rename(_) =>
      Answer(s.(received := s.tmp.value, tmp := None), r, Stored(i, if call.req.part.Whole? then crc(call.req.part.bytes) else ""), Leaving)
    case FailWrite(_) => Answer(s, r, WriteFailed, Leaving)
    case Leave(_) =>
      if s.stateLock == Some(r) then s.(stateLock := None)
      else Move(s.(segLock := s.segLock - {i}), r, Done)
  }

  // ----- the inductive invariant -----

  predicate HoldsSegment(pc: Pc) {
    !pc.Start? && !pc.WantSegment? && !pc.Done?
  }

  predicate HoldsState(pc: Pc) {
    pc.GotState? || pc.HasCopy? || pc.TmpWritten?
  }

  /** The segment file of index i was written from start to end by one request, is
      exactly as long as declared, and passed that request's checks. */
  ghost predicate WholeBy(s: System, crc: Bytes -> string, i: int, w: nat, bytes: Bytes) {
    && i in s.segs && s.segs[i] == Tagged(w, bytes) && |bytes| == ChunkLength(s.layout, i)
    && (w in s.calls ==> s.calls[w].req.Chunk? && s.calls[w].req.index == i
                         && s.calls[w].req.part == Whole(bytes) && DigestOk(crc, bytes, s.calls[w].req.hash))
  }

  ghost predicate WholeSegment(s: System, crc: Bytes -> string, i: int) {
    exists w: nat, bytes: Bytes :: WholeBy(s, crc, i, w, bytes)
  }

  ghost predicate RecordedAreWhole(s: System, crc: Bytes -> string) {
    forall i :: i in s.received ==> 0 <= i < s.layout.totalChunks && WholeSegment(s, crc, i)
  }

  predicate SegmentLocksAgree(s: System) {
    && (forall r :: r in s.calls && HoldsSegment(s.calls[r].pc) ==>
          s.calls[r].req.Chunk? && s.calls[r].req.index in s.segLock && s.segLock[s.calls[r].req.index] == r)
    && (forall i :: i in s.segLock ==>
          && s.segLock[i] in s.calls && s.calls[s.segLock[i]].req.Chunk? && s.calls[s.segLock[i]].req.index == i
          && HoldsSegment(s.calls[s.segLock[i]].pc))
  }

  predicate StateLockAgrees(s: System) {
    && (forall r :: r in s.calls && HoldsState(s.calls[r].pc) ==> s.stateLock == Some(r))
    && (s.stateLock.None? || (
          && s.stateLock.value in s.calls
          && (HoldsState(s.calls[s.stateLock.value].pc) || s.calls[s.stateLock.value].pc.Leaving?)))
  }

  predicate LocksAgree(s: System) {
    SegmentLocksAgree(s) && StateLockAgrees(s)
  }

  predicate AnsweredOk(call: Call) {
    call.reply.Some? && (call.reply.value.Stored? || call.reply.value.Resumed?)
  }

  /** What each call may rely on at its program counter. */
  predicate CallOk(s: System, crc: Bytes -> string, r: nat)
    requires r in s.calls
  {
    var call := s.calls[r];
    call.req.Chunk? &&
    var i := call.req.index;
    && (!call.pc.Start? && !call.pc.Done? ==> call.req.uploadId == s.id != "" && 0 <= i < s.layout.totalChunks)
    && (call.pc.Writing? ==>
          i !in s.received && !call.req.part.NotOnePart? && i in s.segs && s.segs[i] == Tagged(r, call.pc.written)
          && (call.req.part.Whole? ==> call.pc.written <= call.req.part.bytes))
    && (call.pc.Written? || HoldsState(call.pc) ==>
          i !in s.received && Acceptable(s.layout, crc, i, call.req.part, call.req.hash)
          && i in s.segs && s.segs[i] == Tagged(r, call.req.part.bytes))
    && (call.pc.HasCopy? ==> call.pc.received == s.received)
    && (call.pc.TmpWritten? ==> s.tmp == Some(s.received + {i}))
    && (AnsweredOk(call) ==> i in s.received && call.reply.value.index == i)
    && (call.reply.Some? <==> call.pc.Leaving? || call.pc.Done?)
  }

  predicate CallsOk(s: System, crc: Bytes -> string) {
    forall r :: r in s.calls ==> CallOk(s, crc, r)
  }

  ghost predicate Inv(s: System, crc: Bytes -> string) {
    WellFormed(s.layout) && RecordedAreWhole(s, crc) && LocksAgree(s) && CallsOk(s, crc)
  }

  /** Any set of chunk requests about to start, on a record each of whose indices is
      backed by a whole segment (none, right after a fresh init). */
  ghost predicate Initial(s: System, crc: Bytes -> string) {
    && WellFormed(s.layout) && RecordedAreWhole(s, crc)
    && s.segLock == map[] && s.stateLock == None
    && forall r :: r in s.calls ==> s.calls[r].req.Chunk? && s.calls[r].pc.Start? && s.calls[r].reply.None?
  }

  lemma InitialInv(s: System, crc: Bytes -> string)
    requires Initial(s, crc)
    ensures Inv(s, crc)
  {}

  // ----- what one step keeps -----

  /** A step moves one call, touches one segment and one segment lock at most, and
      changes the record only by a rename. */
  lemma ApplyFrame(s: System, a: Action, crc: Bytes -> string)
    requires Enabled(s, a)
    ensures var s' := Apply(s, a, crc);
            && a.r in s.calls && s.calls[a.r].req.Chunk? && s'.layout == s.layout && s'.id == s.id
            && s'.calls.Keys == s.calls.Keys
            && s'.calls[a.r].req == s.calls[a.r].req
            && (forall q :: q in s.calls && q != a.r ==> s'.calls[q] == s.calls[q])
            && (forall i :: i != s.calls[a.r].req.index ==>
                  && (i in s'.segs <==> i in s.segs) && (i in s.segs ==> s'.segs[i] == s.segs[i])
                  && (i in s'.segLock <==> i in s.segLock) && (i in s.segLock ==> s'.segLock[i] == s.segLock[i]))
            && (s'.segs == s.segs || HoldsSegment(s.calls[a.r].pc))
            && (s'.received == s.received || (a.Rename? && s'.received == s.tmp.value))
            && (s'.tmp == s.tmp || a.WriteTmp? || a.Rename?)
            && (s'.stateLock == s.stateLock || a.TakeState? || (a.Leave? && s.stateLock == Some(a.r)))
  {
    hide WriteAt, Acceptable;
  }

  lemma SegmentLockMoves(s: System, a: Action, crc: Bytes -> string)
    requires Enabled(s, a)
    ensures var s' := Apply(s, a, crc);
            var i := s.calls[a.r].req.index;
            var held, holds := HoldsSegment(s.calls[a.r].pc), HoldsSegment(s'.calls[a.r].pc);
            || (s'.segLock == s.segLock && held == holds)
            || (s'.segLock == s.segLock[i := a.r] && i !in s.segLock && !held && holds)
            || (s'.segLock == s.segLock - {i} && held && !holds)
  {
    hide WriteAt, Acceptable;
  }

  lemma SegmentLocksKept(s: System, a: Action, crc: Bytes -> string)
    requires SegmentLocksAgree(s) && Enabled(s, a)
    ensures SegmentLocksAgree(Apply(s, a, crc))
  {
    hide Apply, HoldsSegment, Enabled;
    ApplyFrame(s, a, crc);
    SegmentLockMoves(s, a, crc);
    var s' := Apply(s, a, crc);
    forall q | q in s'.calls && HoldsSegment(s'.calls[q].pc)
      ensures s'.calls[q].req.Chunk? && s'.calls[q].req.index in s'.segLock && s'.segLock[s'.calls[q].req.index] == q
    {
      assert s'.calls[q].req == s.calls[q].req;
    }
  }

  lemma StateLockMoves(s: System, a: Action, crc: Bytes -> string)
    requires Enabled(s, a) && (HoldsState(s.calls[a.r].pc) ==> s.stateLock == Some(a.r))
    ensures var s' := Apply(s, a, crc);
            && (HoldsState(s'.calls[a.r].pc) ==> s'.stateLock == Some(a.r))
            && (s.stateLock == Some(a.r) == s'.stateLock && HoldsState(s.calls[a.r].pc) ==>
                  HoldsState(s'.calls[a.r].pc) || s'.calls[a.r].pc.Leaving?)
            && (s.stateLock == Some(a.r) == s'.stateLock ==> !s.calls[a.r].pc.Leaving?)
            && (s'.stateLock == s.stateLock
                || (s.stateLock == None && s'.stateLock == Some(a.r) && HoldsState(s'.calls[a.r].pc))
                || (s'.stateLock == None && s.stateLock == Some(a.r)))
  {
    hide WriteAt, Acceptable;
  }

  lemma StateLockKept(s: System, a: Action, crc: Bytes -> string)
    requires StateLockAgrees(s) && Enabled(s, a)
    ensures StateLockAgrees(Apply(s, a, crc))
  {
    hide Apply, HoldsState, Enabled;
    ApplyFrame(s, a, crc);
    StateLockMoves(s, a, crc);
  }

  lemma TaggedGrows(w: nat, bytes: Bytes, b: Byte)
    ensures WriteAt(Tagged(w, bytes), |bytes|, Cell(w, b)) == Tagged(w, bytes + [b])
  {}

  lemma WriteByteKept(s: System, a: Action, crc: Bytes -> string)
    requires a.WriteByte? && a.r in s.calls && CallOk(s, crc, a.r) && Enabled(s, a)
    ensures CallOk(Apply(s, a, crc), crc, a.r)
  {
    hide Tagged, WriteAt, Acceptable;
    TaggedGrows(a.r, s.calls[a.r].pc.written, a.b);
  }

  lemma EndCopyKept(s: System, a: Action, crc: Bytes -> string)
    requires a.EndCopy? && a.r in s.calls && CallOk(s, crc, a.r) && Enabled(s, a)
    ensures CallOk(Apply(s, a, crc), crc, a.r)
  {
    hide Tagged, DigestOk, ChunkLength;
    var call := s.calls[a.r];
    if Acceptable(s.layout, crc, call.req.index, call.req.part, call.req.hash) {
      assert call.pc.written == call.req.part.bytes;
    }
  }

  lemma OtherStepKept(s: System, a: Action, crc: Bytes -> string)
    requires !a.WriteByte? && !a.EndCopy? && a.r in s.calls && CallOk(s, crc, a.r) && Enabled(s, a)
    ensures CallOk(Apply(s, a, crc), crc, a.r)
  {
    hide WriteAt, Acceptable;
  }

  lemma OwnCallKept(s: System, a: Action, crc: Bytes -> string)
    requires a.r in s.calls && CallOk(s, crc, a.r) && Enabled(s, a)
    ensures CallOk(Apply(s, a, crc), crc, a.r)
  {
    hide Apply, Enabled, CallOk;
    match a
    case WriteByte(_, _) => WriteByteKept(s, a, crc);
    case EndCopy(_) => EndCopyKept(s, a, crc);
    case _ => OtherStepKept(s, a, crc);
  }

  /** No two calls are past the segment lock of one index, nor past the state lock. */
  lemma OthersApart(s: System, crc: Bytes -> string, r: nat, q: nat)
    requires LocksAgree(s) && CallsOk(s, crc) && r in s.calls && q in s.calls && r != q
    ensures HoldsSegment(s.calls[r].pc) && HoldsSegment(s.calls[q].pc) ==> s.calls[r].req.index != s.calls[q].req.index
    ensures HoldsState(s.calls[r].pc) ==> !HoldsState(s.calls[q].pc)
  {
    assert CallOk(s, crc, r) && CallOk(s, crc, q);
  }

  lemma OtherCallKept(s: System, a: Action, crc: Bytes -> string, q: nat)
    requires Inv(s, crc) && Enabled(s, a) && q in s.calls && q != a.r
    ensures q in Apply(s, a, crc).calls && CallOk(Apply(s, a, crc), crc, q)
  {
    hide Apply, Tagged, RecordedAreWhole, WellFormed, Acceptable;
    OthersApart(s, crc, a.r, q);
    ApplyFrame(s, a, crc);
    assert CallOk(s, crc, q) && CallOk(s, crc, a.r);
  }

  /** The own index of a step: recorded, its segment is not written; a rename adds it. */
  lemma RecordedUntouched(s: System, a: Action, crc: Bytes -> string)
    requires a.r in s.calls && CallOk(s, crc, a.r) && Enabled(s, a)
    ensures s.calls[a.r].req.index in s.received ==> Apply(s, a, crc).segs == s.segs
    ensures a.Rename? ==> s.tmp.value == s.received + {s.calls[a.r].req.index}
  {
    hide Tagged, WriteAt, Acceptable;
  }

  /** Recorded segments are never written again: the record only grows, and the file of
      every recorded index stays as it is. */
  lemma RecordedStay(s: System, a: Action, crc: Bytes -> string)
    requires Inv(s, crc) && Enabled(s, a)
    ensures var s' := Apply(s, a, crc);
            && s.received <= s'.received
            && (forall i :: i in s.received && i in s.segs ==> i in s'.segs && s'.segs[i] == s.segs[i])
            && (forall i :: i in s'.received - s.received ==> a.Rename? && i == s.calls[a.r].req.index)
  {
    hide Apply, RecordedAreWhole, LocksAgree, WellFormed, CallOk;
    ApplyFrame(s, a, crc);
    assert CallOk(s, crc, a.r);
    RecordedUntouched(s, a, crc);
  }

  lemma WholeStays(s: System, a: Action, crc: Bytes -> string, i: int)
    requires Enabled(s, a) && WholeSegment(s, crc, i)
    requires var s' := Apply(s, a, crc); i in s'.segs && s'.segs[i] == s.segs[i]
    ensures WholeSegment(Apply(s, a, crc), crc, i)
  {
    ApplyFrame(s, a, crc);
    var s' := Apply(s, a, crc);
    var w, bytes :| WholeBy(s, crc, i, w, bytes);
    assert WholeBy(s', crc, i, w, bytes);
  }

  lemma RecordedWholeKept(s: System, a: Action, crc: Bytes -> string)
    requires Inv(s, crc) && Enabled(s, a)
    ensures RecordedAreWhole(Apply(s, a, crc), crc)
  {
    RecordedStay(s, a, crc);
    ApplyFrame(s, a, crc);
    var s' := Apply(s, a, crc);
    forall i | i in s'.received
      ensures 0 <= i < s'.layout.totalChunks && WholeSegment(s', crc, i)
    {
      if i in s.received {
        WholeStays(s, a, crc, i);
      } else {
        assert CallOk(s, crc, a.r);
        assert s'.segs == s.segs;
        assert WholeBy(s', crc, i, a.r, s.calls[a.r].req.part.bytes);
      }
    }
  }

  /** Every step of every call keeps the invariant. */
  lemma StepInv(s: System, a: Action, crc: Bytes -> string)
    requires Inv(s, crc) && Enabled(s, a)
    ensures Inv(Apply(s, a, crc), crc)
  {
    RecordedWholeKept(s, a, crc);
    SegmentLocksKept(s, a, crc);
    StateLockKept(s, a, crc);
    ApplyFrame(s, a, crc);
    assert CallOk(s, crc, a.r);
    OwnCallKept(s, a, crc);
    forall q | q in s.calls && q != a.r ensures CallOk(Apply(s, a, crc), crc, q) {
      OtherCallKept(s, a, crc, q);
    }
  }

  // ----- whole executions -----

  /** Performing acts one after the other; None when one of them is not enabled. */
  function Execute(start: System, acts: seq<Action>, crc: Bytes -> string): Option<System> {
    if acts == [] then Some(start)
    else
      var n := |acts| - 1;
      match Execute(start, acts[..n], crc)
      case None => None
      case Some(s) => if Enabled(s, acts[n]) then Some(Apply(s, acts[n], crc)) else None
  }

  /** What a later state keeps of an earlier one: recorded indices, their files, answers. */
  ghost predicate Extends(s: System, t: System) {
    && t.layout == s.layout && t.calls.Keys == s.calls.Keys
    && s.received <= t.received
    && (forall i :: i in s.received && i in s.segs ==> i in t.segs && t.segs[i] == s.segs[i])
    && (forall r :: r in s.calls ==> t.calls[r].req == s.calls[r].req)
    && (forall r :: r in s.calls && s.calls[r].reply.Some? ==> t.calls[r].reply == s.calls[r].reply)
  }

  predicate StoredIndex(call: Call, i: int) {
    call.reply.Some? && call.reply.value.Stored? && call.reply.value.index == i
  }

  /** The record is the initial one plus the indices answered as stored. */
  predicate Accounted(start: System, s: System) {
    && (forall i :: i in start.received ==> i in s.received)
    && (forall i :: i in s.received - start.received ==>
          exists r :: r in s.calls && StoredIndex(s.calls[r], i))
  }

  lemma ReplyKept(s: System, a: Action, crc: Bytes -> string)
    requires Enabled(s, a) && CallOk(s, crc, a.r)
    ensures s.calls[a.r].reply.Some? ==> Apply(s, a, crc).calls[a.r].reply == s.calls[a.r].reply
    ensures a.Rename? ==> StoredIndex(Apply(s, a, crc).calls[a.r], s.calls[a.r].req.index)
  {
    hide WriteAt, Acceptable, Tagged;
  }

  lemma StepExtends(s: System, a: Action, crc: Bytes -> string)
    requires Inv(s, crc) && Enabled(s, a)
    ensures Extends(s, Apply(s, a, crc))
  {
    hide Apply, CallOk, RecordedAreWhole, LocksAgree, WellFormed, StoredIndex;
    RecordedStay(s, a, crc);
    ApplyFrame(s, a, crc);
    assert CallOk(s, crc, a.r);
    ReplyKept(s, a, crc);
  }

  lemma StoredReply(before: Call, after: Call, i: int)
    requires StoredIndex(before, i) && (before.reply.Some? ==> after.reply == before.reply)
    ensures StoredIndex(after, i)
  {}

  lemma AccountedExtends(start: System, s: System, t: System, q: nat)
    requires Accounted(start, s) && Extends(s, t) && q in t.calls
    requires forall i :: i in t.received - s.received ==> StoredIndex(t.calls[q], i)
    ensures Accounted(start, t)
  {
    hide StoredIndex;
    forall i | i in t.received - start.received
      ensures exists r :: r in t.calls && StoredIndex(t.calls[r], i)
    {
      if i in s.received {
        assert i in s.received - start.received;
        var r :| r in s.calls && StoredIndex(s.calls[r], i);
        StoredReply(s.calls[r], t.calls[r], i);
      } else {
        assert StoredIndex(t.calls[q], i);
      }
    }
  }

  lemma StepAccounted(start: System, s: System, a: Action, crc: Bytes -> string)
    requires Inv(s, crc) && Enabled(s, a) && Accounted(start, s)
    ensures Accounted(start, Apply(s, a, crc))
  {
    StepExtends(s, a, crc);
    RecordedStay(s, a, crc);
    assert CallOk(s, crc, a.r);
    ReplyKept(s, a, crc);
    AccountedExtends(start, s, Apply(s, a, crc), a.r);
  }

  lemma ExtendsTransitive(s: System, t: System, u: System, crc: Bytes -> string)
    requires Extends(s, t) && Extends(t, u) && RecordedAreWhole(s, crc)
    ensures Extends(s, u)
  {}

  lemma {:induction false} ExecuteKeeps(start: System, acts: seq<Action>, s: System, crc: Bytes -> string)
    requires Inv(start, crc) && Execute(start, acts, crc) == Some(s)
    ensures Inv(s, crc) && Extends(start, s) && Accounted(start, s)
  {
    if acts != [] {
      var n := |acts| - 1;
      var mid := Execute(start, acts[..n], crc).value;
      ExecuteKeeps(start, acts[..n], mid, crc);
      assert RecordedAreWhole(start, crc);
      StepInv(mid, acts[n], crc);
      StepExtends(mid, acts[n], crc);
      StepAccounted(start, mid, acts[n], crc);
      ExtendsTransitive(start, mid, s, crc);
    }
  }

  lemma WholePresent(s: System, crc: Bytes -> string, i: int)
    requires WholeSegment(s, crc, i)
    ensures i in s.segs
  {}

  /** Call r was answered ok in s: from s on to t its index is recorded and its segment
      is whole and unchanged. */
  ghost predicate KeptForGood(s: System, t: System, crc: Bytes -> string, r: nat)
    requires r in s.calls && AnsweredOk(s.calls[r]) && t.calls.Keys == s.calls.Keys
  {
    var i := s.calls[r].reply.value.index;
    && s.calls[r].req.Chunk? && i == s.calls[r].req.index && t.calls[r].reply == s.calls[r].reply
    && i in s.received && i in t.received
    && i in s.segs && i in t.segs && t.segs[i] == s.segs[i] && WholeSegment(t, crc, i)
  }

  /** No lost update, in every interleaving: at any point every recorded index has a
      segment of exactly its declared length written by one request, the record is the
      initial one plus what was answered as stored, and every request answered ok has its
      index - and its unchanged segment - in the record of every later point. */
  lemma NoLostUpdate(start: System, acts: seq<Action>, more: seq<Action>, s: System, t: System, crc: Bytes -> string)
    requires Initial(start, crc)
    requires Execute(start, acts, crc) == Some(s) && Execute(s, more, crc) == Some(t)
    ensures RecordedAreWhole(s, crc) && Accounted(start, s)
    ensures s.received <= t.received && t.calls.Keys == s.calls.Keys
    ensures forall r :: r in s.calls && AnsweredOk(s.calls[r]) ==> KeptForGood(s, t, crc, r)
  {
    InitialInv(start, crc);
    ExecuteKeeps(start, acts, s, crc);
    ExecuteKeeps(s, more, t, crc);
    forall r | r in s.calls && AnsweredOk(s.calls[r])
      ensures KeptForGood(s, t, crc, r)
    {
      assert CallOk(s, crc, r);
      var i := s.calls[r].reply.value.index;
      assert WholeSegment(s, crc, i) && WholeSegment(t, crc, i);
      WholePresent(s, crc, i);
    }
  }

  /** The step of a call that waits for no lock. */
  lemma OwnMove(s: System, crc: Bytes -> string, p: nat) returns (a: Action)
    requires Inv(s, crc) && p in s.calls && !s.calls[p].pc.Done?
    requires s.calls[p].pc.WantSegment? ==> s.calls[p].req.index !in s.segLock
    requires s.calls[p].pc.Written? ==> s.stateLock.None?
    ensures Enabled(s, a) && a.r == p
  {
    assert CallOk(s, crc, p);
    match s.calls[p].pc
    case Start => a := Begin(p);
    case WantSegment => a := TakeSegment(p);
    case GotSegment => a := Recheck(p);
    case Writing(written) =>
      var part := s.calls[p].req.part;
      a := if part.Whole? && |written| < |part.bytes| then WriteByte(p, part.bytes[|written|]) else EndCopy(p);
    case Written => a := TakeState(p);
    case GotState => a := ReadRecord(p);
    case HasCopy(_) => a := WriteTmp(p);
    case TmpWritten => a := Rename(p);
    case Leaving => a := Leave(p);
  }

  /** The call, the holder of the segment lock it waits for, or the holder of the state
      lock that one waits for, can move. */
  lemma Mover(s: System, crc: Bytes -> string, r: nat) returns (a: Action)
    requires Inv(s, crc) && r in s.calls && !s.calls[r].pc.Done?
    ensures Enabled(s, a)
  {
    hide Enabled, RecordedAreWhole, WellFormed;
    assert CallOk(s, crc, r);
    var q := if s.calls[r].pc.WantSegment? && s.calls[r].req.index in s.segLock then s.segLock[s.calls[r].req.index] else r;
    var p := if s.calls[q].pc.Written? && s.stateLock.Some? then s.stateLock.value else q;
    a := OwnMove(s, crc, p);
  }

  /** The one thing a call may have to wait for: the lock of its own segment, held by another
      call for the same index, or the record's lock. Calls for different chunks copy at once. */
  lemma WaitsOnlyFor(s: System, crc: Bytes -> string, r: nat)
    requires Inv(s, crc) && r in s.calls && !s.calls[r].pc.Done?
    ensures || (exists a: Action :: a.r == r && Enabled(s, a))
            || (s.calls[r].pc.WantSegment?
                && exists q :: q in s.calls && q != r && HoldsSegment(s.calls[q].pc) && s.calls[q].req.index == s.calls[r].req.index)
            || (s.calls[r].pc.Written? && s.stateLock.Some?)
  {
    hide RecordedAreWhole, Tagged;
    var pc := s.calls[r].pc;
    assert CallOk(s, crc, r);
    if pc.WantSegment? && s.calls[r].req.index in s.segLock {
      var q := s.segLock[s.calls[r].req.index];
      assert q in s.calls && HoldsSegment(s.calls[q].pc);
    } else if !(pc.Written? && s.stateLock.Some?) {
      var a := OwnMove(s, crc, r);
    }
  }

  /** The calls never block each other for good: while one is unfinished, some call can
      move; and when all have finished, no lock is left behind. */
  lemma NoDeadlock(s: System, crc: Bytes -> string)
    requires Inv(s, crc)
    ensures (exists r :: r in s.calls && !s.calls[r].pc.Done?) ==> exists a :: Enabled(s, a)
    ensures (forall r :: r in s.calls ==> s.calls[r].pc.Done?) ==> s.segLock == map[] && s.stateLock == None
  {
    if r :| r in s.calls && !s.calls[r].pc.Done? {
      var a := Mover(s, crc, r);
    }
    if forall r :: r in s.calls ==> s.calls[r].pc.Done? {
      assert forall i :: i !in s.segLock;
    }
  }
}
