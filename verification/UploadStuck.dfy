/**
 What two holders of one segment lock can do to an upload: a retry that breaks off removes the
 segment that a first call has already been answered ok for. The record keeps the index, so a
 resend is only confirmed and no completion succeeds, until the upload is aborted or opened
 anew with another layout. The digests do not help: there is nothing left to check.
 */
module UploadStuck {
  import opened Text
  import opened UploadLayout
  import opened UploadProtocol
  import opened UploadInterleaving
  import opened UploadSession
  import opened UploadRuns

  // ----- how it comes about -----

  ghost predicate Reaches(s: System, t: System, crc: Bytes -> string) {
    exists acts :: Execute(s, acts, crc) == Some(t)
  }

  lemma ReachesSelf(s: System, crc: Bytes -> string)
    ensures Reaches(s, s, crc)
  {
    assert Execute(s, [], crc) == Some(s);
  }

  lemma ReachesNext(s: System, t: System, a: Action, crc: Bytes -> string) returns (t': System)
    requires Reaches(s, t, crc) && Enabled(t, a)
    ensures t' == Apply(t, a, crc) && Reaches(s, t', crc)
  {
    hide Apply, Enabled;
    t' := Apply(t, a, crc);
    var acts :| Execute(s, acts, crc) == Some(t);
    assert (acts + [a])[..|acts|] == acts;
    assert Execute(s, acts + [a], crc) == Some(t');
  }

  function Whole7(): Request {
    Chunk("h", 0, Whole([7]), "", true)
  }

  function Calls(pc1: Pc, reply1: Option<Reply>, pc2: Pc, reply2: Option<Reply>): map<nat, Call> {
    map[1 := Call(Whole7(), pc1, reply1),
        2 := Call(Chunk("h", 0, Broken, "", true), pc2, reply2),
        3 := Call(Whole7(), Start, None)]
  }

  /** An upload of one byte. Calls 1 and 2 are both past the lock of segment 0, as the pool
      allows once it has evicted a held entry; the body of call 2 will break off. Call 3 is
      the client sending the chunk again. */
  function TwoPast(): System {
    System(Layout(1, 1, 1), "h", {}, None, map[], map[0 := 2], None, Calls(GotSegment, None, GotSegment, None))
  }

  lemma OneByteChunk()
    ensures ChunkLength(Layout(1, 1, 1), 0) == 1
  {
    assert WellFormed(Layout(1, 1, 1));
    RangesTile(Layout(1, 1, 1), 0);
  }

  /** Both look the record up and open the segment file; call 1 copies its body into it. */
  lemma FirstCopied(crc: Bytes -> string) returns (t: System)
    ensures Reaches(TwoPast(), t, crc)
    ensures t == TwoPast().(segs := t.segs, calls := Calls(Written, None, Writing([]), None))
  {
    hide Reaches;
    var s := TwoPast();
    OneByteChunk();
    ReachesSelf(s, crc);
    t := ReachesNext(s, s, Recheck(2), crc);
    t := ReachesNext(s, t, Recheck(1), crc);
    t := ReachesNext(s, t, WriteByte(1, 7), crc);
    var nothing: Bytes := [];
    assert nothing + [7] == [7];
    assert t.calls == Calls(Writing([7]), None, Writing([]), None);
    assert Acceptable(s.layout, crc, 0, Whole([7]), "");
    t := ReachesNext(s, t, EndCopy(1), crc);
    assert t.calls == Calls(Written, None, Writing([]), None);
  }

  lemma FirstReads(crc: Bytes -> string) returns (t: System)
    ensures Reaches(TwoPast(), t, crc)
    ensures t == TwoPast().(segs := t.segs, stateLock := Some(1), calls := Calls(HasCopy({}), None, Writing([]), None))
  {
    hide Reaches;
    var s := TwoPast();
    t := FirstCopied(crc);
    t := ReachesNext(s, t, TakeState(1), crc);
    t := ReachesNext(s, t, ReadRecord(1), crc);
    assert t.calls == Calls(HasCopy({}), None, Writing([]), None);
  }

  lemma FirstRecords(crc: Bytes -> string) returns (t: System)
    ensures Reaches(TwoPast(), t, crc)
    ensures t == TwoPast().(segs := t.segs, tmp := Some({0}), stateLock := Some(1), calls := Calls(TmpWritten, None, Writing([]), None))
  {
    hide Reaches;
    var s := TwoPast();
    t := FirstReads(crc);
    var none: set<int> := {};
    assert none + {0} == {0};
    t := ReachesNext(s, t, WriteTmp(1), crc);
    assert t.calls == Calls(TmpWritten, None, Writing([]), None);
  }

  /** Call 1 is answered ok while call 2 is still copying. */
  lemma FirstAnswered(crc: Bytes -> string) returns (t: System)
    ensures Reaches(TwoPast(), t, crc)
    ensures t == TwoPast().(segs := t.segs, received := {0}, segLock := map[],
                            calls := Calls(Done, Some(Stored(0, crc([7]))), Writing([]), None))
  {
    hide Reaches;
    var s := TwoPast();
    t := FirstRecords(crc);
    t := ReachesNext(s, t, Rename(1), crc);
    t := ReachesNext(s, t, Leave(1), crc);
    t := ReachesNext(s, t, Leave(1), crc);
    assert t.calls == Calls(Done, Some(Stored(0, crc([7]))), Writing([]), None);
  }

  /** Call 2 breaks off and takes the segment with it. */
  lemma SecondBreaksOff(crc: Bytes -> string) returns (t: System)
    ensures Reaches(TwoPast(), t, crc)
    ensures 0 !in t.segs
    ensures t == TwoPast().(segs := t.segs, received := {0}, segLock := map[],
                            calls := Calls(Done, Some(Stored(0, crc([7]))), Done, Some(SegmentRejected)))
  {
    hide Reaches;
    var s := TwoPast();
    t := FirstAnswered(crc);
    t := ReachesNext(s, t, EndCopy(2), crc);
    t := ReachesNext(s, t, Leave(2), crc);
    assert t.calls == Calls(Done, Some(Stored(0, crc([7]))), Done, Some(SegmentRejected));
  }

  /** Call 3 is then told that the chunk is there. */
  lemma SegmentLost(crc: Bytes -> string) returns (t: System)
    ensures Reaches(TwoPast(), t, crc)
    ensures t.calls.Keys == {1, 2, 3} && t.calls[1].reply == Some(Stored(0, crc([7])))
    ensures t.calls[2].reply == Some(SegmentRejected) && t.calls[3].reply == Some(Resumed(0))
    ensures t.layout == TwoPast().layout && t.received == {0} && 0 !in t.segs
  {
    hide Reaches;
    var s := TwoPast();
    t := SecondBreaksOff(crc);
    t := ReachesNext(s, t, Begin(3), crc);
    t := ReachesNext(s, t, TakeSegment(3), crc);
    t := ReachesNext(s, t, Recheck(3), crc);
  }

  // ----- what it means on disk -----

  /** The record lists an index whose segment cannot be read. */
  ghost predicate Stuck(files: Files, dst: string, l: Layout, i: nat) {
    && ReadState(files, dst).Some? && ReadState(files, dst).value.layout == l
    && i in ReadState(files, dst).value.received && i < l.totalChunks
    && (SegmentPath(dst, i) !in files || files[SegmentPath(dst, i)].Record?)
  }

  /** The disk at a moment when no call is half way: the record and the segment files. */
  ghost predicate Shows(files: Files, dst: string, s: System) {
    && ReadState(files, dst).Some? && ReadState(files, dst).value.layout == s.layout
    && ReadState(files, dst).value.received == s.received
    && forall i: nat :: i < s.layout.totalChunks ==>
         (i in s.segs <==> SegmentPath(dst, i) in files && !files[SegmentPath(dst, i)].Record?)
  }

  /** Such a disk is stuck exactly at the recorded indices without a segment, as at the end of
      SegmentLost. */
  lemma StuckIff(files: Files, dst: string, s: System, i: nat)
    requires Shows(files, dst, s) && i < s.layout.totalChunks
    ensures Stuck(files, dst, s.layout, i) <==> i in s.received && i !in s.segs
  {
    hide SegmentPath, ReadState;
  }

  lemma LostIsStuck(crc: Bytes -> string, files: Files, dst: string) returns (t: System)
    ensures Reaches(TwoPast(), t, crc) && t.calls.Keys == {1, 2, 3} && t.calls[1].reply == Some(Stored(0, crc([7])))
    ensures Shows(files, dst, t) ==> Stuck(files, dst, Layout(1, 1, 1), 0)
  {
    hide Reaches, Shows, Stuck;
    t := SegmentLost(crc);
    if Shows(files, dst, t) {
      StuckIff(files, dst, t, 0);
    }
  }

  /** Neither an abort nor an init with another layout. */
  predicate GoesOn(req: Request, l: Layout) {
    !req.Abort? && (req.Init? ==> req.layout == l)
  }

  /** Rewriting a record with more indices, or a handle, leaves it stuck. */
  lemma RewriteStuck(files: Files, dst: string, l: Layout, i: nat, st: State)
    requires Stuck(files, dst, l, i) && st.layout == l && i in st.received
    ensures Stuck(WriteState(files, dst, st), dst, l, i)
  {
    hide StatePath, TmpPath, SegmentPath;
    NamesDistinct(dst);
  }

  lemma StuckRecord(files: Files, dst: string, l: Layout, i: nat)
    requires Stuck(files, dst, l, i)
    ensures ReadState(files, dst).Some? && ReadState(files, dst).value.layout == l && i in ReadState(files, dst).value.received
    ensures i < l.totalChunks
  {}

  lemma InitStuck(files: Files, dst: string, l: Layout, i: nat, crc: Bytes -> string, req: Request)
    requires Stuck(files, dst, l, i) && req.Init? && req.layout == l
    ensures Stuck(InitStep(files, dst, req).0, dst, l, i) && !InitStep(files, dst, req).1.Completed?
  {
    hide Stuck, WriteState, CheckLayout, AlreadyReceived, ReadState;
    StuckRecord(files, dst, l, i);
    RewriteStuck(files, dst, l, i, InitState(ReadState(files, dst), req));
  }

  /** Touching another segment leaves the record stuck. */
  lemma OtherSegment(files: Files, files': Files, dst: string, l: Layout, i: nat, j: nat)
    requires Stuck(files, dst, l, i) && i != j && files' - {SegmentPath(dst, j)} == files - {SegmentPath(dst, j)}
    ensures Stuck(files', dst, l, i) && ReadState(files', dst) == ReadState(files, dst)
  {
    hide StatePath, TmpPath, SegmentPath;
    NamesDistinct(dst);
    var path := SegmentPath(dst, j);
    assert forall name :: name != path ==> (name in files' <==> name in files' - {path}) && (name in files <==> name in files - {path});
    assert forall name :: name in files && name != path ==>
      files'[name] == (files' - {path})[name] == (files - {path})[name] == files[name];
  }

  lemma ChunkStuck(files: Files, dst: string, l: Layout, i: nat, crc: Bytes -> string, req: Request)
    requires Stuck(files, dst, l, i) && req.Chunk?
    ensures Stuck(ChunkStep(files, dst, crc, req).0, dst, l, i) && !ChunkStep(files, dst, crc, req).1.Completed?
    ensures req.index == i && req.uploadId != "" && req.uploadId == ReadState(files, dst).value.uploadId ==>
              ChunkStep(files, dst, crc, req) == (files, Resumed(i))
  {
    hide Stuck, ReadState, WriteState, SegmentPath, ChunkLength, DigestOk;
    StuckRecord(files, dst, l, i);
    var st := ReadState(files, dst).value;
    if 0 <= req.index < l.totalChunks && req.index != i && !req.part.NotOnePart? {
      var path := SegmentPath(dst, req.index);
      var (files', sum) := WriteSegment(files, path, req.part, req.hash, ChunkLength(l, req.index), crc);
      assert files' - {path} == files - {path};
      OtherSegment(files, files', dst, l, i, req.index);
      RewriteStuck(files', dst, l, i, st.(received := st.received + {req.index}));
    }
  }

  lemma CompleteStuck(files: Files, dst: string, l: Layout, i: nat, crc: Bytes -> string, req: Request)
    requires Stuck(files, dst, l, i) && req.Complete?
    ensures var (end, reply) := CompleteStep(files, dst, crc, req);
            && Stuck(end, dst, l, i) && !reply.Completed?
            && (req.uploadId != "" && req.uploadId == ReadState(files, dst).value.uploadId
                && MissingUpTo(ReadState(files, dst).value.received, l.totalChunks) == [] ==>
                  reply == AssembleFailed && end == files - {dst})
  {
    hide StatePath, TmpPath, SegmentPath, Segments, DigestOk, MissingUpTo, Cleaned;
    NamesDistinct(dst);
    SegmentsStuck(files, dst, i, l.totalChunks);
  }

  lemma StepStuck(files: Files, dst: string, l: Layout, i: nat, crc: Bytes -> string, req: Request)
    requires Stuck(files, dst, l, i) && GoesOn(req, l)
    ensures Stuck(Step(files, dst, crc, req).0, dst, l, i) && !Step(files, dst, crc, req).1.Completed?
  {
    hide Stuck, InitStep, ChunkStep, CompleteStep;
    match req
    case Init(_, _, _, _, _) => InitStuck(files, dst, l, i, crc, req);
    case Chunk(_, _, _, _, _) => ChunkStuck(files, dst, l, i, crc, req);
    case Complete(_, _) => CompleteStuck(files, dst, l, i, crc, req);
  }

  /** However the client goes on, resends of every chunk included, no completion succeeds. */
  lemma {:induction false} NeverCompletes(files: Files, dst: string, l: Layout, i: nat, crc: Bytes -> string, reqs: seq<Request>)
    requires Stuck(files, dst, l, i) && forall k :: 0 <= k < |reqs| ==> GoesOn(reqs[k], l)
    ensures var (end, replies) := Run(files, dst, crc, reqs);
            Stuck(end, dst, l, i) && forall k :: 0 <= k < |replies| ==> !replies[k].Completed?
  {
    hide Stuck, Step, GoesOn;
    if reqs != [] {
      var n := |reqs| - 1;
      NeverCompletes(files, dst, l, i, crc, reqs[..n]);
      StepStuck(Run(files, dst, crc, reqs[..n]).0, dst, l, i, crc, reqs[n]);
    }
  }

  /** An abort with the record's handle ends it. */
  lemma AbortFrees(files: Files, dst: string, l: Layout, i: nat, req: Request)
    requires Stuck(files, dst, l, i) && req.Abort? && req.uploadId != "" && req.uploadId == ReadState(files, dst).value.uploadId
    ensures var (end, reply) := AbortStep(files, dst, req); reply == Aborted && ReadState(end, dst) == None
  {
    hide SegmentPath, TmpPath;
    NamesDistinct(dst);
  }
}
