/**
 Whole runs of the upload protocol, requests one at a time: chunks in any order with
 duplicates, rejected bodies, aborts, and re-inits of any layout. What a run has
 accepted is read off the requests and replies alone.
 */
module UploadRuns {
  import opened Text
  import opened UploadLayout
  import opened UploadProtocol
  import opened UploadSession

  ghost function Run(files: Files, dst: string, crc: Bytes -> string, reqs: seq<Request>): (r: (Files, seq<Reply>))
    ensures |r.1| == |reqs|
  {
    if reqs == [] then (files, [])
    else
      var (mid, replies) := Run(files, dst, crc, reqs[..|reqs| - 1]);
      var (end, reply) := Step(mid, dst, crc, reqs[|reqs| - 1]);
      (end, replies + [reply])
  }

  /** How one answered request changes the accepted bodies: a stored chunk adds its body;
      an init that finds nothing received, a completion and an abort start afresh. */
  function Accept(before: map<int, Bytes>, req: Request, reply: Reply): map<int, Bytes> {
    match reply
    case InitOk(_, _, received) => if received == {} then map[] else before
    case Stored(i, _) => if req.Chunk? && req.part.Whole? then before[i := req.part.bytes] else before
    case Completed(_) => map[]
    case Aborted => map[]
    case _ => before
  }

  /** The bodies accepted since the session began. */
  function AcceptedSince(reqs: seq<Request>, replies: seq<Reply>): map<int, Bytes>
    requires |reqs| == |replies|
  {
    if reqs == [] then map[]
    else
      var n := |reqs| - 1;
      Accept(AcceptedSince(reqs[..n], replies[..n]), reqs[n], replies[n])
  }

  /** The layout declared by the last init that was answered ok. */
  function DeclaredLayout(reqs: seq<Request>, replies: seq<Reply>): Option<Layout>
    requires |reqs| == |replies|
  {
    if reqs == [] then None
    else
      var n := |reqs| - 1;
      if reqs[n].Init? && replies[n].InitOk? then Some(reqs[n].layout) else DeclaredLayout(reqs[..n], replies[..n])
  }

  /** An open upload, as a client that has seen every reply knows it. */
  datatype Opened = Opened(layout: Layout, id: string)

  function OpenAfter(before: Option<Opened>, req: Request, reply: Reply): Option<Opened> {
    match reply
    case InitOk(id, _, _) => if req.Init? then Some(Opened(req.layout, id)) else before
    case Completed(_) => None
    case Aborted => None
    case _ => before
  }

  function OpenSince(reqs: seq<Request>, replies: seq<Reply>): Option<Opened>
    requires |reqs| == |replies|
  {
    if reqs == [] then None
    else
      var n := |reqs| - 1;
      OpenAfter(OpenSince(reqs[..n], replies[..n]), reqs[n], replies[n])
  }

  function Current(w: World): Option<Opened> {
    match w.session
    case None => None
    case Some(s) => Some(Opened(s.layout, s.id))
  }

  function Bodies(w: World): map<int, Bytes> {
    match w.session
    case None => map[]
    case Some(s) => s.bodies
  }

  /** The abstract session that stands for the file system after a run. */
  ghost predicate Tracks(files: Files, dst: string, w: World, reqs: seq<Request>, replies: seq<Reply>)
    requires |reqs| == |replies|
  {
    && Refines(files, dst, w)
    && AcceptedSince(reqs, replies) == Bodies(w) && OpenSince(reqs, replies) == Current(w)
    && (w.session.Some? ==> DeclaredLayout(reqs, replies) == Some(w.session.value.layout))
  }

  lemma BodiesFollowReplies(w: World, crc: Bytes -> string, req: Request)
    requires w.session.Some? ==> w.session.value.layout.totalChunks >= 0
    ensures var (w', reply) := SpecStep(w, crc, req); Bodies(w') == Accept(Bodies(w), req, reply)
  {
    hide CheckLayout, TotalBytes, DigestOk, Concat, Full, MissingUpTo, ChunkLength;
    match req
    case Init(_, _, _, _, _) =>
      var (w', reply) := SpecInit(w, req);
      if reply.InitOk? && reply.received == {} {
        assert w'.session.value.bodies.Keys == {};
        assert w'.session.value.bodies == map[];
      }
    case Chunk(_, _, _, _, _) =>
    case Complete(_, _) =>
    case Abort(_) =>
  }

  lemma LayoutFollowsReplies(w: World, crc: Bytes -> string, req: Request)
    requires w.session.Some? ==> w.session.value.layout.totalChunks >= 0
    ensures var (w', reply) := SpecStep(w, crc, req);
            w'.session.Some? ==>
              if req.Init? && reply.InitOk? then w'.session.value.layout == req.layout
              else w.session.Some? && w'.session.value.layout == w.session.value.layout
  {
    hide CheckLayout, TotalBytes, DigestOk, Concat, Full, MissingUpTo, ChunkLength;
  }

  lemma OpenFollowsReplies(w: World, crc: Bytes -> string, req: Request)
    requires w.session.Some? ==> w.session.value.layout.totalChunks >= 0
    ensures var (w', reply) := SpecStep(w, crc, req); Current(w') == OpenAfter(Current(w), req, reply)
  {
    hide CheckLayout, TotalBytes, DigestOk, Concat, Full, MissingUpTo, ChunkLength;
  }

  lemma StepTracks(files: Files, dst: string, w: World, crc: Bytes -> string, reqs: seq<Request>, replies: seq<Reply>, req: Request)
    requires |reqs| == |replies| && Tracks(files, dst, w, reqs, replies) && Wire(req)
    ensures var (files', reply) := Step(files, dst, crc, req);
            Tracks(files', dst, SpecStep(w, crc, req).0, reqs + [req], replies + [reply])
  {
    StepRefines(files, dst, w, crc, req);
    BodiesFollowReplies(w, crc, req);
    LayoutFollowsReplies(w, crc, req);
    OpenFollowsReplies(w, crc, req);
    var reply := SpecStep(w, crc, req).1;
    assert (reqs + [req])[..|reqs|] == reqs && (replies + [reply])[..|reqs|] == replies;
  }

  lemma {:induction false} RunTracks(files: Files, dst: string, crc: Bytes -> string, reqs: seq<Request>) returns (w: World)
    requires ReadState(files, dst) == None && AllWire(reqs)
    ensures var (end, replies) := Run(files, dst, crc, reqs); Tracks(end, dst, w, reqs, replies)
  {
    if reqs == [] {
      w := World(None, Lookup(files, dst));
    } else {
      var n := |reqs| - 1;
      var mid := Run(files, dst, crc, reqs[..n]);
      var v := RunTracks(files, dst, crc, reqs[..n]);
      StepTracks(mid.0, dst, v, crc, reqs[..n], mid.1, reqs[n]);
      assert reqs == reqs[..n] + [reqs[n]];
      w := SpecStep(v, crc, reqs[n]).0;
    }
  }

  /** From any disk without a readable record, after any run: when a completion succeeds,
      the destination is the index-order concatenation of exactly the bodies accepted
      since the session began, it has the declared size, and neither the record nor any
      segment of that layout is left. */
  lemma CompleteDelivers(files: Files, dst: string, crc: Bytes -> string, reqs: seq<Request>, last: Request)
    requires ReadState(files, dst) == None && AllWire(reqs) && last.Complete?
    requires var (mid, _) := Run(files, dst, crc, reqs); CompleteStep(mid, dst, crc, last).1.Completed?
    ensures var (mid, replies) := Run(files, dst, crc, reqs);
            var end := CompleteStep(mid, dst, crc, last).0;
            var bodies := AcceptedSince(reqs, replies);
            && DeclaredLayout(reqs, replies).Some?
            && var l := DeclaredLayout(reqs, replies).value;
            && WellFormed(l) && Full(bodies, l.totalChunks)
            && (forall i :: i in bodies ==> 0 <= i < l.totalChunks && |bodies[i]| == ChunkLength(l, i))
            && Lookup(end, dst) == Some(Raw(Concat(bodies, l.totalChunks)))
            && |Concat(bodies, l.totalChunks)| == l.size
            && DigestOk(crc, Concat(bodies, l.totalChunks), last.fileCrc)
            && StatePath(dst) !in end
            && forall i :: 0 <= i < l.totalChunks ==> SegmentPath(dst, i) !in end
  {
    hide Run, AcceptedSince, DeclaredLayout, Segments, Cleaned, DigestOk, SegmentPath, ReadState, MissingUpTo;
    var (mid, replies) := Run(files, dst, crc, reqs);
    var w := RunTracks(files, dst, crc, reqs);
    CompleteRefines(mid, dst, w, crc, last);
    var s := w.session.value;
    var n := s.layout.totalChunks;
    SegmentsAreBodies(mid, dst, s, n);
    RangesTile(s.layout, 0);
    CleanedIsClean(mid[dst := Raw(Concat(s.bodies, n))], dst, ReadState(mid, dst).value);
    assert AcceptedSince(reqs, replies) == s.bodies;
  }

  /** A completion refused for missing chunks (or a wrong handle, or no upload) changes
      nothing, and the conflict reply lists exactly the chunks not accepted yet. */
  lemma ConflictChangesNothing(files: Files, dst: string, crc: Bytes -> string, reqs: seq<Request>, last: Request)
    requires ReadState(files, dst) == None && AllWire(reqs) && last.Complete?
    ensures var (mid, replies) := Run(files, dst, crc, reqs);
            var (end, reply) := CompleteStep(mid, dst, crc, last);
            && (reply.HandleRequired? || reply.NoUpload? || reply.WrongHandle? || reply.Missing? ==> end == mid)
            && (reply.Missing? ==>
                  && DeclaredLayout(reqs, replies).Some?
                  && forall i :: i in reply.indices <==>
                       0 <= i < DeclaredLayout(reqs, replies).value.totalChunks && i !in AcceptedSince(reqs, replies))
  {
    hide Run, AcceptedSince, DeclaredLayout, Segments, Cleaned, DigestOk, SegmentPath, ReadState, MissingUpTo;
    var (mid, replies) := Run(files, dst, crc, reqs);
    var w := RunTracks(files, dst, crc, reqs);
    if w.session.Some? {
      MissingIsOrderedComplement(w.session.value.bodies.Keys, w.session.value.layout.totalChunks);
      assert Bodies(w) == w.session.value.bodies;
    }
  }

  /** When a completion fails in assembly, told from what precedes it: exactly when the
      record is readable, the handle is the record's, every chunk has been accepted, and the
      digest of the whole file is not the requested one. The destination is then removed,
      whatever it held before, and record and segments are kept. */
  lemma MismatchRemovesDestination(files: Files, dst: string, crc: Bytes -> string, reqs: seq<Request>, last: Request)
    requires ReadState(files, dst) == None && AllWire(reqs) && last.Complete?
    ensures var (mid, replies) := Run(files, dst, crc, reqs);
            var (end, reply) := CompleteStep(mid, dst, crc, last);
            var bodies := AcceptedSince(reqs, replies);
            && (reply.AssembleFailed? <==>
                  && ReadState(mid, dst).Some? && last.uploadId == ReadState(mid, dst).value.uploadId
                  && DeclaredLayout(reqs, replies).Some?
                  && var n := DeclaredLayout(reqs, replies).value.totalChunks;
                  && n >= 0 && Full(bodies, n) && !DigestOk(crc, Concat(bodies, n), last.fileCrc))
            && (reply.AssembleFailed? ==> end == mid - {dst})
  {
    hide Run, AcceptedSince, DeclaredLayout, Segments, Cleaned, DigestOk, SegmentPath, ReadState, MissingUpTo;
    var (mid, replies) := Run(files, dst, crc, reqs);
    var w := RunTracks(files, dst, crc, reqs);
    CompleteRefines(mid, dst, w, crc, last);
    if w.session.Some? {
      assert Bodies(w) == w.session.value.bodies;
    }
  }

  /** Init, chunk and abort never touch the destination, on any disk at all. */
  lemma OnlyCompleteTouchesDestination(files: Files, dst: string, crc: Bytes -> string, req: Request)
    requires !req.Complete?
    ensures Lookup(Step(files, dst, crc, req).0, dst) == Lookup(files, dst)
  {
    hide StatePath, TmpPath, SegmentPath, CheckLayout, ReadState, ChunkLength, AlreadyReceived, DigestOk;
    NamesDistinct(dst);
  }

  /** A successful completion removes only its own layout's segments: every other file
      stays, including segments left over from an earlier, longer layout. */
  lemma CompleteLeavesOthers(files: Files, dst: string, crc: Bytes -> string, req: Request, name: string)
    requires req.Complete? && ReadState(files, dst).Some?
    requires name != dst && name != StatePath(dst)
    requires name !in SegmentNames(dst, ReadState(files, dst).value.layout.totalChunks)
    ensures Lookup(CompleteStep(files, dst, crc, req).0, name) == Lookup(files, name)
  {
    hide StatePath, SegmentPath, ReadState, Segments, DigestOk, MissingUpTo;
  }
}
