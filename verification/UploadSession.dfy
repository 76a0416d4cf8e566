/**
 What the upload protocol is for: an abstract session that maps chunk indices to the
 bodies accepted so far. The handlers of UploadProtocol refine it step by step, so
 over any run of requests a completed upload is the concatenation of those bodies.
 */
module UploadSession {
  import opened Text
  import opened UploadLayout
  import opened UploadProtocol

  datatype Session = Session(layout: Layout, id: string, bodies: map<int, Bytes>)

  datatype World = World(session: Option<Session>, dst: Option<File>)

  /** What the JSON decoder and the random handle guarantee of a request. */
  predicate Wire(req: Request) {
    req.Init? ==>
      req.freshId != "" && IsInt64(req.layout.size) && IsInt64(req.layout.chunkSize) && IsInt64(req.layout.totalChunks)
  }

  predicate AllWire(reqs: seq<Request>) {
    forall i :: 0 <= i < |reqs| ==> Wire(reqs[i])
  }

  predicate Full(bodies: map<int, Bytes>, n: nat) {
    forall i :: 0 <= i < n ==> i in bodies
  }

  /** The bodies 0..n-1 in index order. */
  function Concat(bodies: map<int, Bytes>, n: nat): Bytes
    requires Full(bodies, n)
  {
    if n == 0 then [] else Concat(bodies, n - 1) + bodies[n - 1]
  }

  ghost function BodyLength(bodies: map<int, Bytes>): int -> int {
    i => if i in bodies then |bodies[i]| else 0
  }

  ghost function TotalBytes(bodies: map<int, Bytes>): int {
    SumOver(bodies.Keys, BodyLength(bodies))
  }

  // ----- the abstract machine -----

  ghost function SpecInit(w: World, req: Request): (World, Reply)
    requires req.Init?
  {
    var s := if w.session.Some? && w.session.value.layout == req.layout then w.session.value
             else Session(req.layout, req.freshId, map[]);
    var projected := req.layout.size - TotalBytes(s.bodies);
    if CheckLayout(req.layout) != Accepted then (w, InitRefused(CheckLayout(req.layout)))
    else if !req.quota(projected) then (w, QuotaExceeded(projected))
    else if !req.canWrite then (w, WriteFailed)
    else (w.(session := Some(s)), InitOk(s.id, TotalBytes(s.bodies) > 0, s.bodies.Keys))
  }

  /** A body is accepted when it has the declared length and, if asked, the right digest. */
  predicate Acceptable(l: Layout, crc: Bytes -> string, index: int, part: Part, hash: string) {
    part.Whole? && |part.bytes| == ChunkLength(l, index) && DigestOk(crc, part.bytes, hash)
  }

  function SpecChunk(w: World, crc: Bytes -> string, req: Request): (World, Reply)
    requires req.Chunk?
  {
    if req.uploadId == "" then (w, HandleRequired)
    else if w.session.None? then (w, NoUpload)
    else
      var s := w.session.value;
      if req.uploadId != s.id then (w, WrongHandle)
      else if !(0 <= req.index < s.layout.totalChunks) then (w, OutOfRange)
      else if req.index in s.bodies then (w, Resumed(req.index))
      else if req.part.NotOnePart? then (w, BadPart)
      else if !Acceptable(s.layout, crc, req.index, req.part, req.hash) then (w, SegmentRejected)
      else if !req.canWrite then (w, WriteFailed)
      else (w.(session := Some(s.(bodies := s.bodies[req.index := req.part.bytes]))),
            Stored(req.index, crc(req.part.bytes)))
  }

  function SpecComplete(w: World, crc: Bytes -> string, req: Request): (World, Reply)
    requires req.Complete?
    requires w.session.Some? ==> w.session.value.layout.totalChunks >= 0
  {
    if req.uploadId == "" then (w, HandleRequired)
    else if w.session.None? then (w, NoUpload)
    else
      var s := w.session.value;
      if req.uploadId != s.id then (w, WrongHandle)
      else if !Full(s.bodies, s.layout.totalChunks) then (w, Missing(MissingUpTo(s.bodies.Keys, s.layout.totalChunks)))
      else
        var whole := Concat(s.bodies, s.layout.totalChunks);
        if DigestOk(crc, whole, req.fileCrc) then (World(None, Some(Raw(whole))), Completed(crc(whole)))
        else (w.(dst := None), AssembleFailed)
  }

  function SpecAbort(w: World, req: Request): (World, Reply)
    requires req.Abort?
  {
    if req.uploadId == "" then (w, HandleRequired)
    else if w.session.None? then (w, Aborted)
    else if req.uploadId != w.session.value.id then (w, WrongHandle)
    else (w.(session := None), Aborted)
  }

  ghost function SpecStep(w: World, crc: Bytes -> string, req: Request): (World, Reply)
    requires w.session.Some? ==> w.session.value.layout.totalChunks >= 0
  {
    match req
    case Init(_, _, _, _, _) => SpecInit(w, req)
    case Chunk(_, _, _, _, _) => SpecChunk(w, crc, req)
    case Complete(_, _) => SpecComplete(w, crc, req)
    case Abort(_) => SpecAbort(w, req)
  }

  // ----- how the file system represents a session -----

  function Lookup(files: Files, name: string): Option<File> {
    if name in files then Some(files[name]) else None
  }

  /** Each accepted body sits in its own segment, and the record lists exactly those. */
  ghost predicate Holds(files: Files, dst: string, s: Session) {
    && WellFormed(s.layout) && s.id != ""
    && ReadState(files, dst).Some?
    && var st := ReadState(files, dst).value;
    && st.layout == s.layout && st.uploadId == s.id && st.received == s.bodies.Keys
    && forall i :: i in s.bodies ==>
         && 0 <= i < s.layout.totalChunks
         && |s.bodies[i]| == ChunkLength(s.layout, i)
         && Lookup(files, SegmentPath(dst, i)) == Some(Raw(s.bodies[i]))
  }

  ghost predicate Refines(files: Files, dst: string, w: World) {
    && w.dst == Lookup(files, dst)
    && (w.session.None? ==> ReadState(files, dst) == None)
    && (w.session.Some? ==> Holds(files, dst, w.session.value))
  }

  // ----- refinement, one handler at a time -----

  lemma ReadBack(files: Files, dst: string, st: State)
    requires WellFormed(st.layout)
    ensures ReadState(WriteState(files, dst, st), dst) == Some(st)
    ensures Lookup(WriteState(files, dst, st), dst) == Lookup(files, dst)
    ensures forall i: nat :: Lookup(WriteState(files, dst, st), SegmentPath(dst, i)) == Lookup(files, SegmentPath(dst, i))
  {
    NamesDistinct(dst);
    WellFormedSize(st.layout);
  }

  lemma BytesAgree(files: Files, dst: string, s: Session)
    requires Holds(files, dst, s)
    ensures AlreadyReceived(ReadState(files, dst).value) == TotalBytes(s.bodies)
  {
    hide ReadState, ChunkLength;
    SumOverSame(s.bodies.Keys, Lengths(s.layout), BodyLength(s.bodies));
  }

  lemma InitRefines(files: Files, dst: string, w: World, req: Request)
    requires Refines(files, dst, w) && req.Init? && Wire(req)
    ensures InitStep(files, dst, req).1 == SpecInit(w, req).1
    ensures Refines(InitStep(files, dst, req).0, dst, SpecInit(w, req).0)
  {
    AcceptedIffWellFormed(req.layout);
    if CheckLayout(req.layout) == Accepted {
      var st := InitState(ReadState(files, dst), req);
      if w.session.Some? && w.session.value.layout == req.layout {
        BytesAgree(files, dst, w.session.value);
      } else {
        assert st == State(req.layout, req.fileCrc, {}, req.freshId);
        assert AlreadyReceived(st) == 0 == TotalBytes(map[]);
      }
      ReadBack(files, dst, st);
    }
  }

  /** Touching one segment that holds no accepted body leaves the session in place. */
  lemma SegmentElsewhere(files: Files, files': Files, dst: string, s: Session, index: nat)
    requires Holds(files, dst, s) && index !in s.bodies
    requires files' - {SegmentPath(dst, index)} == files - {SegmentPath(dst, index)}
    ensures Holds(files', dst, s) && ReadState(files', dst) == ReadState(files, dst) && Lookup(files', dst) == Lookup(files, dst)
  {
    NamesDistinct(dst);
    var path := SegmentPath(dst, index);
    assert forall name :: name != path ==>
      Lookup(files', name) == Lookup(files' - {path}, name) == Lookup(files - {path}, name) == Lookup(files, name);
    assert Lookup(files', StatePath(dst)) == Lookup(files, StatePath(dst));
  }

  lemma ChunkRefines(files: Files, dst: string, w: World, crc: Bytes -> string, req: Request)
    requires Refines(files, dst, w) && req.Chunk?
    ensures ChunkStep(files, dst, crc, req).1 == SpecChunk(w, crc, req).1
    ensures Refines(ChunkStep(files, dst, crc, req).0, dst, SpecChunk(w, crc, req).0)
  {
    if w.session.Some? {
      var s := w.session.value;
      if 0 <= req.index < s.layout.totalChunks && req.index !in s.bodies && !req.part.NotOnePart? {
        RangesTile(s.layout, req.index);
        NamesDistinct(dst);
        var st := ReadState(files, dst).value;
        var (files', sum) := WriteSegment(files, SegmentPath(dst, req.index), req.part, req.hash,
                                          ChunkLength(s.layout, req.index), crc);
        SegmentElsewhere(files, files', dst, s, req.index);
        ReadBack(files', dst, st.(received := st.received + {req.index}));
        assert sum.Some? <==> Acceptable(s.layout, crc, req.index, req.part, req.hash);
      }
    }
  }

  lemma {:induction false} SegmentsAreBodies(files: Files, dst: string, s: Session, n: nat)
    requires Holds(files, dst, s) && n <= s.layout.totalChunks && Full(s.bodies, n)
    ensures Segments(files, dst, n) == Some(Concat(s.bodies, n))
    ensures |Concat(s.bodies, n)| == Start(s.layout, n)
  {
    if n == 0 {
      RangesTile(s.layout, 0);
    } else {
      SegmentsAreBodies(files, dst, s, n - 1);
      RangesTile(s.layout, n - 1);
    }
  }

  lemma CleanedIsClean(files: Files, dst: string, st: State)
    requires st.layout.totalChunks >= 0
    ensures ReadState(Cleaned(files, dst, st), dst) == None
    ensures StatePath(dst) !in Cleaned(files, dst, st)
    ensures forall i :: 0 <= i < st.layout.totalChunks ==> SegmentPath(dst, i) !in Cleaned(files, dst, st)
    ensures Lookup(Cleaned(files, dst, st), dst) == Lookup(files, dst)
  {
    NamesDistinct(dst);
  }

  lemma DestinationElsewhere(files: Files, files': Files, dst: string, s: Session)
    requires Holds(files, dst, s)
    requires files' == files - {dst}
    ensures Holds(files', dst, s) && Lookup(files', dst) == None
  {
    NamesDistinct(dst);
  }

  lemma WholeFile(files: Files, dst: string, s: Session)
    requires Holds(files, dst, s) && Full(s.bodies, s.layout.totalChunks)
    ensures Segments(files, dst, s.layout.totalChunks) == Some(Concat(s.bodies, s.layout.totalChunks))
    ensures |Concat(s.bodies, s.layout.totalChunks)| == s.layout.size
  {
    hide ReadState, SegmentPath, Segments, Concat, Full;
    SegmentsAreBodies(files, dst, s, s.layout.totalChunks);
    RangesTile(s.layout, 0);
  }

  lemma CompleteRefines(files: Files, dst: string, w: World, crc: Bytes -> string, req: Request)
    requires Refines(files, dst, w) && req.Complete?
    ensures CompleteStep(files, dst, crc, req).1 == SpecComplete(w, crc, req).1
    ensures Refines(CompleteStep(files, dst, crc, req).0, dst, SpecComplete(w, crc, req).0)
  {
    hide ReadState, SegmentPath, DigestOk, Cleaned, Segments, Concat, MissingUpTo, Start;
    if w.session.Some? {
      var s := w.session.value;
      var n := s.layout.totalChunks;
      WellFormedSize(s.layout);
      NothingMissing(s.bodies.Keys, n);
      if Full(s.bodies, n) {
        WholeFile(files, dst, s);
        CleanedIsClean(files[dst := Raw(Concat(s.bodies, n))], dst, ReadState(files, dst).value);
        DestinationElsewhere(files, files - {dst}, dst, s);
      }
    }
  }

  lemma AbortRefines(files: Files, dst: string, w: World, req: Request)
    requires Refines(files, dst, w) && req.Abort?
    ensures AbortStep(files, dst, req).1 == SpecAbort(w, req).1
    ensures Refines(AbortStep(files, dst, req).0, dst, SpecAbort(w, req).0)
  {
    hide ReadState, Cleaned;
    if w.session.Some? {
      CleanedIsClean(files, dst, ReadState(files, dst).value);
    }
  }

  /** One request on the file system answers and moves as the abstract session does. */
  lemma StepRefines(files: Files, dst: string, w: World, crc: Bytes -> string, req: Request)
    requires Refines(files, dst, w) && Wire(req)
    ensures Step(files, dst, crc, req).1 == SpecStep(w, crc, req).1
    ensures Refines(Step(files, dst, crc, req).0, dst, SpecStep(w, crc, req).0)
  {
    hide InitStep, ChunkStep, CompleteStep, AbortStep, SpecInit, SpecChunk, SpecComplete, SpecAbort, Refines;
    match req
    case Init(_, _, _, _, _) => InitRefines(files, dst, w, req);
    case Chunk(_, _, _, _, _) => ChunkRefines(files, dst, w, crc, req);
    case Complete(_, _) => CompleteRefines(files, dst, w, crc, req);
    case Abort(_) => AbortRefines(files, dst, w, req);
  }
}
