/**
 Every answer of the upload protocol, told from the requests and replies before it: what is
 open, under which handle, and which bodies it holds.
 */
module UploadAnswers {
  import opened Text
  import opened UploadLayout
  import opened UploadProtocol
  import opened UploadSession
  import opened UploadRuns

  /** The state of affairs after a run, on a disk that had no record before it. */
  ghost predicate After(files: Files, dst: string, crc: Bytes -> string, reqs: seq<Request>, mid: Files,
                        open: Option<Opened>, bodies: map<int, Bytes>) {
    && ReadState(files, dst) == None && AllWire(reqs)
    && var (end, replies) := Run(files, dst, crc, reqs);
       mid == end && open == OpenSince(reqs, replies) && bodies == AcceptedSince(reqs, replies)
  }

  lemma Represents(files: Files, dst: string, crc: Bytes -> string, reqs: seq<Request>, mid: Files,
                   open: Option<Opened>, bodies: map<int, Bytes>) returns (w: World)
    requires After(files, dst, crc, reqs, mid, open, bodies)
    ensures Refines(mid, dst, w) && Bodies(w) == bodies && Current(w) == open
  {
    hide Run, AcceptedSince, OpenSince, Refines;
    w := RunTracks(files, dst, crc, reqs);
  }

  /** Handle and index are those of the open upload. */
  predicate Addresses(req: Request, open: Option<Opened>)
    requires req.Chunk?
  {
    open.Some? && req.uploadId == open.value.id && 0 <= req.index < open.value.layout.totalChunks
  }

  lemma HandleNotEmpty(mid: Files, dst: string, w: World)
    requires Refines(mid, dst, w)
    ensures w.session.Some? ==> w.session.value.id != ""
    ensures w.session.Some? ==> w.session.value.layout.totalChunks >= 0
    ensures w.session.Some? ==> forall i :: i in w.session.value.bodies ==> 0 <= i < w.session.value.layout.totalChunks
  {
    hide ChunkLength, ReadState;
  }

  /** A chunk is stored exactly when it is addressed to the open upload, not there yet, whole,
      of the declared length and with the digest it announces, and the record can be written;
      it is confirmed as there exactly when it is. Nothing else makes an answer ok. */
  lemma ChunkAnswer(files: Files, dst: string, crc: Bytes -> string, reqs: seq<Request>, mid: Files,
                    open: Option<Opened>, bodies: map<int, Bytes>, req: Request)
    requires After(files, dst, crc, reqs, mid, open, bodies) && req.Chunk?
    ensures var reply := Step(mid, dst, crc, req).1;
            && (reply.HandleRequired? <==> req.uploadId == "")
            && (reply.NoUpload? <==> req.uploadId != "" && open.None?)
            && (reply.WrongHandle? <==> req.uploadId != "" && open.Some? && req.uploadId != open.value.id)
            && (reply.OutOfRange? <==> open.Some? && req.uploadId == open.value.id && !Addresses(req, open))
            && (reply.Resumed? <==> Addresses(req, open) && req.index in bodies)
            && (reply.Stored? <==>
                  && Addresses(req, open) && req.index !in bodies && req.part.Whole?
                  && |req.part.bytes| == ChunkLength(open.value.layout, req.index) && DigestOk(crc, req.part.bytes, req.hash)
                  && req.canWrite)
            && (reply.Resumed? ==> reply.index == req.index)
            && (reply.Stored? ==> reply == Stored(req.index, crc(req.part.bytes)))
            && !reply.InitOk? && !reply.Missing? && !reply.Completed? && !reply.Aborted?
  {
    hide After, DigestOk, ChunkLength;
    var w := Represents(files, dst, crc, reqs, mid, open, bodies);
    StepRefines(mid, dst, w, crc, req);
    HandleNotEmpty(mid, dst, w);
  }

  /** The bodies that an init for this layout finds. */
  function Kept(open: Option<Opened>, bodies: map<int, Bytes>, l: Layout): map<int, Bytes> {
    if open.Some? && open.value.layout == l then bodies else map[]
  }

  lemma NothingYet()
    ensures TotalBytes(map[]) == 0
  {}

  /** An upload is opened exactly when its layout is well formed, the quota admits the bytes
      still to come, and the record can be written. It resumes under the handle it had if the
      layout is that of the open upload, listing what is there. */
  lemma InitAnswer(files: Files, dst: string, crc: Bytes -> string, reqs: seq<Request>, mid: Files,
                   open: Option<Opened>, bodies: map<int, Bytes>, req: Request)
    requires After(files, dst, crc, reqs, mid, open, bodies) && req.Init? && Wire(req)
    ensures var reply, kept := Step(mid, dst, crc, req).1, Kept(open, bodies, req.layout);
            var left := req.layout.size - TotalBytes(kept);
            && (reply.InitRefused? <==> !WellFormed(req.layout))
            && (reply.QuotaExceeded? <==> WellFormed(req.layout) && !req.quota(left))
            && (reply.QuotaExceeded? ==> reply.projected == left)
            && (reply.InitOk? <==> WellFormed(req.layout) && req.quota(left) && req.canWrite)
            && (reply.InitOk? ==>
                  && reply.received == kept.Keys && (reply.resume <==> TotalBytes(kept) > 0)
                  && reply.uploadId == if open.Some? && open.value.layout == req.layout then open.value.id else req.freshId)
  {
    hide After, WellFormed, CheckLayout, TotalBytes;
    var w := Represents(files, dst, crc, reqs, mid, open, bodies);
    AcceptedIffWellFormed(req.layout);
    StepRefines(mid, dst, w, crc, req);
    assert open.Some? && open.value.layout == req.layout ==> w.session.Some? && w.session.value.bodies == bodies;
    NothingYet();
  }

  /** A completion names what is missing exactly while something is, succeeds exactly when all
      is there and the digest is absent or right, and fails in assembly otherwise. */
  lemma CompleteAnswer(files: Files, dst: string, crc: Bytes -> string, reqs: seq<Request>, mid: Files,
                       open: Option<Opened>, bodies: map<int, Bytes>, req: Request)
    requires After(files, dst, crc, reqs, mid, open, bodies) && req.Complete?
    ensures var reply := Step(mid, dst, crc, req).1;
            var own := open.Some? && req.uploadId == open.value.id;
            && (open.Some? ==> open.value.layout.totalChunks >= 0)
            && (reply.HandleRequired? <==> req.uploadId == "")
            && (reply.NoUpload? <==> req.uploadId != "" && open.None?)
            && (reply.WrongHandle? <==> req.uploadId != "" && open.Some? && !own)
            && (reply.Missing? <==> own && !Full(bodies, open.value.layout.totalChunks))
            && (reply.Completed? <==>
                  && own && Full(bodies, open.value.layout.totalChunks)
                  && DigestOk(crc, Concat(bodies, open.value.layout.totalChunks), req.fileCrc))
            && (reply.AssembleFailed? <==>
                  && own && Full(bodies, open.value.layout.totalChunks)
                  && !DigestOk(crc, Concat(bodies, open.value.layout.totalChunks), req.fileCrc))
  {
    hide After, DigestOk, Full, Concat, MissingUpTo;
    var w := Represents(files, dst, crc, reqs, mid, open, bodies);
    HandleNotEmpty(mid, dst, w);
    StepRefines(mid, dst, w, crc, req);
  }

  /** An abort succeeds exactly when it names the open upload, or when none is open. */
  lemma AbortAnswer(files: Files, dst: string, crc: Bytes -> string, reqs: seq<Request>, mid: Files,
                    open: Option<Opened>, bodies: map<int, Bytes>, req: Request)
    requires After(files, dst, crc, reqs, mid, open, bodies) && req.Abort?
    ensures var reply := Step(mid, dst, crc, req).1;
            && (reply.HandleRequired? <==> req.uploadId == "")
            && (reply.Aborted? <==> req.uploadId != "" && (open.None? || req.uploadId == open.value.id))
            && (reply.WrongHandle? <==> req.uploadId != "" && open.Some? && req.uploadId != open.value.id)
  {
    hide After;
    var w := Represents(files, dst, crc, reqs, mid, open, bodies);
    HandleNotEmpty(mid, dst, w);
    StepRefines(mid, dst, w, crc, req);
  }
}
