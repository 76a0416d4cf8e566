/**
 A client that keeps to the protocol: it opens, learns which chunks the server already has,
 sends the others in any order and as often as it likes, and completes. What it then gets,
 from any disk, and when that is its own file.
 */
module UploadProgress {
  import opened Text
  import opened UploadLayout
  import opened UploadProtocol
  import opened UploadSession
  import opened UploadRuns

  /** A client's upload: its layout, the digest it announces, the handle a fresh session would
      get, the quota it meets, the file cut into bodies, the order in which it sends them, and
      the digest it sends along each time. */
  datatype Client = Client(
    layout: Layout, announced: string, id: string, quota: int -> bool,
    bodies: seq<Bytes>, order: seq<int>, hashes: seq<string>)

  /** What init finds of an earlier upload: the bodies of a session of the same layout. */
  function Found(w: World, l: Layout): map<int, Bytes> {
    if w.session.Some? && w.session.value.layout == l then w.session.value.bodies else map[]
  }

  /** The handle init answers with. */
  function Handle(w: World, c: Client): string {
    if w.session.Some? && w.session.value.layout == c.layout then w.session.value.id else c.id
  }

  /** The file is cut to a well-formed layout, the quota admits what is still to come, and
      every digest sent along is absent or right. */
  ghost predicate Honest(c: Client, w: World, crc: Bytes -> string) {
    && WellFormed(c.layout) && c.id != "" && c.quota(c.layout.size - TotalBytes(Found(w, c.layout)))
    && |c.bodies| == c.layout.totalChunks && (forall i :: 0 <= i < |c.bodies| ==> |c.bodies[i]| == ChunkLength(c.layout, i))
    && |c.hashes| == |c.order|
    && forall j :: 0 <= j < |c.order| ==> 0 <= c.order[j] < |c.bodies| && DigestOk(crc, c.bodies[c.order[j]], c.hashes[j])
  }

  function Opening(c: Client): Request {
    Init(c.layout, c.announced, c.id, c.quota, true)
  }

  function Sending(c: Client, handle: string, j: int): Request
    requires 0 <= j < |c.order| == |c.hashes| && 0 <= c.order[j] < |c.bodies|
  {
    Chunk(handle, c.order[j], Whole(c.bodies[c.order[j]]), c.hashes[j], true)
  }

  /** The disk after one init and the first k chunks in the client's order. */
  ghost function Upload(files: Files, dst: string, crc: Bytes -> string, c: Client, w: World, k: nat): Files
    requires Honest(c, w, crc) && k <= |c.order|
  {
    if k == 0 then Step(files, dst, crc, Opening(c)).0
    else Step(Upload(files, dst, crc, c, w, k - 1), dst, crc, Sending(c, Handle(w, c), k - 1)).0
  }

  predicate Within(sent: seq<int>, n: nat) {
    forall j :: 0 <= j < |sent| ==> 0 <= sent[j] < n
  }

  function Own(bodies: seq<Bytes>, sent: seq<int>): map<int, Bytes>
    requires Within(sent, |bodies|)
  {
    map i | i in sent :: bodies[i]
  }

  /** The bodies the session holds then: what was found stays, what was sent is added. */
  ghost function Gathered(c: Client, w: World, crc: Bytes -> string, k: nat): map<int, Bytes>
    requires Honest(c, w, crc) && k <= |c.order|
  {
    Own(c.bodies, c.order[..k]) + Found(w, c.layout)
  }

  /** Every index was found or has been sent. */
  predicate Covers(c: Client, w: World) {
    forall i :: 0 <= i < |c.bodies| ==> i in c.order || i in Found(w, c.layout)
  }

  /** What was found is what the client would have sent. */
  predicate FoundIsOwn(c: Client, w: World) {
    forall i :: i in Found(w, c.layout) && 0 <= i < |c.bodies| ==> Found(w, c.layout)[i] == c.bodies[i]
  }

  /** The file: its bodies one after the other. */
  function Glued(bodies: seq<Bytes>): Bytes {
    if bodies == [] then [] else Glued(bodies[..|bodies| - 1]) + bodies[|bodies| - 1]
  }

  lemma Ranges(l: Layout)
    requires WellFormed(l)
    ensures IsInt64(l.size) && IsInt64(l.chunkSize) && IsInt64(l.totalChunks)
  {
    WellFormedSize(l);
  }

  /** The session while the client sends. */
  ghost function Sessions(c: Client, w: World, crc: Bytes -> string, k: nat): World
    requires Honest(c, w, crc) && k <= |c.order|
  {
    World(Some(Session(c.layout, Handle(w, c), Gathered(c, w, crc, k))), w.dst)
  }

  lemma OpeningAccepted(files: Files, dst: string, crc: Bytes -> string, c: Client, w: World)
    requires Refines(files, dst, w) && Honest(c, w, crc)
    ensures Refines(Upload(files, dst, crc, c, w, 0), dst, Sessions(c, w, crc, 0))
  {
    hide InitStep, WellFormed, CheckLayout, Refines, TotalBytes, ChunkLength, DigestOk;
    Ranges(c.layout);
    AcceptedIffWellFormed(c.layout);
    StepRefines(files, dst, w, crc, Opening(c));
    assert c.order[..0] == [];
    assert Gathered(c, w, crc, 0) == Found(w, c.layout);
  }

  lemma OwnNext(bodies: seq<Bytes>, sent: seq<int>, i: int)
    requires Within(sent, |bodies|) && 0 <= i < |bodies|
    ensures Own(bodies, sent + [i]) == Own(bodies, sent)[i := bodies[i]]
  {}

  /** What was found wins over what is sent. */
  lemma FoundWins(own: map<int, Bytes>, found: map<int, Bytes>, i: int, body: Bytes)
    requires i in own ==> own[i] == body
    ensures own[i := body] + found == if i in own + found then own + found else (own + found)[i := body]
  {}

  lemma GatheredNext(c: Client, w: World, crc: Bytes -> string, k: nat)
    requires Honest(c, w, crc) && 0 < k <= |c.order|
    ensures var i, before := c.order[k - 1], Gathered(c, w, crc, k - 1);
            Gathered(c, w, crc, k) == if i in before then before else before[i := c.bodies[i]]
  {
    hide ChunkLength, DigestOk, WellFormed, TotalBytes, Found;
    var sent, i := c.order[..k - 1], c.order[k - 1];
    assert c.order[..k] == sent + [i];
    OwnNext(c.bodies, sent, i);
    FoundWins(Own(c.bodies, sent), Found(w, c.layout), i, c.bodies[i]);
  }

  lemma HandleGiven(files: Files, dst: string, c: Client, w: World, crc: Bytes -> string)
    requires Refines(files, dst, w) && Honest(c, w, crc)
    ensures Handle(w, c) != ""
  {}

  lemma {:induction false} UploadGathers(files: Files, dst: string, crc: Bytes -> string, c: Client, w: World, k: nat)
    requires Refines(files, dst, w) && Honest(c, w, crc) && k <= |c.order|
    ensures Refines(Upload(files, dst, crc, c, w, k), dst, Sessions(c, w, crc, k))
  {
    hide Step, Refines, Gathered, ChunkLength, DigestOk, Handle, TotalBytes;
    if k == 0 {
      OpeningAccepted(files, dst, crc, c, w);
    } else {
      UploadGathers(files, dst, crc, c, w, k - 1);
      HandleGiven(files, dst, c, w, crc);
      StepRefines(Upload(files, dst, crc, c, w, k - 1), dst, Sessions(c, w, crc, k - 1), crc, Sending(c, Handle(w, c), k - 1));
      GatheredNext(c, w, crc, k);
    }
  }

  lemma LastPiece(a: Bytes, x: Bytes, b: Bytes, y: Bytes)
    requires |a| == |b|
    ensures a + x == b + y <==> a == b && x == y
  {
    assert (a + x)[..|a|] == a && (a + x)[|a|..] == x;
    assert (b + y)[..|b|] == b && (b + y)[|b|..] == y;
  }

  lemma {:induction false} GatheredOwn(bodies: seq<Bytes>, held: map<int, Bytes>, n: nat)
    requires n <= |bodies| && Full(held, n) && forall i :: 0 <= i < n ==> |held[i]| == |bodies[i]|
    ensures |Concat(held, n)| == |Glued(bodies[..n])|
    ensures Concat(held, n) == Glued(bodies[..n]) <==> forall i :: 0 <= i < n ==> held[i] == bodies[i]
  {
    if n > 0 {
      GatheredOwn(bodies, held, n - 1);
      assert bodies[..n][..n - 1] == bodies[..n - 1];
      LastPiece(Concat(held, n - 1), held[n - 1], Glued(bodies[..n - 1]), bodies[n - 1]);
    }
  }

  /** The whole that the session holds once every index is covered. */
  ghost function Held(c: Client, w: World, crc: Bytes -> string): Bytes
    requires Honest(c, w, crc) && Full(Gathered(c, w, crc, |c.order|), |c.bodies|)
  {
    Concat(Gathered(c, w, crc, |c.order|), |c.bodies|)
  }

  lemma CoversIsFull(c: Client, w: World, crc: Bytes -> string)
    requires Honest(c, w, crc)
    ensures Full(Gathered(c, w, crc, |c.order|), |c.bodies|) <==> Covers(c, w)
  {
    hide ChunkLength, DigestOk, WellFormed, TotalBytes, Found;
    var held := Gathered(c, w, crc, |c.order|);
    assert c.order[..|c.order|] == c.order;
    assert forall i :: i in held <==> i in c.order || i in Found(w, c.layout);
    if Covers(c, w) {
      forall i | 0 <= i < |c.bodies| ensures i in held {
        assert i in c.order || i in Found(w, c.layout);
      }
    }
  }

  lemma FoundLengths(files: Files, dst: string, c: Client, w: World)
    requires Refines(files, dst, w)
    ensures forall i :: i in Found(w, c.layout) ==> 0 <= i < c.layout.totalChunks && |Found(w, c.layout)[i]| == ChunkLength(c.layout, i)
  {
    hide ChunkLength, WellFormed, ReadState;
  }

  lemma HeldIsOwn(files: Files, dst: string, c: Client, w: World, crc: Bytes -> string)
    requires Refines(files, dst, w) && Honest(c, w, crc) && Full(Gathered(c, w, crc, |c.order|), |c.bodies|)
    ensures Held(c, w, crc) == Glued(c.bodies) <==> FoundIsOwn(c, w)
  {
    hide ChunkLength, DigestOk, WellFormed, TotalBytes, Found, Refines;
    var held := Gathered(c, w, crc, |c.order|);
    FoundLengths(files, dst, c, w);
    forall i | 0 <= i < |c.bodies|
      ensures |held[i]| == |c.bodies[i]|
      ensures held[i] == c.bodies[i] <==> (i in Found(w, c.layout) ==> Found(w, c.layout)[i] == c.bodies[i])
    {
      assert i in held;
    }
    GatheredOwn(c.bodies, held, |c.bodies|);
    assert c.bodies[..|c.bodies|] == c.bodies;
  }

  lemma DestinationTracked(files: Files, dst: string, w: World)
    requires Refines(files, dst, w)
    ensures Lookup(files, dst) == w.dst
  {}

  lemma SessionCompletes(c: Client, w: World, crc: Bytes -> string, digest: string)
    requires Honest(c, w, crc) && Handle(w, c) != ""
    ensures c.layout.totalChunks >= 0
    ensures var (end, reply) := SpecComplete(Sessions(c, w, crc, |c.order|), crc, Complete(Handle(w, c), digest));
            if !Full(Gathered(c, w, crc, |c.order|), |c.bodies|) then reply.Missing? && end.dst == w.dst
            else if DigestOk(crc, Held(c, w, crc), digest)
            then reply == Completed(crc(Held(c, w, crc))) && end.dst == Some(Raw(Held(c, w, crc)))
            else reply.AssembleFailed? && end.dst == None
  {
    hide ChunkLength, DigestOk, WellFormed, TotalBytes, Found, Handle, Gathered, Concat;
    WellFormedSize(c.layout);
  }

  /** From any disk that holds a session, or none: the client opens, sends, and completes.
      Unless every index was found or sent, the completion is refused and the destination is
      as before. Otherwise the destination becomes what the session holds, provided the final
      digest is absent or right, and is gone if it is wrong. What the session holds is the
      client's file exactly when the bodies found were its own: init resumes by layout alone. */
  lemma HonestUploadCompletes(files: Files, dst: string, crc: Bytes -> string, c: Client, w: World, digest: string)
    requires Refines(files, dst, w) && Honest(c, w, crc)
    ensures Full(Gathered(c, w, crc, |c.order|), |c.bodies|) <==> Covers(c, w)
    ensures var (end, reply) := CompleteStep(Upload(files, dst, crc, c, w, |c.order|), dst, crc, Complete(Handle(w, c), digest));
            if !Covers(c, w) then reply.Missing? && Lookup(end, dst) == Lookup(files, dst)
            else
              && (if DigestOk(crc, Held(c, w, crc), digest)
                  then reply == Completed(crc(Held(c, w, crc))) && Lookup(end, dst) == Some(Raw(Held(c, w, crc)))
                  else reply.AssembleFailed? && Lookup(end, dst) == None)
              && (Held(c, w, crc) == Glued(c.bodies) <==> FoundIsOwn(c, w))
  {
    hide CompleteStep, WellFormed, ChunkLength, Upload, Refines, SpecComplete, Gathered, Covers, FoundIsOwn, DigestOk, Held, Handle;
    CoversIsFull(c, w, crc);
    if Covers(c, w) {
      HeldIsOwn(files, dst, c, w, crc);
    }
    UploadGathers(files, dst, crc, c, w, |c.order|);
    HandleGiven(files, dst, c, w, crc);
    SessionCompletes(c, w, crc, digest);
    var mid := Upload(files, dst, crc, c, w, |c.order|);
    CompleteRefines(mid, dst, Sessions(c, w, crc, |c.order|), crc, Complete(Handle(w, c), digest));
    DestinationTracked(files, dst, w);
    DestinationTracked(CompleteStep(mid, dst, crc, Complete(Handle(w, c), digest)).0, dst,
                       SpecComplete(Sessions(c, w, crc, |c.order|), crc, Complete(Handle(w, c), digest)).0);
  }

  /** One run in which an older file is lost: "f" holds a byte, a new upload of one byte
      replaces nothing, and after a completion with a wrong digest there is no "f" at all. */
  lemma OlderFileLost()
    ensures var crc: Bytes -> string := _ => "0";
            var files := map["f" := Raw([1])];
            var c, w := Client(Layout(1, 1, 1), "", "h", _ => true, [[7]], [0], [""]), World(None, Some(Raw([1])));
            && Refines(files, "f", w) && Honest(c, w, crc)
            && var (end, reply) := CompleteStep(Upload(files, "f", crc, c, w, 1), "f", crc, Complete("h", "1"));
               Lookup(files, "f") == Some(Raw([1])) && reply.AssembleFailed? && Lookup(end, "f") == None
  {
    hide CompleteStep, Upload, Gathered, Held, TotalBytes;
    var crc: Bytes -> string := _ => "0";
    var files := map["f" := Raw([1])];
    var c, w := Client(Layout(1, 1, 1), "", "h", _ => true, [[7]], [0], [""]), World(None, Some(Raw([1])));
    NamesDistinct("f");
    assert WellFormed(c.layout);
    RangesTile(c.layout, 0);
    assert Honest(c, w, crc) && Covers(c, w);
    HonestUploadCompletes(files, "f", crc, c, w, "1");
    assert FoldHex(crc(Held(c, w, crc))[0]) != FoldHex("1"[0]);
  }

  /** The two clients of the next lemma: files of two bytes each, in chunks of one. */
  function First(): Client {
    Client(Layout(2, 1, 2), "a", "h", _ => true, [[1], [2]], [0], [""])
  }

  function Second(): Client {
    Client(Layout(2, 1, 2), "b", "i", _ => true, [[8], [9]], [1], [""])
  }

  lemma TwoByteClients(w: World, crc: Bytes -> string)
    ensures Honest(First(), w, crc) && Honest(Second(), w, crc)
  {
    hide TotalBytes;
    assert WellFormed(First().layout);
    RangesTile(First().layout, 0);
    RangesTile(First().layout, 1);
  }

  lemma EmptyDisk()
    ensures Refines(map[], "f", World(None, None))
  {}

  lemma MixedHeld(w: World, crc: Bytes -> string)
    requires Honest(First(), World(None, None), crc) && w == Sessions(First(), World(None, None), crc, 1) && Honest(Second(), w, crc)
    ensures Covers(Second(), w) && Full(Gathered(Second(), w, crc, 1), 2) && Held(Second(), w, crc) == [1, 9]
  {
    hide Honest, TotalBytes;
    var found := Found(w, Second().layout);
    assert First().order[..1] == [0] && Second().order[..1] == [1];
    assert 0 in found && found[0] == [1];
    var held := Gathered(Second(), w, crc, 1);
    assert 0 in held && 1 in held && held[0] == [1] && held[1] == [9];
    assert Concat(held, 2) == Concat(held, 1) + held[1] == (Concat(held, 0) + held[0]) + held[1];
  }

  /** One run in which two files are mixed. The first client stops after its first chunk; the
      second announces another digest, is told that chunk 0 is there, sends chunk 1, and gets
      a file that is neither. */
  lemma FilesMixed(crc: Bytes -> string)
    ensures var a, b, none := First(), Second(), World(None, None);
            && Refines(map[], "f", none) && Honest(a, none, crc)
            && var mid, w := Upload(map[], "f", crc, a, none, 1), Sessions(a, none, crc, 1);
            && Refines(mid, "f", w) && Honest(b, w, crc)
            && var (end, reply) := CompleteStep(Upload(mid, "f", crc, b, w, 1), "f", crc, Complete(Handle(w, b), ""));
               reply.Completed? && Lookup(end, "f") == Some(Raw([1, 9]))
  {
    hide CompleteStep, Upload, TotalBytes, Honest, Covers, FoundIsOwn, Refines;
    var a, b, none := First(), Second(), World(None, None);
    TwoByteClients(none, crc);
    EmptyDisk();
    UploadGathers(map[], "f", crc, a, none, 1);
    var mid, w := Upload(map[], "f", crc, a, none, 1), Sessions(a, none, crc, 1);
    TwoByteClients(w, crc);
    MixedHeld(w, crc);
    HonestUploadCompletes(mid, "f", crc, b, w, "");
  }
}
