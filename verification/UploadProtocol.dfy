/**
 The resumable upload protocol of internal/server/chunkupload.go for one destination,
 one request at a time. The file system is a map from names to contents; the class
 below runs the four handlers on it, each proved against a function on that map.
 */
module UploadProtocol {
  import opened RowMajor
  import opened Text
  import opened UploadLayout

  type Bytes = seq<Byte>

  /** The resume record, and what a file can hold. */
  datatype State = State(layout: Layout, fileCrc: string, received: set<int>, uploadId: string)

  datatype File = Raw(bytes: Bytes) | Record(state: State)

  type Files = map<string, File>

  // ----- names -----

  const SUFFIX := ".mudppart"

  function StatePath(dst: string): string {
    dst + SUFFIX
  }

  function TmpPath(dst: string): string {
    StatePath(dst) + ".tmp"
  }

  function SegmentPath(dst: string, index: nat): string {
    StatePath(dst) + ("." + Itoa(index))
  }

  /** The names of segments 0..n-1. */
  function SegmentNames(dst: string, n: nat): set<string> {
    set i | 0 <= i < n :: SegmentPath(dst, i)
  }

  /** The destination, the record, its temporary twin and the segments never collide. */
  lemma NamesDistinct(dst: string)
    ensures dst != StatePath(dst) && dst != TmpPath(dst) && StatePath(dst) != TmpPath(dst)
    ensures forall i: nat :: SegmentPath(dst, i) !in {dst, StatePath(dst), TmpPath(dst)}
    ensures forall i: nat, j: nat :: SegmentPath(dst, i) == SegmentPath(dst, j) ==> i == j
  {
    var p := StatePath(dst);
    forall i: nat
      ensures SegmentPath(dst, i) !in {dst, p, TmpPath(dst)}
    {
      ItoaDigits(i);
      assert SegmentPath(dst, i)[|p| + 1] == Itoa(i)[0];
      assert TmpPath(dst)[|p| + 1] == 't';
    }
    forall i: nat, j: nat | SegmentPath(dst, i) == SegmentPath(dst, j)
      ensures i == j
    {
      assert SegmentPath(dst, i)[|p| + 1..] == Itoa(i);
      assert SegmentPath(dst, j)[|p| + 1..] == Itoa(j);
      ItoaInjective(i, j);
    }
  }

  /** What can follow the suffix in an artifact name: nothing, ".tmp" or a dot and digits. */
  predicate IsTail(t: string) {
    t == "" || (|t| > 1 && t[0] == '.' && t[1] != 'm' && forall k :: 0 < k < |t| ==> t[k] != '.')
  }

  /** Record, temporary record or a segment of dst. */
  ghost predicate IsArtifact(name: string, dst: string) {
    name == StatePath(dst) || name == TmpPath(dst) || exists i: nat :: name == SegmentPath(dst, i)
  }

  predicate HasShape(name: string, dst: string) {
    && |name| >= |dst| + |SUFFIX|
    && name[..|dst|] == dst && name[|dst|..|dst| + |SUFFIX|] == SUFFIX && IsTail(name[|dst| + |SUFFIX|..])
  }

  lemma ArtifactShape(name: string, dst: string)
    requires IsArtifact(name, dst)
    ensures HasShape(name, dst)
  {
    hide Itoa;
    var p := dst + SUFFIX;
    assert p[..|dst|] == dst && p[|dst|..] == SUFFIX;
    if name == StatePath(dst) {
      assert name[|p|..] == "";
    } else if name == TmpPath(dst) {
      assert name[|p|..] == ".tmp";
    } else {
      var i: nat :| name == SegmentPath(dst, i);
      ItoaDigits(i);
      assert name[|p|..] == "." + Itoa(i);
    }
  }

  lemma SuffixAt(name: string, dst: string)
    requires HasShape(name, dst)
    ensures |dst| + 1 < |name| && name[|dst|] == '.' && name[|dst| + 1] == 'm'
  {
    assert name[|dst|..|dst| + |SUFFIX|][0] == '.' && name[|dst|..|dst| + |SUFFIX|][1] == 'm';
  }

  lemma SuffixOnce(name: string, dst: string, pos: int)
    requires HasShape(name, dst) && |dst| < pos < |name| - 1
    ensures !(name[pos] == '.' && name[pos + 1] == 'm')
  {
    var d := pos - |dst|;
    if d < |SUFFIX| {
      assert name[pos] == name[|dst|..|dst| + |SUFFIX|][d];
    } else {
      assert name[pos] == name[|dst| + |SUFFIX|..][d - |SUFFIX|] && name[pos + 1] == name[|dst| + |SUFFIX|..][d - |SUFFIX| + 1];
    }
  }

  lemma SameLength(name: string, a: string, b: string)
    requires HasShape(name, a) && HasShape(name, b) && |a| == |b|
    ensures a == b
  {}

  /** No name is an artifact of two destinations. */
  lemma ArtifactsApart(a: string, b: string, name: string)
    requires IsArtifact(name, a) && IsArtifact(name, b)
    ensures a == b
  {
    hide IsArtifact, HasShape;
    ArtifactShape(name, a);
    ArtifactShape(name, b);
    SuffixAt(name, a);
    SuffixAt(name, b);
    if |a| < |b| {
      SuffixOnce(name, a, |b|);
    } else if |b| < |a| {
      SuffixOnce(name, b, |a|);
    } else {
      SameLength(name, a, b);
    }
  }

  ghost predicate Touched(name: string, dst: string) {
    name == dst || IsArtifact(name, dst)
  }

  /** Uploads to two destinations have no name in common exactly when neither destination is
      itself a record or segment of the other. */
  lemma DestinationsApart(a: string, b: string)
    requires a != b
    ensures (forall name :: Touched(name, a) ==> !Touched(name, b)) <==> !IsArtifact(a, b) && !IsArtifact(b, a)
  {
    hide IsArtifact;
    assert Touched(a, a) && Touched(b, b);
    if !IsArtifact(a, b) && !IsArtifact(b, a) {
      forall name | Touched(name, a) ensures !Touched(name, b) {
        if IsArtifact(name, a) && IsArtifact(name, b) {
          ArtifactsApart(a, b, name);
        }
      }
    }
  }

  /** The condition can fail: "a.mudppart.0" is the first segment of "a". */
  lemma SegmentAsDestination()
    ensures IsArtifact("a.mudppart.0", "a") && !(forall name :: Touched(name, "a") ==> !Touched(name, "a.mudppart.0"))
  {
    assert "a.mudppart.0" == SegmentPath("a", 0);
    DestinationsApart("a", "a.mudppart.0");
  }

  // ----- digests -----

  function FoldHex(c: char): char {
    if 'A' <= c <= 'F' then (c as int + 32) as char else c
  }

  predicate EqualFoldHex(a: string, b: string) {
    |a| == |b| && forall i :: 0 <= i < |a| ==> FoldHex(a[i]) == FoldHex(b[i])
  }

  /** equalFoldHex. */
  method CompareDigests(a: string, b: string) returns (same: bool)
    ensures same == EqualFoldHex(a, b)
  {
    if |a| != |b| {
      return false;
    }
    for i := 0 to |a|
      invariant forall k :: 0 <= k < i ==> FoldHex(a[k]) == FoldHex(b[k])
    {
      var ca, cb := a[i], b[i];
      if 'A' <= ca <= 'F' {
        ca := (ca as int + 32) as char;
      }
      if 'A' <= cb <= 'F' {
        cb := (cb as int + 32) as char;
      }
      if ca != cb {
        return false;
      }
    }
    return true;
  }

  predicate IsHex(c: char) {
    '0' <= c <= '9' || 'A' <= c <= 'F' || 'a' <= c <= 'f'
  }

  function HexDigit(c: char): nat
    requires IsHex(c)
  {
    if c <= '9' then c as int - '0' as int else if c <= 'F' then c as int - 'A' as int + 10 else c as int - 'a' as int + 10
  }

  predicate IsHexText(s: string) {
    forall i :: 0 <= i < |s| ==> IsHex(s[i])
  }

  /** The number a text of hexadecimal digits denotes. */
  function HexValue(s: string): nat
    requires IsHexText(s)
  {
    if s == "" then 0 else HexValue(s[..|s| - 1]) * 16 + HexDigit(s[|s| - 1])
  }

  lemma SameHexDigit(c: char, d: char)
    requires IsHex(c) && IsHex(d)
    ensures HexDigit(c) < 16 && (FoldHex(c) == FoldHex(d) <==> HexDigit(c) == HexDigit(d))
  {}

  /** Two hexadecimal digests agree exactly when they have the same length and denote the same
      number, whatever the case of their letters. */
  lemma {:induction false} SameDigestIff(a: string, b: string)
    requires IsHexText(a) && IsHexText(b)
    ensures EqualFoldHex(a, b) <==> |a| == |b| && HexValue(a) == HexValue(b)
  {
    hide FoldHex, HexDigit, IsHex;
    if |a| == |b| && a != "" {
      var n := |a| - 1;
      SameDigestIff(a[..n], b[..n]);
      SameHexDigit(a[n], b[n]);
      SameHexDigit(b[n], a[n]);
      assert forall i :: 0 <= i < n ==> a[..n][i] == a[i] && b[..n][i] == b[i];
      assert EqualFoldHex(a, b) <==> EqualFoldHex(a[..n], b[..n]) && FoldHex(a[n]) == FoldHex(b[n]);
    }
  }

  /** An empty expectation switches verification off. */
  predicate DigestOk(crc: Bytes -> string, bytes: Bytes, expected: string) {
    expected == "" || EqualFoldHex(crc(bytes), expected)
  }

  // ----- requests and replies -----

  /** The parsed body of a chunk request: not exactly one part, a part whose stream
      breaks off, or a part read to its end. */
  datatype Part = NotOnePart | Broken | Whole(bytes: Bytes)

  /** One request, with what the environment decides during it: the minted handle, the
      quota's answer to a projected size, whether the record can be written. */
  datatype Request =
    | Init(layout: Layout, fileCrc: string, freshId: string, quota: int -> bool, canWrite: bool)
    | Chunk(uploadId: string, index: int, part: Part, hash: string, canWrite: bool)
    | Complete(uploadId: string, fileCrc: string)
    | Abort(uploadId: string)

  datatype Reply =
    | InitRefused(verdict: Verdict)
    | QuotaExceeded(projected: int)
    | InitOk(uploadId: string, resume: bool, received: set<int>)
    | NoUpload
    | HandleRequired
    | WrongHandle
    | OutOfRange
    | BadPart
    | SegmentRejected
    | WriteFailed
    | Resumed(index: int)
    | Stored(index: int, crc: string)
    | Missing(indices: seq<int>)
    | AssembleFailed
    | Completed(crc: string)
    | Aborted

  // ----- sums over index sets -----

  ghost function SumOver(s: set<int>, f: int -> int): int {
    if exists i :: i in s then
      var i :| i in s;
      f(i) + SumOver(s - {i}, f)
    else 0
  }

  lemma {:induction false} SumOverRemove(s: set<int>, f: int -> int, i: int)
    requires i in s
    ensures SumOver(s, f) == f(i) + SumOver(s - {i}, f)
    decreases s
  {
    var k :| k in s && SumOver(s, f) == f(k) + SumOver(s - {k}, f);
    if k != i {
      SumOverRemove(s - {k}, f, i);
      SumOverRemove(s - {i}, f, k);
      assert s - {k} - {i} == s - {i} - {k};
    }
  }

  lemma {:induction false} SumOverSame(s: set<int>, f: int -> int, g: int -> int)
    requires forall i :: i in s ==> f(i) == g(i)
    ensures SumOver(s, f) == SumOver(s, g)
    decreases s
  {
    if i :| i in s {
      SumOverRemove(s, f, i);
      SumOverRemove(s, g, i);
      SumOverSame(s - {i}, f, g);
    }
  }

  // ----- the handlers as functions on the file system -----

  /** readChunkState: a record that breaks the hard bounds counts as unreadable. */
  function ReadState(files: Files, dst: string): Option<State> {
    if StatePath(dst) !in files || files[StatePath(dst)].Raw? then None
    else
      var st := files[StatePath(dst)].state;
      if st.layout.totalChunks <= 0 || st.layout.totalChunks > MAX_CHUNKS || st.layout.chunkSize <= 0
         || st.layout.chunkSize > MAX_CHUNK_SIZE || st.layout.size < 0 then None
      else Some(st)
  }

  lemma {:induction false} MissingShort(received: set<int>, n: nat)
    ensures |MissingUpTo(received, n)| <= n
  {
    if n > 0 {
      MissingShort(received, n - 1);
    }
  }

  /** Whatever stands on the disk, a record is taken up exactly if it declares 1 to 100000 chunks
      of 1 byte to 160 MiB and no negative size; so no request ever asks for more than 100000
      segments. */
  lemma ReadableIff(files: Files, dst: string, st: State)
    ensures ReadState(files, dst) == Some(st) <==>
              && StatePath(dst) in files && files[StatePath(dst)] == Record(st)
              && 1 <= st.layout.totalChunks <= 100_000 && 1 <= st.layout.chunkSize <= 160 * 1024 * 1024 && 0 <= st.layout.size
    ensures match ReadState(files, dst)
            case None => true
            case Some(taken) => |MissingUpTo(taken.received, taken.layout.totalChunks)| <= 100_000
  {
    hide StatePath, MissingUpTo;
    if ReadState(files, dst).Some? {
      MissingShort(ReadState(files, dst).value.received, ReadState(files, dst).value.layout.totalChunks);
    }
  }

  /** writeChunkState: write the temporary file, then rename it over the record. */
  function WriteState(files: Files, dst: string, st: State): Files {
    (files[TmpPath(dst) := Record(st)] - {TmpPath(dst)})[StatePath(dst) := Record(st)]
  }

  ghost function Lengths(l: Layout): int -> int {
    i => ChunkLength(l, i)
  }

  ghost function AlreadyReceived(st: State): int {
    SumOver(st.received, Lengths(st.layout))
  }

  /** The record init will write: the existing one if its layout is the requested one. */
  function InitState(existing: Option<State>, req: Request): (st: State)
    requires req.Init?
  {
    var st := if existing.Some? && existing.value.layout == req.layout then existing.value
              else State(req.layout, req.fileCrc, {}, "");
    if st.uploadId == "" then st.(uploadId := req.freshId) else st
  }

  ghost function InitStep(files: Files, dst: string, req: Request): (Files, Reply)
    requires req.Init?
  {
    if CheckLayout(req.layout) != Accepted then (files, InitRefused(CheckLayout(req.layout)))
    else
      var st := InitState(ReadState(files, dst), req);
      var already := AlreadyReceived(st);
      if !req.quota(req.layout.size - already) then (files, QuotaExceeded(req.layout.size - already))
      else if !req.canWrite then (files, WriteFailed)
      else (WriteState(files, dst, st), InitOk(st.uploadId, already > 0, st.received))
  }

  /** writeChunkSegment: None is a rejected body, whose segment file is removed. */
  function WriteSegment(files: Files, path: string, part: Part, hash: string, want: int, crc: Bytes -> string): (Files, Option<string>)
    requires !part.NotOnePart?
  {
    if want < 0 then (files, None)
    else if part.Broken? || |part.bytes| != want || !DigestOk(crc, part.bytes, hash) then (files - {path}, None)
    else (files[path := Raw(part.bytes)], Some(crc(part.bytes)))
  }

  function ChunkStep(files: Files, dst: string, crc: Bytes -> string, req: Request): (Files, Reply)
    requires req.Chunk?
  {
    if req.uploadId == "" then (files, HandleRequired)
    else
      match ReadState(files, dst)
      case None => (files, NoUpload)
      case Some(st) =>
        if req.uploadId != st.uploadId then (files, WrongHandle)
        else if req.index < 0 || req.index >= st.layout.totalChunks then (files, OutOfRange)
        else if req.index in st.received then (files, Resumed(req.index))
        else if req.part.NotOnePart? then (files, BadPart)
        else
          var (files', sum) := WriteSegment(files, SegmentPath(dst, req.index), req.part, req.hash, ChunkLength(st.layout, req.index), crc);
          if sum.None? then (files', SegmentRejected)
          else if !req.canWrite then (files', WriteFailed)
          else (WriteState(files', dst, st.(received := st.received + {req.index})), Stored(req.index, sum.value))
  }

  /** The bytes of segments 0..n-1 in index order; None if one of them cannot be opened. */
  function Segments(files: Files, dst: string, n: nat): Option<Bytes> {
    if n == 0 then Some([])
    else
      var before := Segments(files, dst, n - 1);
      var path := SegmentPath(dst, n - 1);
      if before.None? || path !in files || files[path].Record? then None
      else Some(before.value + files[path].bytes)
  }

  function Cleaned(files: Files, dst: string, st: State): Files
    requires st.layout.totalChunks >= 0
  {
    files - SegmentNames(dst, st.layout.totalChunks) - {StatePath(dst)}
  }

  function CompleteStep(files: Files, dst: string, crc: Bytes -> string, req: Request): (Files, Reply)
    requires req.Complete?
  {
    if req.uploadId == "" then (files, HandleRequired)
    else
      match ReadState(files, dst)
      case None => (files, NoUpload)
      case Some(st) =>
        var missing := MissingUpTo(st.received, st.layout.totalChunks);
        if req.uploadId != st.uploadId then (files, WrongHandle)
        else if missing != [] then (files, Missing(missing))
        else
          match Segments(files, dst, st.layout.totalChunks)
          case None => (files - {dst}, AssembleFailed)
          case Some(whole) =>
            if |whole| != st.layout.size || !DigestOk(crc, whole, req.fileCrc) then (files - {dst}, AssembleFailed)
            else (Cleaned(files[dst := Raw(whole)], dst, st), Completed(crc(whole)))
  }

  function AbortStep(files: Files, dst: string, req: Request): (Files, Reply)
    requires req.Abort?
  {
    if req.uploadId == "" then (files, HandleRequired)
    else
      match ReadState(files, dst)
      case None => (files, Aborted)
      case Some(st) =>
        if req.uploadId != st.uploadId then (files, WrongHandle) else (Cleaned(files, dst, st), Aborted)
  }

  ghost function Step(files: Files, dst: string, crc: Bytes -> string, req: Request): (Files, Reply) {
    match req
    case Init(_, _, _, _, _) => InitStep(files, dst, req)
    case Chunk(_, _, _, _, _) => ChunkStep(files, dst, crc, req)
    case Complete(_, _) => CompleteStep(files, dst, crc, req)
    case Abort(_) => AbortStep(files, dst, req)
  }

  // ----- the handlers as they run -----

  lemma {:induction false} SegmentsStuck(files: Files, dst: string, i: nat, n: nat)
    requires i < n && (SegmentPath(dst, i) !in files || files[SegmentPath(dst, i)].Record?)
    ensures Segments(files, dst, n) == None
  {
    if i < n - 1 {
      SegmentsStuck(files, dst, i, n - 1);
    }
  }

  class UploadServer {
    var files: Files
    const crc: Bytes -> string

    constructor (files: Files, crc: Bytes -> string)
      ensures this.files == files && this.crc == crc
    {
      this.files := files;
      this.crc := crc;
    }

    method WriteChunkState(dst: string, st: State)
      modifies this`files
      ensures files == WriteState(old(files), dst, st)
    {
      files := files[TmpPath(dst) := Record(st)];
      files := (files - {TmpPath(dst)})[StatePath(dst) := Record(st)];
    }

    method HandleInit(dst: string, req: Request) returns (reply: Reply)
      requires req.Init?
      modifies this`files
      ensures (files, reply) == InitStep(old(files), dst, req)
    {
      hide CheckLayout, ReadState, ChunkLength, WriteState;
      if CheckLayout(req.layout) != Accepted {
        return InitRefused(CheckLayout(req.layout));
      }
      var st := State(req.layout, req.fileCrc, {}, "");
      var existing := ReadState(files, dst);
      if existing.Some? && existing.value.layout == req.layout {
        st := existing.value;
      }
      var already := 0;
      var rest := st.received;
      while exists i :: i in rest
        invariant files == old(files) && rest <= st.received
        invariant already + SumOver(rest, Lengths(st.layout)) == AlreadyReceived(st)
        decreases rest
      {
        var i :| i in rest;
        SumOverRemove(rest, Lengths(st.layout), i);
        already := already + ChunkLength(st.layout, i);
        rest := rest - {i};
      }
      if st.uploadId == "" {
        st := st.(uploadId := req.freshId);
      }
      assert st == InitState(existing, req);
      assert already == AlreadyReceived(st);
      if !req.quota(req.layout.size - already) {
        return QuotaExceeded(req.layout.size - already);
      }
      if !req.canWrite {
        return WriteFailed;
      }
      WriteChunkState(dst, st);
      return InitOk(st.uploadId, already > 0, st.received);
    }

    method WriteChunkSegment(dst: string, index: nat, part: Part, hash: string, want: int) returns (sum: Option<string>)
      requires !part.NotOnePart?
      modifies this`files
      ensures (files, sum) == WriteSegment(old(files), SegmentPath(dst, index), part, hash, want, crc)
    {
      if want < 0 {
        return None;
      }
      var path := SegmentPath(dst, index);
      files := files[path := Raw([])];
      if part.Broken? {
        files := files - {path};
        assert files == old(files) - {path};
        return None;
      }
      files := files[path := Raw(part.bytes)];
      assert files == old(files)[path := Raw(part.bytes)];
      if |part.bytes| != want {
        files := files - {path};
        assert files == old(files) - {path};
        return None;
      }
      if hash != "" {
        var same := CompareDigests(crc(part.bytes), hash);
        if !same {
          files := files - {path};
          assert files == old(files) - {path};
          return None;
        }
      }
      return Some(crc(part.bytes));
    }

    method HandleChunk(dst: string, req: Request) returns (reply: Reply)
      requires req.Chunk?
      modifies this`files
      ensures (files, reply) == ChunkStep(old(files), dst, crc, req)
    {
      hide StatePath, SegmentPath, TmpPath, ChunkLength, DigestOk;
      NamesDistinct(dst);
      if req.uploadId == "" {
        return HandleRequired;
      }
      var found := ReadState(files, dst);
      if found.None? {
        return NoUpload;
      }
      var st := found.value;
      if req.uploadId != st.uploadId {
        return WrongHandle;
      }
      if req.index < 0 || req.index >= st.layout.totalChunks {
        return OutOfRange;
      }
      var again := ReadState(files, dst);
      if again.Some? && req.index in again.value.received {
        return Resumed(req.index);
      }
      if req.part.NotOnePart? {
        return BadPart;
      }
      var sum := WriteChunkSegment(dst, req.index, req.part, req.hash, ChunkLength(st.layout, req.index));
      if sum.None? {
        return SegmentRejected;
      }
      found := ReadState(files, dst);
      if found.None? {
        return NoUpload;
      }
      st := found.value;
      st := st.(received := st.received + {req.index});
      if !req.canWrite {
        return WriteFailed;
      }
      WriteChunkState(dst, st);
      return Stored(req.index, sum.value);
    }

    method RemoveChunkArtifacts(dst: string, st: State)
      requires st.layout.totalChunks >= 0
      modifies this`files
      ensures files == Cleaned(old(files), dst, st)
    {
      for i := 0 to st.layout.totalChunks
        invariant files == old(files) - SegmentNames(dst, i)
      {
        files := files - {SegmentPath(dst, i)};
        assert SegmentNames(dst, i + 1) == SegmentNames(dst, i) + {SegmentPath(dst, i)};
      }
      files := files - {StatePath(dst)};
    }

    method AssembleChunks(dst: string, st: State, expected: string) returns (sum: Option<string>)
      requires st.layout.totalChunks >= 0
      modifies this`files
      ensures MissingUpTo(st.received, st.layout.totalChunks) != [] ==> sum == None && files == old(files)
      ensures MissingUpTo(st.received, st.layout.totalChunks) == [] ==>
              match Segments(old(files), dst, st.layout.totalChunks)
              case None => sum == None && files == old(files) - {dst}
              case Some(whole) =>
                if |whole| != st.layout.size || !DigestOk(crc, whole, expected)
                then sum == None && files == old(files) - {dst}
                else sum == Some(crc(whole)) && files == Cleaned(old(files)[dst := Raw(whole)], dst, st)
    {
      hide StatePath, SegmentPath, TmpPath, EqualFoldHex, Cleaned;
      NamesDistinct(dst);
      var missing := MissingChunks(st.received, st.layout.totalChunks);
      if |missing| > 0 {
        return None;
      }
      files := files[dst := Raw([])];
      var written := 0;
      for i := 0 to st.layout.totalChunks
        invariant Segments(old(files), dst, i).Some?
        invariant var out := Segments(old(files), dst, i).value;
                  files == old(files)[dst := Raw(out)] && written == |out|
      {
        var path := SegmentPath(dst, i);
        if path !in files || files[path].Record? {
          SegmentsStuck(old(files), dst, i, st.layout.totalChunks);
          files := files - {dst};
          return None;
        }
        files := files[dst := Raw(files[dst].bytes + files[path].bytes)];
        written := written + |files[path].bytes|;
      }
      if written != st.layout.size {
        files := files - {dst};
        return None;
      }
      var whole := files[dst].bytes;
      if expected != "" {
        var same := CompareDigests(crc(whole), expected);
        if !same {
          files := files - {dst};
          return None;
        }
      }
      RemoveChunkArtifacts(dst, st);
      return Some(crc(whole));
    }

    method HandleComplete(dst: string, req: Request) returns (reply: Reply)
      requires req.Complete?
      modifies this`files
      ensures (files, reply) == CompleteStep(old(files), dst, crc, req)
    {
      if req.uploadId == "" {
        return HandleRequired;
      }
      var found := ReadState(files, dst);
      if found.None? {
        return NoUpload;
      }
      var st := found.value;
      if req.uploadId != st.uploadId {
        return WrongHandle;
      }
      var missing := MissingChunks(st.received, st.layout.totalChunks);
      if |missing| > 0 {
        return Missing(missing);
      }
      var sum := AssembleChunks(dst, st, req.fileCrc);
      if sum.None? {
        return AssembleFailed;
      }
      return Completed(sum.value);
    }

    method HandleAbort(dst: string, req: Request) returns (reply: Reply)
      requires req.Abort?
      modifies this`files
      ensures (files, reply) == AbortStep(old(files), dst, req)
    {
      if req.uploadId == "" {
        return HandleRequired;
      }
      var found := ReadState(files, dst);
      if found.Some? {
        if req.uploadId != found.value.uploadId {
          return WrongHandle;
        }
        RemoveChunkArtifacts(dst, found.value);
      }
      return Aborted;
    }
  }
}
