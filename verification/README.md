# Verified models of mudp's stateful and arithmetic kernels

mudp is a self-hosted container console. This project models its hardest internal parts in
Dafny and proves what they promise, for all inputs and all runs. `dafny verify
dfyconfig.toml` checks everything.

| files | what they model |
|---|---|
| `UploadLayout`, `UploadProtocol` | the four requests of the resumable chunk upload on a file system that maps names to contents, one request at a time |
| `UploadSession`, `UploadRuns`, `UploadAnswers`, `UploadProgress` | an abstract session of accepted bodies, the proof that the handlers refine it, and what follows for whole runs, for every single answer, and for a client that keeps to the protocol |
| `UploadInterleaving`, `UploadLinearizable`, `KeyedLocks` | concurrent chunk requests as program counters, their equivalence to requests one at a time, and the evicting pool of keyed mutexes they rely on |
| `UploadStuck` | what two holders of a segment lock can do to an upload |
| `ForwardRules`, `PortManager` | port-forwarding rules and the reconciler of live listeners |
| `UdpNat`, `UdpHistory` | the UDP read loop, its reply goroutines and the reaper over one flow table, and what their actions alone tell of the traffic |
| `ForwardSpecs` | the printer and parser of forward labels |
| `HttpHeader` | the login gate's header peek and its replay by the TCP relay (RFC 9112, sections 2.1 and 2.2) |
| `RateLimit`, `RateLimitExact`, `RateLimitWindows` | the per-address token buckets with garbage collection, against a limiter that never forgets, and exactly whom they turn away |
| `LinkPaths` | the resolver of symbolic links and the confinement of user paths |
| `ComposeEscape`, `ComposeFile` | dollar escaping, composed with docker compose's own interpolation (Compose Specification, section Interpolation), first of one string, then of a file with its keys, values and YAML escapes |
| `BoxBlur`, `GuidedFilter`, `GuidedEdges`, `Demosaic`, `Gamut` | kernels of the mini ISP (luma weights of section 2.5.1 of ITU-R BT.601) |
| `Yuv`, `YuvRoundTrip` | the YUV decoders, and frames of every format written out and read back |
| `Text`, `RowMajor` | strings and row-major indexing shared by the above |

## How the source is modelled

- Code that updates state in place is a method, on a class where the source has an object
  and on arrays where it fills buffers. Its contract ties the new state to a function, and
  the lemmas prove what that function promises. Go's map iteration, and the chunks of
  `parallelFor`, are visited in an arbitrary order.
- Concurrent code is a state machine over its atomic steps; a theorem holds for every
  finite sequence of enabled steps.
- The environment is a parameter: the quota's answer, whether a record can be written, the
  minted handle, which binds succeed, how a connection cuts its stream into reads and when
  it fails. CRC-32 is an arbitrary function from bytes to text.
- `float32` is `real`: the claims are about the intended arithmetic, not about rounding.
  Planes are two-dimensional arrays; only the raw and YUV buffers are indexed flat.
- `x/time/rate` is an ideal token bucket that starts full, and an over-limit reservation
  followed by its cancellation is a rejection that consumes nothing.
- 64-bit arithmetic is written out where a client's numbers enter (`UploadLayout`).

## Where the code does less than one would expect

Each of these is proved, for all inputs or with a run that shows it.

- The lock pool reads the clock before taking its own mutex (`chunkupload.go:105-106`), so
  a delayed caller can stamp an entry with an older time. Finishing within the TTL of the
  stamp is then not enough; `KeyedLocks.ExclusiveIff` gives the exact bound, half the TTL
  in the worst case, and `KeyedLocks.TwoHolders` the run that breaks it.
- The comment in `lock` says that the digests catch what two holders of a segment lock do
  (`chunkupload.go:100-103`). They cannot when the second call breaks off: it removes a
  segment already answered ok (`UploadStuck.SegmentLost`), a resend is only confirmed
  (`UploadStuck.ChunkStuck`), and no completion succeeds until the upload is aborted
  (`UploadStuck.NeverCompletes`, `UploadStuck.AbortFrees`).
- Init resumes by layout alone, so a client whose file has the layout of an unfinished
  upload of the same name completes a mixture of the two (`UploadProgress.FilesMixed`); it
  gets its own file exactly when what it found was its own
  (`UploadProgress.HonestUploadCompletes`).
- The compose file that runs is not always the one that was validated. Escaping passes `$$`
  through and compose halves it in a value; it doubles a lone `$` and compose does not halve
  it in a key (`ComposeFile.KeyChanged`); and a dollar spelled as a YAML escape is not
  doubled at all, so compose may expand it (`ComposeFile.EscapedDollarExpanded`). The exact
  conditions are `ComposeFile.RunsAsValidatedIff` and `ComposeFile.ExpandsNothingIff`.
- The path test finds nothing but `/` within `/` (`LinkPaths.WithinIff`), so a root that
  resolves to `/` admits only itself (`LinkPaths.ConfinedIff`).
- A whole-file digest mismatch removes the destination
  (`UploadRuns.MismatchRemovesDestination`) even if it held an older file
  (`UploadProgress.OlderFileLost`).
- The hop limit bounds how deep links nest, not how many are followed, so it does not stand
  in for the kernel's limit: forty links on disk suffice for a resolution of 2^40 - 1
  (`LinkPaths.LadderResolves`), which is also the most there can be with two components a
  target (`LinkPaths.ResolveLinksBound`).
- The header limit does not bound memory by itself: it is tested after a whole line, and a
  client that sends no LF is read without bound until its time is up
  (`HttpHeader.ReadHTTPHeader`).
- A TTL of burst / rate is not enough for the rate limiter once requests take time: an entry
  can carry a stamp two gaps older than its last use (`RateLimitExact.UnnoticedIff`).
- A file may be named like another's segment, and their uploads then share it
  (`UploadProtocol.DestinationsApart`).
- Same-parity mirroring needs three samples per side (`Demosaic.MirrorParity`); smaller
  frames are not exact (`Demosaic.ExactIff`). A raw frame of one number per colour needs
  two green black levels that leave the same value (`Demosaic.RawFrameExact`,
  `Demosaic.UnequalBlackLevels`).

## Model

| member | source | states |
|---|---|---|
| UploadLayout.AcceptedIffWellFormed | internal/server/chunkupload.go:447-469 | With int64 wrap-around, init accepts a size/chunkSize/totalChunks triple if and only if all are in range and totalChunks is the exact ceiling; overflow neither lets a wrong triple in nor keeps a right one out |
| UploadLayout.OverflowRefused | internal/server/chunkupload.go:466-469 | A size so large that the ceiling computation wraps gives a non-positive chunk count, hence a refusal |
| UploadLayout.RangesTile | internal/server/chunkupload.go:279-286 | The byte ranges of an accepted layout are non-empty, within the chunk cap, consecutive, start at 0 and end at the declared size |
| UploadLayout.ByteInOneChunk | internal/server/chunkupload.go:279-286 | Every byte of the file lies in exactly one chunk range, that of its quotient |
| UploadLayout.MissingChunks | internal/server/chunkupload.go:267-275 | The loop yields the list of absent indices that the next two rows characterise |
| UploadLayout.MissingIsOrderedComplement | internal/server/chunkupload.go:267-275 | The missing list is exactly the complement of the received set, in increasing order |
| UploadLayout.NothingMissing | internal/server/chunkupload.go:267-275 | It is empty exactly when every index has been received |
| UploadProtocol.NamesDistinct | internal/server/chunkupload.go:159-164 | Destination, record, temporary record and all segments of one destination have pairwise different names, for every index |
| UploadProtocol.ArtifactsApart | internal/server/chunkupload.go:159-164 | No name is a record, temporary record or segment of two destinations |
| UploadProtocol.DestinationsApart | internal/server/chunkupload.go:159-164 | Uploads to two destinations touch no common name exactly when neither destination is itself an artifact name of the other |
| UploadProtocol.SegmentAsDestination | internal/server/chunkupload.go:159-164 | The condition can fail: a.mudppart.0 is the first segment of a |
| UploadProtocol.CompareDigests | internal/server/chunkupload.go:402-418 | The loop decides equality up to the case of A to F |
| UploadProtocol.SameDigestIff | internal/server/chunkupload.go:402-418 | Two digests agree exactly when they have the same length and denote the same hexadecimal number, whatever the case of their letters |
| UploadProtocol.ReadableIff | internal/server/chunkupload.go:174-197 | Whatever stands on the disk, a record is taken up exactly if it declares 1 to 100000 chunks of 1 byte to 160 MiB and no negative size, so what is missing never exceeds 100000 indices |
| UploadProtocol.UploadServer.WriteChunkState | internal/server/chunkupload.go:200-226 | Write-then-rename leaves the record in place and no temporary file |
| UploadProtocol.UploadServer.HandleInit | internal/server/chunkupload.go:441-534 | The layout guards in order, resumption on the same layout, a handle minted once, the quota asked about the bytes still to come (received ones summed in any order), and only then a new record |
| UploadProtocol.UploadServer.WriteChunkSegment | internal/server/chunkupload.go:295-327 | A body is kept exactly when it arrives whole, has the declared length and the expected digest; otherwise the segment file is gone, or untouched if the declared range is inverted |
| UploadProtocol.UploadServer.HandleChunk | internal/server/chunkupload.go:555-648 | An empty handle, an unknown upload, a wrong handle, an index out of range and a bad body are refused; a recorded index is confirmed without a write; otherwise segment, then record, then reply, a failed record write included |
| UploadProtocol.UploadServer.AssembleChunks | internal/server/chunkupload.go:333-389 | Missing chunks are an error without a change; otherwise the destination becomes the segments in index order and the artifacts go, or, on a missing segment, a wrong length or a wrong digest, the destination is removed |
| UploadProtocol.UploadServer.RemoveChunkArtifacts | internal/server/chunkupload.go:393-398 | Exactly the layout's segments and the record are removed |
| UploadProtocol.UploadServer.HandleComplete | internal/server/chunkupload.go:662-708 | An empty handle, an unknown upload, a wrong handle and missing chunks are refused without touching a file; otherwise the segments are assembled or the destination is removed |
| UploadProtocol.UploadServer.HandleAbort | internal/server/chunkupload.go:719-748 | The artifacts of the named upload are removed, an empty or wrong handle is refused, an upload that does not exist counts as aborted |
| UploadSession.InitRefines | internal/server/chunkupload.go:447-534 | On any disk that represents a session, init answers and moves as an abstract session that knows only accepted bodies |
| UploadSession.ChunkRefines | internal/server/chunkupload.go:555-648 | So does a chunk request: it adds the body exactly when the abstract session accepts it |
| UploadSession.SegmentsAreBodies | internal/server/chunkupload.go:341-372 | The first n segments read in order are the concatenation of the first n accepted bodies, of exactly the declared length |
| UploadSession.CompleteRefines | internal/server/chunkupload.go:662-708 | So does complete: the abstract destination becomes the concatenation of all bodies |
| UploadSession.AbortRefines | internal/server/chunkupload.go:719-748 | So does abort |
| UploadSession.StepRefines | internal/server/chunkupload.go:441-748 | Every request of the protocol on the file system is a step of the abstract session with the same reply |
| UploadRuns.RunTracks | internal/server/chunkupload.go:441-748 | After any run of requests from a disk without a record, the accepted bodies and the layout read off the replies are those the disk holds |
| UploadRuns.CompleteDelivers | internal/server/chunkupload.go:333-389 | After any run (any order, duplicates, rejected bodies, aborts, re-inits), a successful complete leaves the destination equal to the index-order concatenation of the bodies accepted since the session began, of the declared size, and no record or segment of that layout |
| UploadRuns.ConflictChangesNothing | internal/server/chunkupload.go:682-698 | A complete refused for missing chunks changes no file and lists exactly the indices not yet accepted |
| UploadRuns.MismatchRemovesDestination | internal/server/chunkupload.go:374-389 | After any run a complete fails in assembly exactly when the record is readable, the handle matches, every chunk has been accepted and the whole-file digest is not the requested one; the destination is then removed, record and segments are kept |
| UploadRuns.OnlyCompleteTouchesDestination | internal/server/chunkupload.go:715-748 | Init, chunk and abort leave the destination as it is, on any disk |
| UploadRuns.CompleteLeavesOthers | internal/server/chunkupload.go:393-398 | A complete touches no file other than destination, record and its own layout's segments, so segments of an earlier, longer layout stay |
| UploadAnswers.InitAnswer | internal/server/chunkupload.go:441-534 | After any run, told from its requests and replies: an init succeeds exactly when its layout is well formed, the quota admits the bytes still to come and the record can be written; it keeps bodies and handle of an open upload of the same layout, and lists what is there |
| UploadAnswers.ChunkAnswer | internal/server/chunkupload.go:555-648 | Likewise: a chunk is stored exactly when it is addressed to the open upload, not there yet, whole, of the declared length, with the digest it announces, and the record can be written; each refusal and the confirmation have their exact condition |
| UploadAnswers.CompleteAnswer | internal/server/chunkupload.go:662-708 | Likewise: a completion succeeds exactly when it names the open upload, all its bodies are there and the digest of their concatenation is absent from the request or right; each refusal has its exact condition |
| UploadAnswers.AbortAnswer | internal/server/chunkupload.go:719-748 | Likewise: an abort succeeds exactly when it names the open upload or none is open |
| UploadProgress.HonestUploadCompletes | internal/server/chunkupload.go:441-708 | From any disk that holds a session or none: a client opens under a quota that admits what is missing, sends chunks in any order with repetitions and absent or right digests, and completes. The completion is refused with the destination as before until every index was found by init or sent; then the destination is what the session holds if the final digest is absent or right, and gone if it is wrong; what the session holds is the client's file if and only if the bodies init found were its own |
| UploadProgress.FilesMixed | internal/server/chunkupload.go:486-494 | One run from an empty disk in which two files of the same layout are mixed: init compares size, chunk size and count, never the announced digest |
| UploadProgress.OlderFileLost | internal/server/chunkupload.go:382-386 | One run in which a one-byte file is lost: a new upload of the same name is completed with a wrong digest |
| UploadStuck.SegmentLost | internal/server/chunkupload.go:295-327 | With two calls past one segment lock there is a run in which the first is answered ok, the second breaks off and removes the segment, and a resend is only told that the chunk is there |
| UploadStuck.StuckIff | internal/server/chunkupload.go:295-327 | The disk at that point lists an index that cannot be read, and does so exactly for recorded indices without a segment |
| UploadStuck.ChunkStuck | internal/server/chunkupload.go:555-648 | On such a disk a resend of that index is confirmed without a write, and no chunk request repairs it |
| UploadStuck.CompleteStuck | internal/server/chunkupload.go:333-389 | A complete with the right handle and all indices recorded fails in assembly, removes the destination and leaves the rest as it is |
| UploadStuck.NeverCompletes | internal/server/chunkupload.go:441-748 | However a client goes on, no completion succeeds and the disk stays so, until an abort or an init with another layout |
| UploadStuck.AbortFrees | internal/server/chunkupload.go:719-748 | An abort with the record's handle ends it |
| UploadInterleaving.StepInv | internal/server/chunkupload.go:555-648 | Every step of every concurrent handleChunk call keeps the invariant: recorded indices have whole segments, locks agree with program counters, each call may rely on what it read |
| UploadInterleaving.RecordedStay | internal/server/chunkupload.go:584-642 | A step only adds to the record, adds only its own index by its own rename, and never writes a recorded index's segment |
| UploadInterleaving.ExecuteKeeps | internal/server/chunkupload.go:555-648 | Over any interleaving the invariant, the record's growth, given replies, and the account of who stored what are kept |
| UploadInterleaving.NoLostUpdate | internal/server/chunkupload.go:126-156 | In every interleaving of any number of chunk requests each recorded index has a segment of exactly its declared length written by one request, and every request answered ok finds its index and its unchanged segment at every later point |
| UploadInterleaving.NoDeadlock | internal/server/chunkupload.go:138-156 | While a call is unfinished some call can move; when all have finished no lock is held |
| UploadInterleaving.WaitsOnlyFor | internal/server/chunkupload.go:126-156 | A call waits only for another call of its own index or for the record's lock, so calls for different chunks copy at the same time |
| UploadLinearizable.StepIsAtomic | internal/server/chunkupload.go:555-648 | Every step of every call either leaves the session unchanged or decides one reply and is then exactly one atomic service of that request |
| UploadLinearizable.Linearizable | internal/server/chunkupload.go:555-648 | Every interleaving of chunk requests ends in the session, and gives the replies, of serving the answered requests one at a time in the order of their decisions, each exactly once |
| UploadLinearizable.RealTimeOrder | internal/server/chunkupload.go:555-648 | In that order a request answered before another began comes first |
| KeyedLocks.LockCache.StampEntry | internal/server/chunkupload.go:104-121 | The part under the pool's mutex sweeps idle entries (in any order), finds or makes the key's entry and stamps it |
| KeyedLocks.ExecutionAnchored | internal/server/chunkupload.go:104-124 | Under the condition below, in every reachable state every waiter and holder is still in the table under its key, stamped recently enough not to be swept |
| KeyedLocks.OnlyOwnKeyBlocks | internal/server/chunkupload.go:104-124 | Whatever the timing, a waiter is kept waiting only by a holder of its own key |
| KeyedLocks.TwoHolders | internal/server/chunkupload.go:105-121 | Outside the condition there is a run with two holders of one key: an older clock reading overwrites a newer stamp and the sweep evicts a held entry |
| KeyedLocks.ExclusiveIff | internal/server/chunkupload.go:75-124 | No reachable state has two holders of a key if and only if holding time plus min(delay before the pool's mutex, holding time) fits in the TTL |
| KeyedLocks.SafeHoldingTimes | internal/server/chunkupload.go:80-103 | With lockIdleTTL one hour: a full hour is safe without delay before the mutex, half an hour with it |
| ForwardRules.ServableIff | internal/portfwd/portfwd.go:126-152 | A rule is valid exactly when it names tcp or udp, both ports are in 1..65535, its address is not blank, and login and TLS are asked of tcp only |
| ForwardRules.FirstFault | internal/portfwd/portfwd.go:126-152 | The error of an invalid rule names the first of its faults in the order they are looked for |
| ForwardRules.NormalIff | internal/portfwd/portfwd.go:241-242 | A rule is read with its protocol trimmed and in any letter case, and otherwise as it is |
| ForwardRules.NoProblemsIff | internal/portfwd/portfwd.go:239-258 | Nothing is reported about the rules exactly when all are valid and those sharing a key share their target |
| ForwardRules.ReportedIff | internal/portfwd/portfwd.go:239-258 | Reported are exactly the invalid rules with their first fault, and the rules that ask for the key of an earlier one with another target |
| ForwardRules.JoinHostPortInjective | internal/portfwd/portfwd.go:99-110 | Different host and port give different addresses, bracketed IPv6 literals included |
| ForwardRules.KeyIsSocket | internal/portfwd/portfwd.go:99-105 | Two valid rules share a key exactly when protocol and port are equal and the addresses are, an empty one and 0.0.0.0 being the same |
| ForwardRules.WantedIsFirst | internal/portfwd/portfwd.go:239-258 | The desired state maps a key to the first valid rule that has it and holds no other key |
| ForwardRules.WantedOrderFree | internal/portfwd/portfwd.go:239-258 | Rules that do not clash give the same desired state in every order |
| PortManager.Entry.RefreshFrom | internal/portfwd/portfwd.go:271-278 | A kept listener takes over exactly the descriptive fields and the login flag |
| PortManager.Manager.SetTLSConfig | internal/portfwd/portfwd.go:219-225 | Installing a certificate changes no listener |
| PortManager.Manager.CollectWanted | internal/portfwd/portfwd.go:239-258 | The first loop yields the desired state and the reported rule problems |
| PortManager.Manager.Settle | internal/portfwd/portfwd.go:260-286 | Visiting the live listeners in any order keeps and refreshes exactly those whose target and TLS are still wanted and stops the others |
| PortManager.Manager.Start | internal/portfwd/portfwd.go:403-428 | Starting fails exactly when the bind fails or TLS lacks a certificate |
| PortManager.Manager.StartMissing | internal/portfwd/portfwd.go:287-299 | Visiting the wanted rules in any order starts what can start and reports exactly the wanted keys left without a listener |
| PortManager.Manager.Apply | internal/portfwd/portfwd.go:233-301 | On an open manager, for any rules and any failing binds: an old listener whose key is wanted with the same target address, target port and TLS is the same object, never stopped; every other old one is stopped; a key without a kept listener gets a fresh one exactly when it is wanted, can be bound and has a certificate if it needs one; the errors are the rule problems plus exactly the failed starts. On a closed manager nothing changes |
| PortManager.Manager.Close | internal/portfwd/portfwd.go:338-346 | Every listener is stopped, the table is empty, the manager closed |
| PortManager.KeepsIff | internal/portfwd/portfwd.go:116-123 | A listener is kept exactly when refreshing its descriptive fields is enough to make it serve the wanted rule in every field, so those fields never cause a restart by themselves |
| PortManager.LiveServesWanted | internal/portfwd/portfwd.go:233-301 | After reconciling, a live listener serves the first valid rule for its key in every field; that rule is live exactly when its old listener, refreshed, serves it or a new one can start; an unwanted key has none |
| PortManager.ReconcileIdempotent | internal/portfwd/portfwd.go:233-301 | Applying the same rules again keeps every listener as it is, can only start what failed before, and changes nothing once all binds have succeeded |
| PortManager.ReconcileOrderFree | internal/portfwd/portfwd.go:233-301 | The result does not depend on the order of rules that do not clash |
| PortManager.Manager.Perform | internal/portfwd/portfwd.go:233-346 | Any sequence of calls on a manager does to its live rules what the reconciling model does; on a closed manager, or once Close is among the calls, none leaves a listener |
| PortManager.RefreshServable | internal/portfwd/portfwd.go:265-280 | A refreshed listener keeps a valid rule under its key |
| UdpNat.StepInv | internal/portfwd/portfwd.go:555-663 | Every step of read loop, reply goroutines and reaper keeps the invariant on counts, table, sockets and routing |
| UdpNat.CountsAndRouting | internal/portfwd/portfwd.go:601-662 | In every interleaving the active count is the number of flows whose goroutine has not ended, every reply went to the client whose datagram opened the flow, and no client is listed with another's flow |
| UdpNat.OnlyOwnCloseUnlists | internal/portfwd/portfwd.go:559-567 | A flow leaves the table only when stale, at shutdown or by its own goroutine; the late closeFlow of a retired flow never removes a newer one |
| UdpNat.NoLeakKept | internal/portfwd/portfwd.go:559-600 | No socket leaks: an open one is listed, on the reaper's list, or about to be closed by its own goroutine |
| UdpNat.TrafficStep | internal/portfwd/portfwd.go:634-663 | A step adds exactly the answer it wrote, to the client of the flow it was read from, and exactly the pending datagram, if its flow's socket is open |
| UdpNat.ShutdownCloses | internal/portfwd/portfwd.go:639-645 | After the loop has ended each unfinished goroutine has a step to take, and when all are done the count is zero and no socket is open |
| UdpHistory.HistoryTold | internal/portfwd/portfwd.go:555-663 | In every interleaving the state is what the actions tell by themselves: the answers are, in order, what was read from a flow and then written without an error, to the client that opened it; the datagrams passed on are, in order, those received and written while their flow's socket was open; likewise the table, the sockets, the goroutines and the counts |
| UdpHistory.Conversation | internal/portfwd/portfwd.go:601-662 | From any reachable state a client's datagram can get through and an answer come back, if its goroutine is waiting for one |
| UdpHistory.SilentRetired | internal/portfwd/portfwd.go:567-599 | When the reaper comes round it retires a client's flow exactly if the client has sent nothing for more than two minutes, and then closes its socket |
| ForwardSpecs.FormatForwardSpecs | internal/dockerx/forward.go:77-83 | The loop renders the comma join of the printed specs, valid or not |
| ForwardSpecs.ParsePiece | internal/dockerx/forward.go:91-124 | One entry, trimmed: TLS suffix, protocol after the last slash, two ports; anything malformed is skipped |
| ForwardSpecs.ParsesIff | internal/dockerx/forward.go:88-124 | An entry is parsed to a spec if and only if the spec can be served and the entry reads, white space trimmed, number, colon, number, then /tcp or /udp in any letter case or nothing for tcp, then the TLS mark |
| Text.AtoiIff | internal/dockerx/forward.go:113-120 | A positive number is read from exactly its decimal spellings, zeros or a plus in front allowed |
| Text.TrimSpaceIff | internal/dockerx/forward.go:92-120 | Trimming takes off all white space at the ends and nothing else |
| Text.ToLowerIff | internal/dockerx/forward.go:103 | A protocol is recognised in any letter case |
| ForwardSpecs.ParseForwardSpecs | internal/dockerx/forward.go:88-126 | The loop yields the parses of the entries that have one, in order |
| ForwardSpecs.EntryRoundTrip | internal/dockerx/forward.go:64-124 | A printed spec parses back to itself, an empty protocol read as tcp, if and only if it can be served; it then holds no comma |
| ForwardSpecs.RoundTrip | internal/dockerx/forward.go:64-126 | Parsing a formatted list gives the list back, empty protocols read as tcp, if and only if all its specs can be served |
| ForwardSpecs.ParseConcat | internal/dockerx/forward.go:85-126 | Parsing two labels joined by a comma is the concatenation of their parses, so a malformed entry never affects its neighbours |
| ForwardSpecs.ParsedAreValid | internal/dockerx/forward.go:91-124 | Every parsed spec has both ports in 1..65535, tcp or udp, and TLS only on tcp |
| ForwardSpecs.ParsePrintParse | internal/dockerx/forward.go:64-126 | Parsing, formatting and parsing again gives the first parse |
| HttpHeader.HeaderFraming | internal/server/forward_auth.go:152-163 | A stream has a header block exactly when some line is blank (CRs before the LF allowed, a bare LF accepted), and the block ends with the first such line |
| HttpHeader.OtherProtocols | internal/server/forward_auth.go:177-190 | What does not start with a capital letter is refused at its first byte, and an SSH client is refused |
| HttpHeader.Connection.Read | internal/server/forward_auth.go:137-139 | A read hands out a non-empty prefix of what is unread, or fails at the end or on a timeout |
| HttpHeader.BufReader.Peek | internal/server/forward_auth.go:143-146 | Peeking loses no byte and, without a timeout, shows the stream's first bytes |
| HttpHeader.BufReader.ReadLine | internal/server/forward_auth.go:148-151 | Reading a line consumes exactly the line returned |
| HttpHeader.ReadHTTPHeader | internal/server/forward_auth.go:137-175 | However the connection cuts its bytes: on success the returned bytes followed by the unread ones are the client's stream and hold the whole header block; if no read failed before the stream's end, it fails only when the stream has no header within the limit, and a timeout is reported exactly when a read failed so. What is taken off the connection is bounded by the limit, one buffer and the stream's longest line, and a stream that starts like a request and has no LF is taken to its end |
| HttpHeader.CheckForwardAuth | internal/server/forward_auth.go:65-127 | If no read fails, an enabled gate admits a client exactly when its stream has a header and the cookie check passes; peeked bytes plus unread bytes are then the client's stream. A refused client hands nothing on, a disabled gate reads nothing |
| HttpHeader.RelayTCP | internal/portfwd/portfwd.go:464-515 | If nothing fails, a client is admitted exactly as the gate says, and once the dial succeeds both sides receive the whole of the other's stream and nothing stays unread. Whatever fails, each has been sent a beginning of the other's stream, peeked bytes included; the container's answers arrive whole exactly when reading and writing them did not fail; a refused client reaches nothing |
| HttpHeader.Copy | internal/portfwd/portfwd.go:504-514 | One direction: what is sent on is a beginning of what is read, and all of it exactly when no read and no write failed |
| RateLimit.RateLimiter.GcLocked | internal/middleware/ratelimit.go:181-191 | Collection, at most once per TTL, removes exactly the entries idle for longer |
| RateLimit.RateLimiter.GetLimiter | internal/middleware/ratelimit.go:163-176 | Lookup collects, finds or makes the address's bucket and stamps it |
| RateLimit.StepInv | internal/middleware/ratelimit.go:163-222 | Every step of concurrent requests keeps each bucket in use indistinguishable from the never-forgetting one |
| RateLimit.EvictionUnnoticed | internal/middleware/ratelimit.go:163-222 | When a drained bucket refills within the TTL less twice the time a request takes, every answer in every interleaving is the one of a limiter that never forgets |
| RateLimit.DefaultsFit | internal/middleware/ratelimit.go:228-245 | Both default limiters meet that condition with requests of up to 297 seconds |
| RateLimit.WindowBound | internal/middleware/ratelimit.go:194-222 | From any reachable moment, in any stretch of length T, one address is let through at most burst + rate * T times, evictions included |
| RateLimitWindows.RefusedIff | internal/middleware/ratelimit.go:194-222 | Under the same timing condition, in every run a request is turned away if and only if letting it through would make more than burst + rate * T requests of its address in some stretch of length T up to now, concurrency and evictions included |
| RateLimitExact.UnnoticedIff | internal/middleware/ratelimit.go:163-222 | With requests that reserve within gap of reading the clock, eviction is unnoticed in every run if and only if burst <= rate * (ttl - 2 gap), or there is no burst |
| RateLimitExact.Forgotten | internal/middleware/ratelimit.go:181-191 | When a collection is due for an address whose bucket has not refilled, its next requests get an answer the remembering limiter does not give |
| RateLimitExact.StampTooOld | internal/middleware/ratelimit.go:163-176 | A run that reaches the bound: an old clock reading stamps the entry, while requests already past the lookup empty its bucket two gaps later |
| RateLimitExact.DefaultsExact | internal/middleware/ratelimit.go:228-245 | For the two default limiters the bound on the gap is exactly 298 and 297 seconds |
| LinkPaths.ResolveFrom | internal/server/netdisk.go:244-280 | The recursive loop terminates on every file system, link cycles included, and returns what Resolve says |
| LinkPaths.ResolveIdempotent | internal/server/netdisk.go:236-280 | No prefix of a successful result is a link, and resolving it again returns it unchanged |
| LinkPaths.ResolveIsFollowed | internal/server/netdisk.go:244-280 | A successful result is the end of plain pathname resolution that restarts at the root with each link's target in front of what is left |
| LinkPaths.FollowIsResolved | internal/server/netdisk.go:242-280 | A path that plain resolution reaches over at most forty links is not refused, and the result is the same place |
| LinkPaths.ResolveLinksBound | internal/server/netdisk.go:240-280 | A successful resolution of n components follows at most n * Most(m, 40) links when no target has more than m components |
| LinkPaths.OneComponent | internal/server/netdisk.go:258-277 | Behind a link-free directory: a component that cannot be looked at fails the whole, one that does not exist keeps all that is left, a link is replaced by where its target resolves to with one hop less to go |
| LinkPaths.SelfLink | internal/server/netdisk.go:244-247 | A link to itself is refused |
| LinkPaths.LadderResolves | internal/server/netdisk.go:240-280 | The bound is reached: on a sound file system of forty links with at most two components each, one component resolves, following two to the fortieth less one |
| LinkPaths.WithinIff | internal/server/netdisk.go:213-222 | The string test means being a component-wise prefix, except that nothing but / is within / |
| LinkPaths.CleanIsSurvivors | internal/server/netdisk.go:157-158 | Cleaning leaves, in order, the components that no .. to their right takes away, each .. taking the nearest one left of it, or nothing at the root |
| LinkPaths.CleanLaws | internal/server/netdisk.go:157-158 | Anywhere in a path: a name followed by .. is nothing, so are . and the empty component; .. goes one directory up and stays at the root; names alone are appended |
| LinkPaths.ExpandIsSurvivors | internal/server/netdisk.go:269-273 | An absolute link target starts at the root, a relative one in the link's directory |
| LinkPaths.CleanUserPath | internal/server/netdisk.go:154-184 | Lexical confinement, then both resolutions, then confinement of the resolved path, each with its own error |
| LinkPaths.ConfinedIff | internal/server/netdisk.go:154-184 | A path, taken by its surviving components, is accepted exactly when it and the root resolve and the resolved path lies under the resolved root; what is returned is link-free, resolves to itself and is where the link walk ends |
| LinkPaths.InAndOut | internal/server/netdisk.go:154-184 | A step into a directory and back out of it never changes the answer |
| LinkPaths.NoLinkInTheWay | internal/server/netdisk.go:154-184 | Without a link in the way a path under a root other than / is accepted as its surviving components below the root |
| ComposeEscape.EscapeComposeInterpolation | internal/dockerx/compose.go:478-494 | A lone dollar is doubled, a doubled one passes through, everything else is copied |
| ComposeEscape.EscapedRunsAreEven | internal/dockerx/compose.go:475-494 | Every maximal run of dollars in the output has even length |
| ComposeEscape.EvenRunsAreLiteral | internal/dockerx/compose.go:51-58 | Compose's left-to-right scan never reaches a variable reference in a text whose runs are even |
| ComposeEscape.NoReferenceSurvives | internal/dockerx/compose.go:51-58 | Hence compose expands nothing in an escaped string that YAML reads as it is written, whatever the string |
| ComposeEscape.EscapeIdempotent | internal/dockerx/compose.go:475-494 | Escaping twice is escaping once |
| ComposeEscape.FixedIff | internal/dockerx/compose.go:475-494 | A text is left alone exactly when its dollars stand in even runs |
| ComposeEscape.RunsWhatWasValidated | internal/dockerx/compose.go:51-58 | Compose reads such a string back as it was before the escaping if and only if it holds no $$ |
| ComposeFile.EscapeText | internal/dockerx/compose.go:51-60 | Escaping the text of a file is escaping each key, value and stretch of layout in it, when no dollars meet between two of them |
| ComposeFile.KeyKeptIff | internal/dockerx/compose.go:51-60 | A key, which compose does not interpolate, is the validated one if and only if its dollars stand in even runs in the file |
| ComposeFile.ValueKeptIff | internal/dockerx/compose.go:51-60 | A value runs as it was validated if and only if it holds no $$ and no YAML escape that spells a dollar |
| ComposeFile.NoReferenceIff | internal/dockerx/compose.go:51-60 | Compose looks nothing up in an escaped value if and only if the dollars that YAML escapes spell come in even runs, plain dollars left out |
| ComposeFile.RunsAsValidatedIff | internal/dockerx/compose.go:51-60 | The escaped file runs as it was validated if and only if that holds of each of its keys and values |
| ComposeFile.ExpandsNothingIff | internal/dockerx/compose.go:51-60 | Compose looks up no variable in the escaped file if and only if that holds of each of its values |
| ComposeFile.PlainDollarsNeverExpand | internal/dockerx/compose.go:475-494 | A value whose dollars are all plain is never expanded |
| ComposeFile.KeyChanged | internal/dockerx/compose.go:475-494 | The key a$b runs as a$$b |
| ComposeFile.EscapedDollarExpanded | internal/dockerx/compose.go:475-494 | The double-quoted value \x24{P} holds no dollar, passes unchanged and is read as a reference |
| BoxBlur.ParallelFor | internal/raster/miniisp.go:15-35 | The chunks are consecutive intervals from 0 to n, for any n and any number of processors |
| BoxBlur.TilesPartition | internal/raster/miniisp.go:15-35 | Every index lies in exactly one chunk |
| BoxBlur.HorizontalRow | internal/raster/miniisp.go:494-506 | The running sum along a row stores every window sum divided by the side |
| BoxBlur.VerticalBand | internal/raster/miniisp.go:513-535 | The running sums of a band of columns store every column window sum divided by the side and touch no other column |
| BoxBlur.Separable | internal/raster/miniisp.go:487-537 | A vertical window over horizontal means is the mean of the edge-clamped (2r+1) x (2r+1) window |
| BoxBlur.Blur | internal/raster/miniisp.go:487-537 | In place, for any number of processors and any order of the chunks, every pixel becomes its window mean; a radius of zero or less changes nothing |
| BoxBlur.MeanCentred | internal/raster/miniisp.go:487-537 | A pixel around which its window's rows and middle column pair off to twice their centre is its own mean |
| BoxBlur.ImpulseSpread | internal/raster/miniisp.go:487-537 | A single bright pixel off the border is spread in equal parts over the square of the radius around it and no further |
| BoxBlur.BlurredBetween | internal/raster/miniisp.go:487-537 | The result stays within the range of the plane, so a constant plane is left alone |
| GuidedFilter.GuidedSelf | internal/raster/miniisp.go:545-577 | Unless a pixel divides by zero: in place with three scratch planes each pixel becomes the window mean of the gains times itself plus the window mean of the offsets; a radius of zero or less changes nothing |
| GuidedFilter.PositiveEpsRuns | internal/raster/miniisp.go:557-569 | With a positive eps no pixel divides by zero |
| GuidedFilter.VarianceNonNegative | internal/raster/miniisp.go:557-565 | The local variance computed from two box blurs is never negative |
| GuidedFilter.GainInUnit | internal/raster/miniisp.go:566-569 | The gain lies in [0, 1) |
| GuidedFilter.GuidedBetween | internal/raster/miniisp.go:545-577 | The filter never leaves the range of its input, so it leaves a constant plane unchanged |
| GuidedEdges.EdgeKept | internal/raster/miniisp.go:539-577 | Where around every pixel of the window the mean of the squares less the square of the mean is at least v, a pixel moves by at most eps / (v + eps) of the plane's range |
| GuidedEdges.FlatSmoothed | internal/raster/miniisp.go:539-577 | Where it is at most v, the pixel ends within v / (v + eps) of the range of the mean of the window means |
| Demosaic.IspCfa | internal/raster/miniisp.go:440-472 | Every pattern key, unknown ones included, gives tables laid out as the letters of the key, or RGGB for an unknown one, in which each R or B site has four green neighbours and the other colour on its diagonals, each green site R on one axis and B on the other |
| Demosaic.SampleReadsBack | internal/raster/miniisp.go:474-482 | A sample has a value exactly when its byte, or beyond eight bits its two bytes low byte first, are that value |
| Demosaic.MirrorParity | internal/raster/miniisp.go:655-670 | Mirroring keeps the parity of every coordinate within two of the frame if and only if the side is at least three |
| Demosaic.MirrorReflects | internal/raster/miniisp.go:655-670 | A coordinate off the edge is read as far inside the frame as it lies outside |
| Demosaic.BlackLevel | internal/raster/miniisp.go:682-695 | Every sample less its channel's black level, cut to [0, maxVal] |
| Demosaic.LevelNearest | internal/raster/miniisp.go:682-695 | A sample's level is the one value in range nearest to the sample less its black level |
| Demosaic.GreenPixel | internal/raster/miniisp.go:703-731 | A green site keeps its sample; any other takes the corrected estimate along the axis with the smaller green difference, or the mean of both on a tie, every read mirrored at the border |
| Demosaic.GreenPass | internal/raster/miniisp.go:697-733 | Every pixel of the green plane is that, whatever the frame size |
| Demosaic.DifferencePixel | internal/raster/miniisp.go:747-776 | Red minus green and blue minus green: the site's own, or the mean over two horizontal, two vertical or four diagonal neighbours as the array dictates |
| Demosaic.DifferencePass | internal/raster/miniisp.go:735-778 | Every pixel of both difference planes is that |
| Demosaic.Demosaic | internal/raster/miniisp.go:583-783 | Corrected samples, green plane and the two low-passed difference planes, or nothing when the buffer is too short |
| Demosaic.ConstantExact | internal/raster/miniisp.go:655-783 | A frame of one constant per colour is exact at every pixel, borders included, for every Bayer array, size from 3 x 3 and radius |
| Demosaic.ExactIff | internal/raster/miniisp.go:655-783 | All constant frames of a size are exact if and only if both sides are at least three |
| Demosaic.RawFrameExact | internal/raster/miniisp.go:583-783 | From the raw bytes, for sides of at least three: the planes are some constant green and the two constant differences that belong to it if and only if the two green black levels leave the same value, which then is the green |
| Demosaic.UnequalBlackLevels | internal/raster/miniisp.go:682-695 | A 3 x 3 frame of one number under black levels 0 at Gr and 16 at Gb gives 100 and 84 in the green plane |
| Demosaic.SamplesKept | internal/raster/miniisp.go:697-778 | For every frame of every size each site gives its own sample back |
| Demosaic.RowsExact | internal/raster/miniisp.go:717-730 | A grey scene varying only from row to row is exact at a site that is green, or whose rows above and below differ, or where 4 f(up) = 2 f + f(two up) + f(two down) over mirrored rows; and at no other |
| Demosaic.ColumnsExact | internal/raster/miniisp.go:717-730 | The same for a scene varying only from column to column |
| Demosaic.LinearRowsExact | internal/raster/miniisp.go:717-730 | A grey scene linear along every row and arbitrary down the columns is exact wherever the difference along the row is the smaller |
| Demosaic.LinearColumnsExact | internal/raster/miniisp.go:717-730 | The same with rows and columns exchanged |
| Demosaic.RampGreen | internal/raster/miniisp.go:710-730 | Two pixels from the border green is exact for colours that each change linearly |
| Demosaic.RampDiff | internal/raster/miniisp.go:753-776 | Three pixels from the border so are the differences |
| Demosaic.RampBlurred | internal/raster/miniisp.go:753-783 | Three pixels and the low-pass radius from the border they still are after the low-pass, for every radius |
| Gamut.Compress | internal/raster/miniisp.go:853-880 | The block maps a colour to black, white, itself or its shrunk form, and every channel lands in [0, 1] |
| Gamut.LargestFactor | internal/raster/miniisp.go:868-878 | A factor brings the colour into the cube if and only if it does not exceed the one computed |
| Gamut.NoFurther | internal/raster/miniisp.go:861-878 | A colour outside the cube moves to the last point towards grey from which on the way lies inside |
| Gamut.FactorRange | internal/raster/miniisp.go:868-874 | The factor lies in [0, 1] |
| Gamut.LumaKept | internal/raster/miniisp.go:853-880 | Luma strictly between 0 and 1 is unchanged; otherwise the result is black or white |
| Gamut.OrderKept | internal/raster/miniisp.go:853-880 | The order of the channels is preserved |
| Gamut.UntouchedIff | internal/raster/miniisp.go:853-880 | A colour is left alone exactly when it is in the cube, and compressing twice is compressing once |
| Yuv.CloseToExact | internal/raster/yuv.go:18-36 | The integer conversion stays within 1.25 below and 0.25 above the exact one with the coefficients it approximates, for every pixel |
| Yuv.SetPixel | internal/raster/yuv.go:38-43 | Writing the next pixel shows it and keeps all earlier ones |
| Yuv.DecodePlanar420 | internal/raster/yuv.go:81-103 | Every pixel shows its luma and the chroma of its clamped quarter position, neutral for frames one pixel wide or high; all reads are in bounds |
| Yuv.DecodeSemiPlanar420 | internal/raster/yuv.go:105-133 | The same on interleaved chroma, in either order |
| Yuv.DecodePacked422 | internal/raster/yuv.go:143-164 | The same on macro-pixels, for odd widths too |
| Yuv.DecodePlanar444 | internal/raster/yuv.go:176-190 | The same on full planes |
| Yuv.YuvDecode | internal/raster/yuv.go:47-69 | On a buffer of the frame size every format decodes with all reads in bounds and all pixels written; unknown formats as i420 |
| YuvRoundTrip.RoundTrip | internal/raster/yuv.go:47-190 | In every format, a picture that the format can hold, written out sample by sample as the format lays it out, takes exactly the frame size and is decoded to itself |
| Yuv.Nv21IsNv12Swapped | internal/raster/yuv.go:119-126 | nv21 of a frame with swapped chroma pairs is nv12 of the frame |
| Yuv.I420IsNv12Interleaved | internal/raster/yuv.go:81-133 | i420 of planes is nv12 of the same planes interleaved |
| Yuv.Yv12IsI420Swapped | internal/raster/yuv.go:49-68 | yv12 of a frame with exchanged chroma planes is i420 of the frame |
| Yuv.UyvyIsYuyvSwapped | internal/raster/yuv.go:56-59 | uyvy is yuyv with the bytes of every pair exchanged |
| Yuv.ThinIsGrey | internal/raster/yuv.go:77-79 | Frames one pixel wide or high decode to grey of their luma |
| Yuv.Packed422Stride | internal/raster/yuv.go:166-174 | A row is whole macro-pixels: at least 2w bytes, exactly 2w for even widths |

## Left out

- UploadInterleaving.NoLostUpdate: runs of chunk requests with a fixed layout only; init, complete and abort take no state lock in the source, so no interleaving with them is claimed, and mutual exclusion of the two locks rests on the timing condition of KeyedLocks.ExclusiveIff.
- UploadProtocol.UploadServer.HandleInit: name trimming, path confinement and JSON or multipart decoding are outside the model, which starts from a confined destination and a decoded request; the record file is a value, not its JSON text.
- UploadProtocol.UploadServer.AssembleChunks: failures of file operations other than a missing segment, a broken body and a failed record write are not modelled.
- UploadRuns.CompleteDelivers: content equality follows from accepted bodies, never from matching digests; nothing is assumed about collisions.
- PortManager.Manager.Apply: a bind succeeds exactly for a given set of keys; sockets, TLS handshakes, accept loops and back-off are left out, as is the status listing.
- UdpNat.CountsAndRouting: a dial may fail, datagrams may be lost, socket calls outside the mutex are single steps; goroutine scheduling is unrestricted and no fairness is assumed.
- HttpHeader.RelayTCP: half-close, draining and the gate's own response to a refused client are left out; the two copies run one after the other, in either order, since they share nothing; parsing the request and checking the cookie are one boolean.
- ForwardSpecs.ParseForwardSpecs: strings are sequences of characters, lower-casing is ASCII only, and a number beyond 64 bits counts as out of range.
- LinkPaths.ConfinedIff: POSIX only; `..` in a link target is removed lexically as the source does it, and changes of the file system between resolving and opening are not modelled.
- RateLimit.EvictionUnnoticed: the client address is given; proxy headers are left out.
- GuidedFilter.GuidedSelf: a division by zero, which gives a float32 that is not a number, is excluded pixel by pixel; the flat fan-out of its pixel loops is a row loop.
- Demosaic.Demosaic: its passes are row loops, since each writes only its own rows; the chunked fan-out is modelled in BoxBlur.
- Demosaic.RampBlurred: away from the border only, where mirroring and clamping bend a ramp.
- ComposeFile.RunsAsValidatedIff: a file comes already cut into keys, string values and layout, with the meaning of each YAML escape given; that escaping a dollar moves none of the cuts, and what anchors, tags, merge keys and duplicate keys do, is not modelled. That compose decodes the YAML first and interpolates values only is taken from the Compose Specification.
- UploadStuck.SegmentLost: the run starts with both calls past the lock; that the pool lets this happen is KeyedLocks.TwoHolders.
- Gamut.Compress: one pixel; gains, colour matrix, tone mapping, gamma table, saturation, tint, sharpening and the chroma map are left out, with their fitted numbers and library functions.
- Yuv.YuvDecode: requires a buffer of the frame size, as its callers ensure; the source panics on a shorter one.
- Docker, database, HTTP, JSON and cookie plumbing, the web interface, Windows branches and small single-branch checks are left out.
