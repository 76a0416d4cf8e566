/**
 The declared layout of a chunked upload (internal/server/chunkupload.go): the checks
 of init in 64-bit arithmetic, the byte range of each chunk, and the missing list.
 */
module UploadLayout {
  import opened RowMajor

  const MAX_CHUNKS := 100_000
  const MAX_CHUNK_SIZE := 167_772_160  // 160 << 20
  const TWO_63 := 0x8000_0000_0000_0000

  predicate IsInt64(n: int) {
    -TWO_63 <= n < TWO_63
  }

  /** Two's complement wrap-around to int64. */
  function Wrap(n: int): (r: int)
    ensures IsInt64(r)
    ensures IsInt64(n) ==> r == n
  {
    (n + TWO_63) % (2 * TWO_63) - TWO_63
  }

  /** Go's integer division by a positive divisor truncates toward zero. */
  function TruncDiv(a: int, b: int): int
    requires b > 0
  {
    if a >= 0 then a / b else -((-a) / b)
  }

  datatype Layout = Layout(size: int, chunkSize: int, totalChunks: int)

  datatype Verdict = Accepted | InvalidTriple | ChunkTooLarge | TooManyChunks | TotalMismatch

  /** The guards of handleChunkInit, in their order and in int64 arithmetic. */
  function CheckLayout(l: Layout): Verdict {
    if l.size < 0 || l.chunkSize <= 0 || l.totalChunks <= 0 then InvalidTriple
    else if l.chunkSize > MAX_CHUNK_SIZE then ChunkTooLarge
    else if l.totalChunks > MAX_CHUNKS then TooManyChunks
    else if l.totalChunks != TruncDiv(Wrap(Wrap(l.size + l.chunkSize) - 1), l.chunkSize) then TotalMismatch
    else Accepted
  }

  /** The layout init means to admit: totalChunks is the exact ceiling of size/chunkSize. */
  predicate WellFormed(l: Layout) {
    && 1 <= l.chunkSize <= MAX_CHUNK_SIZE
    && 1 <= l.totalChunks <= MAX_CHUNKS
    && (l.totalChunks - 1) * l.chunkSize < l.size <= l.totalChunks * l.chunkSize
  }

  lemma CeilingDivision(a: int, b: int, q: int)
    requires a >= 0 && b > 0
    ensures (a + b - 1) / b == q <==> (q - 1) * b < a <= q * b
  {
    var d := (a + b - 1) / b;
    assert d * b <= a + b - 1 < d * b + b;
    if q < d {
      MulMono(q, d - 1, b);
      assert q * b < a;
    } else if q > d {
      MulMono(d, q - 1, b);
      assert (q - 1) * b >= a;
    }
  }

  lemma WellFormedSize(l: Layout)
    requires WellFormed(l)
    ensures 1 <= l.size <= MAX_CHUNKS * MAX_CHUNK_SIZE
  {
    MulMono(l.totalChunks, MAX_CHUNKS, l.chunkSize);
    MulMono(0, l.totalChunks - 1, l.chunkSize);
  }

  /** A size near the top of int64 wraps to a negative dividend, so it is refused. */
  lemma OverflowRefused(l: Layout)
    requires IsInt64(l.size) && 1 <= l.chunkSize <= MAX_CHUNK_SIZE
    requires l.size + l.chunkSize - 1 >= TWO_63
    ensures TruncDiv(Wrap(Wrap(l.size + l.chunkSize) - 1), l.chunkSize) <= 0
  {
    var dividend := Wrap(Wrap(l.size + l.chunkSize) - 1);
    assert dividend == l.size + l.chunkSize - 1 - 2 * TWO_63 by {
      assert l.size + l.chunkSize < 2 * TWO_63;
    }
    assert dividend < 0;
  }

  lemma NoOverflow(l: Layout)
    requires IsInt64(l.size) && l.size >= 0 && 1 <= l.chunkSize <= MAX_CHUNK_SIZE
    requires l.size + l.chunkSize - 1 < TWO_63
    ensures TruncDiv(Wrap(Wrap(l.size + l.chunkSize) - 1), l.chunkSize) == (l.size + l.chunkSize - 1) / l.chunkSize
  {
    assert Wrap(Wrap(l.size + l.chunkSize) - 1) == l.size + l.chunkSize - 1;
  }

  /** Init accepts exactly the well-formed layouts: whatever int64 triple a client
      declares, wrap-around never lets a wrong one through nor keeps a right one out. */
  lemma AcceptedIffWellFormed(l: Layout)
    requires IsInt64(l.size) && IsInt64(l.chunkSize) && IsInt64(l.totalChunks)
    ensures CheckLayout(l) == Accepted <==> WellFormed(l)
  {
    hide Wrap, TruncDiv;
    if 1 <= l.chunkSize <= MAX_CHUNK_SIZE && 1 <= l.totalChunks <= MAX_CHUNKS && l.size >= 0 {
      if l.size + l.chunkSize - 1 >= TWO_63 {
        OverflowRefused(l);
        if WellFormed(l) {
          WellFormedSize(l);
        }
      } else {
        NoOverflow(l);
        CeilingDivision(l.size, l.chunkSize, l.totalChunks);
      }
    } else if WellFormed(l) {
      WellFormedSize(l);
    }
  }

  /** chunkByteRange, in int64 arithmetic. */
  function ChunkByteRange(l: Layout, index: int): (int, int) {
    var start := Wrap(index * l.chunkSize);
    var end := Wrap(start + l.chunkSize);
    (start, if end > l.size then l.size else end)
  }

  /** The declared byte count of one chunk. */
  function ChunkLength(l: Layout, index: int): int {
    var (start, end) := ChunkByteRange(l, index);
    end - start
  }

  /** Where chunk index starts when nothing overflows; Start(totalChunks) is the end of the file. */
  function Start(l: Layout, index: int): int {
    if index * l.chunkSize > l.size then l.size else index * l.chunkSize
  }

  /** The ranges of an accepted layout tile the file: consecutive, non-empty, each
      within the chunk cap, the first at 0 and the last ending at the declared size. */
  lemma RangesTile(l: Layout, i: int)
    requires WellFormed(l) && 0 <= i < l.totalChunks
    ensures ChunkByteRange(l, i) == (Start(l, i), Start(l, i + 1))
    ensures 0 < ChunkLength(l, i) <= MAX_CHUNK_SIZE
    ensures Start(l, 0) == 0 && Start(l, l.totalChunks) == l.size
  {
    WellFormedSize(l);
    var c := l.chunkSize;
    MulMono(i, l.totalChunks - 1, c);
    MulMono(0, i, c);
    var here, there := i * c, (i + 1) * c;
    assert there == here + c;
    assert 0 <= here < l.size;
    assert Wrap(here) == here && Wrap(here + c) == there;
  }

  lemma QuotientBlock(b: int, c: int, i: int)
    requires b >= 0 && c > 0 && i >= 0
    ensures i * c <= b < (i + 1) * c <==> i == b / c
  {
    var q := b / c;
    assert q * c <= b < q * c + c;
    assert (q + 1) * c == q * c + c && (i + 1) * c == i * c + c;
    if i < q {
      MulMono(i + 1, q, c);
    } else if i > q {
      MulMono(q + 1, i, c);
    }
  }

  lemma QuotientInRange(b: int, c: int, n: int)
    requires 0 <= b < n * c && c > 0
    ensures 0 <= b / c < n
  {
    QuotientBlock(b, c, b / c);
    if b / c >= n {
      MulMono(n, b / c, c);
      assert false;
    }
  }

  /** Every byte of the file lies in exactly one chunk. */
  lemma ByteInOneChunk(l: Layout, b: int, i: int)
    requires WellFormed(l) && 0 <= b < l.size && 0 <= i < l.totalChunks
    ensures 0 <= b / l.chunkSize < l.totalChunks
    ensures var (start, end) := ChunkByteRange(l, i); start <= b < end <==> i == b / l.chunkSize
  {
    RangesTile(l, i);
    QuotientBlock(b, l.chunkSize, i);
    QuotientInRange(b, l.chunkSize, l.totalChunks);
    assert Start(l, i) <= b <==> i * l.chunkSize <= b;
    assert b < Start(l, i + 1) <==> b < (i + 1) * l.chunkSize;
  }

  /** missingChunks over the first n indices. */
  function MissingUpTo(received: set<int>, n: nat): seq<int> {
    if n == 0 then []
    else MissingUpTo(received, n - 1) + (if n - 1 in received then [] else [n - 1])
  }

  method MissingChunks(received: set<int>, totalChunks: int) returns (out: seq<int>)
    requires totalChunks >= 0
    ensures out == MissingUpTo(received, totalChunks)
  {
    out := [];
    for i := 0 to totalChunks
      invariant out == MissingUpTo(received, i)
    {
      if i !in received {
        out := out + [i];
      }
    }
  }

  /** The missing list is the complement of the received set, in increasing order. */
  lemma {:induction false} MissingIsOrderedComplement(received: set<int>, n: nat)
    ensures forall i :: i in MissingUpTo(received, n) <==> 0 <= i < n && i !in received
    ensures forall j, k :: 0 <= j < k < |MissingUpTo(received, n)| ==> MissingUpTo(received, n)[j] < MissingUpTo(received, n)[k]
  {
    if n > 0 {
      MissingIsOrderedComplement(received, n - 1);
      var before := MissingUpTo(received, n - 1);
      assert forall k :: 0 <= k < |before| ==> before[k] in before;
    }
  }

  lemma NothingMissing(received: set<int>, n: nat)
    ensures MissingUpTo(received, n) == [] <==> forall i :: 0 <= i < n ==> i in received
  {
    MissingIsOrderedComplement(received, n);
    if MissingUpTo(received, n) != [] {
      assert MissingUpTo(received, n)[0] in MissingUpTo(received, n);
    }
  }
}
