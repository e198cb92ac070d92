/** Upload planning of `src/sharepoint_client.py`: the size threshold between
    the simple and the resumable upload, and the 10 MiB chunk plan of the
    resumable loop with its `Content-Length` and `Content-Range` headers
    (the `bytes first-last/complete` form of section 14.4 of RFC 9110). */
module Chunks {
  import opened Base
  import opened Strings
  import opened Decimal

  /** Files below this size take the single-request upload. */
  const SimpleUploadLimit: nat := 4 * 1024 * 1024

  /** The size of every chunk of a resumable upload but the last. */
  const ChunkSize: nat := 10 * 1024 * 1024

  datatype Strategy = SimpleUpload | ResumableUpload

  /** The size test of `upload_file`. */
  function ChooseStrategy(size: nat): (s: Strategy)
    ensures s == SimpleUpload <==> size < 4194304
  {
    if size < SimpleUploadLimit then SimpleUpload else ResumableUpload
  }

  /** A bigger file never goes back to the simple upload. */
  lemma StrategyMonotone(a: nat, b: nat)
    requires a <= b && ChooseStrategy(a) == ResumableUpload
    ensures ChooseStrategy(b) == ResumableUpload
  {
  }

  /** The half-open byte range `[start, end)` of one chunk. */
  datatype Chunk = Chunk(start: nat, end: nat)

  function Length(c: Chunk): int {
    c.end - c.start
  }

  /** The chunks of the resumable loop from byte `pos` on: each takes
      `min(pos + ChunkSize, size)` as its end and the next starts there. */
  function ChunksFrom(pos: nat, size: nat): seq<Chunk>
    decreases size - pos
  {
    if pos >= size then []
    else
      var end := if pos + ChunkSize < size then pos + ChunkSize else size;
      [Chunk(pos, end)] + ChunksFrom(end, size)
  }

  /** The whole chunk plan of a file. */
  function ChunkPlan(size: nat): seq<Chunk> {
    ChunksFrom(0, size)
  }

  /** Each chunk starts where the previous one ended. */
  predicate Contiguous(plan: seq<Chunk>) {
    forall i :: 0 <= i < |plan| - 1 ==> plan[i].end == plan[i + 1].start
  }

  /** Every chunk holds between one byte and `ChunkSize` bytes, and every
      chunk but the last holds exactly `ChunkSize`. */
  predicate Sized(plan: seq<Chunk>) {
    && (forall i :: 0 <= i < |plan| ==> 0 < Length(plan[i]) <= ChunkSize)
    && (forall i :: 0 <= i < |plan| - 1 ==> Length(plan[i]) == ChunkSize)
  }

  /** A plan for the bytes `[pos, size)`: empty exactly when there is
      nothing to send, otherwise starting at `pos`, ending at `size`, with
      no gap or overlap between neighbours. */
  predicate PlanFrom(plan: seq<Chunk>, pos: nat, size: nat) {
    && (|plan| == 0 <==> pos >= size)
    && (|plan| > 0 ==> plan[0].start == pos && plan[|plan| - 1].end == size)
    && Contiguous(plan)
    && Sized(plan)
  }

  /** The plan's shape for a whole file. */
  predicate WellFormedPlan(plan: seq<Chunk>, size: nat) {
    PlanFrom(plan, 0, size)
  }

  /** `_upload_large_file`'s loop: `uploaded_bytes` starts at 0, each round
      sends `[uploaded_bytes, min(uploaded_bytes + chunk_size, file_size))`
      and moves `uploaded_bytes` to the chunk's end. */
  method PlanChunks(size: nat) returns (plan: seq<Chunk>)
    ensures WellFormedPlan(plan, size)
    ensures plan == ChunkPlan(size)
  {
    plan := [];
    var uploaded: nat := 0;
    while uploaded < size
      invariant uploaded <= size
      invariant |plan| == 0 <==> uploaded == 0
      invariant |plan| > 0 ==> plan[0].start == 0 && plan[|plan| - 1].end == uploaded
      invariant Contiguous(plan)
      invariant forall i :: 0 <= i < |plan| ==> 0 < Length(plan[i]) <= ChunkSize
      invariant forall i :: 0 <= i < |plan| - 1 ==> Length(plan[i]) == ChunkSize
      invariant uploaded < size ==> forall i :: 0 <= i < |plan| ==> Length(plan[i]) == ChunkSize
      decreases size - uploaded
    {
      var chunkStart := uploaded;
      var chunkEnd := if uploaded + ChunkSize < size then uploaded + ChunkSize else size;
      plan := plan + [Chunk(chunkStart, chunkEnd)];
      uploaded := chunkEnd;
    }
    PlanUnique(plan, 0, size);
  }

  /** The functional plan has the shape the loop promises. */
  lemma {:induction false} ChunksFromWellFormed(pos: nat, size: nat)
    ensures PlanFrom(ChunksFrom(pos, size), pos, size)
    decreases size - pos
  {
    if pos < size {
      var end := if pos + ChunkSize < size then pos + ChunkSize else size;
      ChunksFromWellFormed(end, size);
      PlanFromCons(ChunksFrom(end, size), pos, end, size);
    }
  }

  /** A chunk `[pos, end)` in front of a plan for `[end, size)` is a plan
      for `[pos, size)`, provided it is full unless it reaches `size`. */
  lemma PlanFromCons(rest: seq<Chunk>, pos: nat, end: nat, size: nat)
    requires PlanFrom(rest, end, size)
    requires pos < end <= size && end - pos <= ChunkSize && (end < size ==> end - pos == ChunkSize)
    ensures PlanFrom([Chunk(pos, end)] + rest, pos, size)
  {
    var plan := [Chunk(pos, end)] + rest;
    assert forall i :: 1 <= i < |plan| ==> plan[i] == rest[i - 1];
  }

  /** The shape determines the plan: any plan with no gaps or overlaps and
      full chunks before the last is the loop's plan. */
  lemma {:induction false} PlanUnique(plan: seq<Chunk>, pos: nat, size: nat)
    requires PlanFrom(plan, pos, size)
    ensures plan == ChunksFrom(pos, size)
    decreases |plan|
  {
    if |plan| > 0 {
      FirstChunk(plan, pos, size);
      PlanFromTail(plan, pos, size);
      PlanUnique(plan[1..], plan[0].end, size);
      assert plan == [plan[0]] + plan[1..];
    }
  }

  /** The first chunk of a plan for `[pos, size)` is the loop's first chunk. */
  lemma FirstChunk(plan: seq<Chunk>, pos: nat, size: nat)
    requires PlanFrom(plan, pos, size) && |plan| > 0
    ensures plan[0] == Chunk(pos, if pos + ChunkSize < size then pos + ChunkSize else size)
  {
    if |plan| > 1 {
      LastEndBound(plan);
      assert Length(plan[0]) == ChunkSize;
    }
  }

  /** Without its first chunk, a plan covers the rest of the range. */
  lemma PlanFromTail(plan: seq<Chunk>, pos: nat, size: nat)
    requires PlanFrom(plan, pos, size) && |plan| > 0
    ensures PlanFrom(plan[1..], plan[0].end, size)
  {
    var rest := plan[1..];
    if |plan| > 1 {
      LastEndBound(plan);
    }
    assert forall i :: 0 <= i < |rest| ==> rest[i] == plan[i + 1];
  }

  /** In a contiguous plan of non-empty chunks, a chunk ends before the
      last chunk does. */
  lemma {:induction false} LastEndBound(plan: seq<Chunk>)
    requires |plan| > 1 && Contiguous(plan) && Sized(plan)
    ensures plan[0].end < plan[|plan| - 1].end
    decreases |plan|
  {
    if |plan| > 2 {
      LastEndBound(plan[1..]);
      assert plan[1..][0] == plan[1];
      assert plan[1..][|plan| - 2] == plan[|plan| - 1];
    } else {
      assert Length(plan[1]) > 0;
    }
  }

  /** Chunk `i` of a well-formed plan is `[i * ChunkSize, min((i + 1) * ChunkSize, size))`. */
  lemma {:induction false} ChunkPosition(plan: seq<Chunk>, size: nat, i: nat)
    requires WellFormedPlan(plan, size) && i < |plan|
    ensures plan[i].start == i * ChunkSize
    ensures plan[i].end == if (i + 1) * ChunkSize < size then (i + 1) * ChunkSize else size
  {
    StartPosition(plan, size, i);
    if i + 1 < |plan| {
      StartPosition(plan, size, i + 1);
      assert (i + 1) * ChunkSize < size by {
        if i + 2 < |plan| {
          LastEndBound(plan[i + 1..]);
          assert plan[i + 1..][0] == plan[i + 1];
          assert plan[i + 1..][|plan| - i - 2] == plan[|plan| - 1];
        } else {
          assert Length(plan[i + 1]) > 0;
        }
      }
    } else {
      assert plan[i].end == size;
      assert Length(plan[i]) <= ChunkSize;
    }
  }

  lemma {:induction false} StartPosition(plan: seq<Chunk>, size: nat, i: nat)
    requires WellFormedPlan(plan, size) && i < |plan|
    ensures plan[i].start == i * ChunkSize
  {
    if i > 0 {
      StartPosition(plan, size, i - 1);
      assert Length(plan[i - 1]) == ChunkSize;
    }
  }

  /** Every byte of the file is sent in exactly one chunk. */
  lemma ExactCover(plan: seq<Chunk>, size: nat, b: nat)
    requires WellFormedPlan(plan, size) && b < size
    ensures exists i :: 0 <= i < |plan| && plan[i].start <= b < plan[i].end
    ensures forall i, j ::
      (0 <= i < |plan| && 0 <= j < |plan| && plan[i].start <= b < plan[i].end && plan[j].start <= b < plan[j].end)
      ==> i == j
  {
    var k := b / ChunkSize;
    var last := |plan| - 1;
    ChunkPosition(plan, size, last);
    assert k < |plan| by {
      assert b < plan[last].end <= plan[last].start + ChunkSize == (last + 1) * ChunkSize;
    }
    ChunkPosition(plan, size, k);
    assert plan[k].start <= b < plan[k].end;
    forall i | 0 <= i < |plan| && plan[i].start <= b < plan[i].end
      ensures i == k
    {
      ChunkOfByte(plan, size, b, i);
    }
  }

  /** The chunk holding byte `b` is chunk number `b / ChunkSize`. */
  lemma ChunkOfByte(plan: seq<Chunk>, size: nat, b: nat, i: nat)
    requires WellFormedPlan(plan, size) && i < |plan| && plan[i].start <= b < plan[i].end
    ensures i == b / ChunkSize
  {
    ChunkPosition(plan, size, i);
    assert i * ChunkSize <= b < (i + 1) * ChunkSize;
  }

  /** The plan has one chunk per started 10 MiB of the file. */
  lemma ChunkCount(size: nat)
    ensures |ChunkPlan(size)| == (size + ChunkSize - 1) / ChunkSize
  {
    var plan := ChunkPlan(size);
    ChunksFromWellFormed(0, size);
    if |plan| > 0 {
      var last := |plan| - 1;
      ChunkPosition(plan, size, last);
      assert last * ChunkSize < size <= (last + 1) * ChunkSize;
    }
  }

  /** A file that takes the resumable path has at least one chunk, so the
      loop's last response exists when the result is read from it. */
  lemma ResumableHasChunks(size: nat)
    requires ChooseStrategy(size) == ResumableUpload
    ensures |ChunkPlan(size)| > 0
  {
  }

  // ---------------------------------------------------------------------
  // Headers

  /** The headers of one chunk request. */
  datatype ChunkHeaders = ChunkHeaders(contentLength: string, contentRange: string)

  /** `Content-Length: end - start` and `Content-Range: bytes start-(end-1)/size`. */
  function HeadersOf(c: Chunk, size: nat): ChunkHeaders
    requires c.start < c.end
  {
    ChunkHeaders(NatToString(c.end - c.start),
                 "bytes " + NatToString(c.start) + "-" + NatToString(c.end - 1) + "/" + NatToString(size))
  }

  /** The three numbers of a `bytes first-last/complete` range. */
  datatype ByteRange = ByteRange(first: nat, last: nat, complete: nat)

  predicate IsNumber(s: string) {
    |s| > 0 && AllDigits(s)
  }

  /** Reads a `Content-Range` value of the form `bytes first-last/complete`. */
  function ParseContentRange(h: string): Option<ByteRange> {
    if !StartsWith(h, "bytes ") then None
    else
      var slash := Split(h[6..], '/');
      if |slash| != 2 then None
      else
        var dash := Split(slash[0], '-');
        if |dash| != 2 || !IsNumber(dash[0]) || !IsNumber(dash[1]) || !IsNumber(slash[1]) then None
        else Some(ByteRange(ParseNat(dash[0]), ParseNat(dash[1]), ParseNat(slash[1])))
  }

  /** A range RFC 9110 accepts: the last position is not before the first,
      and both lie inside the complete length. */
  predicate ValidRange(r: ByteRange) {
    r.first <= r.last < r.complete
  }

  lemma DigitsHaveNoSeparator(s: string, sep: char)
    requires AllDigits(s) && !IsDigit(sep)
    ensures sep !in s
  {
  }

  /** A `bytes a-b/n` value with decimal numbers reads back as its numbers. */
  lemma ParseRangeOfNumbers(a: string, b: string, n: string)
    requires IsNumber(a) && IsNumber(b) && IsNumber(n)
    ensures ParseContentRange("bytes " + a + "-" + b + "/" + n) == Some(ByteRange(ParseNat(a), ParseNat(b), ParseNat(n)))
  {
    var h := "bytes " + a + "-" + b + "/" + n;
    DigitsHaveNoSeparator(a, '-');
    DigitsHaveNoSeparator(b, '-');
    DigitsHaveNoSeparator(a, '/');
    DigitsHaveNoSeparator(b, '/');
    DigitsHaveNoSeparator(n, '/');
    assert h[6..] == (a + "-" + b) + "/" + n;
    assert '/' !in a + "-" + b;
    SplitNoSep(a + "-" + b, '/');
    SplitNoSep(n, '/');
    SplitAppend(a + "-" + b, n, '/');
    SplitNoSep(a, '-');
    SplitNoSep(b, '-');
    SplitAppend(a, b, '-');
  }

  /** The `Content-Range` of a chunk reads back as its first and last byte
      and the file size. */
  lemma ContentRangeRoundTrip(c: Chunk, size: nat)
    requires c.start < c.end
    ensures ParseContentRange(HeadersOf(c, size).contentRange) == Some(ByteRange(c.start, c.end - 1, size))
  {
    ParseRangeOfNumbers(NatToString(c.start), NatToString(c.end - 1), NatToString(size));
    ParseNatToString(c.start);
    ParseNatToString(c.end - 1);
    ParseNatToString(size);
  }

  /** Every chunk of the plan carries a valid range whose length is its
      `Content-Length`. */
  lemma PlanHeadersValid(size: nat, i: nat)
    requires i < |ChunkPlan(size)|
    ensures var c := ChunkPlan(size)[i];
      && c.start < c.end
      && ParseContentRange(HeadersOf(c, size).contentRange) == Some(ByteRange(c.start, c.end - 1, size))
      && ValidRange(ByteRange(c.start, c.end - 1, size))
      && ParseNat(HeadersOf(c, size).contentLength) == (c.end - 1) - c.start + 1
  {
    var c := ChunkPlan(size)[i];
    ChunkInFile(size, i);
    ContentRangeRoundTrip(c, size);
    ParseNatToString(c.end - c.start);
  }

  lemma ChunkInFile(size: nat, i: nat)
    requires i < |ChunkPlan(size)|
    ensures 0 < Length(ChunkPlan(size)[i]) && ChunkPlan(size)[i].end <= size
  {
    ChunksFromWellFormed(0, size);
    ChunkPosition(ChunkPlan(size), size, i);
  }
}
