/**
  The sequential-counter integrity checker at the heart of `Recv`: the sender
  is expected to transmit 0, 1, 2, ..., 255, 0, 1, ... and every received byte
  is compared with the value that should come next. A mismatch is counted and
  the checker resynchronises on the byte it actually saw. After each completed
  read the running byte total grows by the read's length, and a progress
  report is printed whenever that total passes a multiple of 65536.
 */
module Integrity {
  import opened Basics

  /** Size of `recv_buffer`: no read delivers more bytes than this. */
  const BufferSize: nat := 1000

  /** `report_freq`: a report is due each time the total passes a multiple of this. */
  const ReportFrequency: nat := 65536

  /** The bytes delivered by one completed read. */
  type Chunk = s: seq<Byte> | |s| <= BufferSize

  /** The three variables of `Recv` that survive from one read to the next. */
  datatype CheckerState = CheckerState(nextExpected: Byte, numErrors: nat, totalRead: nat)

  /** All three start at zero. */
  const Initial: CheckerState := CheckerState(0, 0, 0)

  /** One "Expected 0x.., got 0x.. (will expect 0x.. next)" line. */
  datatype Mismatch = Mismatch(expected: Byte, got: Byte) {
    /** The expectation the checker resynchronises to. */
    function WillExpect(): Byte {
      Succ(got)
    }
  }

  /** One "Read N bytes total. E error(s)" line. */
  datatype Progress = Progress(total: nat, errors: nat)

  /** Everything one completed read produces: the new state, the mismatch lines and the optional report. */
  datatype ChunkResult = ChunkResult(checker: CheckerState, mismatches: seq<Mismatch>, progress: Option<Progress>)

  /** Every error stems from a byte that was read, so errors never exceed the byte total. */
  ghost predicate Valid(c: CheckerState) {
    c.numErrors <= c.totalRead
  }

  /** The checker's reaction to one received byte (the body of the per-byte loop). */
  function Step(c: CheckerState, b: Byte): (r: CheckerState)
    ensures r.nextExpected == Succ(b)
    ensures b == c.nextExpected ==> r.numErrors == c.numErrors
    ensures b != c.nextExpected ==> r.numErrors == c.numErrors + 1
    ensures r.totalRead == c.totalRead
  {
    if b == c.nextExpected then
      c.(nextExpected := Succ(c.nextExpected))
    else
      c.(nextExpected := Succ(b), numErrors := c.numErrors + 1)
  }

  /** The per-byte loop over a buffer: `Step` applied to each byte in order. */
  function Feed(c: CheckerState, bs: seq<Byte>): (r: CheckerState)
    ensures r.totalRead == c.totalRead
    ensures c.numErrors <= r.numErrors <= c.numErrors + |bs|
    ensures |bs| > 0 ==> r.nextExpected == Succ(bs[|bs| - 1])
    ensures |bs| == 0 ==> r == c
    decreases |bs|
  {
    if |bs| == 0 then c else Step(Feed(c, bs[..|bs| - 1]), bs[|bs| - 1])
  }

  /** The mismatch lines the per-byte loop prints, in order. */
  function MismatchLog(c: CheckerState, bs: seq<Byte>): (log: seq<Mismatch>)
    ensures |log| == Feed(c, bs).numErrors - c.numErrors
    ensures forall k :: 0 <= k < |log| ==> log[k].expected != log[k].got
    decreases |bs|
  {
    if |bs| == 0 then []
    else
      var before := Feed(c, bs[..|bs| - 1]);
      var b := bs[|bs| - 1];
      MismatchLog(c, bs[..|bs| - 1]) + (if b == before.nextExpected then [] else [Mismatch(before.nextExpected, b)])
  }

  /**
    The per-byte loop followed by adding the buffer length to the total. The
    contract describes the outcome through the stream alone: the expectation
    follows the last byte, and one error is counted per break.
   */
  function Consume(c: CheckerState, bs: seq<Byte>): (r: CheckerState)
    ensures r.totalRead == c.totalRead + |bs|
    ensures r.nextExpected == ExpectedAt(c.nextExpected, bs, |bs|)
    ensures r.numErrors == c.numErrors + |Breaks(c.nextExpected, bs)|
  {
    FeedCountsBreaks(c, bs);
    Feed(c, bs).(totalRead := c.totalRead + |bs|)
  }

  /** Whether growing the total from `before` to `after` changes `total / report_freq`. */
  predicate ReportDue(before: nat, after: nat) {
    before / ReportFrequency != after / ReportFrequency
  }

  /** Everything done for one completed read: check the bytes, grow the total, maybe report. */
  function ProcessChunk(c: CheckerState, chunk: Chunk): (r: ChunkResult)
    ensures r.checker.totalRead == c.totalRead + |chunk|
    ensures |chunk| > 0 ==> r.checker.nextExpected == Succ(chunk[|chunk| - 1])
    ensures |chunk| == 0 ==> r.checker == c && r.mismatches == [] && r.progress == None
    ensures c.numErrors <= r.checker.numErrors <= c.numErrors + |chunk|
    ensures |r.mismatches| == r.checker.numErrors - c.numErrors
    ensures r.progress.Some? <==> c.totalRead / ReportFrequency != r.checker.totalRead / ReportFrequency
    ensures r.progress.Some? ==> r.progress.value == Progress(r.checker.totalRead, r.checker.numErrors)
    ensures Valid(c) ==> Valid(r.checker)
  {
    var after := Consume(c, chunk);
    ChunkResult(
      after,
      MismatchLog(c, chunk),
      if ReportDue(c.totalRead, after.totalRead) then Some(Progress(after.totalRead, after.numErrors)) else None)
  }

  /** The per-byte loop as the program writes it: an index walking the buffer. */
  method CheckBuffer(c: CheckerState, buffer: Chunk) returns (r: CheckerState, log: seq<Mismatch>)
    ensures r == Feed(c, buffer)
    ensures log == MismatchLog(c, buffer)
    ensures |log| == r.numErrors - c.numErrors
  {
    r, log := c, [];
    var i := 0;
    while i < |buffer|
      invariant 0 <= i <= |buffer|
      invariant r == Feed(c, buffer[..i])
      invariant log == MismatchLog(c, buffer[..i])
    {
      var b := buffer[i];
      assert buffer[..i + 1][..i] == buffer[..i];
      if b == r.nextExpected {
        r := r.(nextExpected := Succ(r.nextExpected));
      } else {
        log := log + [Mismatch(r.nextExpected, b)];
        r := r.(nextExpected := Succ(b), numErrors := r.numErrors + 1);
      }
      i := i + 1;
    }
    assert buffer[..i] == buffer;
  }

  // ---------------------------------------------------------------------------
  // An independent description of the checker: which positions are errors.
  // ---------------------------------------------------------------------------

  /** The value a gap-free sender would put at position `i`, given the byte before it. */
  function ExpectedAt(start: Byte, bs: seq<Byte>, i: nat): Byte
    requires i <= |bs|
  {
    if i == 0 then start else Succ(bs[i - 1])
  }

  /** The positions whose byte does not follow its predecessor. */
  ghost function Breaks(start: Byte, bs: seq<Byte>): set<nat> {
    set i: nat | i < |bs| && bs[i] != ExpectedAt(start, bs, i)
  }

  /** The checker ends up expecting the successor of the last byte, and counts exactly the breaks. */
  lemma {:induction false} FeedCountsBreaks(c: CheckerState, bs: seq<Byte>)
    ensures Feed(c, bs).nextExpected == ExpectedAt(c.nextExpected, bs, |bs|)
    ensures Feed(c, bs).numErrors == c.numErrors + |Breaks(c.nextExpected, bs)|
    decreases |bs|
  {
    var start := c.nextExpected;
    if |bs| == 0 {
      assert Breaks(start, bs) == {};
    } else {
      var n := |bs|;
      var p := bs[..n - 1];
      FeedCountsBreaks(c, p);
      forall i: nat | i < n - 1
        ensures ExpectedAt(start, bs, i) == ExpectedAt(start, p, i)
      {
      }
      assert ExpectedAt(start, bs, n - 1) == ExpectedAt(start, p, n - 1);
      var tail: set<nat> := if bs[n - 1] != ExpectedAt(start, bs, n - 1) then {n - 1} else {};
      assert Breaks(start, bs) == Breaks(start, p) + tail;
      assert n - 1 !in Breaks(start, p);
    }
  }

  /** The expectation in force when byte `i` arrives is the successor of byte `i - 1`. */
  lemma ExpectationBeforeByte(c: CheckerState, bs: seq<Byte>, i: nat)
    requires i <= |bs|
    ensures Feed(c, bs[..i]).nextExpected == ExpectedAt(c.nextExpected, bs, i)
  {
    FeedCountsBreaks(c, bs[..i]);
  }

  /** The positions below `n` whose byte does not follow its predecessor, in increasing order. */
  ghost function BreaksInOrder(start: Byte, bs: seq<Byte>, n: nat): (pos: seq<nat>)
    requires n <= |bs|
    ensures forall k :: 0 <= k < |pos| ==> pos[k] < n
    decreases n
  {
    if n == 0 then []
    else BreaksInOrder(start, bs, n - 1) + (if bs[n - 1] != ExpectedAt(start, bs, n - 1) then [n - 1] else [])
  }

  /** `BreaksInOrder` lists the positions in strictly increasing order. */
  lemma {:induction false} BreaksInOrderIncreasing(start: Byte, bs: seq<Byte>, n: nat)
    requires n <= |bs|
    ensures forall j, k :: 0 <= j < k < |BreaksInOrder(start, bs, n)| ==>
              BreaksInOrder(start, bs, n)[j] < BreaksInOrder(start, bs, n)[k]
    decreases n
  {
    if n > 0 {
      BreaksInOrderIncreasing(start, bs, n - 1);
      var prev := BreaksInOrder(start, bs, n - 1);
      var pos := BreaksInOrder(start, bs, n);
      forall j, k | 0 <= j < k < |pos|
        ensures pos[j] < pos[k]
      {
        assert pos[j] == prev[j];
        if k < |prev| {
          assert pos[k] == prev[k];
        } else {
          assert pos[k] == n - 1;
        }
      }
    }
  }

  /** Position `i` is listed exactly when it is a break. */
  lemma {:induction false} BreakListed(start: Byte, bs: seq<Byte>, n: nat, i: nat)
    requires i < n <= |bs|
    ensures i in BreaksInOrder(start, bs, n) <==> bs[i] != ExpectedAt(start, bs, i)
    decreases n
  {
    var prev := BreaksInOrder(start, bs, n - 1);
    var tail: seq<nat> := if bs[n - 1] != ExpectedAt(start, bs, n - 1) then [n - 1] else [];
    assert BreaksInOrder(start, bs, n) == prev + tail;
    assert i in prev + tail <==> i in prev || i in tail;
    if i < n - 1 {
      BreakListed(start, bs, n - 1, i);
    } else {
      assert i !in prev;
    }
  }

  /** `BreaksInOrder` holds exactly the breaks below `n`; over the whole buffer it lists the set `Breaks`. */
  lemma BreaksInOrderIsBreaks(start: Byte, bs: seq<Byte>, n: nat)
    requires n <= |bs|
    ensures forall i :: 0 <= i < n ==> (i in BreaksInOrder(start, bs, n) <==> bs[i] != ExpectedAt(start, bs, i))
    ensures n == |bs| ==> (set i | i in BreaksInOrder(start, bs, n)) == Breaks(start, bs)
  {
    forall i | 0 <= i < n
      ensures i in BreaksInOrder(start, bs, n) <==> bs[i] != ExpectedAt(start, bs, i)
    {
      BreakListed(start, bs, n, i);
    }
  }

  /** The line the program prints for a break at position `i`. */
  function BreakLine(start: Byte, bs: seq<Byte>, i: nat): Mismatch
    requires i < |bs|
  {
    Mismatch(ExpectedAt(start, bs, i), bs[i])
  }

  /**
    The k-th mismatch line names the k-th break: the expectation in force
    there, which is the successor of the byte before it, and the byte
    actually received.
   */
  lemma {:induction false} MismatchLinesNameBreaks(c: CheckerState, bs: seq<Byte>)
    ensures |MismatchLog(c, bs)| == |BreaksInOrder(c.nextExpected, bs, |bs|)|
    ensures forall k :: 0 <= k < |MismatchLog(c, bs)| ==>
              MismatchLog(c, bs)[k] == BreakLine(c.nextExpected, bs, BreaksInOrder(c.nextExpected, bs, |bs|)[k])
    decreases |bs|
  {
    var start := c.nextExpected;
    if |bs| > 0 {
      var n := |bs|;
      var p := bs[..n - 1];
      MismatchLinesNameBreaks(c, p);
      LastByteLine(c, bs);
      LastByteBreak(start, bs);
      var logP := MismatchLog(c, p);
      var posP := BreaksInOrder(start, p, n - 1);
      var log := MismatchLog(c, bs);
      var pos := BreaksInOrder(start, bs, n);
      forall k | 0 <= k < |log|
        ensures log[k] == BreakLine(start, bs, pos[k])
      {
        if k < |logP| {
          assert log[k] == logP[k];
          assert pos[k] == posP[k];
          BreakLineOnPrefix(start, bs, p, posP[k]);
        }
      }
    }
  }

  /** The lines of a buffer are those of the buffer without its last byte, plus that byte's line if it breaks. */
  lemma LastByteLine(c: CheckerState, bs: seq<Byte>)
    requires |bs| > 0
    ensures var n := |bs|;
            MismatchLog(c, bs) == MismatchLog(c, bs[..n - 1]) +
              (if bs[n - 1] == ExpectedAt(c.nextExpected, bs, n - 1) then [] else [BreakLine(c.nextExpected, bs, n - 1)])
  {
    ExpectationBeforeByte(c, bs, |bs| - 1);
  }

  /** The breaks of a buffer are those of the buffer without its last byte, plus that byte if it breaks. */
  lemma LastByteBreak(start: Byte, bs: seq<Byte>)
    requires |bs| > 0
    ensures var n := |bs|;
            BreaksInOrder(start, bs, n) == BreaksInOrder(start, bs[..n - 1], n - 1) +
              (if bs[n - 1] != ExpectedAt(start, bs, n - 1) then [n - 1] else [])
  {
    BreaksInOrderSameOnPrefix(start, bs, bs[..|bs| - 1], |bs| - 1);
  }

  /** A break's line depends only on the bytes up to it. */
  lemma BreakLineOnPrefix(start: Byte, bs: seq<Byte>, p: seq<Byte>, i: nat)
    requires i < |p| <= |bs|
    requires p == bs[..|p|]
    ensures BreakLine(start, p, i) == BreakLine(start, bs, i)
  {
  }

  /** The "will expect" value of each line is the checker's expectation right after the offending byte. */
  lemma MismatchLinesWillExpect(c: CheckerState, bs: seq<Byte>, k: nat)
    requires k < |MismatchLog(c, bs)|
    ensures var pos := BreaksInOrder(c.nextExpected, bs, |bs|);
            && k < |pos|
            && Feed(c, bs[..pos[k] + 1]).nextExpected == MismatchLog(c, bs)[k].WillExpect()
  {
    MismatchLinesNameBreaks(c, bs);
    var i := BreaksInOrder(c.nextExpected, bs, |bs|)[k];
    assert bs[..i + 1][i] == bs[i];
  }

  /** The breaks below `n` depend only on the first `n` bytes. */
  lemma {:induction false} BreaksInOrderSameOnPrefix(start: Byte, bs: seq<Byte>, p: seq<Byte>, n: nat)
    requires n <= |p| <= |bs|
    requires p == bs[..|p|]
    ensures BreaksInOrder(start, bs, n) == BreaksInOrder(start, p, n)
    decreases n
  {
    if n > 0 {
      BreaksInOrderSameOnPrefix(start, bs, p, n - 1);
      assert ExpectedAt(start, bs, n - 1) == ExpectedAt(start, p, n - 1);
    }
  }

  // ---------------------------------------------------------------------------
  // Gap-free streams.
  // ---------------------------------------------------------------------------

  /** `n` bytes of the sender's pattern, counting up from `start` and wrapping at 256. */
  function Ramp(start: Byte, n: nat): (s: seq<Byte>)
    ensures |s| == n
    ensures forall i :: 0 <= i < n ==> s[i] == (start + i) % ByteRange
  {
    seq(n, i requires 0 <= i < n => (start + i) % ByteRange)
  }

  /** A gap-free stream produces no errors and leaves the expectation `n` further on. */
  lemma {:induction false} GapFreeStreamHasNoErrors(c: CheckerState, n: nat)
    ensures Feed(c, Ramp(c.nextExpected, n)) == c.(nextExpected := (c.nextExpected + n) % ByteRange)
    decreases n
  {
    if n > 0 {
      var start := c.nextExpected;
      var s := Ramp(start, n);
      var last := (start + n - 1) % ByteRange;
      RampExtend(start, n - 1);
      assert s == Ramp(start, n - 1) + [last];
      assert s[..n - 1] == Ramp(start, n - 1);
      GapFreeStreamHasNoErrors(c, n - 1);
      var mid := Feed(c, s[..n - 1]);
      assert mid.nextExpected == last;
      assert Feed(c, s) == Step(mid, last);
      SuccOfWrapped(start + n - 1);
    }
  }

  /** Incrementing a wrapped value is wrapping the incremented value. */
  lemma SuccOfWrapped(x: nat)
    ensures Succ(x % ByteRange) == (x + 1) % ByteRange
  {
  }

  /** From the initial state, `0, 1, ..., (N-1) mod 256` gives no errors and an expectation of `N mod 256`. */
  lemma FreshCheckerAcceptsCounter(n: nat)
    ensures Feed(Initial, Ramp(0, n)).numErrors == 0
    ensures Feed(Initial, Ramp(0, n)).nextExpected == n % ByteRange
  {
    GapFreeStreamHasNoErrors(Initial, n);
  }

  /** A buffer that adds no error is the gap-free pattern from the current expectation. */
  lemma {:induction false} NoErrorsMeansGapFree(c: CheckerState, bs: seq<Byte>)
    requires Feed(c, bs).numErrors == c.numErrors
    ensures bs == Ramp(c.nextExpected, |bs|)
    decreases |bs|
  {
    var start := c.nextExpected;
    var n := |bs|;
    if n > 0 {
      var p := bs[..n - 1];
      var mid := Feed(c, p);
      assert Feed(c, bs) == Step(mid, bs[n - 1]);
      assert mid.numErrors == c.numErrors;
      NoErrorsMeansGapFree(c, p);
      GapFreeStreamHasNoErrors(c, n - 1);
      assert bs[n - 1] == mid.nextExpected == (start + n - 1) % ByteRange;
      RampExtend(start, n - 1);
      assert bs == p + [bs[n - 1]];
    }
  }

  /** One more byte of the pattern is the next value, wrapped. */
  lemma RampExtend(start: Byte, n: nat)
    ensures Ramp(start, n + 1) == Ramp(start, n) + [(start + n) % ByteRange]
  {
    assert Ramp(start, n + 1)[..n] == Ramp(start, n);
  }

  /** No error is recorded exactly when the stream is the gap-free pattern from the current expectation. */
  lemma NoErrorsIffGapFree(c: CheckerState, bs: seq<Byte>)
    ensures Feed(c, bs).numErrors == c.numErrors <==> bs == Ramp(c.nextExpected, |bs|)
  {
    if bs == Ramp(c.nextExpected, |bs|) {
      GapFreeStreamHasNoErrors(c, |bs|);
    }
    if Feed(c, bs).numErrors == c.numErrors {
      NoErrorsMeansGapFree(c, bs);
    }
  }

  // ---------------------------------------------------------------------------
  // Chunking does not matter.
  // ---------------------------------------------------------------------------

  /** Feeding `a + b` is feeding `a` and then `b`. */
  lemma {:induction false} FeedConcat(c: CheckerState, a: seq<Byte>, b: seq<Byte>)
    ensures Feed(c, a + b) == Feed(Feed(c, a), b)
    decreases |b|
  {
    if |b| == 0 {
      assert a + b == a;
    } else {
      assert (a + b)[..|a + b| - 1] == a + b[..|b| - 1];
      FeedConcat(c, a, b[..|b| - 1]);
    }
  }

  /** The per-byte loop never looks at the running total. */
  lemma {:induction false} FeedIgnoresTotal(c: CheckerState, t: nat, bs: seq<Byte>)
    ensures Feed(c.(totalRead := t), bs) == Feed(c, bs).(totalRead := t)
    decreases |bs|
  {
    if |bs| > 0 {
      FeedIgnoresTotal(c, t, bs[..|bs| - 1]);
    }
  }

  /** Consuming `a + b` is consuming `a` and then `b`. */
  lemma ConsumeConcat(c: CheckerState, a: seq<Byte>, b: seq<Byte>)
    ensures Consume(c, a + b) == Consume(Consume(c, a), b)
  {
    FeedConcat(c, a, b);
    FeedIgnoresTotal(Feed(c, a), c.totalRead + |a|, b);
  }

  /** The concatenation of the chunks, in order. */
  function Flatten(chunks: seq<Chunk>): (s: seq<Byte>)
    ensures |chunks| > 0 ==> s == Flatten(chunks[..|chunks| - 1]) + chunks[|chunks| - 1]
    decreases |chunks|
  {
    if |chunks| == 0 then [] else Flatten(chunks[..|chunks| - 1]) + chunks[|chunks| - 1]
  }

  /** The state after the chunks are delivered by successive reads. */
  function RunChunks(c: CheckerState, chunks: seq<Chunk>): (r: CheckerState)
    ensures r.totalRead == c.totalRead + |Flatten(chunks)|
    ensures c.numErrors <= r.numErrors <= c.numErrors + |Flatten(chunks)|
    ensures Valid(c) ==> Valid(r)
    decreases |chunks|
  {
    if |chunks| == 0 then c else ProcessChunk(RunChunks(c, chunks[..|chunks| - 1]), chunks[|chunks| - 1]).checker
  }

  /** However a stream is split into reads, the final state is that of consuming it in one go. */
  lemma {:induction false} ChunkingIndependence(c: CheckerState, chunks: seq<Chunk>)
    ensures RunChunks(c, chunks) == Consume(c, Flatten(chunks))
    decreases |chunks|
  {
    if |chunks| > 0 {
      var n := |chunks|;
      ChunkingIndependence(c, chunks[..n - 1]);
      ConsumeConcat(c, Flatten(chunks[..n - 1]), chunks[n - 1]);
    }
  }

  // ---------------------------------------------------------------------------
  // Reporting.
  // ---------------------------------------------------------------------------

  predicate IsReportPoint(m: nat) {
    m % ReportFrequency == 0
  }

  /** For totals that grow by at most one buffer, the quotient test is the same as passing a multiple of 65536. */
  lemma ReportDueIffMultiplePassed(before: nat, n: nat)
    requires n <= BufferSize
    ensures ReportDue(before, before + n) <==> exists m: nat :: before < m <= before + n && IsReportPoint(m)
    ensures (before + n) / ReportFrequency <= before / ReportFrequency + 1
  {
    var F := ReportFrequency;
    var q := before / F;
    var q' := (before + n) / F;
    assert before == q * F + before % F;
    assert before + n == q' * F + (before + n) % F;
    assert q <= q' <= q + 1;
    if q != q' {
      var m: nat := q' * F;
      assert IsReportPoint(m);
      assert before < m <= before + n;
    }
    forall m: nat | before < m <= before + n && IsReportPoint(m)
      ensures q != q'
    {
      var k := m / F;
      assert m == k * F;
      assert q * F < k * F;
      assert q < k;
      assert k * F <= q' * F + (before + n) % F;
      assert k <= q';
    }
  }

  /** The progress lines printed while the chunks are delivered by successive reads. */
  function ReportsOf(c: CheckerState, chunks: seq<Chunk>): seq<Progress>
    decreases |chunks|
  {
    if |chunks| == 0 then []
    else
      var r := ProcessChunk(RunChunks(c, chunks[..|chunks| - 1]), chunks[|chunks| - 1]);
      ReportsOf(c, chunks[..|chunks| - 1]) + (if r.progress.Some? then [r.progress.value] else [])
  }

  /** No report is lost: one line is printed for every multiple of 65536 the total passes. */
  lemma {:induction false} OneReportPerMultiple(c: CheckerState, chunks: seq<Chunk>)
    ensures |ReportsOf(c, chunks)| == RunChunks(c, chunks).totalRead / ReportFrequency - c.totalRead / ReportFrequency
    ensures RunChunks(c, chunks).totalRead == c.totalRead + |Flatten(chunks)|
    decreases |chunks|
  {
    if |chunks| > 0 {
      var n := |chunks|;
      OneReportPerMultiple(c, chunks[..n - 1]);
      var before := RunChunks(c, chunks[..n - 1]);
      ReportDueIffMultiplePassed(before.totalRead, |chunks[n - 1]|);
    }
  }
}
