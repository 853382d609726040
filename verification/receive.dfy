/**
  The control flow of one turn of the receive loop in `Recv`, as an explicit
  two-state machine. The monitor is Idle when no read is in flight and Pending
  while an overlapped read is outstanding. The operating system's answers are
  inputs: what `ReadFile` reported when a read was issued, and what the
  one-second `WaitForSingleObject` reported while one was outstanding.
 */
module Receive {
  import opened Basics
  import opened Integrity

  datatype Phase = Idle | Pending

  /** `io_pending` together with the checker's variables. */
  datatype Monitor = Monitor(phase: Phase, checker: CheckerState)

  /** Where a session starts: nothing in flight, checker at zero. */
  const Start: Monitor := Monitor(Idle, Initial)

  /** `ERROR_IO_PENDING`: the read was queued rather than failed. */
  const ErrorIoPending: nat := 997

  /** An error code `ReadFile` can fail with; `ERROR_IO_PENDING` is `ReadIoPending` instead. */
  type ReadErrorCode = x: nat | x != ErrorIoPending witness 0

  /** What issuing `ReadFile` reported. */
  datatype ReadResult =
    | ReadCompleted(data: Chunk)      // data was available straight away
    | ReadIoPending                   // ERROR_IO_PENDING: the read is in flight
    | ReadFailed(code: ReadErrorCode) // any other error code

  /** What waiting up to one second on the read's event reported. */
  datatype WaitResult =
    | WaitSignalled(data: Chunk)   // WAIT_OBJECT_0: the read finished with these bytes
    | WaitTimedOut                 // WAIT_TIMEOUT
    | WaitFailed(code: nat)        // anything else

  /** The operating system's answers for one turn of the loop; each is consulted only if that call is made. */
  datatype Round = Round(read: ReadResult, wait: WaitResult)

  /** The failures that end the process. */
  datatype FatalError = ReadError(code: nat) | WaitError(code: nat)

  /** What a turn prints. */
  datatype Event =
    | WaitingForInput
    | Unexpected(mismatch: Mismatch)
    | Report(progress: Progress)

  /** The outcome of a turn that did not fail: the new monitor, the bytes checked (if any) and what was printed. */
  datatype Turn = Turn(monitor: Monitor, received: Option<Chunk>, events: seq<Event>)

  /** A read is issued exactly when the turn begins with nothing in flight. */
  predicate IssuesRead(m: Monitor) {
    m.phase == Idle
  }

  /** The wait is made exactly when a read is in flight after the read step. */
  predicate Waits(m: Monitor, read: ReadResult) {
    m.phase == Pending || read == ReadIoPending
  }

  /** Checking a completed read's bytes and returning to Idle. */
  function Processed(c: CheckerState, data: Chunk): (t: Turn)
    ensures t.monitor == Monitor(Idle, Consume(c, data))
    ensures t.received == Some(data)
    // One line per mismatch, in order, then the progress line if one is due.
    ensures var added := t.monitor.checker.numErrors - c.numErrors;
            && |t.events| == added + (if ReportDue(c.totalRead, c.totalRead + |data|) then 1 else 0)
            && (forall k :: 0 <= k < added ==> t.events[k] == Unexpected(MismatchLog(c, data)[k]))
            && (|t.events| > added ==> t.events[added] == Report(Progress(c.totalRead + |data|, t.monitor.checker.numErrors)))
  {
    var r := ProcessChunk(c, data);
    var lines := seq(|r.mismatches|, k requires 0 <= k < |r.mismatches| => Unexpected(r.mismatches[k]));
    Turn(Monitor(Idle, r.checker), Some(data), lines + (if r.progress.Some? then [Report(r.progress.value)] else []))
  }

  /** The wait step with a read outstanding. */
  function Await(c: CheckerState, wait: WaitResult): (r: Result<Turn, FatalError>)
    ensures r.Err? <==> wait.WaitFailed?
    ensures wait.WaitSignalled? ==> r.Ok? && r.value.monitor == Monitor(Idle, Consume(c, wait.data))
    ensures wait.WaitTimedOut? ==> r.Ok? && r.value.monitor == Monitor(Pending, c) && r.value.received == None
  {
    match wait
    case WaitSignalled(data) => Ok(Processed(c, data))
    case WaitTimedOut => Ok(Turn(Monitor(Pending, c), None, [WaitingForInput]))
    case WaitFailed(code) => Err(WaitError(code))
  }

  /** One turn of the `for (;;)` loop. */
  function Iterate(m: Monitor, round: Round): (r: Result<Turn, FatalError>)
    // A failure of whichever call was made is fatal, and nothing else is.
    ensures r.Err? <==> (IssuesRead(m) && round.read.ReadFailed?) || (Waits(m, round.read) && round.wait.WaitFailed?)
    ensures r.Err? && IssuesRead(m) && round.read.ReadFailed? ==> r.error == ReadError(round.read.code)
    ensures r.Err? && Waits(m, round.read) ==> r.error == WaitError(round.wait.code)
    // Bytes are checked only once no read is in flight, and then they are the bytes the read delivered.
    ensures r.Ok? && r.value.monitor.phase == Pending ==> r.value.monitor.checker == m.checker && r.value.received == None
    ensures r.Ok? && r.value.monitor.phase == Idle ==>
              && r.value.received.Some?
              && r.value.monitor.checker == Consume(m.checker, r.value.received.value)
              && (if IssuesRead(m) && round.read.ReadCompleted? then r.value.received.value == round.read.data
                  else round.wait.WaitSignalled? && r.value.received.value == round.wait.data)
    // A read that completed, at once or after the wait, is always processed.
    ensures IssuesRead(m) && round.read.ReadCompleted? ==> r == Ok(Processed(m.checker, round.read.data))
    ensures Waits(m, round.read) && round.wait.WaitSignalled? ==> r == Ok(Processed(m.checker, round.wait.data))
    // A timeout leaves the read outstanding and issues no new one.
    ensures Waits(m, round.read) && round.wait == WaitTimedOut ==>
              r == Ok(Turn(Monitor(Pending, m.checker), None, [WaitingForInput]))
  {
    if m.phase == Idle then
      match round.read
      case ReadCompleted(data) => Ok(Processed(m.checker, data))
      case ReadIoPending => Await(m.checker, round.wait)
      case ReadFailed(code) => Err(ReadError(code))
    else
      Await(m.checker, round.wait)
  }

  /** With a read outstanding the turn does not call `ReadFile`, so its answer is irrelevant. */
  lemma PendingIgnoresRead(c: CheckerState, r1: ReadResult, r2: ReadResult, wait: WaitResult)
    ensures Iterate(Monitor(Pending, c), Round(r1, wait)) == Iterate(Monitor(Pending, c), Round(r2, wait))
  {
  }

  /** A read that completes straight away is processed without waiting. */
  lemma SyncReadSkipsWait(c: CheckerState, data: Chunk, w1: WaitResult, w2: WaitResult)
    ensures Iterate(Monitor(Idle, c), Round(ReadCompleted(data), w1)) == Iterate(Monitor(Idle, c), Round(ReadCompleted(data), w2))
    ensures Iterate(Monitor(Idle, c), Round(ReadCompleted(data), w1)) == Ok(Processed(c, data))
  {
  }

  /** A session so far: the monitor and the chunks whose bytes have been checked, in order. */
  datatype Session = Session(monitor: Monitor, received: seq<Chunk>)

  /** Turns of the loop, one per round, stopping at the first fatal error. */
  function Run(m: Monitor, rounds: seq<Round>): (r: Result<Session, FatalError>)
    ensures |rounds| == 0 ==> r == Ok(Session(m, []))
    // At most one read completes per turn.
    ensures r.Ok? ==> |r.value.received| <= |rounds|
    decreases |rounds|
  {
    if |rounds| == 0 then Ok(Session(m, []))
    else
      match Run(m, rounds[..|rounds| - 1])
      case Err(e) => Err(e)
      case Ok(s) =>
        match Iterate(s.monitor, rounds[|rounds| - 1])
        case Err(e) => Err(e)
        case Ok(t) =>
          Ok(Session(t.monitor, s.received + (if t.received.Some? then [t.received.value] else [])))
  }

  /** Once a turn has been fatal, later rounds change nothing: the process has ended. */
  lemma {:induction false} RunFatalIsFinal(m: Monitor, rounds: seq<Round>, more: seq<Round>)
    requires Run(m, rounds).Err?
    ensures Run(m, rounds + more) == Run(m, rounds)
    decreases |more|
  {
    if |more| == 0 {
      assert rounds + more == rounds;
    } else {
      var all := rounds + more;
      assert all[..|all| - 1] == rounds + more[..|more| - 1];
      RunFatalIsFinal(m, rounds, more[..|more| - 1]);
    }
  }

  /** The prefix of length `k + 1` is the prefix of length `k` followed by element `k`. */
  lemma PrefixExtends<T>(s: seq<T>, k: nat)
    requires k < |s|
    ensures s[..k + 1][..k] == s[..k] && s[..k + 1][k] == s[k] && |s[..k + 1]| == k + 1
  {
  }

  /** A fatal turn ends the run with that turn's error, whatever the later rounds would have answered. */
  lemma RunStopsAtFatalTurn(m: Monitor, rounds: seq<Round>, k: nat)
    requires k < |rounds|
    requires Run(m, rounds[..k]).Ok?
    requires Iterate(Run(m, rounds[..k]).value.monitor, rounds[k]).Err?
    ensures Run(m, rounds) == Err(Iterate(Run(m, rounds[..k]).value.monitor, rounds[k]).error)
  {
    var upTo := rounds[..k + 1];
    PrefixExtends(rounds, k);
    RunFatalIsFinal(m, upTo, rounds[k + 1..]);
    assert upTo + rounds[k + 1..] == rounds;
  }

  /** A run fails only at a turn that is itself fatal, reached by the fatal-free turns before it. */
  lemma {:induction false} RunFailsAtFatalTurn(m: Monitor, rounds: seq<Round>)
    requires Run(m, rounds).Err?
    ensures exists k :: 0 <= k < |rounds| && Run(m, rounds[..k]).Ok?
                        && Iterate(Run(m, rounds[..k]).value.monitor, rounds[k]) == Err(Run(m, rounds).error)
    decreases |rounds|
  {
    var n := |rounds|;
    var prefix := rounds[..n - 1];
    if Run(m, prefix).Err? {
      RunFailsAtFatalTurn(m, prefix);
      var k :| 0 <= k < |prefix| && Run(m, prefix[..k]).Ok?
               && Iterate(Run(m, prefix[..k]).value.monitor, prefix[k]) == Err(Run(m, prefix).error);
      assert prefix[..k] == rounds[..k] && prefix[k] == rounds[k];
      assert Run(m, rounds) == Run(m, prefix);
      assert Run(m, rounds[..k]).Ok? && Iterate(Run(m, rounds[..k]).value.monitor, rounds[k]) == Err(Run(m, rounds).error);
    } else {
      var s := Run(m, prefix).value;
      assert Iterate(s.monitor, rounds[n - 1]) == Err(Run(m, rounds).error);
      assert Run(m, rounds[..n - 1]).Ok? && Iterate(Run(m, rounds[..n - 1]).value.monitor, rounds[n - 1]) == Err(Run(m, rounds).error);
    }
  }

  /**
    One more turn after a fatal-free run, stated from that turn's answers: a read that completes, at once or
    through the wait, is checked and recorded; a timed-out wait keeps the read outstanding and records nothing;
    a failed call ends the run with its error.
   */
  lemma RunTurn(m: Monitor, rounds: seq<Round>, round: Round)
    requires Run(m, rounds).Ok?
    ensures var s := Run(m, rounds).value;
            IssuesRead(s.monitor) && round.read.ReadCompleted? ==>
              Run(m, rounds + [round]) ==
              Ok(Session(Monitor(Idle, Consume(s.monitor.checker, round.read.data)), s.received + [round.read.data]))
    ensures var s := Run(m, rounds).value;
            Waits(s.monitor, round.read) && round.wait.WaitSignalled? ==>
              Run(m, rounds + [round]) ==
              Ok(Session(Monitor(Idle, Consume(s.monitor.checker, round.wait.data)), s.received + [round.wait.data]))
    ensures var s := Run(m, rounds).value;
            Waits(s.monitor, round.read) && round.wait.WaitTimedOut? ==>
              Run(m, rounds + [round]) == Ok(Session(Monitor(Pending, s.monitor.checker), s.received))
    ensures var s := Run(m, rounds).value;
            IssuesRead(s.monitor) && round.read.ReadFailed? ==> Run(m, rounds + [round]) == Err(ReadError(round.read.code))
    ensures var s := Run(m, rounds).value;
            Waits(s.monitor, round.read) && round.wait.WaitFailed? ==> Run(m, rounds + [round]) == Err(WaitError(round.wait.code))
  {
    var all := rounds + [round];
    assert all[..|all| - 1] == rounds && all[|all| - 1] == round;
    var s := Run(m, rounds).value;
    assert s.received + [] == s.received;
  }

  /** The round's read completes in that turn from Idle: straight away, or queued and then signalled. */
  predicate Completes(round: Round) {
    round.read.ReadCompleted? || (round.read == ReadIoPending && round.wait.WaitSignalled?)
  }

  /** The bytes a completing round delivers. */
  function Delivered(round: Round): Chunk
    requires Completes(round)
  {
    if round.read.ReadCompleted? then round.read.data else round.wait.data
  }

  /** The bytes each round delivers, when every round completes its read. */
  function DeliveredData(rounds: seq<Round>): (ds: seq<Chunk>)
    requires forall k :: 0 <= k < |rounds| ==> Completes(rounds[k])
  {
    seq(|rounds|, k requires 0 <= k < |rounds| => Delivered(rounds[k]))
  }

  /** A non-empty sequence is its front followed by its last element. */
  lemma SplitLast<T>(s: seq<T>)
    requires |s| > 0
    ensures s[..|s| - 1] + [s[|s| - 1]] == s
  {
  }

  /**
    When every read completes within its turn, straight away or through the one-second wait, each turn
    receives exactly the bytes its read delivered, and the checker is that of the successive reads.
   */
  lemma {:induction false} CompletedReadsAreAllReceived(c: CheckerState, rounds: seq<Round>)
    requires forall k :: 0 <= k < |rounds| ==> Completes(rounds[k])
    ensures Run(Monitor(Idle, c), rounds) ==
            Ok(Session(Monitor(Idle, RunChunks(c, DeliveredData(rounds))), DeliveredData(rounds)))
    decreases |rounds|
  {
    var n := |rounds|;
    if n > 0 {
      var prefix := rounds[..n - 1];
      CompletedReadsAreAllReceived(c, prefix);
      var ds := DeliveredData(rounds);
      assert DeliveredData(prefix) == ds[..n - 1];
      var before := RunChunks(c, ds[..n - 1]);
      assert Run(Monitor(Idle, c), prefix) == Ok(Session(Monitor(Idle, before), ds[..n - 1]));
      var last := rounds[n - 1];
      assert ds[n - 1] == Delivered(last);
      RunTurn(Monitor(Idle, c), prefix, last);
      SplitLast(rounds);
      assert Run(Monitor(Idle, c), rounds) ==
             Ok(Session(Monitor(Idle, Consume(before, ds[n - 1])), ds[..n - 1] + [ds[n - 1]])) by {
        if last.read.ReadCompleted? {
          assert IssuesRead(Monitor(Idle, before));
        } else {
          assert Waits(Monitor(Idle, before), last.read);
        }
      }
      assert Consume(before, ds[n - 1]) == RunChunks(c, ds);
      SplitLast(ds);
    }
  }

  /**
    However the bytes arrive (synchronously, after waits, split into reads of
    any sizes), the checker ends up as if the concatenation of everything
    received had been checked in one go.
   */
  lemma {:induction false} RunChecksAllReceived(m: Monitor, rounds: seq<Round>)
    requires Run(m, rounds).Ok?
    ensures Run(m, rounds).value.monitor.checker == Consume(m.checker, Flatten(Run(m, rounds).value.received))
    decreases |rounds|
  {
    if |rounds| > 0 {
      var n := |rounds|;
      RunChecksAllReceived(m, rounds[..n - 1]);
      var s := Run(m, rounds[..n - 1]).value;
      var t := Iterate(s.monitor, rounds[n - 1]).value;
      if t.received.Some? {
        var chunks := s.received + [t.received.value];
        assert chunks[..|chunks| - 1] == s.received;
        ConsumeConcat(m.checker, Flatten(s.received), t.received.value);
      } else {
        assert s.received + [] == s.received;
      }
    }
  }

  /** From the start of a session, errors never exceed the bytes read, and the total counts every byte received. */
  lemma SessionInvariant(rounds: seq<Round>)
    requires Run(Start, rounds).Ok?
    ensures Valid(Run(Start, rounds).value.monitor.checker)
    ensures Run(Start, rounds).value.monitor.checker.totalRead == |Flatten(Run(Start, rounds).value.received)|
  {
    RunChecksAllReceived(Start, rounds);
  }
}
