# tube_serial_test (Windows receive tool) in Dafny

The tool receives the byte stream that a legacy Acorn machine sends over its
Tube serial link to a PC's COM port. It checks that the stream follows the
sender's counting pattern 0, 1, 2, ..., 255, 0, 1, .... This project models
the logic of `tube_serial_test_windows/main.cpp` as pure functions and proves
properties about them:

- `Basics` holds the 8-bit `Byte` and its wrapping increment `Succ`. It also
  holds the `Option` and `Result` wrappers.
- `Integrity` is the sequential-counter checker.
  - `Step` handles one byte. `Feed` is the per-byte loop over one buffer.
    `CheckBuffer` is the same loop written with an index.
  - `Consume` adds the buffer length to the running total. `ProcessChunk`
    also emits the mismatch lines and the progress report every 65536 bytes.
  - The lemmas compare the checker with an independent description of the
    stream. They cover the positions where a byte does not follow the byte
    before it, gap-free streams, splitting the stream into reads, and how many
    reports are printed.
- `Receive` models one turn of the `for (;;)` loop in `Recv` as an Idle/Pending
  machine. What `ReadFile` and the one-second `WaitForSingleObject` report is
  an input to each turn. `Run` folds turns over a finite list of such rounds
  and stops at the first fatal error.
- `ErrorText` models how `GetWindowsErrorString` strips trailing white space.
- `Dispatch` models the subcommand routing of `main`, including the
  case-insensitive `_stricmp` match. It also models the `\\.\` device-path
  prefix.

Other revisions of the tool check for repeated values and offer more
subcommands. This version of `main.cpp` does not, and the model follows it:

- The code implements only the sequential-counter policy. It has no
  repeated-value policy and no per-byte-value transfer or error tables.
- The code has no quit key and no keypress summary.
- The code has only the `list` and `recv` subcommands. There is no echo,
  drain or send.
- A report is printed when `total / 65536` changes. It does not depend on an
  error threshold.

## Model

| member | source | states |
|---|---|---|
| Basics.Succ | tube_serial_test_windows/main.cpp:160-164 | Incrementing a `BYTE` wraps from 255 to 0, so the result is `(b + 1) mod 256`. |
| Integrity.Step | tube_serial_test_windows/main.cpp:160-168 | Both branches leave the expectation at the successor of the received byte. A match keeps the error count. A mismatch adds exactly one error. The byte total is untouched. |
| Integrity.Feed | tube_serial_test_windows/main.cpp:159-169 | After a non-empty buffer the expectation is the successor of its last byte. Errors never decrease and grow by at most the buffer length. An empty buffer changes nothing. |
| Integrity.MismatchLog | tube_serial_test_windows/main.cpp:162-166 | One mismatch line is printed per counted error, and each line shows an expected value that differs from the byte received. `MismatchLinesNameBreaks` says which values each line carries. |
| Integrity.BreaksInOrderIncreasing | tube_serial_test_windows/main.cpp:159-169 | The break positions are listed in strictly increasing order, the order in which the loop meets them. |
| Integrity.BreaksInOrderIsBreaks | tube_serial_test_windows/main.cpp:159-169 | A position is listed iff its byte is not the successor of the byte before it. Over the whole buffer the list holds exactly the set `Breaks` that `FeedCountsBreaks` counts. |
| Integrity.MismatchLinesNameBreaks | tube_serial_test_windows/main.cpp:162-166 | There are as many mismatch lines as breaks, and the k-th line is printed for the k-th break. It shows the expectation in force there (the successor of the byte before it) and the byte received. |
| Integrity.MismatchLinesWillExpect | tube_serial_test_windows/main.cpp:164-165 | The "will expect" value printed on each mismatch line is the checker's expectation right after the offending byte. |
| Integrity.LastByteLine | tube_serial_test_windows/main.cpp:159-166 | The last byte of a buffer adds a mismatch line exactly when it is a break. The line names that break. |
| Integrity.LastByteBreak | tube_serial_test_windows/main.cpp:159-169 | The last byte of a buffer adds a break position exactly when it does not follow the byte before it. |
| Integrity.Consume | tube_serial_test_windows/main.cpp:159-172 | The total grows by exactly the buffer length. The expectation becomes the successor of the last byte, or stays put for an empty buffer. The error count grows by exactly the number of breaks in the buffer. |
| Integrity.ProcessChunk | tube_serial_test_windows/main.cpp:158-177 | For one completed read: the total grows by the read's length and the expectation follows the last byte. Errors stay within bounds and match the mismatch lines. A report appears iff `total / 65536` changed, and it carries the new total and error count. An empty read reports nothing. `errors <= total` is preserved. |
| Integrity.CheckBuffer | tube_serial_test_windows/main.cpp:159-169 | The indexed loop computes the same state and mismatch lines as the per-byte fold. |
| Integrity.FeedCountsBreaks | tube_serial_test_windows/main.cpp:159-169 | The final expectation is the successor of the last byte. Errors grow by exactly the number of positions whose byte is not the successor of the byte before it. |
| Integrity.ExpectationBeforeByte | tube_serial_test_windows/main.cpp:159-169 | When byte `i` arrives, the expectation is the successor of byte `i - 1`, or the starting expectation when `i == 0`. |
| Integrity.GapFreeStreamHasNoErrors | tube_serial_test_windows/main.cpp:159-161 | A stream counting up from the current expectation adds no errors. It leaves the expectation `n` further on, modulo 256. |
| Integrity.FreshCheckerAcceptsCounter | tube_serial_test_windows/main.cpp:124-169 | Starting at 0, the stream `0, 1, ..., (N-1) mod 256` gives zero errors and an expectation of `N mod 256`. |
| Integrity.NoErrorsIffGapFree | tube_serial_test_windows/main.cpp:159-168 | A buffer adds no error iff it is exactly the counting pattern from the current expectation. |
| Integrity.NoErrorsMeansGapFree | tube_serial_test_windows/main.cpp:159-168 | A buffer that adds no error is the counting pattern from the current expectation. This is the harder direction of `NoErrorsIffGapFree`. |
| Integrity.FeedIgnoresTotal | tube_serial_test_windows/main.cpp:159-172 | The per-byte loop does not depend on the running total. |
| Integrity.FeedConcat | tube_serial_test_windows/main.cpp:159-169 | Checking `a + b` is the same as checking `a` and then `b`. |
| Integrity.ConsumeConcat | tube_serial_test_windows/main.cpp:159-172 | Consuming `a + b` is the same as consuming `a` and then `b`, running total included. |
| Integrity.RunChunks | tube_serial_test_windows/main.cpp:121-177 | The state after successive reads: the total counts every byte delivered, errors grow by at most that many, and `errors <= total` is kept. `ChunkingIndependence` equates it with consuming the concatenation once. |
| Integrity.ChunkingIndependence | tube_serial_test_windows/main.cpp:121-177 | Any split of a stream into reads ends in the same expectation, error count and total as consuming the whole stream at once. |
| Integrity.ReportDueIffMultiplePassed | tube_serial_test_windows/main.cpp:171-174 | For a read of at most 1000 bytes, `total / 65536` changes iff the total passes a multiple of 65536. The quotient then grows by at most one. |
| Integrity.OneReportPerMultiple | tube_serial_test_windows/main.cpp:171-176 | Over any sequence of reads, the number of progress lines equals the number of multiples of 65536 the total passed. The total equals the bytes received. |
| Receive.Processed | tube_serial_test_windows/main.cpp:158-177 | A completed read returns the monitor to Idle with the read's bytes consumed. It prints one line per mismatch, in order, and then a progress line exactly when `total / 65536` changed. |
| Receive.Iterate | tube_serial_test_windows/main.cpp:128-177 | A turn is fatal iff the read it issued or the wait it made failed, and the error names that call. A read that completes, at once or after the wait, is always processed with exactly its bytes. The monitor stays Pending only with the checker untouched. A timeout leaves the read outstanding and issues no new read. |
| Receive.Await | tube_serial_test_windows/main.cpp:144-156 | The wait step: a failed wait is fatal, a signalled read is consumed and returns to Idle, and a timeout stays Pending with the checker untouched. `Iterate` states the whole turn. |
| Receive.PendingIgnoresRead | tube_serial_test_windows/main.cpp:129-156 | With a read outstanding, a turn's outcome does not depend on what `ReadFile` would have reported. |
| Receive.SyncReadSkipsWait | tube_serial_test_windows/main.cpp:129-147 | A read that completes at once is processed (`Ok(Processed(c, data))`) without a wait, and the wait's answer does not matter. |
| Receive.Run | tube_serial_test_windows/main.cpp:128-178 | Finitely many turns of the `for (;;)` loop: at most one chunk is received per turn. `RunFatalIsFinal`, `RunStopsAtFatalTurn` and `RunFailsAtFatalTurn` state that it stops exactly at the first fatal turn. `RunTurn` states, for every kind of turn including a read completed through the overlapped wait, which bytes it receives. `CompletedReadsAreAllReceived` and `RunChecksAllReceived` state what it receives over many turns and what the checker ends with. |
| Receive.RunFatalIsFinal | tube_serial_test_windows/main.cpp:139-154 | `Fatal` ends the process: once a run has failed, further rounds leave its outcome unchanged. |
| Receive.RunStopsAtFatalTurn | tube_serial_test_windows/main.cpp:128-157 | A fatal `ReadFile` or wait answer, reached after fatal-free turns, ends the run with that turn's error whatever the later rounds hold. |
| Receive.RunFailsAtFatalTurn | tube_serial_test_windows/main.cpp:128-157 | Conversely, a failed run failed at some turn that was itself fatal and was reached by fatal-free turns, and its error is that turn's error. |
| Receive.RunTurn | tube_serial_test_windows/main.cpp:128-177 | One more turn after a fatal-free run, stated from that turn's answers. A read that completes straight away, or is queued and then signalled by the wait (`num_read = overlapped.InternalHigh`), is checked and its bytes are appended to what was received. A timed-out wait keeps the read outstanding, leaves the checker alone and records nothing. A failed `ReadFile` or wait ends the run with that error. |
| Receive.CompletedReadsAreAllReceived | tube_serial_test_windows/main.cpp:129-177 | When every read completes within its turn, straight away or through the wait, the run stays fatal-free, ends Idle, and receives exactly the bytes each read delivered, in order. The checker is that of the successive reads (`RunChunks`). |
| Receive.RunChecksAllReceived | tube_serial_test_windows/main.cpp:117-178 | After any fatal-free sequence of turns, the checker equals consuming the concatenation of every chunk received, in one go. |
| Receive.SessionInvariant | tube_serial_test_windows/main.cpp:120-177 | From the session start, errors never exceed the byte total, and the total equals the number of bytes received. |
| ErrorText.TrimTrailingSpace | tube_serial_test_windows/main.cpp:38-44 | The result is a prefix of the message and does not end in white space. Only white space was removed. |
| ErrorText.TrimIsUnique | tube_serial_test_windows/main.cpp:38-42 | Only one prefix has those three properties, so stripping is fully determined by them. |
| ErrorText.TrimIdempotent | tube_serial_test_windows/main.cpp:38-42 | Stripping twice gives the same result as stripping once. |
| ErrorText.TrimKeepsCleanText | tube_serial_test_windows/main.cpp:38-42 | A message that does not end in white space is left unchanged. |
| ErrorText.StripTrailingSpace | tube_serial_test_windows/main.cpp:38-44 | The loop that walks the end index back yields the stripped message. |
| Dispatch.SameIgnoringCase | tube_serial_test_windows/main.cpp:193-199 | `_stricmp(a, b) == 0`: equal strings match, and matching strings have equal length. `SameIgnoringCaseIffLowerEqual` characterises it fully. |
| Dispatch.SameIgnoringCaseIffLowerEqual | tube_serial_test_windows/main.cpp:193-199 | The character-by-character case-insensitive comparison holds iff the two lower-cased strings are equal. |
| Dispatch.Route | tube_serial_test_windows/main.cpp:186-210 | The routing of `main`: fewer than 2 arguments gives Syntax, List needs exactly 2, Recv takes its port from argv[2], and an unrecognised subcommand is reported as given. `RouteOutcomes` characterises every outcome in both directions. |
| Dispatch.RouteOutcomes | tube_serial_test_windows/main.cpp:186-210 | Fewer than 2 arguments gives Syntax (exit 0). `list` in any case runs List with exactly 2 arguments and gives Syntax otherwise. `recv` in any case runs Recv(argv[2]) with 3 or more arguments and gives Syntax otherwise. Anything else is unrecognised (exit 1). Each case holds in both directions. The exit statuses are those `ExitStatus` gives (main.cpp:19, 58). |
| Dispatch.CaseDoesNotMatter | tube_serial_test_windows/main.cpp:193-199 | Replacing the subcommand with a spelling that differs only in case does not change the recognised command. |
| Dispatch.PortPath | tube_serial_test_windows/main.cpp:88 | The device path is `\\.\` followed by the port name, and the name can be recovered from it. |
| Dispatch.PortPathInjective | tube_serial_test_windows/main.cpp:88 | Distinct port names give distinct device paths. |

## Left out

- `List` and `GetCommPorts`: the port count and names come from an operating-system function looked up at run time. The only dispatch outcome modelled is that `list` is routed there.
- Opening and configuring the port is not modelled: `CreateFileA`, `GetCommState` and `SetCommState` with 8-bit bytes, and `PurgeComm` (main.cpp:88-108). These are foreign calls with no visible semantics. Only the device-path prefix is modelled.
- The `FormatMessageA` failure path of `GetWindowsErrorString` is not modelled. It formats a fallback message.
- ErrorText.TrimTrailingSpace: works on the message as a string without NUL characters. The copy into `std::string`, which would stop at an embedded NUL, is not modelled, because system messages contain none. `isspace` is taken in the "C" locale.
- `Fatal` and `exit` are modelled as values: `FatalError` in `Receive` and `Unrecognised` or the exit status in `Dispatch`. No process ends.
- The printed text is modelled only as event values: `Mismatch`, `Progress` and `WaitingForInput`. The hex formatting, the usage text and the "Waiting for input: N secs" line are left out. That line uses tick counts and floating-point division.
- The `for (;;)` loop never ends, so the model covers finite sequences of turns (`Run`). The `CloseHandle` after the loop is unreachable and is not modelled.
- The counters are unbounded. `total_num_read` is an `int64_t`, so it would overflow only after 2^63 bytes. `num_errors` is a `size_t`, so it would wrap after 2^64 errors in a 64-bit build and after 2^32 errors in a 32-bit build. Neither wrap is modelled. `next_expected_value` is a `BYTE`, and its wrap-around is modelled.
- `_stricmp` is modelled only by whether it returns zero. The lower-casing applies to ASCII letters.
