# Installer progress state machine (Zish web shim)

`server.py` serves a small web page that starts an installer script and lets
the page poll its progress. The logic in it is a state machine over three
globals: a progress counter, a status message and a completion flag.

- Before any installation they hold `0`, `"Waiting to start..."`, `false`.
- A POST to `/start_installation` resets them to `0`,
  `"Starting installation..."`, `false` and starts `run_installation` in the
  background.
- `run_installation` reads the installer's merged output line by line. A
  line containing `ERROR` (tested on the raw line) sets the status to
  `"Error: "` plus the stripped line and leaves the loop. Any other line
  sets the status to the stripped line and adds one to the counter.
- After the loop the exit code decides the end state. Exit 0 sets the status
  to `"Installation completed successfully!"` and the counter to 100. Any
  other exit sets the status to `"Installation failed with return code N"`
  and keeps the counter. Either way `complete` is set last.

The model abstracts the child process as a pair `(lines, returncode)`.

- `text.dfy` (module `Text`): Python's `sub in s`, `str.strip()` with the
  whitespace set of `str.isspace()`, and `str(int)` with its inverse.
- `progress.dfy` (module `Progress`): the state record, the reset, the output
  loop as a fold with early exit (`Consume`), finalisation, and a whole run
  (`StartInstallation`). The lemmas say what the fold computes in terms of
  independent notions: the first error line, the number of clean lines, and
  the number of lines read.
- `runner.dfy` (module `Runner`): the same run as an imperative loop with
  `break`. It is proved equal to the functional model, with loop invariants
  that tie the counter to the clean lines read so far.
- `trace.dfy` (module `Trace`): the sequence of states of the three
  globals, one after each assignment to one of them, in program order.

Behaviour of `server.py` worth noting:

- The counter is never capped at 100: on a nonzero exit it keeps the number
  of clean lines (`ProgressNotCapped`).
- A run that reaches finalisation never shows an `Error: ...` status:
  finalisation always overwrites it (`ErrorStatusIsTransient`).
- Every POST to `/start_installation` resets the state and starts a new
  run, and nothing rejects a second start (`StartForgetsPrior`). A POST to
  any other path changes nothing.

## Model

| member | source | states |
|---|---|---|
| Text.Find | server.py:57 | The substring search behind `"ERROR" in line` returns -1 exactly when the marker does not occur. Otherwise it returns the first position where it occurs. |
| Text.Strip | server.py:58-61 | The stripped line is no longer than the raw line and neither starts nor ends with a whitespace character. |
| Text.StripIsStripOf | server.py:58-61 | `Strip` is `str.strip()`: the result is a contiguous piece of the line, only whitespace lies outside it, and it neither starts nor ends with whitespace. |
| Text.StripUnique | server.py:58-61 | That characterisation determines the stripped text uniquely. |
| Text.StripIdempotent | server.py:58-61 | Stripping an already stripped status changes nothing. |
| Text.IntToString | server.py:70 | The rendering of an exit code is non-empty and starts with `-` exactly when the code is negative. |
| Text.IntToStringRoundTrip | server.py:70 | The decimal rendering of the exit code, negative codes included, parses back to the same code. |
| Text.IntToStringInjective | server.py:70 | Two exit codes render the same exactly when they are equal. |
| Progress.InitialIsIdle | server.py:10-12 | Before any run the state is counter 0, status "Waiting to start...", not complete. No finished run returns to that state. |
| Progress.Reset | server.py:37-39 | The reset state is the initial state with the status "Starting installation..." in place of "Waiting to start...", whatever the prior state. |
| Progress.StartForgetsPrior | server.py:37-39 | The reset yields counter 0, "Starting installation...", not complete, whatever the prior state, so a whole run does not depend on the prior state. |
| Progress.IsErrorLine | server.py:57 | The test `"ERROR" in line` on the raw, unstripped line, which the fold uses. A line that passes is at least as long as the marker. `Text.Find` computes the same test by search and returns -1 exactly when it fails. |
| Progress.Feed | server.py:57-62 | One loop iteration leaves the loop exactly on a line containing the marker. It then keeps the counter and sets an "Error: ..." status. On any other line it adds one to the counter. It never changes `complete`. |
| Progress.Consume | server.py:56-62 | The output loop never touches `complete`. It adds between 0 and one per line to the counter. |
| Progress.Consumed | server.py:56-59 | The loop reads all lines when none reports an error. Otherwise it reads exactly up to and including the first error line. |
| Progress.ConsumeClean | server.py:56-62 | Over lines without the marker, the counter grows by the number of lines. The status becomes the stripped last line, or stays as it was when there are no lines. |
| Progress.ConsumeAppendClean | server.py:56-62 | Feeding a clean prefix and then the rest gives the same state as feeding everything. |
| Progress.ConsumeStopsAtFirstError | server.py:56-62 | At the first error line at position i, the counter has grown by i. The status is "Error: " plus that line stripped, `complete` is unchanged, and lines appended after it change nothing. |
| Progress.ConsumeIgnoresAfterError | server.py:57-59 | Once some line reports an error, appending more output does not change the loop's result. |
| Progress.ConsumeCountsCleanLines | server.py:56-62 | At loop exit the counter has grown by the number of clean lines among those read. That is all lines, or the lines before the first error line. |
| Progress.Finalise | server.py:65-72 | Finalisation always completes the run. Exit 0 gives counter 100 and the success message whatever came before. A nonzero exit keeps the counter and records the failure message for that code. |
| Progress.FailureMessage | server.py:70 | The failure status is the prefix "Installation failed with return code " followed by the code's decimal rendering, with a `-` right after the prefix exactly when the code is negative. `FailureMessageRoundTrip` reads the code back out of it. |
| Progress.StartInstallation | server.py:37-72 | A whole run (reset, loop, finalisation) ends complete. Its counter is 100 on exit 0, and otherwise the number of clean lines the loop read. |
| Progress.FailureMessageRoundTrip | server.py:69-70 | The failure status records the exit code in a form from which it can be read back. |
| Progress.SuccessIgnoresOutput | server.py:65-72 | Every run whose exit code is 0 ends in counter 100, the success message and complete, independent of the output and the prior state. |
| Progress.FailureOutcome | server.py:56-72 | A run with a nonzero exit ends complete. Its counter is the number of lines before the first error line, or all lines if none has the marker. Its status is the failure message, from which the exit code reads back. |
| Progress.ErrorStatusIsTransient | server.py:58-70 | No run that reaches finalisation ends with an "Error: ..." status, because finalisation overwrites it. |
| Progress.ErrorLineThenFailingExit | server.py:56-72 | Output "step1", "step2", "ERROR: bad" with exit code 1 ends at counter 2 and status "Installation failed with return code 1", complete. The error message does not survive. |
| Progress.ProgressNotCapped | server.py:62-70 | With 101 plain lines and a nonzero exit, the final counter is 101, above 100. |
| Runner.RunInstallation | server.py:46-72 | The imperative loop with `break` computes the functional model's end state. It ends complete with the success values on exit 0. On a nonzero exit the counter equals the clean lines read and the status is the failure message. Its invariants keep the counter equal to the number of clean lines consumed so far, with `complete` unchanged during the loop. |
| Trace.LineTrace | server.py:58-62 | One loop iteration passes through one state on an error line and two states otherwise. Its last state is the one `Feed` computes, and none of them changes `complete`. |
| Trace.LoopTrace | server.py:56-62 | The states of the output loop, one or two per line read: empty exactly when there are no lines, and at most two per line. `LoopTraceAgrees` proves its last state is the fold's result with `complete` untouched, and `LoopProgressMonotone` that the counter never decreases along it. |
| Trace.FinaliseTrace | server.py:66-72 | Finalisation passes through at least two states. Its last state is the one `Finalise` computes, and all before it keep the old `complete`. |
| Trace.RunTrace | server.py:37-72 | The states of a run start at the reset state, number at least three, and end with `complete` set. |
| Trace.LoopTraceAgrees | server.py:56-62 | The last state after an assignment in the loop is the fold's result. No state during the loop changes `complete`. |
| Trace.RunTraceEndsInFinalState | server.py:56-72 | The last state of a run is the functional model's end state. |
| Trace.LoopProgressMonotone | server.py:56-62 | During the loop the counter's successive values never decrease and never drop below its starting value. |
| Trace.CompleteOnlyAtEnd | server.py:65-72 | From a reset state, only the last state after an assignment has `complete` set, and it differs from the one before only in that flag. No such state pairs `complete` with a status or counter that is not final. This is about the states between assignments, not about what a poll returns (see "Left out"). |

## Left out

- The HTTP layer (`do_GET`, the static page, JSON encoding, the TCP server): I/O and library plumbing.
- `os.chmod`, launching `./zi.sh` and merging its standard error into standard output: OS calls. They are replaced by the `(lines, returncode)` input, and a launch failure is not modelled.
- Splitting the output stream into lines: the model takes the lines as given, each possibly ending in its newline.
- The `threading.Thread` and interleavings with pollers: `Trace` lists the states after each assignment, but no thread schedule is modelled. This includes a second POST during a running installation, and the moment inside the reset where an old `complete` flag is paired with a counter of 0.
- Torn polls: a poll of `/progress` reads `progress`, `status_message` and `installation_complete` one at a time with no lock (server.py:27-29). A poll can therefore combine values from different states, such as the old counter and status with `complete` true. The model does not rule such snapshots out.
- Runs that never reach finalisation: the model assumes the output decodes and the installer exits once the loop ends. In `server.py` two paths stop before finalisation, leaving `complete` false. First, after the `break` on an error line nothing reads the pipe any more, so an installer that writes more than a pipe buffer after that line blocks `process.wait()` forever, and the `Error: ...` status stays visible. Second, undecodable output raises a decoding error in the `for` loop and ends the thread.
- `time.sleep(0.1)`: pacing only, with no effect on the state.
- Text.ParseInt: it accepts only the canonical form `str` produces, not everything Python's `int()` accepts. It exists only to show the exit-code rendering is invertible.
