/** The installation progress state machine of the installer's web shim.

    The shared state is three globals: a progress counter, a status message
    and a completion flag. Starting an installation resets them; the
    installer then runs in the background and its output, a finite sequence
    of raw lines, is folded into the state until the first line that reports
    an error; finally the installer's exit code decides the last values and
    the run is marked complete.

    The child process is abstracted as the pair (lines, returncode). */
module Progress {
  import opened Text

  datatype State = State(progress: int, status: string, complete: bool)

  const WaitingMessage := "Waiting to start..."
  const StartingMessage := "Starting installation..."
  const SuccessMessage := "Installation completed successfully!"
  const FailurePrefix := "Installation failed with return code "
  const ErrorPrefix := "Error: "
  /** The marker an installer line carries to report a fatal problem. */
  const ErrorMarker := "ERROR"

  /** The globals as the module defines them, before any installation. */
  const Initial := State(0, WaitingMessage, false)

  /** A raw output line reports an error. The test is on the line as read,
      before any stripping, and is case-sensitive. */
  predicate IsErrorLine(line: string)
    ensures IsErrorLine(line) ==> |line| >= |ErrorMarker|
  {
    Contains(line, ErrorMarker)
  }

  /** The state left by a POST to `/start_installation`, whatever came before. */
  function Reset(prior: State): (r: State)
    ensures r == Initial.(status := StartingMessage)
  {
    prior.(progress := 0, status := StartingMessage, complete := false)
  }

  // ---------------------------------------------------------------------
  // The output loop
  // ---------------------------------------------------------------------

  /** Outcome of one iteration of the output loop: carry on with the next
      line, or leave the loop (the `break` on an error line). */
  datatype Step = Continue(next: State) | Break(last: State)

  /** One iteration of the output loop over a single raw line. */
  function Feed(s: State, line: string): (r: Step)
    ensures r.Break? <==> IsErrorLine(line)
    ensures r.Break? ==> r.last.progress == s.progress && IsErrorStatus(r.last.status)
    ensures r.Continue? ==> r.next.progress == s.progress + 1
    ensures r.Break? ==> r.last.complete == s.complete
    ensures r.Continue? ==> r.next.complete == s.complete
  {
    if IsErrorLine(line) then Break(s.(status := ErrorPrefix + Strip(line)))
    else Continue(s.(status := Strip(line), progress := s.progress + 1))
  }

  /** The whole output loop: feeds lines in order, stopping after the first
      error line, and returns the state at loop exit. */
  function Consume(s: State, lines: seq<string>): (r: State)
    ensures r.complete == s.complete
    ensures s.progress <= r.progress <= s.progress + |lines|
    decreases |lines|
  {
    if |lines| == 0 then s
    else match Feed(s, lines[0])
      case Break(t) => t
      case Continue(t) => Consume(t, lines[1..])
  }

  // ---------------------------------------------------------------------
  // Reference notions over the output
  // ---------------------------------------------------------------------

  /** No line of `lines` reports an error. */
  predicate NoErrorLine(lines: seq<string>)
  {
    forall k :: 0 <= k < |lines| ==> !IsErrorLine(lines[k])
  }

  /** `i` is the position of the first error line. */
  predicate IsFirstError(lines: seq<string>, i: int)
  {
    0 <= i < |lines| && IsErrorLine(lines[i]) && NoErrorLine(lines[..i])
  }

  /** Number of lines that do not report an error. */
  function CountClean(lines: seq<string>): (n: nat)
    ensures n <= |lines|
  {
    if |lines| == 0 then 0
    else CountClean(lines[..|lines| - 1]) + (if IsErrorLine(lines[|lines| - 1]) then 0 else 1)
  }

  /** How many lines the loop reads: up to and including the first error
      line, or all of them. */
  function Consumed(lines: seq<string>): (n: nat)
    ensures n <= |lines|
    ensures NoErrorLine(lines) ==> n == |lines|
    ensures forall i :: IsFirstError(lines, i) ==> n == i + 1
  {
    if |lines| == 0 then 0
    else if IsErrorLine(lines[0]) then 1
    else
      var n := 1 + Consumed(lines[1..]);
      assert forall i :: IsFirstError(lines, i) ==> IsFirstError(lines[1..], i - 1) by {
        forall i | IsFirstError(lines, i) ensures IsFirstError(lines[1..], i - 1) {
          assert i != 0;
          assert lines[1..][..i - 1] == lines[..i][1..];
        }
      }
      assert NoErrorLine(lines) ==> NoErrorLine(lines[1..]);
      n
  }

  /** Either some line is the first error line, or no line is an error line. */
  lemma {:induction false} FirstErrorOrClean(lines: seq<string>)
    ensures NoErrorLine(lines) || exists i :: IsFirstError(lines, i)
  {
    if |lines| > 0 && !NoErrorLine(lines) {
      if IsErrorLine(lines[0]) {
        assert IsFirstError(lines, 0);
      } else {
        assert !NoErrorLine(lines[1..]) by {
          var k :| 0 <= k < |lines| && IsErrorLine(lines[k]);
          assert lines[1..][k - 1] == lines[k];
        }
        FirstErrorOrClean(lines[1..]);
        var i :| IsFirstError(lines[1..], i);
        assert lines[..i + 1] == [lines[0]] + lines[1..][..i];
        assert IsFirstError(lines, i + 1);
      }
    }
  }

  // ---------------------------------------------------------------------
  // Properties of the output loop
  // ---------------------------------------------------------------------

  /** Unfolds the loop once over a clean first line. */
  lemma ConsumeCleanHead(s: State, lines: seq<string>)
    requires |lines| > 0 && !IsErrorLine(lines[0])
    ensures Consume(s, lines) == Consume(s.(status := Strip(lines[0]), progress := s.progress + 1), lines[1..])
  {
  }

  /** Lines without an error marker are consumed one by one: each adds one to
      the counter and the last of them becomes the status. */
  lemma {:induction false} ConsumeClean(s: State, lines: seq<string>)
    requires NoErrorLine(lines)
    ensures Consume(s, lines).progress == s.progress + |lines|
    ensures Consume(s, lines).status == if |lines| == 0 then s.status else Strip(lines[|lines| - 1])
    ensures Consume(s, lines).complete == s.complete
    decreases |lines|
  {
    if |lines| > 0 {
      assert NoErrorLine(lines[1..]) by {
        forall k | 0 <= k < |lines| - 1 ensures !IsErrorLine(lines[1..][k]) {
          assert lines[1..][k] == lines[k + 1];
        }
      }
      ConsumeCleanHead(s, lines);
      ConsumeClean(s.(status := Strip(lines[0]), progress := s.progress + 1), lines[1..]);
      if |lines| > 1 {
        assert lines[1..][|lines| - 2] == lines[|lines| - 1];
      }
    }
  }

  /** Feeding a clean prefix and then the rest is feeding everything. */
  lemma {:induction false} ConsumeAppendClean(s: State, a: seq<string>, b: seq<string>)
    requires NoErrorLine(a)
    ensures Consume(s, a + b) == Consume(Consume(s, a), b)
    decreases |a|
  {
    if |a| > 0 {
      assert (a + b)[0] == a[0];
      assert (a + b)[1..] == a[1..] + b;
      assert NoErrorLine(a[1..]) by {
        forall k | 0 <= k < |a| - 1 ensures !IsErrorLine(a[1..][k]) {
          assert a[1..][k] == a[k + 1];
        }
      }
      ConsumeCleanHead(s, a);
      ConsumeCleanHead(s, a + b);
      ConsumeAppendClean(s.(status := Strip(a[0]), progress := s.progress + 1), a[1..], b);
    } else {
      assert a + b == b;
    }
  }

  /** The loop stops at the first error line: the counter has counted the
      clean lines before it, the status is the error message for that line,
      and nothing after it matters. */
  lemma ConsumeStopsAtFirstError(s: State, lines: seq<string>, i: int, more: seq<string>)
    requires IsFirstError(lines, i)
    ensures Consume(s, lines).progress == s.progress + i
    ensures Consume(s, lines).status == ErrorPrefix + Strip(lines[i])
    ensures Consume(s, lines).complete == s.complete
    ensures Consume(s, lines + more) == Consume(s, lines)
  {
    var pre := lines[..i];
    var rest := lines[i..];
    assert lines == pre + rest;
    assert lines + more == pre + (rest + more);
    ConsumeAppendClean(s, pre, rest);
    ConsumeAppendClean(s, pre, rest + more);
    ConsumeClean(s, pre);
    assert rest[0] == lines[i] && (rest + more)[0] == lines[i];
  }

  /** Lines after the first error line never influence the loop's result. */
  lemma ConsumeIgnoresAfterError(s: State, lines: seq<string>, more: seq<string>)
    requires !NoErrorLine(lines)
    ensures Consume(s, lines + more) == Consume(s, lines)
  {
    FirstErrorOrClean(lines);
    var i :| IsFirstError(lines, i);
    ConsumeStopsAtFirstError(s, lines, i, more);
  }

  /** The counter at loop exit is the number of clean lines among those the
      loop read, which is all lines before the first error line. */
  lemma ConsumeCountsCleanLines(s: State, lines: seq<string>)
    ensures Consume(s, lines).progress == s.progress + CountClean(lines[..Consumed(lines)])
    ensures CountClean(lines[..Consumed(lines)]) == if NoErrorLine(lines) then |lines| else Consumed(lines) - 1
  {
    FirstErrorOrClean(lines);
    if NoErrorLine(lines) {
      ConsumeClean(s, lines);
      assert lines[..|lines|] == lines;
      CountCleanOfClean(lines);
    } else {
      var i :| IsFirstError(lines, i);
      ConsumeStopsAtFirstError(s, lines, i, []);
      assert lines + [] == lines;
      assert lines[..i + 1][..i] == lines[..i];
      CountCleanOfClean(lines[..i]);
    }
  }

  lemma {:induction false} CountCleanOfClean(lines: seq<string>)
    requires NoErrorLine(lines)
    ensures CountClean(lines) == |lines|
    decreases |lines|
  {
    if |lines| > 0 {
      var init := lines[..|lines| - 1];
      assert NoErrorLine(init) by {
        forall k | 0 <= k < |init| ensures !IsErrorLine(init[k]) {
          assert init[k] == lines[k];
        }
      }
      CountCleanOfClean(init);
    }
  }

  // ---------------------------------------------------------------------
  // Finalisation and a whole run
  // ---------------------------------------------------------------------

  /** The status recorded for a nonzero exit code. */
  function FailureMessage(returncode: int): (r: string)
    ensures |r| > |FailurePrefix| && r[..|FailurePrefix|] == FailurePrefix
    ensures returncode < 0 <==> r[|FailurePrefix|] == '-'
  {
    FailurePrefix + IntToString(returncode)
  }

  /** After the loop: wait for the exit code, then overwrite the status,
      force the counter to 100 on success, and mark the run complete. */
  function Finalise(s: State, returncode: int): (r: State)
    ensures r.complete
    ensures returncode == 0 ==> r == State(100, SuccessMessage, true)
    ensures returncode != 0 ==> r == State(s.progress, FailureMessage(returncode), true)
  {
    var updated := if returncode == 0 then s.(status := SuccessMessage, progress := 100)
                   else s.(status := FailureMessage(returncode));
    updated.(complete := true)
  }

  /** One installation: the POST's reset, the output loop, finalisation. */
  function StartInstallation(prior: State, lines: seq<string>, returncode: int): (r: State)
    ensures r.complete
    ensures r.progress == if returncode == 0 then 100 else CountClean(lines[..Consumed(lines)])
  {
    ConsumeCountsCleanLines(Reset(prior), lines);
    Finalise(Consume(Reset(prior), lines), returncode)
  }

  /** A status that is the error message of some line. */
  predicate IsErrorStatus(status: string)
  {
    |status| >= |ErrorPrefix| && status[..|ErrorPrefix|] == ErrorPrefix
  }

  /** Reads the exit code back out of a failure status. */
  function ParseFailureMessage(status: string): (r: Option<int>)
  {
    if |status| >= |FailurePrefix| && status[..|FailurePrefix|] == FailurePrefix
    then ParseInt(status[|FailurePrefix|..])
    else None
  }

  /** The failure status records the exit code faithfully. */
  lemma FailureMessageRoundTrip(returncode: int)
    ensures ParseFailureMessage(FailureMessage(returncode)) == Some(returncode)
  {
    var m := FailureMessage(returncode);
    assert m[..|FailurePrefix|] == FailurePrefix;
    assert m[|FailurePrefix|..] == IntToString(returncode);
    IntToStringRoundTrip(returncode);
  }

  /** A successful exit ends every run in the same state, whatever the
      installer printed and whatever the state was before. */
  lemma SuccessIgnoresOutput(prior: State, lines: seq<string>)
    ensures StartInstallation(prior, lines, 0) == State(100, SuccessMessage, true)
  {
  }

  /** A failing exit keeps the counter the loop reached (which is not capped
      at 100) and reports the exit code, overwriting any error message. */
  lemma FailureOutcome(prior: State, lines: seq<string>, returncode: int)
    requires returncode != 0
    ensures StartInstallation(prior, lines, returncode).progress
            == (if NoErrorLine(lines) then |lines| else Consumed(lines) - 1)
    ensures StartInstallation(prior, lines, returncode).status == FailureMessage(returncode)
    ensures ParseFailureMessage(StartInstallation(prior, lines, returncode).status) == Some(returncode)
    ensures StartInstallation(prior, lines, returncode).complete
  {
    ConsumeCountsCleanLines(Reset(prior), lines);
    FailureMessageRoundTrip(returncode);
  }

  /** A run that reaches finalisation never ends with an "Error: ..." status:
      finalisation always overwrites it. */
  lemma ErrorStatusIsTransient(prior: State, lines: seq<string>, returncode: int)
    ensures !IsErrorStatus(StartInstallation(prior, lines, returncode).status)
  {
    var st := StartInstallation(prior, lines, returncode).status;
    assert st[0] == 'I' && ErrorPrefix[0] == 'E';
  }

  /** The counter is not capped: 101 plain lines and a failing exit end at 101. */
  lemma ProgressNotCapped(returncode: int)
    requires returncode != 0
    ensures StartInstallation(Initial, seq(101, k => "step\n"), returncode).progress == 101
  {
    var lines := seq(101, k => "step\n");
    assert !IsErrorLine("step\n") by {
      forall p | 0 <= p <= |"step\n"| - |ErrorMarker| ensures !OccursAt("step\n", ErrorMarker, p) {
        assert "step\n"[p] != 'E';
      }
    }
    ConsumeClean(Reset(Initial), lines);
  }

  /** Two plain lines, an error line, exit code 1: the counter stops at 2 and
      the error message is replaced by the failure message. */
  lemma ErrorLineThenFailingExit(prior: State)
    ensures StartInstallation(prior, ["step1\n", "step2\n", "ERROR: bad\n"], 1)
            == State(2, "Installation failed with return code 1", true)
  {
    var lines := ["step1\n", "step2\n", "ERROR: bad\n"];
    assert OccursAt(lines[2], ErrorMarker, 0);
    forall k | 0 <= k < 2 ensures !IsErrorLine(lines[k]) {
      forall p | 0 <= p <= |lines[k]| - |ErrorMarker| ensures !OccursAt(lines[k], ErrorMarker, p) {
        assert lines[k][p] != 'E';
      }
    }
    assert lines[..2] == ["step1\n", "step2\n"];
    assert IsFirstError(lines, 2);
    ConsumeStopsAtFirstError(Reset(prior), lines, 2, []);
    assert lines + [] == lines;
  }

  /** Starting an installation forgets everything about the previous state,
      including a completed or failed earlier run. */
  lemma StartForgetsPrior(a: State, b: State, lines: seq<string>, returncode: int)
    ensures Reset(a) == Reset(b) == State(0, StartingMessage, false)
    ensures StartInstallation(a, lines, returncode) == StartInstallation(b, lines, returncode)
  {
  }

  /** Before any installation the state is idle, and no finished run ever
      looks idle again. */
  lemma InitialIsIdle(prior: State, lines: seq<string>, returncode: int)
    ensures Initial.progress == 0 && Initial.status == WaitingMessage && !Initial.complete
    ensures StartInstallation(prior, lines, returncode) != Initial
  {
  }
}
