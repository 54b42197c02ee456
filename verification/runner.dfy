/** `run_installation` written as the loop it is: read the output line by
    line, leave the loop on the first error line, then finalise from the
    exit code. Its result agrees with the functional model in `Progress`. */
module Runner {
  import opened Text
  import opened Progress

  /** Runs the output loop and finalisation from the state `start` (the state
      the POST handler left). The installer's output is `lines`, its exit
      status `returncode`. */
  method RunInstallation(start: State, lines: seq<string>, returncode: int) returns (st: State)
    ensures st == Finalise(Consume(start, lines), returncode)
    ensures st.complete
    ensures returncode == 0 ==> st.progress == 100 && st.status == SuccessMessage
    ensures returncode != 0 ==> st.progress == start.progress + CountClean(lines[..Consumed(lines)])
    ensures returncode != 0 ==> st.status == FailureMessage(returncode)
  {
    st := start;
    var k := 0;
    while k < |lines|
      invariant 0 <= k <= |lines|
      invariant NoErrorLine(lines[..k])
      invariant st == Consume(start, lines[..k])
      invariant st.progress == start.progress + CountClean(lines[..k])
      invariant st.complete == start.complete
    {
      var line := lines[k];
      var at := Find(line, ErrorMarker);
      if at >= 0 {
        st := st.(status := ErrorPrefix + Strip(line));
        ErrorLineEndsLoop(start, lines, k);
        break;
      }
      st := st.(status := Strip(line));
      st := st.(progress := st.progress + 1);
      CleanLineExtendsLoop(start, lines, k);
      k := k + 1;
    }
    if k == |lines| {
      assert lines[..k] == lines;
    }
    ConsumeCountsCleanLines(start, lines);
    if returncode == 0 {
      st := st.(status := SuccessMessage);
      st := st.(progress := 100);
    } else {
      st := st.(status := FailureMessage(returncode));
    }
    st := st.(complete := true);
  }

  /** One more clean line: the loop state and the clean count both advance. */
  lemma CleanLineExtendsLoop(start: State, lines: seq<string>, k: int)
    requires 0 <= k < |lines|
    requires NoErrorLine(lines[..k]) && !IsErrorLine(lines[k])
    ensures NoErrorLine(lines[..k + 1])
    ensures Consume(start, lines[..k + 1])
            == Consume(start, lines[..k]).(status := Strip(lines[k]), progress := Consume(start, lines[..k]).progress + 1)
    ensures CountClean(lines[..k + 1]) == CountClean(lines[..k]) + 1
  {
    var pre := lines[..k];
    assert lines[..k + 1] == pre + [lines[k]];
    assert lines[..k + 1][..k] == pre;
    ConsumeAppendClean(start, pre, [lines[k]]);
    ConsumeCleanHead(Consume(start, pre), [lines[k]]);
  }

  /** An error line after a clean prefix: the loop's final state is the
      prefix's state with the error status. */
  lemma ErrorLineEndsLoop(start: State, lines: seq<string>, k: int)
    requires 0 <= k < |lines|
    requires NoErrorLine(lines[..k]) && IsErrorLine(lines[k])
    ensures Consume(start, lines) == Consume(start, lines[..k]).(status := ErrorPrefix + Strip(lines[k]))
    ensures Consume(start, lines)
            == Consume(start, lines[..k + 1])
  {
    assert IsFirstError(lines, k);
    ConsumeStopsAtFirstError(start, lines, k, []);
    ConsumeClean(start, lines[..k]);
    assert IsFirstError(lines[..k + 1], k) by {
      assert lines[..k + 1][..k] == lines[..k];
    }
    ConsumeStopsAtFirstError(start, lines[..k + 1], k, []);
  }
}
