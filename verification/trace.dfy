/** The states of the three globals during one run, one after each
    assignment to one of them, in program order. A poller that read all three
    globals at once would see one of these states; `/progress` reads them one
    at a time without a lock, so a real poll may mix two of them. */
module Trace {
  import opened Text
  import opened Progress

  function Last(t: seq<State>): (r: State)
    requires |t| > 0
  {
    t[|t| - 1]
  }

  /** Snapshots produced by one iteration of the output loop: the status
      assignment, then (for a clean line) the increment. */
  function LineTrace(s: State, line: string): (t: seq<State>)
    ensures 1 <= |t| <= 2
    ensures |t| == 1 <==> IsErrorLine(line)
    ensures forall k :: 0 <= k < |t| ==> t[k].complete == s.complete
    ensures Last(t) == match Feed(s, line) case Break(x) => x case Continue(x) => x
  {
    if IsErrorLine(line) then [s.(status := ErrorPrefix + Strip(line))]
    else
      var withStatus := s.(status := Strip(line));
      [withStatus, withStatus.(progress := withStatus.progress + 1)]
  }

  /** Snapshots produced by the whole output loop. */
  function LoopTrace(s: State, lines: seq<string>): (t: seq<State>)
    ensures |t| == 0 <==> |lines| == 0
    ensures |t| <= 2 * |lines|
    decreases |lines|
  {
    if |lines| == 0 then []
    else
      var step := LineTrace(s, lines[0]);
      if IsErrorLine(lines[0]) then step else step + LoopTrace(Last(step), lines[1..])
  }

  /** Snapshots produced by finalisation: status, then (on success) the
      counter, then the completion flag. */
  function FinaliseTrace(s: State, returncode: int): (t: seq<State>)
    ensures |t| >= 2
    ensures Last(t) == Finalise(s, returncode)
    ensures forall k :: 0 <= k < |t| - 1 ==> t[k].complete == s.complete
  {
    if returncode == 0 then
      var withStatus := s.(status := SuccessMessage);
      var withCounter := withStatus.(progress := 100);
      [withStatus, withCounter, withCounter.(complete := true)]
    else
      var withStatus := s.(status := FailureMessage(returncode));
      [withStatus, withStatus.(complete := true)]
  }

  /** The states after each assignment of a run, from the reset state the
      background run starts in to its end. */
  function RunTrace(start: State, lines: seq<string>, returncode: int): (t: seq<State>)
    ensures |t| >= 3
    ensures t[0] == start
    ensures Last(t).complete
  {
    var loop := LoopTrace(start, lines);
    var atExit := if |loop| == 0 then start else Last(loop);
    [start] + loop + FinaliseTrace(atExit, returncode)
  }

  /** The loop's snapshots end in the state the functional fold computes, and
      none of them changes the completion flag. */
  lemma {:induction false} LoopTraceAgrees(s: State, lines: seq<string>)
    ensures |lines| > 0 ==> Last(LoopTrace(s, lines)) == Consume(s, lines)
    ensures forall k :: 0 <= k < |LoopTrace(s, lines)| ==> LoopTrace(s, lines)[k].complete == s.complete
    decreases |lines|
  {
    if |lines| > 0 {
      var step := LineTrace(s, lines[0]);
      if !IsErrorLine(lines[0]) {
        ConsumeCleanHead(s, lines);
        LoopTraceAgrees(Last(step), lines[1..]);
        var rest := LoopTrace(Last(step), lines[1..]);
        assert LoopTrace(s, lines) == step + rest;
        if |lines| > 1 {
          assert Last(step + rest) == Last(rest);
        }
      }
    }
  }

  /** The last snapshot of a run is the state the functional model computes. */
  lemma RunTraceEndsInFinalState(start: State, lines: seq<string>, returncode: int)
    ensures Last(RunTrace(start, lines, returncode)) == Finalise(Consume(start, lines), returncode)
  {
    LoopTraceAgrees(start, lines);
  }

  /** During the output loop the counter never goes down. */
  lemma {:induction false} LoopProgressMonotone(s: State, lines: seq<string>, i: int, j: int)
    requires 0 <= i <= j < |LoopTrace(s, lines)|
    ensures s.progress <= LoopTrace(s, lines)[i].progress <= LoopTrace(s, lines)[j].progress
    decreases |lines|
  {
    var step := LineTrace(s, lines[0]);
    assert step[0].progress == s.progress;
    if !IsErrorLine(lines[0]) {
      assert step[1].progress == s.progress + 1;
      var rest := LoopTrace(Last(step), lines[1..]);
      assert LoopTrace(s, lines) == step + rest;
      if j >= 2 {
        assert (step + rest)[j] == rest[j - 2];
        if i >= 2 {
          assert (step + rest)[i] == rest[i - 2];
        }
        LoopProgressMonotone(Last(step), lines[1..], if i >= 2 then i - 2 else 0, j - 2);
      }
    }
  }

  /** In a run that starts from a not-yet-complete state, `complete` is set
      only in the very last state, and that last assignment changes nothing
      but the flag: no state after an assignment pairs `complete` with a
      status or counter that is not final. */
  lemma CompleteOnlyAtEnd(start: State, lines: seq<string>, returncode: int)
    requires !start.complete
    ensures var t := RunTrace(start, lines, returncode);
      && Last(t).complete
      && (forall k :: 0 <= k < |t| - 1 ==> !t[k].complete)
      && t[|t| - 2] == Last(t).(complete := false)
  {
    LoopTraceAgrees(start, lines);
    var loop := LoopTrace(start, lines);
    var atExit := if |loop| == 0 then start else Last(loop);
    var fin := FinaliseTrace(atExit, returncode);
    var t := RunTrace(start, lines, returncode);
    assert t == [start] + loop + fin;
    assert !atExit.complete;
    forall k | 0 <= k < |t| - 1 ensures !t[k].complete {
      if k == 0 {
      } else if k <= |loop| {
        assert t[k] == loop[k - 1];
      } else {
        assert t[k] == fin[k - 1 - |loop|];
      }
    }
  }
}
