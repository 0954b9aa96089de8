/** Who closes the file of an asynchronous output in src/base/system.cpp: the worker, and only for
    aio_close; aio_wait alone leaves it open. */
module AsyncIoClosing {
  import opened AsyncIoProtocol

  /** Among the first n steps is an aio_close. */
  ghost predicate CloseAsked(steps: seq<Step>, n: nat)
    requires n <= |steps|
  {
    exists i: nat :: i < n && steps[i].UClose?
  }

  ghost predicate EndAsked(steps: seq<Step>, n: nat)
    requires n <= |steps|
  {
    exists i: nat :: i < n && (steps[i].UClose? || steps[i].UWait?)
  }

  lemma FinishMoves(s: State, t: Step)
    requires Enabled(s, t)
    ensures Do(s, t).finish == if t.UClose? then CLOSE else if t.UWait? && s.finish.RUNNING? then EXIT else s.finish
  {
  }

  lemma AskedNext(steps: seq<Step>, n: nat)
    requires n < |steps|
    ensures CloseAsked(steps, n + 1) <==> CloseAsked(steps, n) || steps[n].UClose?
    ensures EndAsked(steps, n + 1) <==> EndAsked(steps, n) || steps[n].UClose? || steps[n].UWait?
  {
    if steps[n].UClose? || steps[n].UWait? { assert n < n + 1; }
  }

  /** What the worker is told to do: to go on until a call ends it, to close once aio_close has been called
      whatever else is called, and otherwise to leave the file open. */
  lemma {:induction false} ToldIs(run: seq<State>, steps: seq<Step>, n: nat)
    requires IsRun(run, steps) && n < |run|
    ensures run[n].finish == if CloseAsked(steps, n) then CLOSE else if EndAsked(steps, n) then EXIT else RUNNING
  {
    hide Do, Enabled;
    if n == 0 {
      assert Init(run[0]);
    } else {
      ToldIs(run, steps, n - 1);
      assert Enabled(run[n - 1], steps[n - 1]) && run[n] == Do(run[n - 1], steps[n - 1]);
      FinishMoves(run[n - 1], steps[n - 1]);
      AskedNext(steps, n - 1);
    }
  }

  /** Among the first n steps the worker has left, and aio_close has been called before. */
  ghost predicate LeftClosing(steps: seq<Step>, n: nat)
    requires n <= |steps|
  {
    exists j: nat :: j < n && steps[j].WExit? && CloseAsked(steps, j)
  }

  lemma LeftNext(steps: seq<Step>, n: nat)
    requires n < |steps|
    ensures LeftClosing(steps, n + 1) <==> LeftClosing(steps, n) || (steps[n].WExit? && CloseAsked(steps, n))
  {
    if steps[n].WExit? && CloseAsked(steps, n) { assert n < n + 1; }
  }

  /** The file has been closed if and only if the worker has left after an aio_close. */
  lemma {:induction false} ClosedIff(run: seq<State>, steps: seq<Step>, n: nat)
    requires IsRun(run, steps) && n < |run|
    ensures run[n].closes == if LeftClosing(steps, n) then 1 else 0
  {
    hide Do, Enabled, CloseAsked, LeftClosing;
    if n == 0 {
      assert Init(run[0]);
      NothingLeft(steps);
    } else {
      ClosedIff(run, steps, n - 1);
      assert Enabled(run[n - 1], steps[n - 1]) && run[n] == Do(run[n - 1], steps[n - 1]);
      CountsMove(run[n - 1], steps[n - 1]);
      ToldIs(run, steps, n - 1);
      LeftNext(steps, n - 1);
      SingleRelease(run, steps, n);
    }
  }

  lemma NothingLeft(steps: seq<Step>)
    ensures !LeftClosing(steps, 0)
  {
  }
}
