/** CFutureLogger of src/base/log.cpp: messages logged before the real logger is known are kept and
    handed over.  Any number of Log calls run against the one Set call, interleaved at every lock,
    unlock, atomic access and delivery. */
module FutureLogger {

  /** Where a call of Log stands. */
  datatype LogPc =
    | Begin
    | Direct        // has seen the logger without the lock
    | WantsLock     // has seen no logger
    | Checking      // holds m_PendingLock, about to load again
    | LockedDirect  // holds the lock and has seen the logger
    | Pushing       // holds the lock and has seen no logger
    | Leaving       // about to unlock
    | Returned

  datatype SetPc = NotCalled | Exchanging | Flushing | Clearing | SetLeaving | SetReturned

  datatype Holder = Nobody | TheSetter | Call(i: nat)

  datatype State = State(
    calls: seq<LogPc>, setter: SetPc, lock: Holder, loggerSet: bool,
    pending: seq<nat>,    // m_vPending, messages named by their call
    flushed: nat,         // how far the loop in Set has come
    delivered: seq<nat>,  // what the target has received
    arrived: seq<nat>,    // every push so far
    flushedAt: seq<nat>)  // where in `delivered` Set has put the pending messages

  datatype Step =
    | Load(i: nat) | Deliver(i: nat) | Lock(i: nat) | Reload(i: nat) | DeliverLocked(i: nat) | Push(i: nat) | Unlock(i: nat)
    | SLock | SExchange | SFlush | SFlushed | SClear | SUnlock

  ghost predicate Init(s: State) {
    && (forall i :: 0 <= i < |s.calls| ==> s.calls[i].Begin?)
    && s.setter.NotCalled? && s.lock.Nobody? && !s.loggerSet
    && s.pending == [] && s.flushed == 0 && s.delivered == [] && s.arrived == [] && s.flushedAt == []
  }

  predicate Enabled(s: State, t: Step) {
    match t
    case Load(i) => i < |s.calls| && s.calls[i].Begin?
    case Deliver(i) => i < |s.calls| && s.calls[i].Direct?
    case Lock(i) => i < |s.calls| && s.calls[i].WantsLock? && s.lock.Nobody?
    case Reload(i) => i < |s.calls| && s.calls[i].Checking?
    case DeliverLocked(i) => i < |s.calls| && s.calls[i].LockedDirect?
    case Push(i) => i < |s.calls| && s.calls[i].Pushing?
    case Unlock(i) => i < |s.calls| && s.calls[i].Leaving?
    case SLock => s.setter.NotCalled? && s.lock.Nobody?
    case SExchange => s.setter.Exchanging?
    case SFlush => s.setter.Flushing? && s.flushed < |s.pending|
    case SFlushed => s.setter.Flushing? && s.flushed >= |s.pending|
    case SClear => s.setter.Clearing?
    case SUnlock => s.setter.SetLeaving?
  }

  function Goto(s: State, i: nat, pc: LogPc): State
    requires i < |s.calls|
  {
    s.(calls := s.calls[i := pc])
  }

  function Do(s: State, t: Step): State
    requires Enabled(s, t)
  {
    match t
    case Load(i) => Goto(s, i, if s.loggerSet then Direct else WantsLock)
    case Deliver(i) => Goto(s, i, Returned).(delivered := s.delivered + [i])
    case Lock(i) => Goto(s, i, Checking).(lock := Call(i))
    case Reload(i) => Goto(s, i, if s.loggerSet then LockedDirect else Pushing)
    case DeliverLocked(i) => Goto(s, i, Leaving).(delivered := s.delivered + [i])
    case Push(i) => Goto(s, i, Leaving).(pending := s.pending + [i], arrived := s.arrived + [i])
    case Unlock(i) => Goto(s, i, Returned).(lock := Nobody)
    case SLock => s.(setter := Exchanging, lock := TheSetter)
    case SExchange => s.(setter := Flushing, loggerSet := true, flushed := 0)
    case SFlush =>
      s.(delivered := s.delivered + [s.pending[s.flushed]], flushedAt := s.flushedAt + [|s.delivered|], flushed := s.flushed + 1)
    case SFlushed => s.(setter := Clearing)
    case SClear => s.(setter := SetLeaving, pending := [], flushed := 0)
    case SUnlock => s.(setter := SetReturned, lock := Nobody)
  }

  ghost predicate IsRun(run: seq<State>, steps: seq<Step>) {
    && |run| == |steps| + 1 && Init(run[0])
    && forall n :: 0 <= n < |steps| ==> Enabled(run[n], steps[n]) && run[n + 1] == Do(run[n], steps[n])
  }

  // ---- the invariant ----

  predicate InLock(pc: LogPc) { pc.Checking? || pc.LockedDirect? || pc.Pushing? || pc.Leaving? }

  predicate SetterInLock(pc: SetPc) { pc.Exchanging? || pc.Flushing? || pc.Clearing? || pc.SetLeaving? }

  /** The call has handed its message over, to the target or to the pending list. */
  predicate HandedOver(pc: LogPc) { pc.Leaving? || pc.Returned? }

  ghost predicate LockInv(s: State) {
    && (s.lock.TheSetter? <==> SetterInLock(s.setter))
    && (forall i: nat :: i < |s.calls| ==> (s.lock == Call(i) <==> InLock(s.calls[i])))
    && (s.loggerSet <==> !(s.setter.NotCalled? || s.setter.Exchanging?))
    && (forall i: nat :: i < |s.calls| && s.calls[i].Pushing? ==> !s.loggerSet)
  }

  /** What is pending is what arrived, until it is cleared. */
  ghost predicate PendingInv(s: State) {
    && (s.setter.NotCalled? || s.setter.Exchanging? ==> s.pending == s.arrived && s.flushed == 0 && s.flushedAt == [])
    && (s.setter.Flushing? ==> s.pending == s.arrived && s.flushed == |s.flushedAt| <= |s.arrived|)
    && (s.setter.Clearing? ==> s.pending == s.arrived && s.flushed == |s.flushedAt| == |s.arrived|)
    && (s.setter.SetLeaving? || s.setter.SetReturned? ==> s.pending == [] && s.flushed == 0 && |s.flushedAt| == |s.arrived|)
  }

  /** Set has delivered the pending messages in order of arrival. */
  ghost predicate OrderInv(s: State) {
    InOrder(s.flushedAt, s.delivered, s.arrived)
  }

  ghost predicate InOrder(at: seq<nat>, delivered: seq<nat>, arrived: seq<nat>) {
    && |at| <= |arrived|
    && (forall k :: 0 <= k < |at| ==> at[k] < |delivered| && delivered[at[k]] == arrived[k])
    && (forall k, l :: 0 <= k < l < |at| ==> at[k] < at[l])
  }

  lemma InOrderGrows(at: seq<nat>, delivered: seq<nat>, arrived: seq<nat>, i: nat)
    requires InOrder(at, delivered, arrived)
    ensures InOrder(at, delivered + [i], arrived) && InOrder(at, delivered, arrived + [i])
    ensures |at| < |arrived| ==> InOrder(at + [|delivered|], delivered + [arrived[|at|]], arrived)
  {
  }

  ghost function Waiting(s: State): seq<nat>
  {
    if s.flushed <= |s.pending| then s.pending[s.flushed..] else []
  }

  /** Every message handed over is either with the target or still waiting, once. */
  ghost predicate OnceInv(s: State) {
    forall i: nat :: Tally(s)[i] == if i < |s.calls| && HandedOver(s.calls[i]) then 1 else 0
  }

  ghost function Tally(s: State): multiset<nat> {
    multiset(s.delivered) + multiset(Waiting(s))
  }

  predicate HandsOver(t: Step) { t.Deliver? || t.DeliverLocked? || t.Push? }

  lemma TallyGrows(delivered: seq<nat>, waiting: seq<nat>, i: nat)
    ensures multiset(delivered + [i]) + multiset(waiting) == multiset(delivered) + multiset(waiting) + multiset{i}
    ensures multiset(delivered) + multiset(waiting + [i]) == multiset(delivered) + multiset(waiting) + multiset{i}
  {
  }

  lemma TallyMoves(delivered: seq<nat>, waiting: seq<nat>)
    requires waiting != []
    ensures multiset(delivered + [waiting[0]]) + multiset(waiting[1..]) == multiset(delivered) + multiset(waiting)
  {
    assert waiting == [waiting[0]] + waiting[1..];
  }

  lemma WaitingStep(s: State, t: Step)
    requires LockInv(s) && PendingInv(s) && Enabled(s, t)
    ensures t.Push? ==> Waiting(Do(s, t)) == Waiting(s) + [t.i]
    ensures t.SFlush? ==> Waiting(s) != [] && Waiting(s)[0] == s.pending[s.flushed] && Waiting(Do(s, t)) == Waiting(s)[1..]
    ensures !t.Push? && !t.SFlush? ==> Waiting(Do(s, t)) == Waiting(s)
  {
  }

  lemma DeliveredStep(s: State, t: Step)
    requires Enabled(s, t)
    ensures t.Deliver? || t.DeliverLocked? ==> Do(s, t).delivered == s.delivered + [t.i]
    ensures t.SFlush? ==> s.flushed < |s.pending| && Do(s, t).delivered == s.delivered + [s.pending[s.flushed]]
    ensures !t.Deliver? && !t.DeliverLocked? && !t.SFlush? ==> Do(s, t).delivered == s.delivered
  {
  }

  /** Only handing over adds to the messages delivered or waiting; flushing moves them. */
  lemma TallyStep(s: State, t: Step)
    requires LockInv(s) && PendingInv(s) && Enabled(s, t)
    ensures Tally(Do(s, t)) == if HandsOver(t) then Tally(s) + multiset{t.i} else Tally(s)
  {
    hide Waiting, LockInv, PendingInv, Do, Enabled;
    WaitingStep(s, t);
    DeliveredStep(s, t);
    if HandsOver(t) {
      TallyGrows(s.delivered, Waiting(s), t.i);
    } else if t.SFlush? {
      TallyMoves(s.delivered, Waiting(s));
    }
  }

  ghost predicate Inv(s: State) {
    LockInv(s) && PendingInv(s) && OrderInv(s) && OnceInv(s)
  }

  lemma LockPreserved(s: State, t: Step)
    requires LockInv(s) && Enabled(s, t)
    ensures LockInv(Do(s, t))
  {
  }

  lemma PendingPreserved(s: State, t: Step)
    requires LockInv(s) && PendingInv(s) && Enabled(s, t)
    ensures PendingInv(Do(s, t))
  {
  }

  lemma OrderPreserved(s: State, t: Step)
    requires LockInv(s) && PendingInv(s) && OrderInv(s) && Enabled(s, t)
    ensures OrderInv(Do(s, t))
  {
    hide Do, Enabled, InOrder, LockInv, PendingInv;
    DeliveredStep(s, t);
    FlushedStep(s, t);
    InOrderGrows(s.flushedAt, s.delivered, s.arrived, if HandsOver(t) then t.i else 0);
  }

  lemma FlushedStep(s: State, t: Step)
    requires PendingInv(s) && Enabled(s, t)
    ensures Do(s, t).flushedAt == if t.SFlush? then s.flushedAt + [|s.delivered|] else s.flushedAt
    ensures Do(s, t).arrived == if t.Push? then s.arrived + [t.i] else s.arrived
    ensures t.SFlush? ==> s.pending == s.arrived && s.flushed == |s.flushedAt|
  {
  }

  lemma OncePreserved(s: State, t: Step)
    requires LockInv(s) && PendingInv(s) && OnceInv(s) && Enabled(s, t)
    ensures OnceInv(Do(s, t))
  {
    hide Tally;
    TallyStep(s, t);
  }

  lemma InitInv(s: State)
    requires Init(s)
    ensures Inv(s)
  {
  }

  lemma {:induction false} RunInv(run: seq<State>, steps: seq<Step>, n: nat)
    requires IsRun(run, steps) && n < |run|
    ensures Inv(run[n])
  {
    hide Do, Enabled, LockInv, PendingInv, OrderInv, OnceInv, Init;
    if n == 0 {
      InitInv(run[0]);
    } else {
      RunInv(run, steps, n - 1);
      LockPreserved(run[n - 1], steps[n - 1]);
      PendingPreserved(run[n - 1], steps[n - 1]);
      OrderPreserved(run[n - 1], steps[n - 1]);
      OncePreserved(run[n - 1], steps[n - 1]);
    }
  }

  // ---- what every run satisfies ----

  /** Once Set and all calls of Log have returned, the target has received every message exactly
      once. */
  lemma DeliveredExactlyOnce(run: seq<State>, steps: seq<Step>, n: nat, i: nat)
    requires IsRun(run, steps) && n < |run| && run[n].setter.SetReturned?
    requires forall c :: 0 <= c < |run[n].calls| ==> run[n].calls[c].Returned?
    ensures multiset(run[n].delivered)[i] == if i < |run[n].calls| then 1 else 0
  {
    RunInv(run, steps, n);
    assert Waiting(run[n]) == [];
    assert Tally(run[n])[i] == multiset(run[n].delivered)[i];
  }

  /** At no time is a message with the target twice, nor before its call has handed it over. */
  lemma NeverTwice(run: seq<State>, steps: seq<Step>, n: nat, i: nat)
    requires IsRun(run, steps) && n < |run|
    ensures multiset(run[n].delivered)[i] <= if i < |run[n].calls| && HandedOver(run[n].calls[i]) then 1 else 0
  {
    RunInv(run, steps, n);
    assert Tally(run[n])[i] >= multiset(run[n].delivered)[i];
  }

  /** Nothing stays behind in m_vPending once the logger is set, except while Set holds the lock. */
  lemma NothingPending(run: seq<State>, steps: seq<Step>, n: nat)
    requires IsRun(run, steps) && n < |run| && run[n].loggerSet && !run[n].lock.TheSetter?
    ensures run[n].pending == []
  {
    RunInv(run, steps, n);
  }

  /** The messages that had to wait reach the target in the order in which they arrived. */
  lemma PendingInOrder(run: seq<State>, steps: seq<Step>, n: nat, k: nat, l: nat)
    requires IsRun(run, steps) && n < |run| && run[n].setter.SetReturned? && k < l < |run[n].arrived|
    ensures var s := run[n];
            exists p: nat, q: nat :: p < q < |s.delivered| && s.delivered[p] == s.arrived[k] && s.delivered[q] == s.arrived[l]
  {
    RunInv(run, steps, n);
    var s := run[n];
    assert s.delivered[s.flushedAt[k]] == s.arrived[k] && s.delivered[s.flushedAt[l]] == s.arrived[l];
  }
}
