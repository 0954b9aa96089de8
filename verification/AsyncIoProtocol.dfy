/** The threads around the ring of src/base/system.cpp: any number of user threads calling the
    aio_* functions and the one worker running aio_thread, interleaved step by step.  Lock, unlock,
    semaphore operations, file writes and frees are separate atomic steps; what happens between lock
    and unlock is one step per ring operation. */
module AsyncIoProtocol {
  import opened Utf8
  import opened AsyncIo

  datatype Finish = RUNNING | CLOSE | EXIT

  datatype Holder = Nobody | TheWorker | TheUser(u: nat)

  /** Where a user thread stands in an aio_* call. */
  datatype UserPc =
    | Idle
    | Holding(dirty: bool, joins: bool)  // between lock and unlock; dirty once it changed something
    | Signalling(joins: bool)            // between unlock and sphore_signal
    | Joining                            // in thread_wait
    | Releasing(last: bool)              // after the unlock of aio_free

  /** Where the worker stands in aio_thread. */
  datatype WorkerPc =
    | Locking        // about to lock
    | Looking        // at the loop head, holding the lock
    | Waiting        // in sphore_wait
    | Writing        // in io_write with a local buffer
    | Freeing(last: bool)  // after the unlock of its release
    | Exited

  datatype Wait = NoWait | Began(accepted: seq<Byte>, late: bool)

  datatype State = State(
    lock: Holder, sem: nat, users: seq<UserPc>, worker: WorkerPc,
    queue: seq<Byte>, local: seq<Byte>, finish: Finish, refcount: nat, file: seq<Byte>,
    released: bool, releaser: nat, wait: Wait, joined: bool,
    accepted: seq<Byte>,  // every payload written so far, in lock order
    closes: nat, frees: nat)

  datatype Step =
    | ULock(u: nat) | UWrite(u: nat, data: seq<Byte>) | UClose(u: nat) | UWait(u: nat)
    | UUnlock(u: nat) | UQuietUnlock(u: nat) | USignal(u: nat) | UJoin(u: nat)
    | URelease(u: nat) | UFree(u: nat)
    | WLock | WExit | WSleep | WWake | WDrain | WWrite | WFree

  ghost predicate Init(s: State) {
    && s.lock.Nobody? && s.sem == 0 && (forall u :: 0 <= u < |s.users| ==> s.users[u].Idle?)
    && s.worker.Locking? && s.queue == [] && s.local == [] && s.finish.RUNNING? && s.refcount == 2
    && s.file == [] && !s.released && s.wait.NoWait? && !s.joined && s.accepted == []
    && s.closes == 0 && s.frees == 0
  }

  /** Whether the step's thread stands at it, and for aio_free, that no other call is in progress. */
  ghost predicate Enabled(s: State, t: Step) {
    match t
    case ULock(u) => u < |s.users| && s.users[u].Idle? && s.lock.Nobody? && !s.released
    case UWrite(u, _) => u < |s.users| && s.users[u].Holding?
    case UClose(u) => u < |s.users| && s.users[u].Holding?
    case UWait(u) => u < |s.users| && s.users[u].Holding? && s.wait.NoWait?
    case UUnlock(u) => u < |s.users| && s.users[u].Holding?
    case UQuietUnlock(u) => u < |s.users| && s.users[u].Holding? && !s.users[u].dirty
    case USignal(u) => u < |s.users| && s.users[u].Signalling?
    case UJoin(u) => u < |s.users| && s.users[u].Joining? && s.worker.Exited?
    case URelease(u) => u < |s.users| && s.users[u].Holding? && !s.users[u].dirty
                        && forall v :: 0 <= v < |s.users| && v != u ==> s.users[v].Idle?
    case UFree(u) => u < |s.users| && s.users[u].Releasing?
    case WLock => s.worker.Locking? && s.lock.Nobody?
    case WExit => s.worker.Looking? && s.queue == [] && !s.finish.RUNNING?
    case WSleep => s.worker.Looking? && s.queue == [] && s.finish.RUNNING?
    case WWake => s.worker.Waiting? && s.sem > 0
    case WDrain => s.worker.Looking? && s.queue != []
    case WWrite => s.worker.Writing?
    case WFree => s.worker.Freeing?
  }

  function MoveTo(s: State, u: nat, pc: UserPc): State
    requires u < |s.users|
  {
    s.(users := s.users[u := pc])
  }

  ghost function Do(s: State, t: Step): State
    requires Enabled(s, t)
  {
    match t
    case ULock(u) => MoveTo(s, u, Holding(false, false)).(lock := TheUser(u))
    case UWrite(u, data) =>
      MoveTo(s, u, Holding(true, s.users[u].joins)).(queue := s.queue + data, accepted := s.accepted + data)
    case UClose(u) => MoveTo(s, u, Holding(true, s.users[u].joins)).(finish := CLOSE)
    case UWait(u) =>
      MoveTo(s, u, Holding(true, true)).(wait := Began(s.accepted, Gone(s)), finish := if s.finish.RUNNING? then EXIT else s.finish)
    case UUnlock(u) => MoveTo(s, u, Signalling(s.users[u].joins)).(lock := Nobody)
    case UQuietUnlock(u) => MoveTo(s, u, Idle).(lock := Nobody)
    case USignal(u) => MoveTo(s, u, if s.users[u].joins then Joining else Idle).(sem := s.sem + 1)
    case UJoin(u) => MoveTo(s, u, Idle).(joined := true)
    case URelease(u) =>
      var left := if s.refcount == 0 then 255 else s.refcount - 1;
      MoveTo(s, u, Releasing(left == 0)).(lock := Nobody, refcount := left, released := true, releaser := u)
    case UFree(u) => MoveTo(s, u, Idle).(frees := if s.users[u].last then s.frees + 1 else s.frees)
    case WLock => s.(worker := Looking, lock := TheWorker)
    case WExit =>
      var left := if s.refcount == 0 then 255 else s.refcount - 1;
      s.(worker := Freeing(left == 0), lock := Nobody, refcount := left,
         closes := if s.finish.CLOSE? then s.closes + 1 else s.closes)
    case WSleep => s.(worker := Waiting, lock := Nobody)
    case WWake => s.(worker := Locking, sem := s.sem - 1)
    case WDrain =>
      var n := DrainCount(s.queue);
      s.(worker := Writing, lock := Nobody, local := s.queue[..n], queue := s.queue[n..])
    case WWrite => s.(worker := Locking, local := [], file := s.file + s.local)
    case WFree => s.(worker := Exited, frees := if s.worker.last then s.frees + 1 else s.frees)
  }

  /** The worker is past its release. */
  predicate Gone(s: State) { s.worker.Freeing? || s.worker.Exited? }

  ghost predicate IsRun(run: seq<State>, steps: seq<Step>) {
    && |run| == |steps| + 1 && Init(run[0])
    && forall i :: 0 <= i < |steps| ==> Enabled(run[i], steps[i]) && run[i + 1] == Do(run[i], steps[i])
  }

  /** The steps that read or write the shared object. */
  predicate Touches(t: Step) {
    !t.UJoin? && !t.UFree? && !t.WFree?
  }

  // ---- the invariant ----

  ghost predicate LockInv(s: State) {
    && (s.lock.TheWorker? <==> s.worker.Looking?)
    && (forall u: nat :: u < |s.users| ==> (s.lock == TheUser(u) <==> s.users[u].Holding?))
    && (s.lock.TheUser? ==> s.lock.u < |s.users|)
  }

  /** Bytes are neither lost, duplicated nor reordered. */
  ghost predicate DataInv(s: State) {
    && s.accepted == s.file + s.local + s.queue
    && (!s.worker.Writing? ==> s.local == [])
    && (s.wait.Began? ==> s.wait.accepted <= s.accepted)
    && (s.wait.Began? && !s.wait.late && Gone(s) ==> s.wait.accepted <= s.file)
    && (s.wait.Began? && s.wait.late ==> Gone(s) && s.file <= s.wait.accepted)
  }

  /** A user thread that will still signal what it has changed. */
  ghost predicate WillSignal(s: State, u: nat) {
    u < |s.users| && (s.users[u].Signalling? || (s.users[u].Holding? && s.users[u].dirty))
  }

  ghost predicate WakeInv(s: State) {
    s.worker.Waiting? && (s.queue != [] || !s.finish.RUNNING?) ==> s.sem > 0 || exists u :: WillSignal(s, u)
  }

  function Count(b: bool): nat { if b then 1 else 0 }

  /** Frees done and frees still to come. */
  ghost function Due(s: State): nat
    requires s.released ==> s.releaser < |s.users|
  {
    s.frees + Count(s.worker.Freeing? && s.worker.last)
    + Count(s.released && s.users[s.releaser].Releasing? && s.users[s.releaser].last)
  }

  ghost predicate LifeInv(s: State) {
    && s.refcount == Count(!Gone(s)) + Count(!s.released)
    && (Gone(s) ==> !s.finish.RUNNING?)
    && (s.joined ==> s.worker.Exited?)
    && s.closes == Count(Gone(s) && s.closes > 0)
    && (forall u: nat :: u < |s.users| && s.users[u].Releasing? ==> s.released && u == s.releaser)
    && (s.released ==> s.releaser < |s.users|)
    && (s.released ==> forall u: nat :: u < |s.users| ==> s.users[u].Idle? || s.users[u].Releasing?)
    && Due(s) == Count(s.refcount == 0)
  }

  ghost predicate Inv(s: State) {
    LockInv(s) && DataInv(s) && WakeInv(s) && LifeInv(s)
  }

  lemma InitInv(s: State)
    requires Init(s)
    ensures Inv(s)
  {
  }

  // ---- what a step does, field by field ----

  lemma WorkerMoves(s: State, t: Step)
    requires Enabled(s, t)
    ensures IsWorkerStep(t) <==> Do(s, t).worker != s.worker
    ensures t.WLock? ==> s.worker.Locking? && Do(s, t).worker.Looking?
    ensures t.WExit? ==> s.worker.Looking? && s.queue == [] && !s.finish.RUNNING? && Do(s, t).worker.Freeing?
    ensures t.WSleep? ==> s.worker.Looking? && Do(s, t).worker.Waiting?
    ensures t.WWake? ==> s.worker.Waiting? && Do(s, t).worker.Locking?
    ensures t.WDrain? ==> s.worker.Looking? && s.queue != [] && Do(s, t).worker.Writing?
    ensures t.WWrite? ==> s.worker.Writing? && Do(s, t).worker.Locking?
    ensures t.WFree? ==> s.worker.Freeing? && Do(s, t).worker.Exited?
  {
  }

  lemma QueueMoves(s: State, t: Step)
    requires Enabled(s, t)
    ensures Do(s, t).queue == if t.UWrite? then s.queue + t.data
                              else if t.WDrain? then s.queue[DrainCount(s.queue)..] else s.queue
    ensures Do(s, t).local == if t.WDrain? then s.queue[..DrainCount(s.queue)] else if t.WWrite? then [] else s.local
  {
  }

  lemma FileMoves(s: State, t: Step)
    requires Enabled(s, t)
    ensures Do(s, t).file == if t.WWrite? then s.file + s.local else s.file
    ensures Do(s, t).accepted == if t.UWrite? then s.accepted + t.data else s.accepted
    ensures Do(s, t).wait == if t.UWait? then Began(s.accepted, Gone(s)) else s.wait
    ensures t.UWait? ==> s.wait.NoWait?
  {
  }

  lemma CountsMove(s: State, t: Step)
    requires Enabled(s, t)
    ensures Do(s, t).refcount == if t.URelease? || t.WExit? then (if s.refcount == 0 then 255 else s.refcount - 1) else s.refcount
    ensures Do(s, t).released == (s.released || t.URelease?)
    ensures Do(s, t).releaser == if t.URelease? then t.u else s.releaser
    ensures Do(s, t).joined == (s.joined || t.UJoin?)
    ensures t.UJoin? ==> s.worker.Exited?
    ensures Do(s, t).closes == if t.WExit? && s.finish.CLOSE? then s.closes + 1 else s.closes
    ensures s.finish.RUNNING? || !Do(s, t).finish.RUNNING?
  {
  }

  lemma FreesMove(s: State, t: Step)
    requires Enabled(s, t)
    ensures t.UFree? ==> t.u < |s.users| && s.users[t.u].Releasing?
    ensures Do(s, t).frees == if (t.UFree? && s.users[t.u].last) || (t.WFree? && s.worker.last) then s.frees + 1 else s.frees
    ensures t.WExit? ==> Do(s, t).worker.last == (Do(s, t).refcount == 0)
  {
  }

  lemma UsersMove(s: State, t: Step)
    requires Enabled(s, t)
    ensures |Do(s, t).users| == |s.users|
    ensures IsWorkerStep(t) ==> Do(s, t).users == s.users
    ensures !IsWorkerStep(t) ==> t.u < |s.users| && Do(s, t).users == s.users[t.u := Do(s, t).users[t.u]]
    ensures t.URelease? ==> Do(s, t).users[t.u] == Releasing(Do(s, t).refcount == 0)
    ensures t.UFree? ==> Do(s, t).users[t.u].Idle?
    ensures !IsWorkerStep(t) && !t.URelease? ==> !Do(s, t).users[t.u].Releasing?
    ensures t.ULock? ==> !s.released
    ensures t.USignal? ==> s.users[t.u].Signalling?
    ensures t.UJoin? ==> s.users[t.u].Joining?
  {
  }

  lemma LockMoves(s: State, t: Step)
    requires Enabled(s, t)
    ensures Do(s, t).lock == if t.ULock? then TheUser(t.u) else if t.WLock? then TheWorker
                             else if t.UUnlock? || t.UQuietUnlock? || t.URelease? || t.WExit? || t.WSleep? || t.WDrain? then Nobody
                             else s.lock
    ensures t.ULock? || t.WLock? ==> s.lock.Nobody?
    ensures !IsWorkerStep(t) && t.u < |s.users| ==>
              (Do(s, t).users[t.u].Holding? <==> t.ULock? || t.UWrite? || t.UClose? || t.UWait?)
  {
  }

  lemma UsersHold(s: State, t: Step)
    requires Enabled(s, t) && !IsWorkerStep(t) && t.u < |s.users|
    ensures t.UWrite? || t.UClose? || t.UWait? || t.UUnlock? || t.UQuietUnlock? || t.URelease? ==> s.users[t.u].Holding?
    ensures t.URelease? ==> forall v :: 0 <= v < |s.users| && v != t.u ==> s.users[v].Idle?
    ensures t.UFree? ==> s.users[t.u].Releasing?
  {
  }

  predicate IsWorkerStep(t: Step) {
    t.WLock? || t.WExit? || t.WSleep? || t.WWake? || t.WDrain? || t.WWrite? || t.WFree?
  }

  // ---- every step keeps the invariant ----

  lemma LockPreserved(s: State, t: Step)
    requires LockInv(s) && Enabled(s, t)
    ensures LockInv(Do(s, t))
  {
    hide Do, Enabled;
    LockMoves(s, t);
    WorkerMoves(s, t);
    UsersMove(s, t);
    if !IsWorkerStep(t) { UsersHold(s, t); }
  }

  lemma BytesPreserved(s: State, t: Step)
    requires Enabled(s, t) && s.accepted == s.file + s.local + s.queue && (!s.worker.Writing? ==> s.local == [])
    ensures var n := Do(s, t); n.accepted == n.file + n.local + n.queue && (!n.worker.Writing? ==> n.local == [])
  {
    hide Do, Enabled;
    WorkerMoves(s, t);
    QueueMoves(s, t);
    FileMoves(s, t);
    if t.UWrite? {
      Appended(s.file, s.local, s.queue, t.data);
    } else if t.WDrain? {
      Divided(s.file, s.queue, DrainCount(s.queue));
    } else if t.WWrite? {
      Flushed(s.file, s.local, s.queue);
    }
  }

  lemma Appended(f: seq<Byte>, l: seq<Byte>, q: seq<Byte>, d: seq<Byte>)
    ensures (f + l + q) + d == f + l + (q + d)
  {
  }

  lemma Divided(f: seq<Byte>, q: seq<Byte>, n: nat)
    requires n <= |q|
    ensures f + [] + q == f + q[..n] + q[n..]
  {
  }

  lemma Flushed(f: seq<Byte>, l: seq<Byte>, q: seq<Byte>)
    ensures f + l + q == (f + l) + [] + q
  {
  }

  lemma WaitPreserved(s: State, t: Step)
    requires DataInv(s) && Enabled(s, t)
    ensures var n := Do(s, t);
            && (n.wait.Began? ==> n.wait.accepted <= n.accepted)
            && (n.wait.Began? && !n.wait.late && Gone(n) ==> n.wait.accepted <= n.file)
            && (n.wait.Began? && n.wait.late ==> Gone(n) && n.file <= n.wait.accepted)
  {
    hide Do, Enabled;
    WorkerMoves(s, t);
    FileMoves(s, t);
    if t.WExit? {
      assert s.accepted == s.file;
    }
  }

  lemma DataPreserved(s: State, t: Step)
    requires DataInv(s) && Enabled(s, t)
    ensures DataInv(Do(s, t))
  {
    BytesPreserved(s, t);
    WaitPreserved(s, t);
    hide Do, Enabled;
  }

  lemma WakePreserved(s: State, t: Step)
    requires LockInv(s) && WakeInv(s) && Enabled(s, t)
    ensures WakeInv(Do(s, t))
  {
    var s' := Do(s, t);
    if s'.worker.Waiting? && (s'.queue != [] || !s'.finish.RUNNING?) && s'.sem == 0 {
      if t.UWrite? || t.UClose? || t.UWait? || t.UUnlock? {
        assert WillSignal(s', t.u);
      } else {
        var u :| WillSignal(s, u);
        assert WillSignal(s', u);
      }
    }
  }

  lemma RefcountPreserved(s: State, t: Step)
    requires LockInv(s) && LifeInv(s) && Enabled(s, t)
    ensures var n := Do(s, t);
            && n.refcount == Count(!Gone(n)) + Count(!n.released)
            && (Gone(n) ==> !n.finish.RUNNING?) && (n.joined ==> n.worker.Exited?)
            && n.closes == Count(Gone(n) && n.closes > 0)
  {
    hide Do, Enabled;
    WorkerMoves(s, t);
    CountsMove(s, t);
    ReleasedOnce(s, t);
  }

  /** A thread that releases the object has the lock, so it has not released it before. */
  lemma ReleasedOnce(s: State, t: Step)
    requires LockInv(s) && LifeInv(s) && Enabled(s, t)
    ensures t.URelease? ==> !s.released
    ensures s.released && !IsWorkerStep(t) ==> t.UFree? && t.u == s.releaser
  {
    hide Do, Enabled;
    UsersMove(s, t);
    if !IsWorkerStep(t) { UsersHold(s, t); }
  }

  lemma ReleasingPreserved(s: State, t: Step)
    requires LockInv(s) && LifeInv(s) && Enabled(s, t)
    ensures var n := Do(s, t);
            && (forall u: nat :: u < |n.users| && n.users[u].Releasing? ==> n.released && u == n.releaser)
            && (n.released ==> n.releaser < |n.users|)
            && (n.released ==> forall u: nat :: u < |n.users| ==> n.users[u].Idle? || n.users[u].Releasing?)
  {
    hide Do, Enabled;
    CountsMove(s, t);
    UsersMove(s, t);
    ReleasedOnce(s, t);
    if !IsWorkerStep(t) { UsersHold(s, t); }
  }

  lemma DuePreserved(s: State, t: Step)
    requires LockInv(s) && LifeInv(s) && Enabled(s, t)
    ensures var n := Do(s, t);
            (n.released ==> n.releaser < |n.users|) && Due(n) == Count(n.refcount == 0)
  {
    hide Do, Enabled;
    WorkerMoves(s, t);
    CountsMove(s, t);
    FreesMove(s, t);
    UsersMove(s, t);
    ReleasedOnce(s, t);
    RefcountPreserved(s, t);
  }

  lemma LifePreserved(s: State, t: Step)
    requires LockInv(s) && LifeInv(s) && Enabled(s, t)
    ensures LifeInv(Do(s, t))
  {
    RefcountPreserved(s, t);
    ReleasingPreserved(s, t);
    DuePreserved(s, t);
    hide Do, Enabled;
  }

  lemma {:induction false} RunInv(run: seq<State>, steps: seq<Step>, i: nat)
    requires IsRun(run, steps) && i < |run|
    ensures Inv(run[i])
  {
    if i == 0 {
      InitInv(run[0]);
    } else {
      RunInv(run, steps, i - 1);
      InvPreserved(run[i - 1], steps[i - 1]);
    }
  }

  // ---- what every run satisfies ----

  /** First in, first out: file, in-flight buffer and ring together are what was written. */
  lemma BytesConserved(run: seq<State>, steps: seq<Step>, i: nat)
    requires IsRun(run, steps) && i < |run|
    ensures run[i].accepted == run[i].file + run[i].local + run[i].queue
  {
    RunInv(run, steps, i);
  }

  /** When aio_wait has returned and was not late, everything accepted before it began is in the
      file. */
  lemma TimelyWaitDelivers(run: seq<State>, steps: seq<Step>, i: nat)
    requires IsRun(run, steps) && i < |run| && run[i].joined && run[i].wait.Began? && !run[i].wait.late
    ensures run[i].wait.accepted <= run[i].file
  {
    RunInv(run, steps, i);
  }

  lemma WaitIsTimely(run: seq<State>, steps: seq<Step>, i: nat)
    requires IsRun(run, steps) && i < |steps| && steps[i].UWait? && run[i].finish.RUNNING?
    ensures !run[i + 1].wait.late
  {
    RunInv(run, steps, i);
  }

  // ---- a wait that comes too late ----

  /** No payload between the two points of the run but empty ones. */
  ghost predicate NothingWritten(steps: seq<Step>, j: nat, k: nat)
    requires k <= |steps|
  {
    forall m :: j < m < k && steps[m].UWrite? ==> steps[m].data == []
  }

  /** Once the worker has left nothing is added to the file any more. */
  lemma {:induction false} GoneStays(run: seq<State>, steps: seq<Step>, i: nat, j: nat)
    requires IsRun(run, steps) && i <= j < |run| && Gone(run[i])
    ensures Gone(run[j]) && run[j].file == run[i].file
    decreases j - i
  {
    hide Do, Enabled, Init;
    if i < j {
      GoneStays(run, steps, i, j - 1);
      WorkerMoves(run[j - 1], steps[j - 1]);
      FileMoves(run[j - 1], steps[j - 1]);
    }
  }

  lemma {:induction false} AcceptedGrows(run: seq<State>, steps: seq<Step>, j: nat, k: nat)
    requires IsRun(run, steps) && j < k < |run| && !steps[j].UWrite?
    ensures |run[j].accepted| <= |run[k].accepted|
    ensures |run[j].accepted| == |run[k].accepted| <==> NothingWritten(steps, j, k)
    ensures NothingWritten(steps, j, k) ==> run[k].accepted == run[j].accepted
    decreases k - j
  {
    hide Do, Enabled, Init, NothingWritten;
    FileMoves(run[k - 1], steps[k - 1]);
    WrittenStep(steps, j, k);
    if j + 1 < k {
      AcceptedGrows(run, steps, j, k - 1);
      Longer(run[k - 1].accepted, steps[k - 1]);
    }
  }

  lemma WrittenStep(steps: seq<Step>, j: nat, k: nat)
    requires j < k <= |steps|
    ensures NothingWritten(steps, j, j + 1)
    ensures j + 1 < k ==> (NothingWritten(steps, j, k) <==>
                             NothingWritten(steps, j, k - 1) && (steps[k - 1].UWrite? ==> steps[k - 1].data == []))
  {
  }

  lemma Longer(a: seq<Byte>, t: Step)
    ensures t.UWrite? ==> |a| <= |a + t.data| && (|a| == |a + t.data| <==> t.data == []) && (t.data == [] ==> a + t.data == a)
  {
  }

  /** What aio_wait found when it began stays on record. */
  lemma {:induction false} WaitKeeps(run: seq<State>, steps: seq<Step>, k: nat, i: nat)
    requires IsRun(run, steps) && k < i < |run| && steps[k].UWait?
    ensures run[i].wait == Began(run[k].accepted, Gone(run[k]))
    decreases i - k
  {
    hide Do, Enabled, Init;
    FileMoves(run[i - 1], steps[i - 1]);
    if k + 1 < i { WaitKeeps(run, steps, k, i - 1); }
  }

  /** If the worker has left before the wait began, what the wait was to cover is in the file if and
      only if nothing was written between the two. */
  lemma LateWait(run: seq<State>, steps: seq<Step>, j: nat, k: nat, i: nat)
    requires IsRun(run, steps) && j < k < i < |run| && steps[j].WExit? && steps[k].UWait?
    ensures run[i].wait == Began(run[k].accepted, true)
    ensures run[k].accepted <= run[i].file <==> NothingWritten(steps, j, k)
    ensures run[k].accepted <= run[i].file <==> run[k].accepted == run[j].accepted
  {
    hide Do, Enabled, Init, NothingWritten;
    RunInv(run, steps, j);
    WorkerMoves(run[j], steps[j]);
    FileMoves(run[j], steps[j]);
    QueueMoves(run[j], steps[j]);
    GoneStays(run, steps, j + 1, i);
    GoneStays(run, steps, j + 1, k);
    WaitKeeps(run, steps, k, i);
    AcceptedGrows(run, steps, j, k);
    assert run[i].file == run[j].accepted;
  }

  lemma {:induction false} GoneBecause(run: seq<State>, steps: seq<Step>, k: nat) returns (j: nat)
    requires IsRun(run, steps) && k < |run| && Gone(run[k])
    ensures j < k && steps[j].WExit?
  {
    hide Do, Enabled;
    j := 0;
    if k > 0 {
      WorkerMoves(run[k - 1], steps[k - 1]);
      if steps[k - 1].WExit? { j := k - 1; } else { j := GoneBecause(run, steps, k - 1); }
    }
  }

  /** When aio_wait has returned, what was accepted before it began is in the file if and only if no
      payload but empty ones was written between the worker's exit and the wait. */
  lemma WaitDelivers(run: seq<State>, steps: seq<Step>, k: nat, i: nat)
    requires IsRun(run, steps) && k < i < |run| && steps[k].UWait? && run[i].joined
    ensures run[k].accepted <= run[i].file
       <==> forall j: nat :: j < k && steps[j].WExit? ==> NothingWritten(steps, j, k)
  {
    hide Do, Enabled, Init, NothingWritten;
    WaitKeeps(run, steps, k, i);
    if Gone(run[k]) {
      var j := GoneBecause(run, steps, k);
      LateWait(run, steps, j, k, i);
    } else {
      TimelyWaitDelivers(run, steps, i);
    }
    forall j: nat | j < k && steps[j].WExit? ensures run[k].accepted <= run[i].file <==> NothingWritten(steps, j, k) {
      LateWait(run, steps, j, k, i);
    }
  }

  // ---- such a run ----

  ghost predicate Leads(s: State, steps: seq<Step>, s': State)
    decreases |steps|
  {
    if steps == [] then s == s' else Enabled(s, steps[0]) && Leads(Do(s, steps[0]), steps[1..], s')
  }

  lemma {:induction false} LeadsOn(s: State, a: seq<Step>, m: State, b: seq<Step>, s': State)
    requires Leads(s, a, m) && Leads(m, b, s')
    ensures Leads(s, a + b, s')
    decreases |a|
  {
    hide Do, Enabled;
    if a == [] {
      assert a + b == b;
    } else {
      LeadsOn(Do(s, a[0]), a[1..], m, b, s');
      assert (a + b)[1..] == a[1..] + b;
    }
  }

  lemma LeadsTo(s: State, t: Step)
    requires Enabled(s, t)
    ensures Leads(s, [t], Do(s, t))
  {
    hide Do, Enabled;
    assert [t][1..] == [];
  }

  lemma LeadsBy4(s: State, a: Step, sa: State, b: Step, sb: State, c: Step, sc: State, d: Step, sd: State)
    requires Enabled(s, a) && Do(s, a) == sa && Enabled(sa, b) && Do(sa, b) == sb
    requires Enabled(sb, c) && Do(sb, c) == sc && Enabled(sc, d) && Do(sc, d) == sd
    ensures Leads(s, [a, b, c, d], sd)
  {
    hide Do, Enabled, Leads;
    LeadsTo(s, a);
    LeadsTo(sa, b);
    LeadsTo(sb, c);
    LeadsTo(sc, d);
    LeadsOn(s, [a], sa, [b], sb);
    LeadsOn(s, [a] + [b], sb, [c], sc);
    LeadsOn(s, [a] + [b] + [c], sc, [d], sd);
    assert [a] + [b] + [c] + [d] == [a, b, c, d];
  }

  /** Nobody is in a call or holds the lock. */
  ghost predicate Quiet(s: State) {
    s.lock.Nobody? && !s.released && |s.users| == 1 && s.users[0].Idle?
  }

  function Inside(s: State, dirty: bool, joins: bool): State {
    s.(users := [Holding(dirty, joins)], lock := TheUser(0))
  }

  function Left(s: State, joins: bool): State {
    s.(users := [Signalling(joins)], lock := Nobody)
  }

  lemma Calls(s: State, joins: bool)
    requires Quiet(s)
    ensures Enabled(s, ULock(0)) && Do(s, ULock(0)) == Inside(s, false, false)
    ensures Enabled(Inside(s, true, joins), UUnlock(0)) && Do(Inside(s, true, joins), UUnlock(0)) == Left(s, joins)
    ensures Enabled(Left(s, joins), USignal(0))
    ensures Do(Left(s, joins), USignal(0)) == s.(users := [if joins then Joining else Idle], sem := s.sem + 1)
  {
    assert s.users == [Idle];
  }

  /** A whole call that does t under the lock. */
  lemma Call(s: State, t: Step, n: State, joins: bool)
    requires Quiet(s) && Quiet(n) && Enabled(Inside(s, false, false), t)
    requires Do(Inside(s, false, false), t) == Inside(n, true, joins)
    ensures Leads(s, [ULock(0), t, UUnlock(0), USignal(0)], n.(users := [if joins then Joining else Idle], sem := n.sem + 1))
  {
    hide Do, Enabled, Leads, Quiet, Inside, Left;
    Calls(s, joins);
    Calls(n, joins);
    LeadsBy4(s, ULock(0), Inside(s, false, false), t, Inside(n, true, joins), UUnlock(0), Left(n, joins),
             USignal(0), n.(users := [if joins then Joining else Idle], sem := n.sem + 1));
  }

  lemma InsideSteps(s: State, data: seq<Byte>)
    requires Quiet(s)
    ensures var n := Inside(s, false, false);
            && Enabled(n, UWrite(0, data))
            && Do(n, UWrite(0, data)) == Inside(s.(queue := s.queue + data, accepted := s.accepted + data), true, false)
            && Quiet(s.(queue := s.queue + data, accepted := s.accepted + data))
            && Enabled(n, UClose(0)) && Do(n, UClose(0)) == Inside(s.(finish := CLOSE), true, false)
            && Quiet(s.(finish := CLOSE))
  {
  }

  /** aio_write */
  lemma CallWrite(s: State, data: seq<Byte>)
    requires Quiet(s)
    ensures Leads(s, [ULock(0), UWrite(0, data), UUnlock(0), USignal(0)],
                  s.(queue := s.queue + data, accepted := s.accepted + data, users := [Idle], sem := s.sem + 1))
  {
    hide Leads, Do, Enabled, Quiet, Inside;
    InsideSteps(s, data);
    Call(s, UWrite(0, data), s.(queue := s.queue + data, accepted := s.accepted + data), false);
  }

  /** aio_close */
  lemma CallClose(s: State)
    requires Quiet(s)
    ensures Leads(s, [ULock(0), UClose(0), UUnlock(0), USignal(0)], s.(finish := CLOSE, users := [Idle], sem := s.sem + 1))
  {
    hide Leads, Do, Enabled, Quiet, Inside;
    InsideSteps(s, []);
    Call(s, UClose(0), s.(finish := CLOSE), false);
  }

  /** aio_wait up to thread_wait, when the worker has left. */
  lemma CallWait(s: State)
    requires Quiet(s) && s.wait.NoWait? && Gone(s) && s.finish.CLOSE?
    ensures Leads(s, [ULock(0), UWait(0), UUnlock(0), USignal(0)],
                  s.(users := [Joining], wait := Began(s.accepted, true), sem := s.sem + 1))
  {
    hide Leads;
    Call(s, UWait(0), s.(wait := Began(s.accepted, true)), true);
  }

  /** The worker finds the ring empty and leaves. */
  lemma WorkerLeaves(s: State)
    requires Quiet(s) && s.worker.Locking? && s.queue == [] && s.finish.CLOSE? && s.refcount == 2
    ensures Leads(s, [WLock, WExit, WFree], s.(worker := Exited, refcount := 1, closes := s.closes + 1))
  {
    hide Leads, Do, Enabled;
    var a := s.(worker := Looking, lock := TheWorker);
    var b := s.(worker := Freeing(false), refcount := 1, closes := s.closes + 1);
    WorkerSteps(s);
    LeadsTo(s, WLock);
    LeadsTo(a, WExit);
    LeadsTo(b, WFree);
    LeadsOn(s, [WLock], a, [WExit], b);
    LeadsOn(s, [WLock] + [WExit], b, [WFree], Do(b, WFree));
    assert [WLock] + [WExit] + [WFree] == [WLock, WExit, WFree];
  }

  lemma WorkerSteps(s: State)
    requires Quiet(s) && s.worker.Locking? && s.queue == [] && s.finish.CLOSE? && s.refcount == 2
    ensures var a := s.(worker := Looking, lock := TheWorker);
            var b := s.(worker := Freeing(false), refcount := 1, closes := s.closes + 1);
            && Enabled(s, WLock) && Do(s, WLock) == a && Enabled(a, WExit) && Do(a, WExit) == b
            && Enabled(b, WFree) && Do(b, WFree) == s.(worker := Exited, refcount := 1, closes := s.closes + 1)
  {
  }

  /** After aio_close and the worker's exit, a write is accepted but never reaches the file; aio_wait
      returns all the same. */
  lemma LostWrite(s: State, data: seq<Byte>) returns (steps: seq<Step>, s': State)
    requires Init(s) && |s.users| == 1
    ensures Leads(s, steps, s') && s'.joined && s'.wait == Began(data, true)
    ensures UWrite(0, data) in steps && s'.accepted == data && s'.file == [] && Gone(s')
  {
    hide Do, Enabled, Leads;
    var s1 := s.(finish := CLOSE, users := [Idle], sem := s.sem + 1);
    CallClose(s);
    var s2 := s1.(worker := Exited, refcount := 1, closes := s1.closes + 1);
    WorkerLeaves(s1);
    var s3 := s2.(queue := s2.queue + data, accepted := s2.accepted + data, users := [Idle], sem := s2.sem + 1);
    CallWrite(s2, data);
    var s4 := s3.(users := [Joining], wait := Began(s3.accepted, true), sem := s3.sem + 1);
    CallWait(s3);
    var a, b := [ULock(0), UClose(0), UUnlock(0), USignal(0)], [WLock, WExit, WFree];
    var c, d := [ULock(0), UWrite(0, data), UUnlock(0), USignal(0)], [ULock(0), UWait(0), UUnlock(0), USignal(0)];
    LeadsOn(s, a, s1, b, s2);
    LeadsOn(s, a + b, s2, c, s3);
    LeadsOn(s, a + b + c, s3, d, s4);
    Joins(s4);
    s' := s4.(users := [Idle], joined := true);
    LeadsOn(s, a + b + c + d, s4, [UJoin(0)], s');
    steps := a + b + c + d + [UJoin(0)];
    assert steps[|a| + |b| + 1] == c[1];
  }

  lemma Joins(s: State)
    requires s.users == [Joining] && s.worker.Exited?
    ensures Leads(s, [UJoin(0)], s.(users := [Idle], joined := true))
  {
    LeadsTo(s, UJoin(0));
  }

  /** However the run goes on, it stays lost. */
  lemma LostForEver(run: seq<State>, steps: seq<Step>, s': State, lost: seq<Step>, data: seq<Byte>)
    requires IsRun(run, steps) && |lost| <= |steps| && steps[..|lost|] == lost
    requires Leads(run[0], lost, s') && Gone(s') && s'.file == []
    ensures run[|steps|].file == []
  {
    hide Do, Enabled, Init;
    RunFollows(run, steps, 0, lost, s');
    GoneStays(run, steps, |lost|, |steps|);
  }

  lemma {:induction false} RunFollows(run: seq<State>, steps: seq<Step>, n: nat, more: seq<Step>, s': State)
    requires IsRun(run, steps) && n + |more| <= |steps| && steps[n..n + |more|] == more && Leads(run[n], more, s')
    ensures run[n + |more|] == s'
    decreases |more|
  {
    hide Do, Enabled, Init;
    if more != [] {
      assert steps[n] == more[0];
      assert steps[n + 1..n + 1 + |more[1..]|] == more[1..];
      RunFollows(run, steps, n + 1, more[1..], s');
    }
  }

  /** No lost wakeup: a worker that sleeps with nothing to wake it has nothing to do. */
  lemma NoLostWakeup(run: seq<State>, steps: seq<Step>, i: nat)
    requires IsRun(run, steps) && i < |run|
    requires run[i].worker.Waiting? && run[i].sem == 0 && forall u :: !WillSignal(run[i], u)
    ensures run[i].queue == [] && run[i].finish.RUNNING?
  {
    RunInv(run, steps, i);
  }

  ghost predicate BothThrough(s: State) {
    s.worker.Exited? && s.released && forall u :: 0 <= u < |s.users| ==> s.users[u].Idle?
  }

  /** The object is freed at most once, never touched afterwards, and freed once both sides are
      through; the file is closed at most once and nothing is written to it afterwards. */
  lemma SingleRelease(run: seq<State>, steps: seq<Step>, i: nat)
    requires IsRun(run, steps) && i < |run|
    ensures run[i].frees <= 1 && run[i].closes <= 1
    ensures i < |steps| && Touches(steps[i]) ==> run[i].frees == 0
    ensures i < |steps| && steps[i].WWrite? ==> run[i].closes == 0 && run[i].frees == 0
    ensures BothThrough(run[i]) ==> run[i].frees == 1
  {
    RunInv(run, steps, i);
  }

  // ---- aio_wait returns ----

  /** Shutdown has been asked for and no user thread is inside a call that it can leave. */
  ghost predicate ShuttingDown(s: State) {
    !s.finish.RUNNING? && forall u :: 0 <= u < |s.users| ==> !s.users[u].Holding? && !s.users[u].Signalling?
  }

  function Rank(s: State): nat {
    8 * |s.queue| + match s.worker
      case Writing => 4
      case Waiting => 4
      case Locking => 3
      case Looking => 2
      case Freeing(_) => 1
      case Exited => 0
  }

  /** The worker is never stuck then, and every step it can take brings it closer to its exit. */
  lemma WorkerAdvances(s: State)
    requires Inv(s) && ShuttingDown(s) && !s.worker.Exited?
    ensures exists t :: IsWorkerStep(t) && Enabled(s, t)
    ensures forall t :: IsWorkerStep(t) && Enabled(s, t) ==> Rank(Do(s, t)) < Rank(s) && ShuttingDown(Do(s, t))
  {
    WorkerCan(s);
    hide Do, Enabled, Inv, ShuttingDown, Rank;
    forall t | IsWorkerStep(t) && Enabled(s, t) ensures Rank(Do(s, t)) < Rank(s) && ShuttingDown(Do(s, t)) {
      WorkerGetsCloser(s, t);
    }
  }

  lemma WorkerCan(s: State)
    requires Inv(s) && ShuttingDown(s) && !s.worker.Exited?
    ensures exists t :: IsWorkerStep(t) && Enabled(s, t)
  {
    var t := match s.worker
      case Locking => WLock
      case Looking => if s.queue == [] then WExit else WDrain
      case Waiting => WWake
      case Writing => WWrite
      case _ => WFree;
    assert Enabled(s, t);
    assert IsWorkerStep(t);
  }

  lemma WorkerGetsCloser(s: State, t: Step)
    requires ShuttingDown(s) && IsWorkerStep(t) && Enabled(s, t)
    ensures Rank(Do(s, t)) < Rank(s) && ShuttingDown(Do(s, t))
  {
    SleepNeedsRunning(s, t);
    hide Do, Enabled;
    WorkerMoves(s, t);
    QueueMoves(s, t);
    UsersMove(s, t);
    CountsMove(s, t);
  }

  lemma SleepNeedsRunning(s: State, t: Step)
    requires Enabled(s, t)
    ensures t.WSleep? ==> s.finish.RUNNING?
  {
  }

  lemma LeadsFirst(s: State, t: Step, steps: seq<Step>, s': State)
    requires Enabled(s, t) && Leads(Do(s, t), steps, s')
    ensures Leads(s, [t] + steps, s')
  {
    assert ([t] + steps)[1..] == steps;
  }

  lemma ExitNow(s: State) returns (s': State)
    requires Inv(s) && Enabled(s, WExit)
    ensures Leads(s, [WExit, WFree], s') && s'.worker.Exited? && s'.file == s.accepted && s'.queue == []
  {
    var n := Do(s, WExit);
    s' := Do(n, WFree);
    assert Leads(s', [], s');
    LeadsFirst(n, WFree, [], s');
    LeadsFirst(s, WExit, [WFree], s');
    assert [WFree] + [] == [WFree] && [WExit] + [WFree] == [WExit, WFree];
  }

  lemma InvPreserved(s: State, t: Step)
    requires Inv(s) && Enabled(s, t)
    ensures Inv(Do(s, t))
  {
    hide Do, Enabled, LockInv, DataInv, WakeInv, LifeInv;
    LockPreserved(s, t);
    DataPreserved(s, t);
    WakePreserved(s, t);
    LifePreserved(s, t);
  }

  lemma WorkerKeeps(s: State, t: Step)
    requires IsWorkerStep(t) && Enabled(s, t)
    ensures Do(s, t).accepted == s.accepted
    ensures Gone(Do(s, t)) && !Gone(s) ==> t.WExit?
  {
  }

  /** Left alone, the worker drains the ring completely and exits. */
  lemma {:induction false} WorkerDrains(s: State) returns (steps: seq<Step>, s': State)
    requires Inv(s) && ShuttingDown(s) && !Gone(s)
    ensures Leads(s, steps, s') && s'.worker.Exited? && s'.file == s.accepted && s'.queue == []
    ensures forall t :: t in steps ==> IsWorkerStep(t)
    decreases Rank(s)
  {
    hide Do, Enabled, Inv, Leads, ShuttingDown;
    WorkerAdvances(s);
    var t :| IsWorkerStep(t) && Enabled(s, t);
    if t.WExit? {
      s' := ExitNow(s);
      steps := [WExit, WFree];
    } else {
      InvPreserved(s, t);
      WorkerKeeps(s, t);
      var rest;
      rest, s' := WorkerDrains(Do(s, t));
      LeadsFirst(s, t, rest, s');
      steps := [t] + rest;
    }
  }
}
