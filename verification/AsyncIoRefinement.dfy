/** The threads of AsyncIoProtocol working on the ring of AsyncIo: the queue is held in a buffer with
    two positions, which writes fill around its end and replace by a larger one. */
module AsyncIoRefinement {
  import opened Utf8
  import AsyncIo
  import opened AsyncIoProtocol

  /** The shared object with its memory; the queue of the protocol is not used. */
  datatype Concrete = Concrete(threads: State, memory: AsyncIo.Memory)

  /** What the state is to the protocol. */
  ghost function View(c: Concrete): State
    requires AsyncIo.ValidMemory(c.memory)
  {
    c.threads.(queue := AsyncIo.Pending(c.memory))
  }

  /** The size of the local buffer bounds what is taken. */
  function Taken(memory: AsyncIo.Memory): nat
    requires memory.r <= |memory.m| && memory.w <= |memory.m|
  {
    AsyncIo.DrainCount(AsyncIo.Pending(memory))
  }

  ghost predicate CanStep(c: Concrete, t: Step)
    requires AsyncIo.ValidMemory(c.memory)
  {
    match t
    case UWrite(_, data) =>
      Enabled(c.threads, t) && |AsyncIo.Pending(c.memory)| + |data| + 1 <= AsyncIo.LARGEST
    case WExit => c.threads.worker.Looking? && c.memory.r == c.memory.w && !c.threads.finish.RUNNING?
    case WSleep => c.threads.worker.Looking? && c.memory.r == c.memory.w && c.threads.finish.RUNNING?
    case WDrain => c.threads.worker.Looking? && c.memory.r != c.memory.w
    case _ => Enabled(c.threads, t)
  }

  ghost function TakeStep(c: Concrete, t: Step): Concrete
    requires AsyncIo.ValidMemory(c.memory) && CanStep(c, t)
  {
    match t
    case UWrite(u, data) =>
      var s := MoveTo(c.threads, u, Holding(true, c.threads.users[u].joins));
      Concrete(s.(accepted := s.accepted + data), AsyncIo.Put(c.memory, data))
    case WDrain =>
      AsyncIo.RingLength(c.memory.m, c.memory.r, c.memory.w);
      var n := Taken(c.memory);
      Concrete(c.threads.(worker := Writing, lock := Nobody, local := AsyncIo.Pending(c.memory)[..n]),
               AsyncIo.Drained(c.memory, n))
    case WExit =>
      var left := if c.threads.refcount == 0 then 255 else c.threads.refcount - 1;
      c.(threads := c.threads.(worker := Freeing(left == 0), lock := Nobody, refcount := left,
         closes := if c.threads.finish.CLOSE? then c.threads.closes + 1 else c.threads.closes))
    case WSleep => c.(threads := c.threads.(worker := Waiting, lock := Nobody))
    case _ => c.(threads := Do(c.threads, t))
  }

  ghost predicate IsConcreteRun(run: seq<Concrete>, steps: seq<Step>) {
    && |run| == |steps| + 1 && Init(run[0].threads)
    && AsyncIo.ValidMemory(run[0].memory) && run[0].memory.r == run[0].memory.w
    && forall i :: 0 <= i < |steps| ==>
         AsyncIo.ValidMemory(run[i].memory) && CanStep(run[i], steps[i]) && run[i + 1] == TakeStep(run[i], steps[i])
  }

  lemma PendingEmpty(m: AsyncIo.Memory)
    requires AsyncIo.ValidMemory(m)
    ensures AsyncIo.Pending(m) == [] <==> m.r == m.w
  {
  }

  /** Every step of the real ring is the protocol's step on its view. */
  lemma StepRefines(c: Concrete, t: Step)
    requires AsyncIo.ValidMemory(c.memory) && CanStep(c, t)
    ensures AsyncIo.ValidMemory(TakeStep(c, t).memory)
    ensures Enabled(View(c), t) && View(TakeStep(c, t)) == Do(View(c), t)
  {
    if t.UWrite? {
      WriteRefines(c, t);
    } else if t.WDrain? {
      DrainRefines(c, t);
    } else if IsWorkerStep(t) {
      WorkerRefines(c, t);
    } else {
      UserRefines(c, t);
    }
  }

  lemma WriteRefines(c: Concrete, t: Step)
    requires AsyncIo.ValidMemory(c.memory) && CanStep(c, t) && t.UWrite?
    ensures AsyncIo.ValidMemory(TakeStep(c, t).memory)
    ensures Enabled(View(c), t) && View(TakeStep(c, t)) == Do(View(c), t)
  {
    hide AsyncIo.Pending, AsyncIo.IsBufferSize, AsyncIo.Put;
    AsyncIo.PutAppends(c.memory, t.data);
  }

  lemma DrainRefines(c: Concrete, t: Step)
    requires AsyncIo.ValidMemory(c.memory) && CanStep(c, t) && t.WDrain?
    ensures AsyncIo.ValidMemory(TakeStep(c, t).memory)
    ensures Enabled(View(c), t) && View(TakeStep(c, t)) == Do(View(c), t)
  {
    PendingEmpty(c.memory);
    hide AsyncIo.Pending, AsyncIo.IsBufferSize, AsyncIo.Drained;
    AsyncIo.DrainedDrops(c.memory, Taken(c.memory));
  }

  lemma UserRefines(c: Concrete, t: Step)
    requires AsyncIo.ValidMemory(c.memory) && CanStep(c, t) && !t.UWrite? && !IsWorkerStep(t)
    ensures AsyncIo.ValidMemory(TakeStep(c, t).memory)
    ensures Enabled(View(c), t) && View(TakeStep(c, t)) == Do(View(c), t)
  {
    hide AsyncIo.Pending, AsyncIo.IsBufferSize;
  }

  lemma WorkerRefines(c: Concrete, t: Step)
    requires AsyncIo.ValidMemory(c.memory) && CanStep(c, t) && IsWorkerStep(t) && !t.WDrain?
    ensures AsyncIo.ValidMemory(TakeStep(c, t).memory)
    ensures Enabled(View(c), t) && View(TakeStep(c, t)) == Do(View(c), t)
  {
    PendingEmpty(c.memory);
    hide AsyncIo.Pending, AsyncIo.IsBufferSize;
  }

  lemma {:induction false} ValidThroughout(run: seq<Concrete>, steps: seq<Step>, i: nat)
    requires IsConcreteRun(run, steps) && i < |run|
    ensures AsyncIo.ValidMemory(run[i].memory)
  {
    hide CanStep, TakeStep, Enabled, Do, Init, AsyncIo.IsBufferSize;
    if i > 0 { StepRefines(run[i - 1], steps[i - 1]); }
  }

  ghost function Views(run: seq<Concrete>, steps: seq<Step>): (v: seq<State>)
    requires IsConcreteRun(run, steps)
    ensures |v| == |run|
  {
    seq(|run|, i requires 0 <= i < |run| => ValidThroughout(run, steps, i); View(run[i]))
  }

  /** So every run on the real ring is a run of the protocol. */
  lemma RunRefines(run: seq<Concrete>, steps: seq<Step>)
    requires IsConcreteRun(run, steps)
    ensures IsRun(Views(run, steps), steps)
  {
    hide CanStep, TakeStep, Enabled, Do, AsyncIo.IsBufferSize;
    var v := Views(run, steps);
    PendingEmpty(run[0].memory);
    ValidThroughout(run, steps, 0);
    StartsAlike(run[0]);
    forall i | 0 <= i < |steps| ensures Enabled(v[i], steps[i]) && v[i + 1] == Do(v[i], steps[i]) {
      ValidThroughout(run, steps, i);
      ValidThroughout(run, steps, i + 1);
      StepRefines(run[i], steps[i]);
    }
  }

  lemma StartsAlike(c: Concrete)
    requires AsyncIo.ValidMemory(c.memory) && c.memory.r == c.memory.w && Init(c.threads)
    ensures Init(View(c))
  {
    PendingEmpty(c.memory);
  }

  /** In every interleaving, across wrap-around, doubling and partial drains: file, in-flight buffer
      and the bytes in the ring are what was written, in order. */
  lemma RingBytesConserved(run: seq<Concrete>, steps: seq<Step>, i: nat)
    requires IsConcreteRun(run, steps) && i < |run|
    ensures AsyncIo.ValidMemory(run[i].memory)
    ensures run[i].threads.accepted == run[i].threads.file + run[i].threads.local + AsyncIo.Pending(run[i].memory)
  {
    hide IsConcreteRun, IsRun, AsyncIo.ValidMemory, AsyncIo.Pending;
    ValidThroughout(run, steps, i);
    RunRefines(run, steps);
    BytesConserved(Views(run, steps), steps, i);
  }

  /** When the worker has left the real ring is empty but for what was written afterwards. */
  lemma RingDrained(run: seq<Concrete>, steps: seq<Step>, j: nat)
    requires IsConcreteRun(run, steps) && j < |steps| && steps[j].WExit?
    ensures run[j].memory.r == run[j].memory.w && run[j].threads.file == run[j].threads.accepted
  {
    hide AsyncIo.IsBufferSize;
    RingBytesConserved(run, steps, j);
    PendingEmpty(run[j].memory);
    RunRefines(run, steps);
    RunInv(Views(run, steps), steps, j);
  }
}
