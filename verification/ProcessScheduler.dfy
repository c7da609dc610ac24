/** The scheduler as the kernel runs it, over its linked queues and its growing array. */
module ProcessSchedulers {
  import opened Queues
  import opened Vectors
  import opened Processes
  import opened SchedulerModel

  lemma RotateStep(q: seq<KernelProcess>, ended: seq<int>)
    ensures q == [] ==> Rotate(q, ended) == (q, null)
    ensures q != [] ==>
              Rotate(q, ended) == if q[0].pid in ended then Rotate(q[1..], ended) else (q[1..] + [q[0]], q[0])
  {
  }

  ghost predicate Within(q: seq<KernelProcess>, counted: set<KernelProcess>)
  {
    forall i :: 0 <= i < |q| ==> q[i] in counted
  }

  ghost predicate QueuedIn(s: Scheduler, counted: set<KernelProcess>)
  {
    Within(s.sys, counted) && Within(s.reg, counted)
  }

  lemma {:induction false} RotateWithin(q: seq<KernelProcess>, ended: seq<int>, counted: set<KernelProcess>)
    requires Within(q, counted)
    ensures Within(Rotate(q, ended).0, counted)
    decreases |q|
  {
    if q != [] {
      RotateWithin(q[1..], ended, counted);
    }
  }

  lemma StepQueued(s: Scheduler, e: Event, counted: set<KernelProcess>)
    requires QueuedIn(s, counted) && (e.Add? ==> e.p in counted)
    ensures QueuedIn(Step(s, e), counted)
  {
    RotateWithin(s.sys, s.ended, counted);
    RotateWithin(s.reg, s.ended, counted);
  }

  class ProcessScheduler {
    const systemProcesses: Queue<KernelProcess>
    const regularProcesses: Queue<KernelProcess>
    const canceledProcesses: Vector<int>
    var currentProcess: KernelProcess?

    ghost predicate Valid()
      reads this, systemProcesses, systemProcesses.Repr, regularProcesses, regularProcesses.Repr
      reads canceledProcesses, canceledProcesses.buffer
    {
      && systemProcesses.Valid() && regularProcesses.Valid() && canceledProcesses.Valid()
      && systemProcesses.Repr !! regularProcesses.Repr
      && systemProcesses != regularProcesses
    }

    /** The nodes and the buffer the scheduler writes to. */
    ghost function Footprint(): set<object>
      reads this, systemProcesses, regularProcesses, canceledProcesses
    {
      systemProcesses.Repr + regularProcesses.Repr +
      if canceledProcesses.buffer == null then {} else {canceledProcesses.buffer}
    }

    ghost function State(): Scheduler
      requires Valid()
      reads this, systemProcesses, systemProcesses.Repr, regularProcesses, regularProcesses.Repr
      reads canceledProcesses, canceledProcesses.buffer
    {
      Scheduler(systemProcesses.Contents(), regularProcesses.Contents(), canceledProcesses.Contents(), currentProcess)
    }

    constructor ()
      ensures Valid() && State() == SchedulerModel.START
    {
      systemProcesses := new Queue();
      regularProcesses := new Queue();
      canceledProcesses := new Vector();
      currentProcess := null;
    }

    method Add(process: KernelProcess)
      requires Valid()
      modifies systemProcesses, systemProcesses.Repr, regularProcesses, regularProcesses.Repr
      ensures Valid() && fresh(Footprint() - old(Footprint())) && State() == AddItem(old(State()), process)
    {
      if process.priority == Priority.System {
        systemProcesses.Enqueue(process);
      } else {
        regularProcesses.Enqueue(process);
      }
    }

    method GetNext() returns (process: KernelProcess?)
      ensures process == currentProcess
    {
      process := currentProcess;
    }

    method End(pid: int)
      requires Valid()
      modifies canceledProcesses, canceledProcesses.buffer
      ensures Valid() && fresh(Footprint() - old(Footprint())) && State() == SignalEnd(old(State()), pid)
      ensures canceledProcesses.Contents() == old(canceledProcesses.Contents()) + [pid]
    {
      canceledProcesses.PushBack(pid);
    }

    method IsCanceled(pid: int) returns (b: bool)
      requires canceledProcesses.Valid()
      ensures b <==> pid in canceledProcesses.Contents()
    {
      var i := 0;
      while i < canceledProcesses.size
        invariant 0 <= i <= canceledProcesses.size
        invariant pid !in canceledProcesses.Contents()[..i]
      {
        var id := canceledProcesses.At(i);
        if pid == id {
          return true;
        }
        i := i + 1;
      }
      return false;
    }

    /** Drops ended processes from the front; the first live one is counted and goes back.
        `counted` names the processes whose counters may change. */
    method FindProcess(queue: Queue<KernelProcess>, ghost counted: set<KernelProcess>) returns (next: KernelProcess?)
      requires queue.Valid() && canceledProcesses.Valid()
      requires Within(queue.Contents(), counted)
      modifies queue, queue.Repr, counted`timesRan
      ensures queue.Valid() && fresh(queue.Repr - old(queue.Repr))
      ensures (queue.Contents(), next) == Rotate(old(queue.Contents()), canceledProcesses.Contents())
      ensures next != null ==> next in counted
      ensures forall p :: p in counted ==> p.timesRan == old(p.timesRan) + if p == next then 1 else 0
    {
      hide Rotate, Queue.IsEmpty, Queue.Top, Queue.LinkOk, Queue.Contents, Vector.Valid;
      next := null;
      ghost var ended := canceledProcesses.Contents();
      ghost var contents := queue.Contents();
      while !queue.IsEmpty()
        invariant queue.Valid() && next == null && queue.Repr == old(queue.Repr)
        invariant canceledProcesses.Valid() && canceledProcesses.Contents() == ended
        invariant Within(queue.Contents(), counted)
        invariant Rotate(contents, ended) == Rotate(queue.Contents(), ended)
        invariant forall p :: p in counted ==> p.timesRan == old(p.timesRan)
        decreases |queue.Contents()|
      {
        var proc := queue.Top();
        RotateStep(queue.Contents(), ended);
        var canceled := IsCanceled(proc.pid);
        if canceled {
          var dropped := queue.Dequeue();
          continue;
        }
        next := Requeue(queue);
        CountRun(next, queue);
        return;
      }
      RotateStep(queue.Contents(), ended);
    }

    /** The front process goes to the back. */
    method Requeue(queue: Queue<KernelProcess>) returns (front: KernelProcess)
      requires queue.Valid() && canceledProcesses.Valid() && queue.Contents() != []
      modifies queue, queue.Repr
      ensures queue.Valid() && fresh(queue.Repr - old(queue.Repr))
      ensures front == old(queue.Contents())[0]
      ensures queue.Contents() == old(queue.Contents())[1..] + [front]
      ensures canceledProcesses.Valid() && canceledProcesses.Contents() == old(canceledProcesses.Contents())
    {
      var taken := queue.Dequeue();
      front := taken.value;
      queue.Enqueue(front);
    }

    method CountRun(process: KernelProcess, ghost queue: Queue<KernelProcess>)
      requires queue.Valid() && canceledProcesses.Valid()
      modifies process`timesRan
      ensures queue.Valid() && queue.Contents() == old(queue.Contents()) && queue.Repr == old(queue.Repr)
      ensures canceledProcesses.Valid() && canceledProcesses.Contents() == old(canceledProcesses.Contents())
      ensures process.timesRan == old(process.timesRan) + 1
    {
      process.timesRan := process.timesRan + 1;
    }

    method ChooseNext(ghost counted: set<KernelProcess>)
      requires Valid() && QueuedIn(State(), counted)
      modifies this`currentProcess, systemProcesses, systemProcesses.Repr, regularProcesses, regularProcesses.Repr
      modifies counted`timesRan
      ensures Valid() && fresh(Footprint() - old(Footprint())) && State() == CalculateNext(old(State()))
      ensures forall p :: p in counted ==> p.timesRan == old(p.timesRan) + if p == currentProcess then 1 else 0
    {
      hide Rotate, Queue.Valid, Vector.Valid;
      var next := FindProcess(systemProcesses, counted);
      if next == null {
        next := FindProcess(regularProcesses, counted);
      }
      currentProcess := next;
    }

    /** One event; only a tick chooses. */
    method Handle(e: Event, ghost counted: set<KernelProcess>) returns (chosen: seq<KernelProcess?>)
      requires Valid() && QueuedIn(State(), counted) && (e.Add? ==> e.p in counted)
      modifies this`currentProcess, systemProcesses, regularProcesses, canceledProcesses, Footprint()
      modifies counted`timesRan
      ensures Valid() && fresh(Footprint() - old(Footprint())) && State() == Step(old(State()), e)
      ensures chosen == if e.Tick? then [State().current] else []
      ensures forall p :: p in counted ==> p.timesRan == old(p.timesRan) + multiset(chosen)[p]
    {
      match e
      case Add(p) =>
        Add(p);
        chosen := [];
      case End(pid) =>
        End(pid);
        chosen := [];
      case Tick =>
        ChooseNext(counted);
        var p := GetNext();
        chosen := [p];
    }

    /** A whole run: the ticks choose what the model says, and `timesRan` counts how often. */
    method Perform(es: seq<Event>, ghost counted: set<KernelProcess>) returns (chosen: seq<KernelProcess?>)
      requires Valid() && QueuedIn(State(), counted)
      requires forall i :: 0 <= i < |es| && es[i].Add? ==> es[i].p in counted
      modifies this`currentProcess, systemProcesses, regularProcesses, canceledProcesses, Footprint()
      modifies counted`timesRan
      ensures Valid() && State() == Run(old(State()), es) && chosen == Choices(old(State()), es)
      ensures forall p :: p in counted ==> p.timesRan == old(p.timesRan) + multiset(chosen)[p]
      decreases |es|
    {
      hide Step, Valid, QueuedIn;
      if es == [] {
        return [];
      }
      StepQueued(State(), es[0], counted);
      var first := Handle(es[0], counted);
      var later := Perform(es[1..], counted);
      chosen := first + later;
    }
  }
}
