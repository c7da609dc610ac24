/**
 The process scheduler as a value: two queues, the pids that have ended, and the process
 chosen last.
 */
module SchedulerModel {
  import opened Processes

  datatype Scheduler = Scheduler(
    sys: seq<KernelProcess>, reg: seq<KernelProcess>, ended: seq<int>, current: KernelProcess?)

  /** `_FindProcess`: ended processes at the front are dropped, and the first live one goes
      to the back. */
  function Rotate(q: seq<KernelProcess>, ended: seq<int>): (seq<KernelProcess>, KernelProcess?)
    decreases |q|
  {
    if q == [] then (q, null)
    else if q[0].pid in ended then Rotate(q[1..], ended)
    else (q[1..] + [q[0]], q[0])
  }

  function AddItem(s: Scheduler, p: KernelProcess): Scheduler
  {
    if p.priority == System then s.(sys := s.sys + [p]) else s.(reg := s.reg + [p])
  }

  function SignalEnd(s: Scheduler, pid: int): Scheduler
  {
    s.(ended := s.ended + [pid])
  }

  function CalculateNext(s: Scheduler): Scheduler
  {
    var (sys, p) := Rotate(s.sys, s.ended);
    if p != null then s.(sys := sys, current := p)
    else
      var (reg, r) := Rotate(s.reg, s.ended);
      s.(sys := sys, reg := reg, current := r)
  }

  datatype Event = Add(p: KernelProcess) | End(pid: int) | Tick

  function Step(s: Scheduler, e: Event): Scheduler
  {
    match e
    case Add(p) => AddItem(s, p)
    case End(pid) => SignalEnd(s, pid)
    case Tick => CalculateNext(s)
  }

  function Run(s: Scheduler, es: seq<Event>): Scheduler
    decreases |es|
  {
    if es == [] then s else Run(Step(s, es[0]), es[1..])
  }

  /** What each tick of the run chooses, in order. */
  function Choices(s: Scheduler, es: seq<Event>): seq<KernelProcess?>
    decreases |es|
  {
    if es == [] then []
    else
      var t := Step(s, es[0]);
      (if es[0].Tick? then [t.current] else []) + Choices(t, es[1..])
  }

  /** One more event is one more step, and one more choice if it is a tick. */
  lemma {:induction false} OneMoreEvent(s: Scheduler, es: seq<Event>, e: Event)
    ensures Run(s, es + [e]) == Step(Run(s, es), e)
    ensures Choices(s, es + [e]) ==
            Choices(s, es) + if e == Tick then [CalculateNext(Run(s, es)).current] else []
    decreases |es|
  {
    if es == [] {
      assert [e][1..] == [] && [] + [e] == [e];
    } else {
      assert (es + [e])[1..] == es[1..] + [e];
      OneMoreEvent(Step(s, es[0]), es[1..], e);
    }
  }

  // ---------- live processes ----------

  /** The queued processes that have not ended, in queue order. */
  function Live(q: seq<KernelProcess>, ended: seq<int>): seq<KernelProcess>
    decreases |q|
  {
    if q == [] then []
    else (if q[0].pid in ended then [] else [q[0]]) + Live(q[1..], ended)
  }

  lemma {:induction false} LiveConcat(a: seq<KernelProcess>, b: seq<KernelProcess>, ended: seq<int>)
    ensures Live(a + b, ended) == Live(a, ended) + Live(b, ended)
    decreases |a|
  {
    if a == [] {
      assert a + b == b;
    } else {
      assert (a + b)[1..] == a[1..] + b;
      LiveConcat(a[1..], b, ended);
    }
  }

  lemma {:induction false} LiveMembers(q: seq<KernelProcess>, ended: seq<int>, p: KernelProcess)
    ensures p in Live(q, ended) <==> p in q && p.pid !in ended
    decreases |q|
  {
    if q != [] {
      LiveMembers(q[1..], ended, p);
    }
  }

  function Turned<T>(s: seq<T>): seq<T>
  {
    if s == [] then s else s[1..] + [s[0]]
  }

  /** Finding a process turns the live queue by one place and yields its first member. */
  lemma {:induction false} RotateTurns(q: seq<KernelProcess>, ended: seq<int>)
    ensures var (r, p) := Rotate(q, ended); var live := Live(q, ended);
            && Live(r, ended) == Turned(live)
            && (live == [] ==> p == null && r == [])
            && (live != [] ==> p == live[0])
    decreases |q|
  {
    if q != [] {
      if q[0].pid in ended {
        RotateTurns(q[1..], ended);
      } else {
        LiveConcat(q[1..], [q[0]], ended);
        assert Live([q[0]], ended) == [q[0]];
        assert Live(q, ended)[1..] == Live(q[1..], ended);
      }
    }
  }

  /** The first process that has not ended goes to the back, and those before it leave. */
  lemma {:induction false} RotateExact(q: seq<KernelProcess>, ended: seq<int>, k: nat)
    requires k < |q| && q[k].pid !in ended && forall j :: 0 <= j < k ==> q[j].pid in ended
    ensures Rotate(q, ended) == (q[k + 1..] + [q[k]], q[k])
  {
    if k > 0 {
      RotateExact(q[1..], ended, k - 1);
      assert q[1..][k..] == q[k + 1..];
    }
  }

  /** The system queue comes first: a tick chooses its first live member, or else the first
      live regular process, and turns that queue alone. */
  lemma TickChooses(s: Scheduler)
    ensures var t := CalculateNext(s);
            var sys := Live(s.sys, s.ended); var reg := Live(s.reg, s.ended);
            && t.ended == s.ended && (sys == [] ==> t.sys == [])
            && Live(t.sys, t.ended) == Turned(sys)
            && Live(t.reg, t.ended) == (if sys == [] then Turned(reg) else reg)
            && t.current == (if sys != [] then sys[0] else if reg != [] then reg[0] else null)
  {
    RotateTurns(s.sys, s.ended);
    RotateTurns(s.reg, s.ended);
  }

  // ---------- safety over runs ----------

  /** Main result: the ended processes are those ended before and those whose end was signalled
      in the run. */
  lemma {:induction false} EndedExactly(s: Scheduler, es: seq<Event>, pid: int)
    ensures pid in Run(s, es).ended <==> pid in s.ended || End(pid) in es
    decreases |es|
  {
    if es != [] {
      EndedExactly(Step(s, es[0]), es[1..], pid);
      assert End(pid) in es <==> es[0] == End(pid) || End(pid) in es[1..];
    }
  }

  /** Once the end of a process is signalled no later tick chooses it, whatever happens in
      between. */
  lemma EndedIsNeverChosen(s: Scheduler, es: seq<Event>, pid: int)
    requires pid in s.ended || End(pid) in es
    ensures var t := CalculateNext(Run(s, es)); t.current == null || t.current.pid != pid
  {
    EndedExactly(s, es, pid);
    var t := Run(s, es);
    TickChooses(t);
    if CalculateNext(t).current != null {
      var p := CalculateNext(t).current;
      LiveMembers(t.sys, t.ended, p);
      LiveMembers(t.reg, t.ended, p);
    }
  }

  const START: Scheduler := Scheduler([], [], [], null)

  /** System processes and only they are in the system queue. */
  ghost predicate ByPriority(s: Scheduler)
  {
    && (forall p :: p in s.sys ==> p.priority == System)
    && (forall p :: p in s.reg ==> p.priority != System)
  }

  lemma {:induction false} RotateMembers(q: seq<KernelProcess>, ended: seq<int>)
    ensures forall p :: p in Rotate(q, ended).0 ==> p in q
    decreases |q|
  {
    if q != [] {
      RotateMembers(q[1..], ended);
    }
  }

  lemma {:induction false} RunByPriority(s: Scheduler, es: seq<Event>)
    requires ByPriority(s)
    ensures ByPriority(Run(s, es))
    decreases |es|
  {
    if es != [] {
      RotateMembers(s.sys, s.ended);
      RotateMembers(s.reg, s.ended);
      RunByPriority(Step(s, es[0]), es[1..]);
    }
  }

  /** After any run a process that is not a system process is chosen only when every queued
      system process has ended, and nothing is chosen only when every queued process has. */
  lemma SystemFirst(es: seq<Event>)
    ensures var t := Run(START, es); var c := CalculateNext(t).current;
            && (c == null || c.priority != System ==> forall p :: p in t.sys ==> End(p.pid) in es)
            && (c == null ==> forall p :: p in t.reg ==> End(p.pid) in es)
            && (c != null ==> End(c.pid) !in es && (c in t.sys || c in t.reg))
  {
    RunByPriority(START, es);
    var t := Run(START, es);
    TickChooses(t);
    LiveIsEmpty(t.sys, t.ended);
    LiveIsEmpty(t.reg, t.ended);
    forall pid
      ensures pid in t.ended <==> End(pid) in es
    {
      EndedExactly(START, es, pid);
    }
    var c := CalculateNext(t).current;
    if c != null {
      LiveMembers(t.sys, t.ended, c);
      LiveMembers(t.reg, t.ended, c);
    }
  }

  lemma LiveIsEmpty(q: seq<KernelProcess>, ended: seq<int>)
    ensures Live(q, ended) == [] ==> forall p :: p in q ==> p.pid in ended
  {
    forall p | p in q && Live(q, ended) == []
      ensures p.pid in ended
    {
      LiveMembers(q, ended, p);
    }
  }

  ghost predicate EndedWithin(a: seq<int>, b: seq<int>)
  {
    forall pid :: pid in a ==> pid in b
  }

  lemma {:induction false} RotateKeeps(q: seq<KernelProcess>, ended: seq<int>, p: KernelProcess)
    requires p.pid !in ended
    ensures multiset(Rotate(q, ended).0)[p] == multiset(q)[p]
    decreases |q|
  {
    if q != [] {
      assert q == [q[0]] + q[1..];
      if q[0].pid in ended {
        RotateKeeps(q[1..], ended, p);
      }
    }
  }

  lemma StepConserves(s: Scheduler, e: Event, p: KernelProcess)
    requires p.pid !in s.ended && e != End(p.pid)
    ensures var t := Step(s, e); var system := p.priority == System;
            && p.pid !in t.ended
            && multiset(t.sys)[p] == multiset(s.sys)[p] + (if e == Add(p) && system then 1 else 0)
            && multiset(t.reg)[p] == multiset(s.reg)[p] + (if e == Add(p) && !system then 1 else 0)
  {
    RotateKeeps(s.sys, s.ended, p);
    RotateKeeps(s.reg, s.ended, p);
  }

  /** Over any run, a process whose end is not signalled is queued as often as before plus as
      often as it was added, in the queue of its priority: ticks neither lose nor invent one. */
  lemma {:induction false} RunConserves(s: Scheduler, es: seq<Event>, p: KernelProcess)
    requires p.pid !in s.ended && End(p.pid) !in es
    ensures var t := Run(s, es); var adds, system := multiset(es)[Add(p)], p.priority == System;
            && multiset(t.sys)[p] == multiset(s.sys)[p] + (if system then adds else 0)
            && multiset(t.reg)[p] == multiset(s.reg)[p] + (if system then 0 else adds)
    decreases |es|
  {
    hide Step;
    if es != [] {
      assert es == [es[0]] + es[1..];
      assert es[0] in es;
      StepConserves(s, es[0], p);
      RunConserves(Step(s, es[0]), es[1..], p);
    }
  }

  // ---------- fairness over runs ----------

  function Ticks(es: seq<Event>): nat
  {
    if es == [] then 0 else (if es[0].Tick? then 1 else 0) + Ticks(es[1..])
  }

  /** No system process arrives, and `p` does not end. */
  ghost predicate Undisturbed(es: seq<Event>, p: KernelProcess)
  {
    forall i :: 0 <= i < |es| ==>
      && (es[i].Add? ==> es[i].p.priority != System)
      && (es[i].End? ==> es[i].pid != p.pid)
  }

  lemma {:induction false} FewerLive(q: seq<KernelProcess>, ended: seq<int>, later: seq<int>)
    requires EndedWithin(ended, later)
    ensures |Live(q, later)| <= |Live(q, ended)|
    decreases |q|
  {
    if q != [] {
      FewerLive(q[1..], ended, later);
    }
  }

  /** The queued process at index `i`, after one rotation: chosen, or one live place nearer. */
  lemma {:induction false} RotateAdvances(q: seq<KernelProcess>, ended: seq<int>, i: nat) returns (j: nat)
    requires i < |q| && q[i].pid !in ended
    ensures var (r, p) := Rotate(q, ended);
            if Live(q[..i], ended) == [] then p == q[i]
            else j < |r| && r[j] == q[i] && |Live(r[..j], ended)| == |Live(q[..i], ended)| - 1
    decreases |q|
  {
    j := 0;
    if i > 0 {
      assert q[..i][1..] == q[1..][..i - 1];
      if q[0].pid in ended {
        j := RotateAdvances(q[1..], ended, i - 1);
      } else {
        j := i - 1;
        assert (q[1..] + [q[0]])[..i - 1] == q[1..][..i - 1];
      }
    }
  }

  /** Main result, bounded waiting: with no live system process, a live regular process with
      k live ones before it is chosen by the (k+1)-th tick at the latest, whatever regular
      processes arrive and other processes end in between. */
  lemma {:induction false} BoundedWaiting(s: Scheduler, es: seq<Event>, i: nat)
    requires i < |s.reg| && s.reg[i].pid !in s.ended
    requires Live(s.sys, s.ended) == [] && Undisturbed(es, s.reg[i])
    requires Ticks(es) > |Live(s.reg[..i], s.ended)|
    ensures s.reg[i] in Choices(s, es)
    decreases |es|
  {
    var p := s.reg[i];
    var t := Step(s, es[0]);
    var rest := es[1..];
    assert Undisturbed(rest, p);
    match es[0]
    case Add(x) =>
      assert t.reg[..i] == s.reg[..i];
      BoundedWaiting(t, rest, i);
    case End(pid) =>
      FewerLive(s.reg[..i], s.ended, t.ended);
      FewerLive(s.sys, s.ended, t.ended);
      BoundedWaiting(t, rest, i);
    case Tick =>
      RotateTurns(s.sys, s.ended);
      var j := RotateAdvances(s.reg, s.ended, i);
      if Live(s.reg[..i], s.ended) != [] {
        BoundedWaiting(t, rest, j);
      }
  }

  /** The same for the system queue, which regular processes do not delay at all: a live system
      process with k live ones before it is chosen by the (k+1)-th tick, whatever arrives and
      whatever other processes end. */
  lemma {:induction false} SystemBoundedWaiting(s: Scheduler, es: seq<Event>, i: nat)
    requires i < |s.sys| && s.sys[i].pid !in s.ended && End(s.sys[i].pid) !in es
    requires Ticks(es) > |Live(s.sys[..i], s.ended)|
    ensures s.sys[i] in Choices(s, es)
    decreases |es|
  {
    var t := Step(s, es[0]);
    var rest := es[1..];
    assert es[0] in es && forall e :: e in rest ==> e in es;
    match es[0]
    case Add(x) =>
      assert t.sys[..i] == s.sys[..i];
      SystemBoundedWaiting(t, rest, i);
    case End(pid) =>
      FewerLive(s.sys[..i], s.ended, t.ended);
      SystemBoundedWaiting(t, rest, i);
    case Tick =>
      RotateTurns(s.sys, s.ended);
      var j := RotateAdvances(s.sys, s.ended, i);
      LiveMembers(s.sys, s.ended, s.sys[i]);
      if Live(s.sys[..i], s.ended) != [] {
        SystemBoundedWaiting(t, rest, j);
      }
  }

  function TickN(s: Scheduler, n: nat): Scheduler
  {
    if n == 0 then s else CalculateNext(TickN(s, n - 1))
  }

  /** Round robin: left alone, n live regular processes are chosen once each in queue order
      by n ticks, which bring the live queue back to where it was. */
  lemma {:induction false} RoundRobin(s: Scheduler, n: nat)
    requires Live(s.sys, s.ended) == [] && n <= |Live(s.reg, s.ended)|
    ensures var t := TickN(s, n); var live := Live(s.reg, s.ended);
            && t.ended == s.ended && Live(t.sys, t.ended) == []
            && Live(t.reg, t.ended) == live[n..] + live[..n]
            && (n > 0 ==> t.current == live[n - 1])
    decreases n
  {
    hide CalculateNext, Live;
    var live := Live(s.reg, s.ended);
    if n == 0 {
      assert live[0..] + live[..0] == live;
    } else {
      RoundRobin(s, n - 1);
      TickChooses(TickN(s, n - 1));
      TurnedTwice(live, n);
    }
  }

  lemma TurnedTwice<T>(s: seq<T>, n: nat)
    requires 0 < n <= |s|
    ensures Turned(s[n - 1..] + s[..n - 1]) == s[n..] + s[..n]
    ensures (s[n - 1..] + s[..n - 1])[0] == s[n - 1]
  {
    assert s[n - 1..][1..] == s[n..];
    assert s[..n] == s[..n - 1] + [s[n - 1]];
  }
}
