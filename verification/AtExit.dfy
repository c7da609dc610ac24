/**
 Destructor registration: a table of 128 entries that only grows, and finalization from its
 end.  Function 0 is the null pointer.  Destructors do not register or finalize themselves.
 */
module AtExit {

  const MAX_FUNCS: int := 128

  datatype Entry = Entry(func: int, obj: int, dso: int)

  /** The entries in use; an entry's index is its place in the order of registration. */
  type Table = seq<Entry>

  function Register(t: Table, e: Entry): (Table, int)
  {
    if |t| >= MAX_FUNCS then (t, -1) else (t + [e], 0)
  }

  predicate Called(t: Table, i: int, f: int)
  {
    0 <= i < |t| && t[i].func != 0 && (f == 0 || t[i].func == f)
  }

  /** The entries below `n` that finalizing `f` runs, from the highest index down. */
  function Calls(t: Table, n: nat, f: int): (ids: seq<nat>)
    requires n <= |t|
  {
    if n == 0 then []
    else (if Called(t, n - 1, f) then [n - 1] else []) + Calls(t, n - 1, f)
  }

  /** Finalizing a function unsets its entries; the null form unsets none. */
  function Unset(t: Table, f: int): (r: Table)
    ensures |r| == |t|
  {
    seq(|t|, i requires 0 <= i < |t| => if f != 0 && t[i].func == f then t[i].(func := 0) else t[i])
  }

  datatype Event = Registration(e: Entry) | Finalize(f: int)

  function Step(t: Table, ev: Event): Table
  {
    match ev
    case Registration(e) => Register(t, e).0
    case Finalize(f) => Unset(t, f)
  }

  function Runs(t: Table, ev: Event): seq<nat>
  {
    match ev
    case Registration(e) => []
    case Finalize(f) => Calls(t, |t|, f)
  }

  /** Every destructor call of a trace, in order, by entry index. */
  function Log(t: Table, evs: seq<Event>): seq<nat>
    decreases evs
  {
    if evs == [] then [] else Runs(t, evs[0]) + Log(Step(t, evs[0]), evs[1..])
  }

  function After(t: Table, evs: seq<Event>): Table
    decreases evs
  {
    if evs == [] then t else After(Step(t, evs[0]), evs[1..])
  }

  // ---------- one finalization ----------

  /** Exactly the matching entries that are still set run, the latest registered first. */
  lemma {:induction false} CallsExact(t: Table, n: nat, f: int)
    requires n <= |t|
    ensures forall i :: i in Calls(t, n, f) <==> i < n && Called(t, i, f)
    ensures forall a, b :: 0 <= a < b < |Calls(t, n, f)| ==> Calls(t, n, f)[a] > Calls(t, n, f)[b]
  {
    if n > 0 {
      CallsExact(t, n - 1, f);
      var rest := Calls(t, n - 1, f);
      assert forall a :: 0 <= a < |rest| ==> rest[a] in rest;
    }
  }

  // ---------- traces ----------

  ghost predicate Finalizes(evs: seq<Event>, f: int)
  {
    exists k :: 0 <= k < |evs| && evs[k] == Finalize(f)
  }

  /** An entry is still set exactly while its function has not been finalized since. */
  lemma {:induction false} SetUntilFinalized(t: Table, evs: seq<Event>, i: nat)
    requires i < |t| && t[i].func != 0
    ensures i < |After(t, evs)|
    ensures After(t, evs)[i] == if Finalizes(evs, t[i].func) then t[i].(func := 0) else t[i]
    decreases evs
  {
    if evs != [] {
      var rest := evs[1..];
      var f := t[i].func;
      FinalizesFirst(evs, f);
      var u := Step(t, evs[0]);
      if evs[0] == Finalize(f) {
        UnsetStays(u, rest, i);
      } else {
        SetUntilFinalized(u, rest, i);
      }
    }
  }

  lemma {:induction false} UnsetStays(t: Table, evs: seq<Event>, i: nat)
    requires i < |t| && t[i].func == 0
    ensures i < |After(t, evs)| && After(t, evs)[i] == t[i]
    ensures i !in Log(t, evs)
    decreases evs
  {
    if evs != [] {
      UnsetStays(Step(t, evs[0]), evs[1..], i);
      CallsExact(t, |t|, if evs[0].Finalize? then evs[0].f else 0);
    }
  }

  /** Main result: entry `i`, with function `f`, is among the calls of `__cxa_finalize(f)`
      after any trace, and among those of the null form, exactly when the trace has not
      finalized `f`; and after that call it never runs again, not even under the null form. */
  lemma RunsOnceByName(t: Table, evs: seq<Event>, later: seq<Event>, i: nat)
    requires i < |t| && t[i].func != 0
    ensures var f := t[i].func; var u := After(t, evs);
            && (i in Runs(u, Finalize(f)) <==> !Finalizes(evs, f))
            && (i in Runs(u, Finalize(0)) <==> !Finalizes(evs, f))
            && i !in Log(Unset(u, f), later)
  {
    var f := t[i].func;
    var u := After(t, evs);
    SetUntilFinalized(t, evs, i);
    CallsExact(u, |u|, f);
    CallsExact(u, |u|, 0);
    UnsetStays(Unset(u, f), later, i);
  }

  ghost predicate NoRepeats(ids: seq<nat>)
  {
    forall a, b :: 0 <= a < b < |ids| ==> ids[a] != ids[b]
  }

  lemma NoRepeatsConcat(x: seq<nat>, y: seq<nat>)
    requires NoRepeats(x)
    ensures NoRepeats(x + y) <==> NoRepeats(y) && forall i :: i in x ==> i !in y
  {
    if NoRepeats(y) && forall i :: i in x ==> i !in y {
      forall a, b | 0 <= a < b < |x + y|
        ensures (x + y)[a] != (x + y)[b]
      {
        if a < |x| && b >= |x| {
          assert x[a] in x && y[b - |x|] in y;
        }
      }
    }
    if NoRepeats(x + y) {
      forall a, b | 0 <= a < b < |y|
        ensures y[a] != y[b]
      {
        assert (x + y)[|x| + a] != (x + y)[|x| + b];
      }
    }
    if exists i :: i in x && i in y {
      var i :| i in x && i in y;
      var a :| 0 <= a < |x| && x[a] == i;
      var b :| 0 <= b < |y| && y[b] == i;
      assert (x + y)[a] == (x + y)[|x| + b];
    }
  }

  lemma FinalizesFirst(evs: seq<Event>, f: int)
    requires evs != []
    ensures Finalizes(evs, f) <==> evs[0] == Finalize(f) || Finalizes(evs[1..], f)
  {
    if Finalizes(evs, f) {
      var k :| 0 <= k < |evs| && evs[k] == Finalize(f);
      assert k > 0 ==> evs[1..][k - 1] == Finalize(f);
    }
    if Finalizes(evs[1..], f) {
      var k :| 0 <= k < |evs[1..]| && evs[1..][k] == Finalize(f);
      assert evs[k + 1] == Finalize(f);
    }
  }

  /** A set entry runs in a trace exactly when the trace finalizes its function or everything. */
  lemma {:induction false} RunsExactlyWhenFinalized(t: Table, evs: seq<Event>, i: nat)
    requires i < |t| && t[i].func != 0
    ensures i in Log(t, evs) <==> Finalizes(evs, 0) || Finalizes(evs, t[i].func)
    decreases evs
  {
    if evs != [] {
      var f := t[i].func;
      var u := Step(t, evs[0]);
      FinalizesFirst(evs, 0);
      FinalizesFirst(evs, f);
      if evs[0].Finalize? {
        CallsExact(t, |t|, evs[0].f);
      }
      if evs[0] != Finalize(f) {
        RunsExactlyWhenFinalized(u, evs[1..], i);
      }
    }
  }

  /** Whenever the trace uses the null form, no entry then set is finalized again after it,
      by name or by another null form. */
  ghost predicate NullFormIsLastFor(t: Table, evs: seq<Event>)
    decreases evs
  {
    evs == [] ||
    (&& (evs[0] == Finalize(0) ==>
           forall i :: 0 <= i < |t| && t[i].func != 0 ==>
             !Finalizes(evs[1..], 0) && !Finalizes(evs[1..], t[i].func))
     && NullFormIsLastFor(Step(t, evs[0]), evs[1..]))
  }

  /** Main result: no destructor runs twice in a trace exactly when each null form in it comes
      last for the entries it runs. */
  lemma {:induction false} NothingRunsTwiceExactlyWhen(t: Table, evs: seq<Event>)
    ensures NoRepeats(Log(t, evs)) <==> NullFormIsLastFor(t, evs)
    decreases evs
  {
    if evs != [] {
      var rest := evs[1..];
      var u := Step(t, evs[0]);
      var now, later := Runs(t, evs[0]), Log(u, rest);
      NothingRunsTwiceExactlyWhen(u, rest);
      RunsOnceAtATime(t, evs[0]);
      NoRepeatsConcat(now, later);
      if evs[0] == Finalize(0) {
        NullFormThenLater(t, rest);
      } else {
        NamedFormThenLater(t, evs[0], rest);
      }
    }
  }

  lemma RunsOnceAtATime(t: Table, ev: Event)
    ensures NoRepeats(Runs(t, ev))
  {
    if ev.Finalize? {
      CallsExact(t, |t|, ev.f);
    }
  }

  lemma NamedFormThenLater(t: Table, ev: Event, later: seq<Event>)
    requires ev != Finalize(0)
    ensures forall i :: i in Runs(t, ev) ==> i !in Log(Step(t, ev), later)
  {
    if ev.Finalize? {
      CallsExact(t, |t|, ev.f);
      forall i | i in Runs(t, ev)
        ensures i !in Log(Step(t, ev), later)
      {
        UnsetStays(Unset(t, ev.f), later, i);
      }
    }
  }

  lemma NullFormThenLater(t: Table, later: seq<Event>)
    ensures Step(t, Finalize(0)) == t
    ensures (forall i :: i in Runs(t, Finalize(0)) ==> i !in Log(t, later)) <==>
            (forall i :: 0 <= i < |t| && t[i].func != 0 ==> !Finalizes(later, 0) && !Finalizes(later, t[i].func))
  {
    assert Unset(t, 0) == t;
    CallsExact(t, |t|, 0);
    forall i | 0 <= i < |t| && t[i].func != 0
      ensures i in Runs(t, Finalize(0))
      ensures i in Log(t, later) <==> Finalizes(later, 0) || Finalizes(later, t[i].func)
    {
      RunsExactlyWhenFinalized(t, later, i);
    }
  }

  lemma NullFormLog(t: Table, later: seq<Event>)
    ensures Step(t, Finalize(0)) == t
    ensures Log(t, [Finalize(0)] + later) == Calls(t, |t|, 0) + Log(t, later)
    ensures NullFormIsLastFor(t, [Finalize(0)] + later) <==>
            && NullFormIsLastFor(t, later)
            && forall i :: 0 <= i < |t| && t[i].func != 0 ==> !Finalizes(later, 0) && !Finalizes(later, t[i].func)
  {
    hide Calls;
    assert Unset(t, 0) == t;
    assert ([Finalize(0)] + later)[1..] == later;
  }

  /** The null form leaves every entry set: called again it runs the same destructors again,
      so a repeat is harmless exactly when no entry is set. */
  lemma NullFormRepeats(t: Table)
    ensures Step(t, Finalize(0)) == t
    ensures Log(t, [Finalize(0)] + [Finalize(0)]) == Calls(t, |t|, 0) + Calls(t, |t|, 0)
    ensures NoRepeats(Log(t, [Finalize(0)] + [Finalize(0)])) <==> forall i :: 0 <= i < |t| ==> t[i].func == 0
  {
    hide Calls, Log, NullFormIsLastFor;
    NullFormLog(t, [Finalize(0)]);
    NullFormLog(t, []);
    LogOfNothing(t);
    assert [Finalize(0)] + [] == [Finalize(0)];
    assert Calls(t, |t|, 0) + [] == Calls(t, |t|, 0);
    assert Finalizes([Finalize(0)], 0) by { assert [Finalize(0)][0] == Finalize(0); }
    NothingRunsTwiceExactlyWhen(t, [Finalize(0)] + [Finalize(0)]);
  }

  lemma LogOfNothing(t: Table)
    ensures Log(t, []) == [] && NullFormIsLastFor(t, [])
  {
  }

  /** The failure by name: an entry run by the null form runs again when its function is
      finalized afterwards. */
  lemma NamedFormAfterNullRepeats(e: Entry)
    requires e.func != 0
    ensures Log([], [Registration(e), Finalize(0), Finalize(e.func)]) == [0, 0]
  {
    var evs := [Registration(e), Finalize(0), Finalize(e.func)];
    var t := [e];
    assert evs[1..] == [Finalize(0), Finalize(e.func)];
    assert evs[1..][1..] == [Finalize(e.func)];
    assert evs[1..][1..][1..] == [];
    assert Step([], evs[0]) == t && Unset(t, 0) == t;
    assert Calls(t, 1, 0) == [0] + Calls(t, 0, 0) == [0];
    assert Calls(t, 1, e.func) == [0] + Calls(t, 0, e.func) == [0];
    assert Log(t, evs[1..][1..]) == [0] + [];
    assert Log(t, evs[1..]) == [0] + [0];
  }

  // ---------- which functions, on which objects ----------

  /** What a trace registers, in order, whether or not there is room. */
  function Registered(evs: seq<Event>): seq<Entry>
  {
    if evs == [] then [] else (if evs[0].Registration? then [evs[0].e] else []) + Registered(evs[1..])
  }

  /** The table after a trace is what was there followed by what was registered, up to 128
      entries: object and handle as given, and the function as given or unset. */
  lemma {:induction false} EntriesAsRegistered(t: Table, evs: seq<Event>, j: nat)
    requires |t| <= 128
    ensures var all, u := t + Registered(evs), After(t, evs);
            && |u| == (if |all| <= 128 then |all| else 128)
            && (j < |u| ==>
                  && u[j].obj == all[j].obj && u[j].dso == all[j].dso
                  && (u[j].func == all[j].func || u[j].func == 0))
    decreases evs
  {
    if evs != [] {
      StepEntry(t, evs[0], j);
      LaterEntry(t, evs, j);
      EntriesAsRegistered(Step(t, evs[0]), evs[1..], j);
    }
  }

  lemma {:induction false} RegistrationsAppend(t: Table, evs: seq<Event>)
    requires |t| + |evs| <= 128
    requires forall k :: 0 <= k < |evs| ==> evs[k].Registration?
    ensures After(t, evs) == t + Registered(evs) && |Registered(evs)| == |evs|
    ensures forall k :: 0 <= k < |evs| ==> Registered(evs)[k] == evs[k].e
    decreases evs
  {
    if evs == [] {
      assert t + [] == t;
    } else {
      RegisteredFirst(evs);
      RegistrationsAppend(Step(t, evs[0]), evs[1..]);
      hide Registered;
      var first, later := [evs[0].e], Registered(evs[1..]);
      assert (t + first) + later == t + (first + later);
    }
  }

  /** From the 129th on, a registration changes nothing and answers -1. */
  lemma RegisterExactlyWhenRoom(t: Table, e: Entry)
    requires |t| <= 128
    ensures var (u, r) := Register(t, e);
            && (|t| < 128 ==> r == 0 && |u| == |t| + 1 && u[..|t|] == t && u[|t|] == e)
            && (|t| == 128 ==> r == -1 && u == t)
  {
  }

  datatype Call = Call(func: int, obj: int)

  /** The calls made for a list of entry indices. */
  function CallList(t: Table, ids: seq<nat>): seq<Call>
  {
    if ids == [] then []
    else (if ids[0] < |t| then [Call(t[ids[0]].func, t[ids[0]].obj)] else []) + CallList(t, ids[1..])
  }

  lemma {:induction false} CallListExact(t: Table, ids: seq<nat>)
    requires forall k :: 0 <= k < |ids| ==> ids[k] < |t|
    ensures |CallList(t, ids)| == |ids|
    ensures forall k :: 0 <= k < |ids| ==> CallList(t, ids)[k] == Call(t[ids[k]].func, t[ids[k]].obj)
    decreases ids
  {
    if ids != [] {
      CallListExact(t, ids[1..]);
    }
  }

  /** The calls of one finalization are the function and object of each matching entry that is
      set, the latest registered first. */
  lemma FinalizationCalls(t: Table, f: int)
    ensures var ids, cs := Calls(t, |t|, f), CallList(t, Calls(t, |t|, f));
            && |cs| == |ids|
            && (forall k :: 0 <= k < |cs| ==> ids[k] < |t| && cs[k] == Call(t[ids[k]].func, t[ids[k]].obj))
            && (forall k, m :: 0 <= k < m < |ids| ==> ids[k] > ids[m])
            && (forall i: nat :: i in ids <==> i < |t| && t[i].func != 0 && (f == 0 || t[i].func == f))
  {
    CallsExact(t, |t|, f);
    var ids := Calls(t, |t|, f);
    assert forall k :: 0 <= k < |ids| ==> ids[k] in ids;
    CallListExact(t, ids);
  }

  /** Every call of a trace, with its function and object. */
  function Made(t: Table, evs: seq<Event>): seq<Call>
    decreases evs
  {
    if evs == [] then [] else CallList(t, Runs(t, evs[0])) + Made(Step(t, evs[0]), evs[1..])
  }

  /** Main result: each call of a trace is the function of one entry on that entry's object, as
      they were registered. */
  lemma {:induction false} CallsAsRegistered(t: Table, evs: seq<Event>, k: nat)
    requires |t| <= 128
    ensures var all, ids, cs := t + Registered(evs), Log(t, evs), Made(t, evs);
            && |cs| == |ids|
            && (k < |ids| ==>
                  ids[k] < 128 && ids[k] < |all| && cs[k] == Call(all[ids[k]].func, all[ids[k]].obj))
    decreases evs
  {
    hide Calls, CallList;
    if evs != [] {
      var u, rest, now := Step(t, evs[0]), evs[1..], Runs(t, evs[0]);
      if evs[0].Finalize? {
        FinalizationCalls(t, evs[0].f);
      } else {
        assert CallList(t, []) == [] by { CallListExact(t, []); }
      }
      if k < |now| {
        CallsAsRegistered(u, rest, 0);
      } else {
        CallsAsRegistered(u, rest, k - |now|);
        if k - |now| < |Log(u, rest)| {
          StillAsRegistered(t, evs, Log(u, rest)[k - |now|]);
        }
      }
    }
  }

  /** An entry that runs after the first event is as it was before it. */
  lemma StillAsRegistered(t: Table, evs: seq<Event>, i: nat)
    requires |t| <= 128 && evs != []
    requires i in Log(Step(t, evs[0]), evs[1..]) && i < 128
    requires i < |Step(t, evs[0]) + Registered(evs[1..])|
    ensures i < |t + Registered(evs)|
    ensures (Step(t, evs[0]) + Registered(evs[1..]))[i] == (t + Registered(evs))[i]
  {
    var u, rest := Step(t, evs[0]), evs[1..];
    StepEntry(t, evs[0], i);
    LaterEntry(t, evs, i);
    if i < |t| && u[i] != t[i] {
      UnsetStays(u, rest, i);
    }
  }

  /** One event keeps entries but for the functions it unsets. */
  lemma StepEntry(t: Table, ev: Event, i: nat)
    requires |t| <= 128
    ensures |t| <= |Step(t, ev)| <= 128
    ensures |Step(t, ev)| == if ev.Registration? && |t| < 128 then |t| + 1 else |t|
    ensures i < |t| ==> Step(t, ev)[i] == t[i] || (t[i].func != 0 && Step(t, ev)[i] == t[i].(func := 0))
  {
  }

  /** And it leaves what is registered after it to come. */
  lemma LaterEntry(t: Table, evs: seq<Event>, i: nat)
    requires |t| <= 128 && evs != []
    ensures var u, r, all := Step(t, evs[0]), Registered(evs[1..]), Registered(evs);
            && (if |t| < 128 || evs[0].Finalize? then |u| + |r| == |t| + |all| else |u| == 128)
            && (|t| <= i < 128 && i < |t| + |all| ==> i < |u| + |r| && (u + r)[i] == all[i - |t|])
  {
    RegisteredFirst(evs);
    LaterIn(t, evs[0], Registered(evs[1..]), i);
  }

  lemma LaterIn(t: Table, ev: Event, r: seq<Entry>, i: nat)
    requires |t| <= 128
    ensures var u, all := Step(t, ev), if ev.Registration? then [ev.e] + r else r;
            && (if |t| < 128 || ev.Finalize? then |u| + |r| == |t| + |all| else |u| == 128)
            && (|t| <= i < 128 && i < |t| + |all| ==> i < |u| + |r| && (u + r)[i] == all[i - |t|])
  {
    StepEntry(t, ev, 0);
    hide Unset;
    match ev
    case Registration(e) =>
      if |t| < 128 && |t| <= i < |t| + 1 + |r| {
        StepAdds(t, e);
        AfterOneMore(t, e, r, i);
      }
    case Finalize(f) =>
      if |t| <= i < |t| + |r| {
        BehindPrefix(Step(t, ev), |t|, r, i);
      }
  }

  lemma StepAdds(t: Table, e: Entry)
    requires |t| < 128
    ensures Step(t, Registration(e)) == t + [e]
  {
  }

  lemma AfterOneMore(t: Table, e: Entry, r: seq<Entry>, i: nat)
    requires |t| <= i < |t| + 1 + |r|
    ensures ((t + [e]) + r)[i] == ([e] + r)[i - |t|]
  {
  }

  lemma BehindPrefix(u: Table, n: nat, r: seq<Entry>, i: nat)
    requires |u| == n && n <= i < n + |r|
    ensures (u + r)[i] == r[i - n]
  {
  }

  lemma RegisteredFirst(evs: seq<Event>)
    requires evs != []
    ensures Registered(evs) ==
            if evs[0].Registration? then [evs[0].e] + Registered(evs[1..]) else Registered(evs[1..])
  {
  }

  // ---------- the registry ----------

  class Registry {
    const entries: array<Entry>
    var count: nat
    var calls: seq<Call>

    ghost predicate Valid()
      reads this, entries
    {
      entries.Length == MAX_FUNCS && count <= MAX_FUNCS
    }

    ghost function Contents(): Table
      requires Valid()
      reads this, entries
    {
      entries[..count]
    }

    constructor ()
      ensures Valid() && fresh(entries) && Contents() == [] && calls == []
    {
      entries := new Entry[MAX_FUNCS](_ => Entry(0, 0, 0));
      count := 0;
      calls := [];
    }

    method RegisterEntry(f: int, objptr: int, dso: int) returns (r: int)
      requires Valid()
      modifies this`count, entries
      ensures Valid() && (Contents(), r) == Register(old(Contents()), Entry(f, objptr, dso))
      ensures r == 0 <==> old(count) < 128
      ensures r == 0 ==> Contents() == old(Contents()) + [Entry(f, objptr, dso)]
      ensures r != 0 ==> r == -1 && Contents() == old(Contents())
    {
      if count >= MAX_FUNCS {
        return -1;
      }
      entries[count] := Entry(f, objptr, dso);
      count := count + 1;
      assert entries[..count] == old(entries[..count]) + [Entry(f, objptr, dso)];
      return 0;
    }

    method FinalizeFunc(f: int)
      requires Valid()
      modifies this`calls, entries
      ensures Valid() && Contents() == Unset(old(Contents()), f)
      ensures calls == old(calls) + CallList(old(Contents()), Calls(old(Contents()), count, f))
    {
      hide Calls, CallList;
      ghost var t := Contents();
      ghost var goal := calls + CallList(t, Calls(t, count, f));
      var i := count;
      if f == 0 {
        while i > 0
          invariant 0 <= i <= count && Contents() == t
          invariant calls + CallList(t, Calls(t, i, f)) == goal
        {
          i := i - 1;
          CallListStep(t, i, f, calls);
          if entries[i].func != 0 {
            calls := calls + [Call(entries[i].func, entries[i].obj)];
          }
        }
        assert Unset(t, f) == t;
      } else {
        while i > 0
          invariant 0 <= i <= count
          invariant entries[..i] == t[..i]
          invariant entries[i..count] == Unset(t, f)[i..count]
          invariant calls + CallList(t, Calls(t, i, f)) == goal
        {
          i := i - 1;
          CallListStep(t, i, f, calls);
          assert entries[i] == entries[..i + 1][i] == t[i];
          ghost var tail := entries[i + 1..count];
          if entries[i].func == f {
            calls := calls + [Call(entries[i].func, entries[i].obj)];
            entries[i] := entries[i].(func := 0);
          }
          assert entries[i..count] == [entries[i]] + tail;
        }
        assert entries[0..count] == Contents();
      }
      NoCallsBelowZero(t, f);
    }

    /** A whole trace: the calls are those of the model, on the objects as registered. */
    method Perform(evs: seq<Event>) returns (answers: seq<int>)
      requires Valid()
      modifies this`count, this`calls, entries
      ensures Valid() && Contents() == After(old(Contents()), evs)
      ensures calls == old(calls) + Made(old(Contents()), evs)
      ensures |answers| == |Registered(evs)|
      ensures forall k :: 0 <= k < |answers| ==> answers[k] == if old(count) + k < 128 then 0 else -1
      decreases evs
    {
      hide Calls, CallList, Unset;
      if evs == [] {
        return [];
      }
      ghost var t := Contents();
      var first: seq<int> := [];
      match evs[0] {
        case Registration(e) =>
          var r := RegisterEntry(e.func, e.obj, e.dso);
          first := [r];
          assert CallList(t, []) == [] by { CallListExact(t, []); }
        case Finalize(f) =>
          FinalizeFunc(f);
      }
      var later := Perform(evs[1..]);
      answers := first + later;
    }
  }

  lemma NoCallsBelowZero(t: Table, f: int)
    ensures CallList(t, Calls(t, 0, f)) == []
  {
  }

  lemma CallListStep(t: Table, i: nat, f: int, before: seq<Call>)
    requires i < |t|
    ensures before + CallList(t, Calls(t, i + 1, f)) ==
            (if Called(t, i, f) then before + [Call(t[i].func, t[i].obj)] else before) + CallList(t, Calls(t, i, f))
  {
    var rest := Calls(t, i, f);
    if Called(t, i, f) {
      assert ([i] + rest)[1..] == rest;
      assert CallList(t, Calls(t, i + 1, f)) == [Call(t[i].func, t[i].obj)] + CallList(t, rest);
    } else {
      assert [] + rest == rest;
    }
  }
}
