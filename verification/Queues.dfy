/** The kernel's linked queue. */
module Queues {
  import opened Basics

  class Node<T> {
    var element: T
    var next: Node?<T>

    constructor (e: T)
      ensures element == e && next == null
    {
      element := e;
      next := null;
    }
  }

  /** Emptying the queue leaves `last` pointing at a node that is gone; nothing reads it
      before the next `Enqueue` sets it. */
  class Queue<T> {
    var first: Node?<T>
    var last: Node?<T>
    ghost var nodes: seq<Node<T>>
    ghost var Repr: set<Node<T>>

    ghost predicate LinkOk(i: int)
      reads this, Repr
    {
      0 <= i < |nodes| ==>
        && nodes[i] in Repr
        && nodes[i].next == (if i + 1 < |nodes| then nodes[i + 1] else null)
        && nodes[i] !in nodes[i + 1..]
    }

    ghost predicate Valid()
      reads this, Repr
    {
      && (if nodes == [] then first == null else first == nodes[0] && last == nodes[|nodes| - 1])
      && forall i :: LinkOk(i)
    }

    ghost function Contents(): (s: seq<T>)
      requires Valid()
      reads this, Repr
      ensures |s| == |nodes|
    {
      seq(|nodes|, i requires 0 <= i < |nodes| && LinkOk(i) reads this, Repr => nodes[i].element)
    }

    constructor ()
      ensures Valid() && Contents() == [] && Repr == {}
    {
      first := null;
      last := null;
      nodes := [];
      Repr := {};
    }

    predicate IsEmpty()
      requires Valid()
      reads this, Repr
      ensures IsEmpty() <==> Contents() == []
    {
      first == null
    }

    /** On an empty queue the source dereferences null. */
    function Top(): (x: T)
      requires Valid() && Contents() != []
      reads this, Repr
      ensures x == Contents()[0]
    {
      assert LinkOk(0);
      first.element
    }

    method Enqueue(x: T)
      requires Valid()
      modifies this, Repr
      ensures Valid() && fresh(Repr - old(Repr))
      ensures Contents() == old(Contents()) + [x]
    {
      ghost var was := nodes;
      if first == null {
        first := new Node(x);
        last := first;
        nodes := [first];
      } else {
        var p := new Node(x);
        assert LinkOk(|nodes| - 1);
        last.next := p;
        last := last.next;
        nodes := nodes + [p];
      }
      Repr := Repr + {last};
      forall i
        ensures LinkOk(i)
      {
        assert old(LinkOk(i));
        if 0 <= i < |was| {
          assert nodes[i + 1..] == was[i + 1..] + [last];
          assert i < |was| - 1 ==> was[|was| - 1] in was[i + 1..];
        }
      }
      assert forall i :: 0 <= i < |was| ==> old(LinkOk(i));
    }

    method Dequeue() returns (r: Option<T>)
      requires Valid()
      modifies this
      ensures Valid() && Repr == old(Repr)
      ensures old(Contents()) == [] ==> r == None && Contents() == []
      ensures old(Contents()) != [] ==>
                r == Some(old(Contents())[0]) && Contents() == old(Contents())[1..]
    {
      if first == null {
        return None;
      }
      assert LinkOk(0);
      var x := first.element;
      first := first.next;
      nodes := nodes[1..];
      forall i
        ensures LinkOk(i)
      {
        assert old(LinkOk(i + 1));
        if 0 <= i < |nodes| {
          assert nodes[i + 1..] == old(nodes)[i + 2..];
        }
      }
      return Some(x);
    }

    method MakeEmpty()
      requires Valid()
      modifies this
      ensures Valid() && Repr == old(Repr) && Contents() == []
    {
      while first != null
        invariant Valid() && Repr == old(Repr)
        decreases |Contents()|
      {
        var gone := Dequeue();
      }
    }
  }

  // ---------- first in, first out ----------

  datatype Call<T> = Enqueue(x: T) | Dequeue | MakeEmpty

  /** What a list of calls leaves in the queue, and what its `Dequeue`s hand out. */
  function Replay<T>(q: seq<T>, calls: seq<Call<T>>): (seq<T>, seq<T>)
    decreases calls
  {
    if calls == [] then (q, [])
    else
      match calls[0]
      case Enqueue(x) => Replay(q + [x], calls[1..])
      case MakeEmpty => Replay([], calls[1..])
      case Dequeue =>
        if q == [] then Replay(q, calls[1..])
        else
          var (left, out) := Replay(q[1..], calls[1..]);
          (left, [q[0]] + out)
  }

  /** One call: `now` is what it leaves and `answer` what it hands out. */
  lemma ReplayFirst<T>(was: seq<T>, calls: seq<Call<T>>, now: seq<T>, answer: seq<T>)
    requires calls != []
    requires match calls[0]
             case Enqueue(x) => now == was + [x] && answer == []
             case MakeEmpty => now == [] && answer == []
             case Dequeue => if was == [] then now == was && answer == [] else now == was[1..] && answer == [was[0]]
    ensures Replay(was, calls) == (Replay(now, calls[1..]).0, answer + Replay(now, calls[1..]).1)
  {
    var later := Replay(now, calls[1..]).1;
    assert [] + later == later;
  }

  /** The queue itself does what `Replay` says. */
  method Perform<T>(q: Queue<T>, calls: seq<Call<T>>) returns (out: seq<T>)
    requires q.Valid()
    modifies q, q.Repr
    ensures q.Valid() && fresh(q.Repr - old(q.Repr))
    ensures (q.Contents(), out) == Replay(old(q.Contents()), calls)
    ensures (forall i :: 0 <= i < |calls| ==> !calls[i].MakeEmpty?) ==>
              out + q.Contents() == old(q.Contents()) + Inputs(calls)
    decreases calls
  {
    ghost var was := q.Contents();
    if forall i :: 0 <= i < |calls| ==> !calls[i].MakeEmpty? {
      FirstInFirstOut(was, calls);
    }
    if calls == [] {
      return [];
    }
    var answer: seq<T> := [];
    match calls[0] {
      case Enqueue(x) =>
        q.Enqueue(x);
      case MakeEmpty =>
        q.MakeEmpty();
      case Dequeue =>
        var r := q.Dequeue();
        if r.Some? {
          answer := [r.value];
        }
    }
    ghost var now := q.Contents();
    var later := Perform(q, calls[1..]);
    out := answer + later;
    ReplayFirst(was, calls, now, answer);
  }

  function Inputs<T>(calls: seq<Call<T>>): seq<T>
  {
    if calls == [] then []
    else (if calls[0].Enqueue? then [calls[0].x] else []) + Inputs(calls[1..])
  }

  /** Without `MakeEmpty`, what comes out followed by what is left is what went in, in order. */
  lemma {:induction false} FirstInFirstOut<T>(q: seq<T>, calls: seq<Call<T>>)
    requires forall i :: 0 <= i < |calls| ==> !calls[i].MakeEmpty?
    ensures Replay(q, calls).1 + Replay(q, calls).0 == q + Inputs(calls)
    decreases calls
  {
    if calls != [] {
      var rest := calls[1..];
      match calls[0]
      case Enqueue(x) =>
        FirstInFirstOut(q + [x], rest);
        assert (q + [x]) + Inputs(rest) == q + ([x] + Inputs(rest));
      case Dequeue =>
        assert Inputs(calls) == Inputs(rest);
        if q == [] {
          FirstInFirstOut(q, rest);
        } else {
          FirstInFirstOut(q[1..], rest);
          var (left, out) := Replay(q[1..], rest);
          HeadFirst(q, out, left, Inputs(rest));
        }
    }
  }

  lemma HeadFirst<T>(q: seq<T>, out: seq<T>, left: seq<T>, later: seq<T>)
    requires q != [] && out + left == q[1..] + later
    ensures ([q[0]] + out) + left == q + later
  {
    assert ([q[0]] + out) + left == [q[0]] + (out + left);
    assert [q[0]] + (q[1..] + later) == q + later;
  }

  lemma Associates<T>(a: seq<T>, b: seq<T>, c: seq<T>)
    ensures (a + b) + c == a + (b + c)
  {
  }

  /** `MakeEmpty` starts again: what came out before it stays out, what was left is gone. */
  lemma {:induction false} MakeEmptyRestarts<T>(q: seq<T>, calls: seq<Call<T>>, rest: seq<Call<T>>)
    ensures Replay(q, calls + [MakeEmpty] + rest) ==
            (Replay([], rest).0, Replay(q, calls).1 + Replay([], rest).1)
    decreases calls
  {
    var whole := calls + [MakeEmpty] + rest;
    if calls == [] {
      assert whole[0] == MakeEmpty && whole[1..] == rest;
      assert Replay(q, calls).1 + Replay([], rest).1 == Replay([], rest).1;
    } else {
      assert whole[0] == calls[0] && whole[1..] == calls[1..] + [MakeEmpty] + rest;
      match calls[0]
      case Enqueue(x) => MakeEmptyRestarts(q + [x], calls[1..], rest);
      case MakeEmpty => MakeEmptyRestarts([], calls[1..], rest);
      case Dequeue =>
        if q == [] {
          MakeEmptyRestarts(q, calls[1..], rest);
        } else {
          MakeEmptyRestarts(q[1..], calls[1..], rest);
          var out, later := Replay(q[1..], calls[1..]).1, Replay([], rest).1;
          Associates([q[0]], out, later);
        }
    }
  }
}
