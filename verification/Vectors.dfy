/** The kernel's growing array, and what its growth costs. */
module Vectors {
  import opened Basics

  // ---------- growth ----------

  /** `regrowths`, `copies` and `pushes` count what has happened since the vector was made. */
  datatype Growth = Growth(size: nat, capacity: nat, log: nat, regrowths: nat, copies: nat, pushes: nat)

  const START: Growth := Growth(0, 0, 0, 0, 0, 0)

  function Pushed(g: Growth): Growth
  {
    if g.size >= g.capacity then
      Growth(g.size + 1, Pow2(g.log), g.log + 1, g.regrowths + 1, g.copies + g.size, g.pushes + 1)
    else
      g.(size := g.size + 1, pushes := g.pushes + 1)
  }

  function Popped(g: Growth): Growth
    requires g.size > 0
  {
    g.(size := g.size - 1)
  }

  ghost predicate GrowthInv(g: Growth)
  {
    && g.size <= g.capacity && g.size <= g.pushes
    && g.regrowths == g.log
    && (g.log == 0 ==> g.capacity == 0 && g.copies == 0)
    && (g.log > 0 ==> g.capacity == Pow2(g.log - 1) && g.copies == g.capacity - 1 && g.capacity < 2 * g.pushes)
  }

  lemma PushedKeeps(g: Growth)
    requires GrowthInv(g)
    ensures GrowthInv(Pushed(g)) && Pushed(g).log > 0
  {
  }

  datatype Call<T> = Push(x: T) | Pop

  predicate LegalCalls<T>(size: nat, calls: seq<Call<T>>)
    decreases calls
  {
    calls == [] || (if calls[0].Push? then LegalCalls(size + 1, calls[1..])
                    else size > 0 && LegalCalls(size - 1, calls[1..]))
  }

  function Grow<T>(g: Growth, calls: seq<Call<T>>): Growth
    requires LegalCalls(g.size, calls)
    decreases calls
  {
    if calls == [] then g
    else Grow(if calls[0].Push? then Pushed(g) else Popped(g), calls[1..])
  }

  function Pushes<T>(calls: seq<Call<T>>): nat
  {
    if calls == [] then 0 else (if calls[0].Push? then 1 else 0) + Pushes(calls[1..])
  }

  lemma {:induction false} GrowKeeps<T>(g: Growth, calls: seq<Call<T>>)
    requires GrowthInv(g) && LegalCalls(g.size, calls)
    ensures GrowthInv(Grow(g, calls)) && Grow(g, calls).pushes == g.pushes + Pushes(calls)
    decreases calls
  {
    if calls != [] {
      if calls[0].Push? {
        PushedKeeps(g);
        GrowKeeps(Pushed(g), calls[1..]);
      } else {
        GrowKeeps(Popped(g), calls[1..]);
      }
    }
  }

  /** Doubling: over any calls with n >= 1 pushes the capacity is a power of two below 2n,
      the array is regrown once per doubling, and fewer than 2n elements are copied. */
  lemma GrowthIsAmortized<T>(calls: seq<Call<T>>)
    requires LegalCalls(0, calls) && Pushes(calls) > 0
    ensures var g := Grow(START, calls); var n := Pushes(calls);
            && g.log > 0 && g.capacity == Pow2(g.log - 1) < 2 * n
            && g.regrowths == g.log
            && g.copies < 2 * n
            && g.size <= g.capacity
  {
    hide Grow, LegalCalls, Pushes;
    GrowKeeps(START, calls);
    SomePushGrows(START, calls);
  }

  lemma {:induction false} SomePushGrows<T>(g: Growth, calls: seq<Call<T>>)
    requires GrowthInv(g) && LegalCalls(g.size, calls) && (Pushes(calls) > 0 || g.log > 0)
    ensures Grow(g, calls).log > 0
    decreases calls
  {
    if calls != [] {
      if calls[0].Push? {
        PushedKeeps(g);
        SomePushGrows(Pushed(g), calls[1..]);
      } else {
        SomePushGrows(Popped(g), calls[1..]);
      }
    }
  }

  // ---------- the vector ----------

  class Vector<T(0)> {
    var size: nat
    var capacity: nat
    var log: nat
    var buffer: array?<T>
    ghost var growth: Growth
    ghost var copied: nat // elements copied by `Reserve`, one count a copy

    ghost predicate Valid()
      reads this, buffer
    {
      && GrowthInv(growth) && copied == growth.copies
      && size == growth.size && capacity == growth.capacity && log == growth.log
      && (if capacity == 0 then buffer == null else buffer != null && buffer.Length == capacity)
    }

    ghost function Contents(): (s: seq<T>)
      requires Valid()
      reads this, buffer
      ensures |s| == size
    {
      if buffer == null then [] else buffer[..size]
    }

    constructor ()
      ensures Valid() && Contents() == [] && growth == START && buffer == null
    {
      size, capacity, log := 0, 0, 0;
      buffer := null;
      growth, copied := START, 0;
    }

    /** The new array holds the old elements, each copied once; the capacity is what was asked
        for. */
    method Reserve(newCapacity: nat)
      requires Valid() && size <= newCapacity
      modifies this`capacity, this`buffer, this`copied
      ensures copied == old(copied) + size
      ensures capacity == newCapacity && buffer != null && fresh(buffer) && buffer.Length == newCapacity
      ensures buffer[..size] == old(Contents())
    {
      var newBuffer := new T[newCapacity];
      var i := 0;
      while i < size
        invariant capacity == old(capacity) && buffer == old(buffer)
        invariant 0 <= i <= size && copied == old(copied) + i
        invariant newBuffer[..i] == old(Contents())[..i]
      {
        newBuffer[i] := buffer[i];
        copied := copied + 1;
        i := i + 1;
      }
      capacity := newCapacity;
      buffer := newBuffer;
    }

    method PushBack(v: T)
      requires Valid()
      modifies this, buffer
      ensures Valid() && Contents() == old(Contents()) + [v]
      ensures growth == Pushed(old(growth))
      ensures buffer == old(buffer) || fresh(buffer)
    {
      PushedKeeps(growth);
      if size >= capacity {
        Reserve(Pow2(log));
        log := log + 1;
      }
      buffer[size] := v;
      size := size + 1;
      growth := Pushed(growth);
    }

    method PopBack()
      requires Valid() && Contents() != []
      modifies this`size, this`growth
      ensures Valid() && Contents() == old(Contents())[..|old(Contents())| - 1]
      ensures growth == Popped(old(growth))
    {
      size := size - 1;
      growth := Popped(growth);
    }

    method At(index: nat) returns (x: T)
      requires Valid() && index < |Contents()|
      ensures x == Contents()[index]
    {
      x := buffer[index];
    }

    method Clear()
      requires Valid()
      modifies this
      ensures Valid() && Contents() == [] && growth == START && buffer == null
    {
      size, capacity, log := 0, 0, 0;
      buffer := null;
      growth, copied := START, 0;
    }
  }

  // ---------- whole runs ----------

  function Replay<T>(s: seq<T>, calls: seq<Call<T>>): seq<T>
    requires LegalCalls(|s|, calls)
    decreases calls
  {
    if calls == [] then s
    else Replay(if calls[0].Push? then s + [calls[0].x] else s[..|s| - 1], calls[1..])
  }

  method PerformFrom<T(0)>(v: Vector<T>, calls: seq<Call<T>>)
    requires v.Valid() && LegalCalls(|v.Contents()|, calls) && LegalCalls(v.growth.size, calls)
    modifies v, v.buffer
    ensures v.Valid()
    ensures v.Contents() == Replay(old(v.Contents()), calls) && v.growth == Grow(old(v.growth), calls)
    decreases calls
  {
    hide GrowthInv;
    if calls == [] {
      return;
    }
    match calls[0] {
      case Push(x) =>
        v.PushBack(x);
      case Pop =>
        v.PopBack();
    }
    hide Pushed, Popped, Vector.Valid;
    PerformFrom(v, calls[1..]);
  }

  /** Any run of pushes and pops: the contents are the replayed ones, and from a new vector
      the loop of `Reserve` has copied fewer than two elements for each push. */
  method Perform<T(0)>(v: Vector<T>, calls: seq<Call<T>>)
    requires v.Valid() && LegalCalls(|v.Contents()|, calls)
    modifies v, v.buffer
    ensures v.Valid() && v.Contents() == Replay(old(v.Contents()), calls)
    ensures old(v.growth) == START && Pushes(calls) > 0 ==>
              v.copied < 2 * Pushes(calls) && v.capacity < 2 * Pushes(calls)
  {
    hide Pushes, Grow, Replay, GrowthInv;
    if v.growth == START && Pushes(calls) > 0 {
      GrowthIsAmortized(calls);
    }
    PerformFrom(v, calls);
  }
}
