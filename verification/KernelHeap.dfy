/**
 The kernel heap as the kernel holds it: headers linked by address in memory, updated in
 place, and an array of small slots.  Every method is proved to do what the model does.
 */
module KernelHeap {
  import opened Basics
  import opened HeapModel
  import opened HeapRuns
  import opened HeapMemory

  /** The request is met without writing a header over another. */
  predicate Follows(p: BigPool, req: int)
    requires p.chunks != []
  {
    var last := |p.chunks| - 1;
    && HeadersApart(p, req)
    && (p.allocatedChunks != 0 && FirstHole(p.chunks, req, 0) == last ==> p.chunks[last].size >= HEADER_SIZE)
  }

  lemma ApartFollows(p: BigPool, req: int, head: int)
    requires ChainInv(p, head)
    ensures HeadersApart(p, req) ==> Follows(p, req)
    ensures !HeadersApart(p, req) ==>
              var k := FirstHole(p.chunks, req, 0);
              && p.allocatedChunks != 0 && IsHole(p.chunks, k, req)
              && SplitTaken(req, req) && !RoomToSplit(p.chunks, k, req)
  {
    if p.allocatedChunks != 0 {
      LastIsWide(p, head);
    }
  }

  class MemoryManager {
    const fastBins: int
    const bigChunks: int
    const slots: array<int>
    var allocatedChunks: int
    var mem: Memory
    ghost var chain: seq<int>
    ghost var grants: map<int, int>

    ghost predicate Shape()
      reads this, slots
    {
      && Linked(mem, chain, bigChunks)
      && Mapped(mem, grants, chain)
      && bigChunks == fastBins + FASTBIN_AREA
      && slots.Length == FASTBIN_MAX_SIZE
    }

    ghost function Chunks(): seq<Chunk>
      requires Shape()
      reads this, slots
    {
      View(mem, grants, chain)
    }

    ghost function State(): Kmm
      requires Shape()
      reads this, slots
    {
      Kmm(fastBins, slots[..], BigPool(Chunks(), allocatedChunks))
    }

    ghost predicate Valid()
      reads this, slots
    {
      Shape() && Inv(State())
    }

    /** `start` must not be the null page: a slot whose pointer is null counts as free. */
    constructor (start: int)
      requires start > 0
      ensures Valid() && fresh(slots) && State() == Init(start)
    {
      fastBins := start;
      bigChunks := start + FASTBIN_AREA;
      slots := new int[FASTBIN_MAX_SIZE](_ => 0);
      allocatedChunks := 0;
      mem := map[start + FASTBIN_AREA := Header(0, 0, 0, false)];
      chain := [start + FASTBIN_AREA];
      grants := map[start + FASTBIN_AREA := 0];
      new;
      assert slots[..] == Init(start).slots;
      assert Chunks() == Init(start).big.chunks;
      InitHolds(start);
    }

    method MallocFastbin() returns (ptr: int)
      requires Shape()
      modifies slots
      ensures Shape() && State() == MallocStep(old(State()), 1).0 && ptr == MallocStep(old(State()), 1).1
    {
      ptr := 0;
      var i := 0;
      while i < FASTBIN_MAX_SIZE
        invariant 0 <= i <= FASTBIN_MAX_SIZE
        invariant FirstFree(slots[..], 0) == FirstFree(slots[..], i)
        invariant slots[..] == old(slots[..]) && ptr == 0
      {
        if slots[i] == 0 {
          var words := i * FASTBIN_THRESHOLD / 4;
          ptr := fastBins + 4 * words;
          slots[i] := ptr;
          assert slots[..] == old(slots[..])[i := ptr];
          return;
        }
        i := i + 1;
      }
    }

    method FreeFastbin(ptr: int)
      requires Valid() && fastBins <= ptr < fastBins + FASTBIN_THRESHOLD * FASTBIN_MAX_SIZE
      modifies slots
      ensures Valid() && State() == FreeStep(old(State()), ptr)
    {
      var idx := (ptr - fastBins) / FASTBIN_THRESHOLD;
      slots[idx] := 0;
      assert slots[..] == old(slots[..])[idx := 0];
    }

    /** The search loop: the first hole, or null and the last chunk. */
    method Search(req: int) returns (curr: int, hole: int, ghost i: nat)
      requires Shape()
      ensures i == FirstHole(Chunks(), req, 0) && i < |chain| && curr == chain[i]
      ensures hole == if i < |chain| - 1 then chain[i] else 0
      ensures hole != 0 <==> i < |chain| - 1
      ensures hole != 0 ==> hole in mem && !mem[hole].used && req <= mem[hole].next - hole < 0xFFFF_FFFF
      ensures forall j: nat :: j < i ==>
                mem[chain[j]].used || !(req <= mem[chain[j]].next - chain[j] < 0xFFFF_FFFF)
    {
      curr := bigChunks;
      hole := 0;
      i := 0;
      assert NodeOk(mem, chain, i);
      var smallestHoleValue := UINT32 - 1;
      while mem[curr].next != 0
        invariant i < |chain| && curr == chain[i] && hole == 0
        invariant smallestHoleValue == UINT32 - 1
        invariant NodeOk(mem, chain, i)
        invariant FirstHole(Chunks(), req, 0) == FirstHole(Chunks(), req, i)
        invariant forall j: nat :: j < i ==>
                    mem[chain[j]].used || !(req <= mem[chain[j]].next - chain[j] < 0xFFFF_FFFF)
        decreases |chain| - i
      {
        if !mem[curr].used {
          var size := mem[curr].next - curr;
          if size < smallestHoleValue && size >= req {
            assert IsHole(Chunks(), i, req);
            hole := curr;
            ChainAscends(mem, chain, bigChunks, i, i);
            return;
          }
        }
        assert !IsHole(Chunks(), i, req);
        curr := mem[curr].next;
        i := i + 1;
        assert NodeOk(mem, chain, i);
      }
      if i < |chain| - 1 {
        ChainAscends(mem, chain, bigChunks, i, i + 1);
      }
    }

    method TakeHead(req: int)
      requires Shape()
      modifies this`mem, this`grants
      ensures Shape()
      ensures Chunks() == old(Chunks())[0 := old(Chunks())[0].(size := req, used := true, grant := req)]
      ensures mem == old(mem)[bigChunks := old(mem)[bigChunks].(size := req, used := true)]
    {
      var curr := bigChunks;
      SetHeader(mem, grants, chain, bigChunks, 0, mem[curr].(size := req, used := true), req);
      mem := mem[curr := mem[curr].(size := req)];
      mem := mem[curr := mem[curr].(used := true)];
      grants := grants[curr := req];
      assert mem == old(mem)[curr := old(mem)[curr].(size := req, used := true)];
    }

    /** A hole is handed out; for a request below 78 bytes the unsigned test takes the split. */
    method TakeHole(ret: int, req: int, ghost i: nat)
      requires Shape() && i < |chain| - 1 && ret == chain[i]
      modifies this`mem, this`grants, this`chain
      ensures !SplitTaken(req, req) || RoomToSplit(old(Chunks()), i, req) ==>
                Shape() && Chunks() == HeapModel.TakeHole(old(Chunks()), i, req)
      ensures SplitTaken(req, req) ==> mem == SplitMem(old(mem), ret, req)
    {
      assert NodeOk(mem, chain, i) && NodeOk(mem, chain, i + 1);
      if SplitTaken(req, req) {
        SplitHole(ret, req, i);
      } else {
        ghost var size := (chain[i + 1] - chain[i]) / HEADER_SIZE - 1;
        SetHeader(mem, grants, chain, bigChunks, i, mem[ret].(used := true, size := size), req);
        mem := mem[ret := mem[ret].(used := true)];
        mem := mem[ret := mem[ret].(size := (mem[ret].next - ret) / HEADER_SIZE - 1)];
        grants := grants[ret := req];
        assert mem == old(mem)[ret := old(mem)[ret].(used := true, size := size)];
      }
    }

    /** With room the hole keeps the request's bytes and a new unused chunk gets the rest. */
    method SplitHole(ret: int, req: int, ghost i: nat)
      requires Shape() && i < |chain| - 1 && ret == chain[i]
      modifies this`mem, this`grants, this`chain
      ensures RoomToSplit(old(Chunks()), i, req) ==> Shape() && Chunks() == SplitAt(old(Chunks()), i, req)
      ensures mem == SplitMem(old(mem), ret, req)
    {
      assert NodeOk(mem, chain, i) && NodeOk(mem, chain, i + 1);
      ghost var room := RoomToSplit(Chunks(), i, req);
      if room {
        SplitLinked(mem, chain, bigChunks, i, req);
        SplitView(mem, grants, chain, bigChunks, i, req);
      }
      WriteSplit(ret, req);
      if room {
        grants := grants[ret := req][ret + req := 0];
        chain := SplitChain(chain, i, req);
      }
    }

    /** The writes of the split. */
    method WriteSplit(ret: int, req: int)
      requires ret in mem
      modifies this`mem
      ensures mem == SplitMem(old(mem), ret, req)
    {
      mem := mem[ret := mem[ret].(used := true)];
      var unused := ret + req;
      mem := mem[unused := Header(0, 0, 0, false)];
      mem := mem[unused := mem[unused].(size := mem[ret].next - ret - req)];
      var tmp := mem[ret].next;
      mem := mem[ret := mem[ret].(next := unused)];
      if tmp in mem {
        mem := mem[tmp := mem[tmp].(prev := unused)];
      }
      mem := mem[unused := mem[unused].(prev := ret)];
      mem := mem[unused := mem[unused].(next := tmp)];
    }

    /** The header goes behind the last chunk, or over it when that chunk has no room. */
    method AppendChunk(curr: int, req: int) returns (chunk: int)
      requires Shape() && curr == chain[|chain| - 1]
      modifies this`mem, this`grants, this`chain
      ensures chunk == curr + old(mem[curr].size) && mem == AppendMem(old(mem), curr, chunk, req)
      ensures old(mem[curr].size) >= HEADER_SIZE ==>
                Shape() && Chunks() == Append(old(Chunks()), req) && chain == old(chain) + [chunk]
    {
      chunk := curr + mem[curr].size;
      ghost var room := mem[curr].size >= HEADER_SIZE;
      if room {
        AppendLinked(mem, chain, bigChunks, chunk, req);
        AppendView(mem, grants, chain, bigChunks, chunk, req);
      }
      mem := mem[chunk := Header(0, 0, 0, false)];
      mem := mem[curr := mem[curr].(next := chunk)];
      mem := mem[chunk := mem[chunk].(prev := curr)];
      mem := mem[chunk := mem[chunk].(used := true)];
      mem := mem[chunk := mem[chunk].(size := req)];
      if room {
        grants := grants[chunk := req];
        chain := chain + [chunk];
      }
    }

    /** Where no header is written over another, this is the model's allocation; in the other
        two cases the contract gives memory itself. */
    method MallocBigChunk(req: int) returns (ptr: int)
      requires Shape()
      modifies this`mem, this`grants, this`chain, this`allocatedChunks
      ensures allocatedChunks == old(allocatedChunks) + 1
      ensures Follows(old(BigPool(Chunks(), allocatedChunks)), req) ==>
                var (q, k) := MallocBig(old(BigPool(Chunks(), allocatedChunks)), req);
                && Shape() && BigPool(Chunks(), allocatedChunks) == q
                && k < |q.chunks| && ptr == q.chunks[k].addr + HEADER_SIZE
      ensures old(allocatedChunks) != 0 ==>
                var k, last := FirstHole(old(Chunks()), req, 0), |old(chain)| - 1;
                && (k < last && SplitTaken(req, req) ==>
                      mem == SplitMem(old(mem), old(chain)[k], req) && ptr == old(chain)[k] + HEADER_SIZE)
                && (k == last ==>
                      ptr == old(chain)[k] + old(mem)[old(chain)[k]].size + HEADER_SIZE &&
                      mem == AppendMem(old(mem), old(chain)[k], ptr - HEADER_SIZE, req))
    {
      var ret := bigChunks;
      if allocatedChunks == 0 {
        TakeHead(req);
      } else {
        var curr, hole, i := Search(req);
        if hole != 0 {
          TakeHole(hole, req, i);
          ret := hole;
        } else {
          ret := AppendChunk(curr, req);
        }
      }
      allocatedChunks := allocatedChunks + 1;
      ptr := ret + HEADER_SIZE;
    }

    /** Memory holds a list of big chunks. */
    ghost predicate HasList()
      reads this
    {
      HoldsList(mem, bigChunks, allocatedChunks)
    }

    /** For every size: memory holds a list afterwards exactly when the call keeps it, and then
        this is the model's step. */
    method Malloc(size: nat) returns (ptr: int)
      requires Valid() && size < UINT32
      modifies this`mem, this`grants, this`chain, this`allocatedChunks, slots
      ensures HasList() <==> Keeps(old(State()), Call.Malloc(size))
      ensures ApartAt(old(State()), Call.Malloc(size)) ==>
                Shape() && State() == MallocStep(old(State()), size).0 && ptr == MallocStep(old(State()), size).1
      ensures Keeps(old(State()), Call.Malloc(size)) ==> Valid()
      ensures !ApartAt(old(State()), Call.Malloc(size)) ==>
                var k := FirstHole(old(Chunks()), BigRequest(size), 0);
                && k < |old(chain)| && ptr == old(chain)[k] + HEADER_SIZE
                && mem == SplitMem(old(mem), old(chain)[k], BigRequest(size))
                && allocatedChunks == old(allocatedChunks) + 1
    {
      ghost var before := State();
      StepKeepsExactlyWhen(before, Call.Malloc(size));
      HoldsExactlyWhen(mem, grants, chain, bigChunks, allocatedChunks);
      if size <= 0 {
        return 0;
      }
      if size <= FASTBIN_THRESHOLD {
        ptr := MallocFastbin();
      } else {
        ptr := MallocBigOf(size);
      }
    }

    method MallocBigOf(size: nat) returns (ptr: int)
      requires Valid() && FASTBIN_THRESHOLD < size < UINT32
      modifies this`mem, this`grants, this`chain, this`allocatedChunks
      ensures HasList() <==> Keeps(old(State()), Call.Malloc(size))
      ensures ApartAt(old(State()), Call.Malloc(size)) ==>
                Shape() && State() == MallocStep(old(State()), size).0 && ptr == MallocStep(old(State()), size).1
      ensures Keeps(old(State()), Call.Malloc(size)) ==> Valid()
      ensures !ApartAt(old(State()), Call.Malloc(size)) ==>
                var k := FirstHole(old(Chunks()), BigRequest(size), 0);
                && k < |old(chain)| && ptr == old(chain)[k] + HEADER_SIZE
                && mem == SplitMem(old(mem), old(chain)[k], BigRequest(size))
                && allocatedChunks == old(allocatedChunks) + 1
    {
      hide MallocBig, BigRequest, FirstHole;
      ghost var before, n, was, links := State(), allocatedChunks, mem, chain;
      ghost var req := BigRequest(size);
      StepKeepsExactlyWhen(before, Call.Malloc(size));
      ApartFollows(before.big, req, bigChunks);
      ghost var gs := grants;
      ptr := MallocBigChunk(BigRequest(size));
      if HeadersApart(before.big, req) {
        HoldsExactlyWhen(mem, grants, chain, bigChunks, allocatedChunks);
      } else {
        OverlaidHoldsNoList(was, gs, links, bigChunks, FirstHole(before.big.chunks, req, 0), req, n);
      }
    }

    method ConsolidateForward(chunk: int, ghost i: nat)
      requires Shape() && i < |chain| && chunk == chain[i]
      modifies this`mem, this`chain
      ensures Shape() && Chunks() == MergeForward(old(Chunks()), i)
      ensures i < |chain| && chain[i] == chunk
    {
      assert NodeOk(mem, chain, i);
      if i + 1 < |chain| {
        ForwardMemAt(mem, chain, bigChunks, i, i);
      }
      if mem[chunk].next != 0 && !mem[mem[chunk].next].used {
        ForwardLinked(mem, chain, bigChunks, i);
        ForwardView(mem, grants, chain, bigChunks, i);
        var tmp := mem[chunk].next;
        assert NodeOk(mem, chain, i + 1) && (i + 2 < |chain| ==> NodeOk(mem, chain, i + 2));
        ChainDistinct(mem, chain, bigChunks, i);
        mem := mem[chunk := mem[chunk].(next := mem[tmp].next)];
        if mem[tmp].next != 0 {
          mem := mem[mem[tmp].next := mem[mem[tmp].next].(prev := chunk)];
        }
        mem := mem[chunk := mem[chunk].(size := mem[chunk].size + mem[tmp].size + HEADER_SIZE)];
        assert mem == ForwardMem(old(mem), chunk);
        chain := RemoveAt(chain, i + 1);
      }
    }

    method ConsolidateBackward(chunk: int, ghost i: nat)
      requires Shape() && i < |chain| && chunk == chain[i]
      modifies this`mem, this`chain
      ensures Shape() && Chunks() == MergeBackward(old(Chunks()), i)
    {
      assert NodeOk(mem, chain, i);
      assert i > 0 ==> NodeOk(mem, chain, i - 1);
      if mem[chunk].prev != 0 && !mem[mem[chunk].prev].used {
        BackwardLinked(mem, chain, bigChunks, i);
        BackwardView(mem, grants, chain, bigChunks, i);
        var tmp := mem[chunk].prev;
        BackwardMemAt(mem, chain, bigChunks, i, i);
        assert i >= 2 ==> NodeOk(mem, chain, i - 2);
        ChainDistinct(mem, chain, bigChunks, i);
        mem := mem[chunk := mem[chunk].(prev := mem[tmp].prev)];
        if mem[tmp].prev != 0 {
          mem := mem[mem[tmp].prev := mem[mem[tmp].prev].(next := chunk)];
        }
        mem := mem[chunk := mem[chunk].(size := mem[chunk].size + mem[tmp].size + HEADER_SIZE)];
        assert mem == BackwardMem(old(mem), chunk);
        chain := BackwardChain(old(mem), chain, i);
      }
    }

    method FreeBigChunk(ptr: int, ghost i: nat)
      requires Shape() && i < |chain| && ptr - HEADER_SIZE == chain[i]
      modifies this`mem, this`grants, this`chain, this`allocatedChunks
      ensures Shape()
      ensures BigPool(Chunks(), allocatedChunks) == FreeBig(old(BigPool(Chunks(), allocatedChunks)), i)
    {
      var chunk := ptr - HEADER_SIZE;
      SetHeader(mem, grants, chain, bigChunks, i, mem[chunk].(used := false), grants[chunk]);
      mem := mem[chunk := mem[chunk].(used := false)];
      grants := grants[chunk := grants[chunk]];
      assert Chunks() == Unuse(old(Chunks()), i);
      ConsolidateForward(chunk, i);
      ConsolidateBackward(chunk, i);
      allocatedChunks := allocatedChunks - 1;
    }

    method FreePtr(ptr: int)
      requires Valid() && IsLive(State(), ptr)
      modifies this`mem, this`grants, this`chain, this`allocatedChunks, slots
      ensures Valid() && State() == FreeStep(old(State()), ptr)
    {
      ghost var s := State();
      LivePlace(s, ptr);
      FreeRemovesBlock(s, ptr, 0, 0);
      if ptr >= fastBins && ptr <= bigChunks {
        FreeFastbin(ptr);
      } else {
        hide FreeBig;
        ghost var i := IndexAt(s.big.chunks, ptr - HEADER_SIZE, 0);
        assert ptr - HEADER_SIZE == chain[i];
        FreeBigChunk(ptr, i);
      }
    }

    /** A whole run: as long as its calls keep the list it is the model's run, and a guarded one
        leaves live memory safe. */
    method Perform(calls: seq<Call>) returns (answers: seq<int>)
      requires Valid() && LegalRun(State(), calls) && KeptRun(State(), calls)
      modifies this`mem, this`grants, this`chain, this`allocatedChunks, slots
      ensures Valid() && State() == Run(old(State()), calls) && answers == Answers(old(State()), calls)
      ensures old(GrantInv(Chunks())) && GuardedRun(old(State()), calls) ==> Safe(State())
      decreases |calls|
    {
      hide Keeps, MallocStep, FreeStep, Safe, Inv, GrantInv, GuardedRun;
      ghost var before := State();
      if GrantInv(before.big.chunks) && GuardedRun(before, calls) {
        SafeAfterGuarded(before, calls);
      }
      if calls == [] {
        return [];
      }
      KeepsApart(before, calls[0]);
      var first: seq<int> := [];
      match calls[0] {
        case Malloc(size) =>
          var ptr := Malloc(size);
          first := [ptr];
        case Free(ptr) =>
          FreePtr(ptr);
      }
      var later := Perform(calls[1..]);
      answers := first + later;
    }
  }

  // ---------- two runs that leave no list ----------

  /** `malloc(2^32 - 20)` and then `malloc(100)`: the header at the head becomes its own
      successor, and no later search ends. */
  method WrappedRequestLoops(start: int) returns (m: MemoryManager)
    requires start > 0
    ensures fresh(m) && m.bigChunks in m.mem && m.mem[m.bigChunks].next == m.bigChunks
  {
    m := new MemoryManager(start);
    hide BigRequest;
    WrapsToNothing();
    var p := m.Malloc(UINT32 - 20);
    assert m.Chunks()[0].size == 0;
    var q := m.MallocBigChunk(BigRequest(100));
  }

  /** Two blocks of 100 bytes, the first one freed, and then `malloc(2^32 - 20)`: the new header
      lies on the hole itself, which ends up unused and last, with the second block behind it. */
  method WrappedRequestCutsOff(start: int) returns (m: MemoryManager)
    requires start > 0
    ensures fresh(m) && m.bigChunks in m.mem && !m.HasList()
    ensures m.mem[m.bigChunks].next == 0 && !m.mem[m.bigChunks].used && m.allocatedChunks == 2
  {
    hide BigRequest, Keeps, MallocStep, FreeStep, Inv, HoldsList, SplitMem, IsLive, LegalRun;
    m := new MemoryManager(start);
    ghost var s := m.State();
    InitHolds(start);
    TwoMallocs(s);
    StepKeepsExactlyWhen(s, Call.Malloc(100));
    KeepsApart(s, Call.Malloc(100));
    var a := m.Malloc(100);
    ghost var s1 := m.State();
    StepKeepsExactlyWhen(s1, Call.Malloc(100));
    KeepsApart(s1, Call.Malloc(100));
    var b := m.Malloc(100);
    HeadReturned(s);
    FirstFreed(m.State());
    m.FreePtr(a);
    WrapsToNothing();
    EmptyRequestOverlays(m.State());
    assert NodeOk(m.mem, m.chain, 0) && NodeOk(m.mem, m.chain, 1);
    SplitNext(m.mem, m.chain[0], m.chain[1], 0, 0);
    var c := m.Malloc(UINT32 - 20);
  }

  lemma HeadReturned(s: Kmm)
    requires s.big == BigPool([Chunk(Head(s), 0, false, false, 0)], 0)
    ensures MallocStep(s, 100).1 == Head(s) + HEADER_SIZE
  {
  }

  lemma EmptyRequestOverlays(s: Kmm)
    requires s.big == OneFreed(Head(s)) && BigRequest(UINT32 - 20) == 0
    ensures FirstHole(s.big.chunks, 0, 0) == 0
    ensures !ApartAt(s, Call.Malloc(UINT32 - 20)) && !Keeps(s, Call.Malloc(UINT32 - 20))
  {
    hide BigRequest;
  }
}
