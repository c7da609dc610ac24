/**
 Start-up, new process directories and page faults, and what holds over every run of them.
 */
module PagingRuns {
  import opened Basics
  import opened BumpHeap
  import opened FrameTables
  import opened PagingModel

  const K_MAPPED_REGION: int := 2 * 0x10_0000
  const K_HEAP_START: int := 0xC000_0000
  const K_HEAP_INITIAL_SIZE: int := 0x100_0000
  const KERNEL_STACK_BEGIN: int := 0xA000_0000
  const KERNEL_STACK_SIZE: int := 0x100_0000
  const K_PHYSICAL_MEM_SIZE: int := 0x100_0000
  const FRAME_COUNT: int := K_PHYSICAL_MEM_SIZE / PAGE_SIZE * 10

  datatype Region = Region(begin: int, end: int)

  /** `base` is how many leading tables of `current` a new process directory copies. */
  datatype System = System(mem: State, kernel: int, current: int, base: int)

  // ---------- regions ----------

  /** The mappings of a process, in order; a panic stops the loop. */
  function MapAll(s: State, d: int, regions: seq<Region>): Outcome
  {
    if regions == [] then Outcome(s, false)
    else
      var r := MapAll(s, d, regions[..|regions| - 1]);
      var last := regions[|regions| - 1];
      if r.panic then r else MapRegion(r.state, d, last.begin, last.end)
  }

  // ---------- operations ----------

  function CopyTables(dir: Directory, base: int): Directory
  {
    Directory(
      seq(ENTRIES, i => if 0 <= i < base && i < |dir.tables| then dir.tables[i] else 0),
      seq(ENTRIES, i => if 0 <= i < base && i < |dir.addresses| then dir.addresses[i] else 0))
  }

  /** The place of a new directory and the state with its first tables copied. */
  function NewDirectory(y: System): (State, int)
    requires y.current in y.mem.dirs
  {
    var a := AlignUp(y.mem.top);
    var dir := CopyTables(y.mem.dirs[y.current], y.base);
    (y.mem.(top := a + DIRECTORY_BYTES, dirs := y.mem.dirs[a := dir]), a)
  }

  function CreateDirectory(y: System, regions: seq<Region>): Outcome
    requires y.current in y.mem.dirs
  {
    var (s, a) := NewDirectory(y);
    MapAll(s, a, regions)
  }

  function FaultStart(addr: int): int
  {
    addr - addr % PAGE_SIZE
  }

  function FaultEnd(addr: int): int
  {
    (FaultStart(addr) + PAGE_SIZE) % UINT32
  }

  /** The page of the faulting address, mapped in a directory. */
  function PageFault(s: State, d: int, addr: int): Outcome
  {
    MapRegion(s, d, FaultStart(addr), FaultEnd(addr))
  }

  /** The handler: `running` is the directory of the process the scheduler chose last, if there
      is a scheduler and a process.  Only an absent page is mapped; all else is a panic. */
  function HandleFault(s: State, running: Option<int>, absent: bool, addr: int): Outcome
  {
    if absent && running.Some? then PageFault(s, running.value, addr) else Outcome(s, true)
  }

  datatype Op =
    | Map(dir: int, begin: int, end: int)
    | Create(regions: seq<Region>)
    | Fault(running: Option<int>, absent: bool, addr: int)

  predicate Legal(y: System, op: Op)
  {
    match op
    case Map(d, begin, end) => d in y.mem.dirs && Words(begin, end)
    case Create(regions) => forall i :: 0 <= i < |regions| ==> Words(regions[i].begin, regions[i].end)
    case Fault(running, absent, addr) => (running.Some? ==> running.value in y.mem.dirs) && 0 <= addr < UINT32
  }

  function Perform(y: System, op: Op): Outcome
    requires y.current in y.mem.dirs
  {
    match op
    case Map(d, begin, end) => MapRegion(y.mem, d, begin, end)
    case Create(regions) => CreateDirectory(y, regions)
    case Fault(running, absent, addr) => HandleFault(y.mem, running, absent, addr)
  }

  // ---------- invariant ----------

  ghost predicate Process(y: System, d: int)
  {
    d in y.mem.dirs && d != y.kernel && d != y.current
  }

  /** A process directory holds shared tables only in its first `base` places. */
  ghost predicate PrivateBeyondBase(y: System, shared: set<int>, d: int, i: int)
  {
    Process(y, d) && 0 <= i < |y.mem.dirs[d].tables| && y.mem.dirs[d].tables[i] in shared ==> i < y.base
  }

  ghost predicate SharedBase(y: System, shared: set<int>, i: int)
  {
    y.current in y.mem.dirs && 0 <= i < y.base && i < |y.mem.dirs[y.current].tables| ==>
      y.mem.dirs[y.current].tables[i] in shared
  }

  ghost predicate SystemInv(y: System, shared: set<int>)
  {
    && Inv(y.mem, shared)
    && 0 !in shared
    && y.kernel in y.mem.dirs && y.current in y.mem.dirs
    && 0 <= y.base <= ENTRIES
    && (forall i :: SharedBase(y, shared, i))
    && (forall d, i :: PrivateBeyondBase(y, shared, d, i))
  }

  // ---------- table pointers ----------

  /** A table pointer, once set, stays; a new one leads to a table that is not shared. */
  ghost predicate PointerKept(s: State, t: State, shared: set<int>, d: int, i: int)
  {
    d in s.dirs && 0 <= i < |s.dirs[d].tables| ==>
      && d in t.dirs && i < |t.dirs[d].tables|
      && (t.dirs[d].tables[i] == s.dirs[d].tables[i] ||
          (s.dirs[d].tables[i] == 0 && t.dirs[d].tables[i] !in shared))
  }

  lemma MapOnePointers(s: State, shared: set<int>, d: int, p: int, d2: int, i: int)
    requires Inv(s, shared) && Addressed(s, d, p)
    ensures PointerKept(s, MapOne(s, d, p).state, shared, d2, i)
  {
    GetPageShape(s, shared, d, p);
    AlignUpIsLeast(s.top);
    assert TableOk(s, AlignUp(s.top));
  }

  lemma {:induction false} MapRegionPointers(
    s: State, shared: set<int>, d: int, top: int, end: int, d2: int, i: int, r: Outcome)
    requires Inv(s, shared) && d in s.dirs && Words(top, end)
    requires r == MapRegion(s, d, top, end)
    ensures PointerKept(s, r.state, shared, d2, i)
    decreases |s.frames| - Taken(s.frames)
  {
    hide Fill, GetPage;
    if top < end {
      DirAddressed(s, shared, d, top / PAGE_SIZE);
      MapOneKeeps(s, shared, d, top / PAGE_SIZE);
      MapOnePointers(s, shared, d, top / PAGE_SIZE, d2, i);
      var one := MapOne(s, d, top / PAGE_SIZE);
      if !one.panic {
        MapRegionPointers(one.state, shared, d, (top + PAGE_SIZE) % UINT32, end, d2, i, r);
      }
    }
  }

  /** Mapping a region keeps the whole invariant of the system, even if its counter wraps. */
  lemma MapRegionKeeps(y: System, shared: set<int>, d: int, begin: int, end: int)
    requires SystemInv(y, shared) && d in y.mem.dirs && Words(begin, end)
    ensures var t := MapRegion(y.mem, d, begin, end).state;
            SystemInv(y.(mem := t), shared) && t.dirs.Keys == y.mem.dirs.Keys
  {
    hide MapOne;
    var r := MapRegion(y.mem, d, begin, end);
    MapRegionKeepsInv(y.mem, shared, d, begin, end, r);
    var z := y.(mem := r.state);
    forall i
      ensures SharedBase(z, shared, i)
    {
      assert SharedBase(y, shared, i) && DirOk(y.mem, y.current) && DirOk(z.mem, y.current);
      MapRegionPointers(y.mem, shared, d, begin, end, y.current, i, r);
    }
    forall d2, i
      ensures PrivateBeyondBase(z, shared, d2, i)
    {
      assert PrivateBeyondBase(y, shared, d2, i) && DirOk(y.mem, d2) && DirOk(z.mem, d2);
      MapRegionPointers(y.mem, shared, d, begin, end, d2, i, r);
    }
  }

  lemma {:induction false} MapAllKeeps(y: System, shared: set<int>, d: int, regions: seq<Region>)
    requires SystemInv(y, shared) && d in y.mem.dirs
    requires forall i :: 0 <= i < |regions| ==> Words(regions[i].begin, regions[i].end)
    ensures var t := MapAll(y.mem, d, regions).state;
            SystemInv(y.(mem := t), shared) && t.dirs.Keys == y.mem.dirs.Keys
  {
    if regions != [] {
      MapAllKeeps(y, shared, d, regions[..|regions| - 1]);
      var r := MapAll(y.mem, d, regions[..|regions| - 1]);
      var last := regions[|regions| - 1];
      if !r.panic {
        MapRegionKeeps(y.(mem := r.state), shared, d, last.begin, last.end);
      }
    }
  }

  // ---------- a new directory ----------

  /** A directory whose places are empty or copies of shared places of another directory. */
  ghost predicate CopiesShared(s: State, shared: set<int>, from: int, dir: Directory)
    requires from in s.dirs
  {
    && |dir.tables| == ENTRIES && |dir.addresses| == ENTRIES
    && |s.dirs[from].tables| == ENTRIES && |s.dirs[from].addresses| == ENTRIES
    && forall i {:trigger dir.tables[i]} :: 0 <= i < ENTRIES ==>
         || (dir.tables[i] == 0 && dir.addresses[i] == 0)
         || (dir.tables[i] == s.dirs[from].tables[i] && dir.addresses[i] == s.dirs[from].addresses[i] &&
             (dir.tables[i] == 0 || dir.tables[i] in shared))
  }

  lemma AddDirectory(s: State, shared: set<int>, from: int, a: int, dir: Directory, top: int)
    requires Inv(s, shared) && from in s.dirs && a !in s.dirs
    requires s.top <= top && a + DIRECTORY_BYTES <= top
    requires CopiesShared(s, shared, from, dir)
    ensures Inv(s.(top := top, dirs := s.dirs[a := dir]), shared)
  {
    var t := s.(top := top, dirs := s.dirs[a := dir]);
    forall x
      ensures TableOk(t, x) && DirOk(t, x)
    {
      assert TableOk(s, x) && DirOk(s, x);
    }
    forall x, i
      ensures PlaceOk(t, x, i)
    {
      assert PlaceOk(s, x, i) && PlaceOk(s, from, i);
    }
    forall at, f
      ensures Exclusive(t, at, f)
    {
      assert Exclusive(s, at, f);
      forall other | Holds(t, at, f) && Holds(t, other, f)
        ensures other == at
      {
        assert Holds(s, other, f) && Holds(s, at, f);
      }
    }
    forall d1, i, d2, j
      ensures NoAlias(t, shared, d1, i, d2, j)
    {
      AddDirectoryAlias(s, shared, from, a, dir, top, d1, i, d2, j);
    }
  }

  lemma AddDirectoryAlias(s: State, shared: set<int>, from: int, a: int, dir: Directory, top: int,
                          d1: int, i: int, d2: int, j: int)
    requires Inv(s, shared) && from in s.dirs && a !in s.dirs
    requires CopiesShared(s, shared, from, dir)
    ensures NoAlias(s.(top := top, dirs := s.dirs[a := dir]), shared, d1, i, d2, j)
  {
    var e1, e2 := if d1 == a then from else d1, if d2 == a then from else d2;
    assert NoAlias(s, shared, e1, i, e2, j);
    if d1 == a && 0 <= i < ENTRIES {
      assert dir.tables[i] == 0 || dir.tables[i] in shared;
    }
    if d2 == a && 0 <= j < ENTRIES {
      assert dir.tables[j] == 0 || dir.tables[j] in shared;
    }
  }

  lemma NewDirectoryKeeps(y: System, shared: set<int>)
    requires SystemInv(y, shared)
    ensures var (s, a) := NewDirectory(y);
            && SystemInv(y.(mem := s), shared)
            && a in s.dirs && a !in y.mem.dirs
            && s.frames == y.mem.frames && s.tables == y.mem.tables
  {
    var (s, a) := NewDirectory(y);
    var dir := s.dirs[a];
    AlignUpIsLeast(y.mem.top);
    assert DirOk(y.mem, a) && DirOk(y.mem, y.current);
    forall i | 0 <= i < ENTRIES
      ensures || (dir.tables[i] == 0 && dir.addresses[i] == 0)
              || (dir.tables[i] == y.mem.dirs[y.current].tables[i] &&
                  dir.addresses[i] == y.mem.dirs[y.current].addresses[i] && dir.tables[i] in shared && i < y.base)
    {
      assert SharedBase(y, shared, i);
    }
    AddDirectory(y.mem, shared, y.current, a, dir, a + DIRECTORY_BYTES);
    var z := y.(mem := s);
    forall i
      ensures SharedBase(z, shared, i)
    {
      assert SharedBase(y, shared, i);
    }
    forall d, i
      ensures PrivateBeyondBase(z, shared, d, i)
    {
      assert PrivateBeyondBase(y, shared, d, i);
    }
  }

  /** A new process directory reads like the current one in the shared tables and is empty
      elsewhere, until its own regions are mapped. */
  lemma NewDirectoryTranslate(y: System, shared: set<int>, q: int)
    requires SystemInv(y, shared) && 0 <= q < PAGES
    ensures var (s, a) := NewDirectory(y);
            Translate(s, a, q) == if q / ENTRIES < y.base then Translate(y.mem, y.current, q) else None
  {
    assert DirOk(y.mem, y.current);
  }

  /** It lies at the next page boundary of the heap and takes 8192 bytes; nothing else changes. */
  lemma NewDirectoryPlace(y: System)
    requires y.current in y.mem.dirs
    ensures var (s, a) := NewDirectory(y);
            && y.mem.top <= a < y.mem.top + 4096 && a % 4096 == 0 && s.top == a + 8192
            && s.frames == y.mem.frames && s.tables == y.mem.tables && s.dirs.Keys == y.mem.dirs.Keys + {a}
            && forall d :: d in y.mem.dirs && d != a ==> s.dirs[d] == y.mem.dirs[d]
  {
  }

  // ---------- runs ----------

  lemma PerformKeeps(y: System, shared: set<int>, op: Op)
    requires SystemInv(y, shared) && Legal(y, op)
    ensures SystemInv(y.(mem := Perform(y, op).state), shared)
    ensures y.mem.dirs.Keys <= Perform(y, op).state.dirs.Keys
  {
    match op
    case Map(d, begin, end) =>
      MapRegionKeeps(y, shared, d, begin, end);
    case Create(regions) =>
      NewDirectoryKeeps(y, shared);
      var (s, a) := NewDirectory(y);
      MapAllKeeps(y.(mem := s), shared, a, regions);
    case Fault(running, absent, addr) =>
      FaultRegion(addr);
      if absent && running.Some? {
        MapRegionKeeps(y, shared, running.value, FaultStart(addr), FaultEnd(addr));
      }
  }

  lemma FaultRegion(addr: int)
    requires 0 <= addr < UINT32
    ensures Words(FaultStart(addr), FaultEnd(addr)) && Reached(FaultStart(addr), FaultEnd(addr))
    ensures FaultStart(addr) / PAGE_SIZE == addr / PAGE_SIZE
    ensures PagesIn(FaultStart(addr), FaultEnd(addr)) == if addr < LAST_PAGE then 1 else 0
  {
    if addr < LAST_PAGE {
      assert FaultEnd(addr) == FaultStart(addr) + PAGE_SIZE;
    } else {
      assert FaultStart(addr) == LAST_PAGE;
      assert FaultEnd(addr) == 0;
    }
  }

  ghost predicate LegalRun(y: System, ops: seq<Op>)
    decreases |ops|
  {
    ops != [] ==>
      && y.current in y.mem.dirs && Legal(y, ops[0])
      && (!Perform(y, ops[0]).panic ==> LegalRun(y.(mem := Perform(y, ops[0]).state), ops[1..]))
  }

  /** The system after a run; a panic halts it. */
  ghost function Run(y: System, ops: seq<Op>): System
    requires LegalRun(y, ops)
    decreases |ops|
  {
    if ops == [] then y
    else
      var r := Perform(y, ops[0]);
      var z := y.(mem := r.state);
      if r.panic then z else Run(z, ops[1..])
  }

  lemma {:induction false} RunKeeps(y: System, shared: set<int>, ops: seq<Op>)
    requires SystemInv(y, shared) && LegalRun(y, ops)
    ensures SystemInv(Run(y, ops), shared)
    ensures var z := Run(y, ops); z.kernel == y.kernel && z.current == y.current && z.base == y.base
    decreases |ops|
  {
    if ops != [] {
      PerformKeeps(y, shared, ops[0]);
      if !Perform(y, ops[0]).panic {
        RunKeeps(y.(mem := Perform(y, ops[0]).state), shared, ops[1..]);
      }
    }
  }

  // ---------- start-up ----------

  /** Where `Initialize` puts the two directories and the frame table. */
  function CurrentAt(top: int): int
  {
    AlignUp(top)
  }

  function KernelAt(top: int): int
  {
    AlignUp(CurrentAt(top) + DIRECTORY_BYTES)
  }

  function EmptySystem(top: int): State
  {
    State(AlignUp(KernelAt(top) + DIRECTORY_BYTES) + FRAME_COUNT, seq(FRAME_COUNT, _ => false),
          map[], map[KernelAt(top) := EmptyDirectory()])
  }

  function KernelMapped(top: int, heap: bool): Outcome
  {
    var r := MapRegion(EmptySystem(top), KernelAt(top), 0, K_MAPPED_REGION);
    if heap && !r.panic then MapRegion(r.state, KernelAt(top), K_HEAP_START, K_HEAP_START + K_HEAP_INITIAL_SIZE) else r
  }

  function BaseTables(): int
  {
    var n := PagesIn(0, K_MAPPED_REGION) / ENTRIES;
    if n == 0 then 1 else n
  }

  function Boot(top: int, heap: bool): System
  {
    var s := KernelMapped(top, heap).state;
    var k := KernelAt(top);
    System(if k in s.dirs then s.(dirs := s.dirs[CurrentAt(top) := s.dirs[k]]) else s,
           k, CurrentAt(top), BaseTables())
  }

  /** The two directories, of 8192 bytes each, and the frame table, of 40960 frames, follow one
      another from the top of the heap, each at the next page boundary. */
  lemma BootLayout(top: int)
    ensures var current, kernel, s := CurrentAt(top), KernelAt(top), EmptySystem(top);
            && top <= current < top + 4096 && current % 4096 == 0
            && current + 8192 <= kernel < current + 8192 + 4096 && kernel % 4096 == 0
            && kernel + 8192 + 40960 <= s.top < kernel + 8192 + 40960 + 4096
            && |s.frames| == 40960 && s.dirs == map[kernel := EmptyDirectory()] && s.tables == map[]
            && (forall i :: 0 <= i < 40960 ==> !s.frames[i])
            && |s.dirs[kernel].tables| == 1024 == |s.dirs[kernel].addresses|
            && forall i :: 0 <= i < 1024 ==> s.dirs[kernel].tables[i] == 0 == s.dirs[kernel].addresses[i]
  {
  }

  lemma EmptySystemInv(top: int)
    requires 0 < top
    ensures Inv(EmptySystem(top), {})
    ensures Taken(EmptySystem(top).frames) == 0
    ensures CurrentAt(top) != KernelAt(top) && CurrentAt(top) + DIRECTORY_BYTES <= EmptySystem(top).top
  {
    AlignUpIsLeast(top);
    AlignUpIsLeast(CurrentAt(top) + DIRECTORY_BYTES);
    AlignUpIsLeast(KernelAt(top) + DIRECTORY_BYTES);
    assert FirstFree(EmptySystem(top).frames, 0) == 0;
  }

  /** Start-up runs out of no frames and maps the kernel one to one, and the heap, if it is
      asked for, to the frames after it. */
  lemma KernelMappedReads(top: int, heap: bool, q: int)
    requires 0 < top && 0 <= q < PAGES
    ensures var r := KernelMapped(top, heap);
            && !r.panic && Inv(r.state, {}) && r.state.dirs.Keys == {KernelAt(top)}
            && |r.state.frames| == FRAME_COUNT
            && Taken(r.state.frames) == 512 + (if heap then 0x1000 else 0)
            && Translate(r.state, KernelAt(top), q) ==
               (if q < 512 then Some(q)
                else if heap && 0xC0000 <= q < 0xC1000 then Some(512 + q - 0xC0000)
                else None)
  {
    hide MapPages, MapRegion, Translate;
    var s, k := EmptySystem(top), KernelAt(top);
    EmptySystemInv(top);
    assert PagesIn(0, K_MAPPED_REGION) == 512;
    MapRegionIsPages(s, k, 0, K_MAPPED_REGION);
    var r := MapPages(s, k, 0, 512);
    MapPagesKeeps(s, {}, k, 0, 512, r);
    MapPagesTranslate(s, {}, k, 0, 512, q, r);
    DirAddressed(s, {}, k, 0);
    NothingMapped(top, q);
    if heap {
      assert PagesIn(K_HEAP_START, K_HEAP_START + K_HEAP_INITIAL_SIZE) == 0x1000;
      MapRegionIsPages(r.state, k, K_HEAP_START, K_HEAP_START + K_HEAP_INITIAL_SIZE);
      var r2 := MapPages(r.state, k, 0xC0000, 0x1000);
      MapPagesKeeps(r.state, {}, k, 0xC0000, 0x1000, r2);
      MapPagesTranslate(r.state, {}, k, 0xC0000, 0x1000, q, r2);
      DirAddressed(r.state, {}, k, 0xC0000);
    }
  }

  lemma NothingMapped(top: int, q: int)
    requires 0 <= q < PAGES
    ensures Translate(EmptySystem(top), KernelAt(top), q) == None
  {
  }

  /** After start-up all tables are shared, between the kernel's directory and its copy. */
  lemma BootInv(top: int, heap: bool)
    requires 0 < top
    ensures SystemInv(Boot(top, heap), Boot(top, heap).mem.tables.Keys)
  {
    hide MapRegion;
    var s, k, c := KernelMapped(top, heap).state, KernelAt(top), CurrentAt(top);
    KernelMappedReads(top, heap, 0);
    EmptySystemInv(top);
    KernelTop(top, heap);
    var all := s.tables.Keys;
    AllShared(s);
    assert DirOk(s, k);
    forall i | 0 <= i < ENTRIES
      ensures s.dirs[k].tables[i] == 0 || s.dirs[k].tables[i] in all
    {
      assert PlaceOk(s, k, i);
    }
    AddDirectory(s, all, k, c, s.dirs[k], s.top);
    var y := Boot(top, heap);
    assert TableOk(s, 0);
    assert Translate(s, k, 0).Some?;
    forall i
      ensures SharedBase(y, all, i)
    {
      assert PlaceOk(s, k, i);
    }
    forall d, i
      ensures PrivateBeyondBase(y, all, d, i)
    {
    }
  }

  lemma KernelTop(top: int, heap: bool)
    requires 0 < top
    ensures EmptySystem(top).top <= KernelMapped(top, heap).state.top
  {
    hide MapOne;
    EmptySystemInv(top);
    var s, k := EmptySystem(top), KernelAt(top);
    TopOnlyGrows(s, k, 0, K_MAPPED_REGION);
    TopOnlyGrows(MapRegion(s, k, 0, K_MAPPED_REGION).state, k, K_HEAP_START, K_HEAP_START + K_HEAP_INITIAL_SIZE);
  }

  lemma {:induction false} TopOnlyGrows(s: State, d: int, top: int, end: int)
    ensures s.top <= MapRegion(s, d, top, end).state.top
    decreases |s.frames| - Taken(s.frames)
  {
    if top < end {
      AlignUpIsLeast(s.top);
      var one := MapOne(s, d, top / PAGE_SIZE);
      if !one.panic {
        MapOneTakes(s, d, top / PAGE_SIZE);
        TopOnlyGrows(one.state, d, (top + PAGE_SIZE) % UINT32, end);
      }
    }
  }

  lemma AllShared(s: State)
    requires Inv(s, {})
    ensures Inv(s, s.tables.Keys)
  {
    forall d1, i, d2, j
      ensures NoAlias(s, s.tables.Keys, d1, i, d2, j)
    {
      assert NoAlias(s, {}, d1, i, d2, j);
    }
  }

  // ---------- main results ----------

  /** Isolation: after start-up and any run, two directories reach a common frame only at the
      same page, through a table the kernel made at start-up; and a process shares with any
      other directory only its first tables. */
  lemma Isolation(top: int, heap: bool, ops: seq<Op>, d1: int, p1: int, d2: int, p2: int)
    requires 0 < top && LegalRun(Boot(top, heap), ops)
    ensures var y := Run(Boot(top, heap), ops);
            && (Translate(y.mem, d1, p1).Some? && Translate(y.mem, d1, p1) == Translate(y.mem, d2, p2) ==>
                  && p1 == p2
                  && (d1 != d2 ==> y.mem.dirs[d1].tables[p1 / ENTRIES] in Boot(top, heap).mem.tables)
                  && (d1 != d2 && (Process(y, d1) || Process(y, d2)) ==> p1 / ENTRIES < y.base))
  {
    hide Boot;
    BootInv(top, heap);
    var shared := Boot(top, heap).mem.tables.Keys;
    RunKeeps(Boot(top, heap), shared, ops);
    var y := Run(Boot(top, heap), ops);
    if Translate(y.mem, d1, p1).Some? && Translate(y.mem, d1, p1) == Translate(y.mem, d2, p2) {
      CommonFrame(y.mem, shared, d1, p1, d2, p2);
      assert PrivateBeyondBase(y, shared, d1, p1 / ENTRIES) && PrivateBeyondBase(y, shared, d2, p2 / ENTRIES);
    }
  }

  /** The handler returns only for an absent page with a process running; otherwise it panics
      and changes nothing.  Where it returns it has mapped the fault's page for that process. */
  lemma FaultReturnsExactlyWhen(s: State, shared: set<int>, running: Option<int>, absent: bool, addr: int)
    requires Inv(s, shared) && (running.Some? ==> running.value in s.dirs) && 0 <= addr < UINT32
    ensures var r := HandleFault(s, running, absent, addr);
            && (!r.panic <==> absent && running.Some? && (Taken(s.frames) < |s.frames| || addr >= 0xFFFF_F000))
            && (!absent || running == None ==> r == Outcome(s, true))
            && (absent && running.Some? ==> r == PageFault(s, running.value, addr))
  {
    hide MapRegion;
    FaultRegion(addr);
    if absent && running.Some? {
      MapRegionReturnsExactlyWhen(s, shared, running.value, FaultStart(addr), FaultEnd(addr));
    }
  }

  /** A fault on an absent page makes it present exactly when the page is ready and is not
      the last page of the address space; it then takes one frame, and every other page of the
      directory reads as before. */
  lemma FaultMapsPage(s: State, shared: set<int>, d: int, addr: int, q: int)
    requires Inv(s, shared) && d in s.dirs && 0 <= addr < UINT32 && 0 <= q < PAGES
    requires Translate(s, d, addr / PAGE_SIZE) == None && !PageFault(s, d, addr).panic
    ensures var t := PageFault(s, d, addr).state; var p := addr / PAGE_SIZE;
            && (Translate(t, d, p).Some? <==> Ready(s, d, p) && addr < LAST_PAGE)
            && (Ready(s, d, p) && addr < LAST_PAGE ==>
                  Translate(t, d, q) == if q == p then Some(Taken(s.frames)) else Translate(s, d, q))
            && Taken(t.frames) == Taken(s.frames) + if addr < LAST_PAGE then 1 else 0
  {
    hide MapOne, Translate;
    FaultRegion(addr);
    var p := addr / PAGE_SIZE;
    DirAddressed(s, shared, d, p);
    MapRegionIsPages(s, d, FaultStart(addr), FaultEnd(addr));
    if addr < LAST_PAGE {
      MapPagesKeeps(s, shared, d, p, 1, PageFault(s, d, addr));
      MapPagesTranslate(s, shared, d, p, 1, p, PageFault(s, d, addr));
      MapPagesTranslate(s, shared, d, p, 1, q, PageFault(s, d, addr));
    }
  }

  /** A fault that filled the wrong entry is mended by the next fault on the same address. */
  lemma SecondFaultMapsPage(s: State, shared: set<int>, d: int, addr: int)
    requires Inv(s, shared) && d in s.dirs && 0 <= addr < LAST_PAGE
    requires !PageFault(s, d, addr).panic && !PageFault(PageFault(s, d, addr).state, d, addr).panic
    ensures Translate(PageFault(PageFault(s, d, addr).state, d, addr).state, d, addr / PAGE_SIZE).Some?
  {
    hide Fill, GetPage, Translate;
    FaultRegion(addr);
    var p := addr / PAGE_SIZE;
    DirAddressed(s, shared, d, p);
    MapOneKeeps(s, shared, d, p);
    var t := PageFault(s, d, addr);
    MapRegionIsPages(s, d, FaultStart(addr), FaultEnd(addr));
    MapRegionIsPages(t.state, d, FaultStart(addr), FaultEnd(addr));
    assert MapPages(s, d, p, 0) == Outcome(s, false);
    assert t == MapOne(s, d, p);
    assert Ready(t.state, d, p);
    MapPagesTranslate(t.state, shared, d, p, 1, p, PageFault(t.state, d, addr));
  }

  // ---------- the wrong entry, at a real address ----------

  lemma OtherPointerStays(s: State, d: int, p: int, i: int)
    requires d in s.dirs && 0 <= i < |s.dirs[d].tables| && i != p / ENTRIES
    ensures var t := MapOne(s, d, p).state;
            d in t.dirs && |t.dirs[d].tables| == |s.dirs[d].tables| && t.dirs[d].tables[i] == s.dirs[d].tables[i]
  {
  }

  /** Mapping touches only the table pointers of the pages it maps. */
  lemma {:induction false} OtherPointersStay(s: State, d: int, first: int, n: nat, i: int, r: Outcome)
    requires 0 <= first && d in s.dirs && 0 <= i < |s.dirs[d].tables|
    requires i < first / ENTRIES || (first + n + ENTRIES - 1) / ENTRIES <= i
    requires r == MapPages(s, d, first, n)
    ensures d in r.state.dirs && |r.state.dirs[d].tables| == |s.dirs[d].tables|
    ensures r.state.dirs[d].tables[i] == s.dirs[d].tables[i]
  {
    hide MapOne;
    if n > 0 {
      var before := MapPages(s, d, first, n - 1);
      OtherPointersStay(s, d, first, n - 1, i, before);
      OtherPointerStays(before.state, d, first + n - 1, i);
    }
  }

  /** The first page the kernel never maps but for its table: page 1025, address 0x401000. */
  const UNREADY: int := 1025

  lemma UnreadyAfterBoot(top: int, heap: bool)
    requires 0 < top
    ensures !Ready(KernelMapped(top, heap).state, KernelAt(top), UNREADY)
  {
    hide MapPages, MapRegion;
    var s, k := EmptySystem(top), KernelAt(top);
    MapRegionIsPages(s, k, 0, K_MAPPED_REGION);
    assert PagesIn(0, K_MAPPED_REGION) == 512;
    OtherPointersStay(s, k, 0, 512, 1, MapPages(s, k, 0, 512));
    if heap {
      var r := MapPages(s, k, 0, 512).state;
      MapRegionIsPages(r, k, K_HEAP_START, K_HEAP_START + K_HEAP_INITIAL_SIZE);
      assert PagesIn(K_HEAP_START, K_HEAP_START + K_HEAP_INITIAL_SIZE) == 0x1000;
      OtherPointersStay(r, k, 0xC0000, 0x1000, 1, MapPages(r, k, 0xC0000, 0x1000));
    }
  }

  /** What starting the first process does: the kernel's stack is mapped. */
  function Started(top: int): seq<Op>
  {
    [Map(KernelAt(top), KERNEL_STACK_BEGIN, KERNEL_STACK_BEGIN + KERNEL_STACK_SIZE)]
  }

  /** The failure at a reachable state: in the kernel's own process, the first that runs, a fault
      at address 0x401000 leaves that page absent and makes page 1024 present instead. */
  lemma WrongEntryAfterStart(top: int, heap: bool)
    requires 0 < top
    ensures LegalRun(Boot(top, heap), Started(top))
    ensures var y := Run(Boot(top, heap), Started(top));
            var r := HandleFault(y.mem, Some(y.kernel), true, UNREADY * PAGE_SIZE);
            && !Ready(y.mem, y.kernel, UNREADY)
            && !r.panic
            && Translate(y.mem, y.kernel, UNREADY - 1) == None
            && Translate(r.state, y.kernel, UNREADY) == None
            && Translate(r.state, y.kernel, UNREADY - 1) == Some(Taken(y.mem.frames))
  {
    hide MapPages, MapRegion, Translate, Boot;
    var y := Boot(top, heap);
    var shared := y.mem.tables.Keys;
    BootInv(top, heap);
    StackMapped(top, heap);
    var z := Run(y, Started(top));
    MapRegionKeeps(y, shared, y.kernel, KERNEL_STACK_BEGIN, KERNEL_STACK_BEGIN + KERNEL_STACK_SIZE);
    FaultRegion(UNREADY * PAGE_SIZE);
    var r := PageFault(z.mem, z.kernel, UNREADY * PAGE_SIZE);
    MapRegionIsPages(z.mem, z.kernel, FaultStart(UNREADY * PAGE_SIZE), FaultEnd(UNREADY * PAGE_SIZE));
    MapPagesKeeps(z.mem, shared, z.kernel, UNREADY, 1, r);
    MapPagesTranslate(z.mem, shared, z.kernel, UNREADY, 1, UNREADY, r);
    MapPagesTranslate(z.mem, shared, z.kernel, UNREADY, 1, UNREADY - 1, r);
  }

  /** The stack takes frames and tables of its own: pages 1024 and 1025 are as before. */
  lemma StackMapped(top: int, heap: bool)
    requires 0 < top
    ensures LegalRun(Boot(top, heap), Started(top))
    ensures var y := Boot(top, heap); var z := Run(y, Started(top));
            && z.mem == MapRegion(y.mem, y.kernel, KERNEL_STACK_BEGIN, KERNEL_STACK_BEGIN + KERNEL_STACK_SIZE).state
            && z == y.(mem := z.mem) && y.kernel == KernelAt(top)
            && !Ready(z.mem, z.kernel, UNREADY)
            && Translate(z.mem, z.kernel, UNREADY) == None
            && Translate(z.mem, z.kernel, UNREADY - 1) == None
            && Taken(z.mem.frames) < |z.mem.frames|
  {
    hide MapPages, MapRegion, Translate;
    var y := Boot(top, heap);
    var shared := y.mem.tables.Keys;
    BootInv(top, heap);
    UnreadyAfterBoot(top, heap);
    BootReads(top, heap, UNREADY);
    BootReads(top, heap, UNREADY - 1);
    var first, n := KERNEL_STACK_BEGIN / PAGE_SIZE, KERNEL_STACK_SIZE / PAGE_SIZE;
    MapRegionIsPages(y.mem, y.kernel, KERNEL_STACK_BEGIN, KERNEL_STACK_BEGIN + KERNEL_STACK_SIZE);
    var r := MapPages(y.mem, y.kernel, first, n);
    MapPagesKeeps(y.mem, shared, y.kernel, first, n, r);
    MapPagesTranslate(y.mem, shared, y.kernel, first, n, UNREADY, r);
    MapPagesTranslate(y.mem, shared, y.kernel, first, n, UNREADY - 1, r);
    DirAddressed(y.mem, shared, y.kernel, first);
    assert DirOk(y.mem, y.kernel);
    OtherPointersStay(y.mem, y.kernel, first, n, 1, r);
    assert Started(top)[1..] == [];
  }

  /** After start-up the kernel's directory and the current one read alike: the first 512 pages
      one to one, the heap on the frames after them, and nothing else; and frames are left. */
  lemma BootReads(top: int, heap: bool, q: int)
    requires 0 < top && 0 <= q < PAGES
    ensures var y := Boot(top, heap);
            && Translate(y.mem, y.kernel, q) == Translate(y.mem, y.current, q)
            && Translate(y.mem, y.kernel, q) ==
               (if q < 512 then Some(q)
                else if heap && 0xC0000 <= q < 0xC1000 then Some(512 + q - 0xC0000)
                else None)
            && Taken(y.mem.frames) + 0x2000 < |y.mem.frames|
  {
    hide MapPages, MapRegion;
    KernelMappedReads(top, heap, q);
    EmptySystemInv(top);
  }

  /** A process created then shares the kernel's first table and no other: it reads the first
      512 pages one to one, and of the heap's nothing, before its own regions are mapped. */
  lemma NewProcessReads(top: int, heap: bool, q: int)
    requires 0 < top && 0 <= q < PAGES
    ensures Boot(top, heap).current in Boot(top, heap).mem.dirs
    ensures var y := Boot(top, heap); var (s, a) := NewDirectory(y);
            && y.base == 1
            && Translate(s, a, q) == if q < 512 then Some(q) else None
  {
    BootInv(top, heap);
    BootReads(top, heap, q);
    hide MapRegion, KernelMapped, Translate;
    NewDirectoryTranslate(Boot(top, heap), Boot(top, heap).mem.tables.Keys, q);
    assert PagesIn(0, K_MAPPED_REGION) == 512;
  }
}
