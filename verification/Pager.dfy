/** The pager as the kernel runs it: frames, tables and directories changed in place. */
module KernelPager {
  import opened Basics
  import opened BumpHeap
  import opened FrameTables
  import opened PagingModel
  import opened PagingRuns

  class Pager {
    const heap: PrimitiveHeap
    const frameTable: FrameTable
    var tables: map<int, PageTable>
    var dirs: map<int, Directory>
    var kernel: int
    var current: int
    var base: int

    ghost function Mem(): State
      reads this, heap, frameTable.frames
    {
      State(heap.top, frameTable.frames[..], tables, dirs)
    }

    ghost function Sys(): System
      reads this, heap, frameTable.frames
    {
      System(Mem(), kernel, current, base)
    }

    method FindPage(addr: int, dir: int, makePage: bool) returns (page: Option<Slot>)
      requires Addressed(Mem(), dir, addr / PAGE_SIZE)
      modifies this`tables, this`dirs, heap
      ensures makePage ==> page.Some? && (Mem(), page.value) == GetPage(old(Mem()), dir, addr / PAGE_SIZE)
      ensures !makePage ==>
                var t := old(dirs)[dir].tables[addr / PAGE_SIZE / ENTRIES];
                && Mem() == old(Mem())
                && page == if t == 0 then None else Some(Slot(t, addr / PAGE_SIZE % ENTRIES))
    {
      var pageIdx := addr / PAGE_SIZE;
      var tableIdx := pageIdx / ENTRIES;
      if dirs[dir].tables[tableIdx] != 0 {
        page := Some(Slot(dirs[dir].tables[tableIdx], pageIdx % ENTRIES));
      } else if makePage {
        var table, pageAddr := heap.AllocateWPointer(TABLE_BYTES, true);
        dirs := dirs[dir := dirs[dir].(tables := dirs[dir].tables[tableIdx := table])];
        tables := tables[table := EmptyTable()];
        dirs := dirs[dir := dirs[dir].(addresses := dirs[dir].addresses[tableIdx := WithFlags(pageAddr)])];
        page := Some(Slot(table, pageAddr % ENTRIES));
        assert dirs == old(dirs)[dir := Directory(old(dirs)[dir].tables[tableIdx := table],
                                                  old(dirs)[dir].addresses[tableIdx := WithFlags(pageAddr)])];
      } else {
        page := None;
      }
    }

    /** The counter `top` is 32 bits wide and may wrap; the loop then ends in the panic. */
    method MapVirtToPhys(start: int, end: int, dir: int, ghost shared: set<int>)
      returns (pagesCreated: nat, panic: bool)
      requires Inv(Mem(), shared) && dir in dirs && Words(start, end)
      modifies this`tables, this`dirs, heap, frameTable.frames
      ensures Outcome(Mem(), panic) == MapRegion(old(Mem()), dir, start, end)
      ensures !panic ==> pagesCreated == PagesIn(start, end)
    {
      hide GetPage, Fill;
      ghost var was := Mem();
      ghost var all := MapRegion(was, dir, start, end);
      MapRegionReturnsExactlyWhen(was, shared, dir, start, end);
      pagesCreated := 0;
      panic := false;
      var top := start;
      while top < end
        invariant Words(top, end) && !panic
        invariant Inv(Mem(), shared) && dir in dirs
        invariant MapRegion(Mem(), dir, top, end) == all
        invariant Reached(start, end) ==> pagesCreated <= PagesIn(start, end) && top == CounterAt(start, pagesCreated)
        invariant Reached(start, end) ==> (top >= end <==> pagesCreated == PagesIn(start, end))
        decreases |frameTable.frames[..]| - Taken(frameTable.frames[..])
      {
        ghost var before := Mem();
        DirAddressed(before, shared, dir, top / PAGE_SIZE);
        MapOneKeeps(before, shared, dir, top / PAGE_SIZE);
        panic := MapTop(top, dir, shared);
        if panic {
          return;
        }
        if Reached(start, end) {
          NextCounter(start, end, pagesCreated);
          ReachedFits(start, end);
        }
        pagesCreated := pagesCreated + 1;
        top := (top + PAGE_SIZE) % UINT32;
      }
    }

    /** One round of the loop.  The frame is looked up first, but a missing frame is noticed
        only after the table has been made. */
    method MapTop(top: int, dir: int, ghost shared: set<int>) returns (panic: bool)
      requires Inv(Mem(), shared) && dir in dirs && 0 <= top / PAGE_SIZE < PAGES
      modifies this`tables, this`dirs, heap, frameTable.frames
      ensures Outcome(Mem(), panic) == MapOne(old(Mem()), dir, top / PAGE_SIZE)
    {
      DirAddressed(Mem(), shared, dir, top / PAGE_SIZE);
      GetPageShape(Mem(), shared, dir, top / PAGE_SIZE);
      var idx, error := frameTable.FindFirst();
      var page := FindPage(top, dir, true);
      if error {
        return true;
      }
      var at := page.value;
      var entry := tables[at.table][at.entry].(present := true, user := false, rw := false, frame := idx);
      tables := tables[at.table := tables[at.table][at.entry := entry]];
      frameTable.SetAtIndex(idx);
      return false;
    }

    /** Both directories and the frame table are placed; nothing is mapped. */
    constructor (end: int)
      requires 0 < end
      ensures fresh(heap) && fresh(frameTable.frames)
      ensures Sys() == System(EmptySystem(end), KernelAt(end), CurrentAt(end), 0)
    {
      var h := new PrimitiveHeap(end);
      var currentAt := h.Allocate(DIRECTORY_BYTES, true);
      var kernelAt := h.Allocate(DIRECTORY_BYTES, true);
      var framesAt := h.Allocate(FRAME_COUNT, true);
      heap := h;
      frameTable := new FrameTable(FRAME_COUNT);
      tables := map[];
      dirs := map[kernelAt := EmptyDirectory()];
      kernel := kernelAt;
      current := currentAt;
      base := 0;
      new;
      assert frameTable.frames[..] == EmptySystem(end).frames;
    }

    /** The kernel is mapped one to one, then its heap, and the current directory copied. */
    method Initialize(ghost end: int, heapMapping: bool)
      requires 0 < end && Sys() == System(EmptySystem(end), KernelAt(end), CurrentAt(end), 0)
      modifies this, heap, frameTable.frames
      ensures Sys() == Boot(end, heapMapping)
      ensures SystemInv(Sys(), tables.Keys)
    {
      hide MapRegion;
      EmptySystemInv(end);
      KernelMappedReads(end, heapMapping, 0);
      KernelMappedReads(end, false, 0);
      var pagesCreated, panic := MapVirtToPhys(0, K_MAPPED_REGION, kernel, {});
      var numTables := pagesCreated / ENTRIES;
      base := if numTables == 0 then 1 else numTables;
      if heapMapping {
        var more;
        more, panic := MapVirtToPhys(K_HEAP_START, K_HEAP_START + K_HEAP_INITIAL_SIZE, kernel, {});
        pagesCreated := pagesCreated + more;
      }
      dirs := dirs[current := dirs[kernel]];
      BootInv(end, heapMapping);
    }

    /** A null directory stands for the current one. */
    method MapRegionIn(start: int, end: int, dir: Option<int>, ghost shared: set<int>)
      returns (pagesCreated: nat, panic: bool)
      requires SystemInv(Sys(), shared) && Words(start, end)
      requires dir.Some? ==> dir.value in dirs
      modifies this`tables, this`dirs, heap, frameTable.frames
      ensures SystemInv(Sys(), shared)
      ensures Outcome(Mem(), panic) ==
              Perform(old(Sys()), Op.Map(if dir.Some? then dir.value else current, start, end))
      ensures !panic ==> pagesCreated == PagesIn(start, end)
    {
      hide MapRegion;
      var d := if dir.Some? then dir.value else current;
      MapRegionKeeps(Sys(), shared, d, start, end);
      pagesCreated, panic := MapVirtToPhys(start, end, d, shared);
    }

    method CreateProcessDirectory(regions: seq<Region>, ghost shared: set<int>) returns (dir: int, panic: bool)
      requires SystemInv(Sys(), shared) && Legal(Sys(), Create(regions))
      modifies this`tables, this`dirs, heap, frameTable.frames
      ensures SystemInv(Sys(), shared) && dir in dirs && dir !in old(dirs)
      ensures Outcome(Mem(), panic) == CreateDirectory(old(Sys()), regions)
      ensures dir == NewDirectory(old(Sys())).1
    {
      hide MapRegion;
      NewDirectoryKeeps(Sys(), shared);
      ghost var y := Sys();
      assert DirOk(Mem(), current) && DirOk(Mem(), NewDirectory(y).1);
      AlignUpIsLeast(heap.top);
      dir := NewCopy();
      assert Mem() == NewDirectory(y).0;
      ghost var z := Sys();
      panic := false;
      var i := 0;
      while i < |regions|
        invariant 0 <= i <= |regions| && !panic
        invariant Outcome(Mem(), false) == MapAll(z.mem, dir, regions[..i])
        invariant SystemInv(Sys(), shared) && dir in dirs
      {
        ghost var before := Sys();
        var r := regions[i];
        MapRegionKeeps(before, shared, dir, r.begin, r.end);
        var created;
        created, panic := MapVirtToPhys(r.begin, r.end, dir, shared);
        assert regions[..i + 1][..i] == regions[..i];
        assert Outcome(Mem(), panic) == MapAll(z.mem, dir, regions[..i + 1]);
        if panic {
          PanicEnds(z.mem, dir, regions, i + 1);
          return;
        }
        i := i + 1;
      }
      assert regions[..i] == regions;
    }

    /** A zeroed directory with the first tables of the current one copied in a loop. */
    method NewCopy() returns (dir: int)
      requires current in dirs && 0 <= base <= ENTRIES
      requires |dirs[current].tables| == ENTRIES == |dirs[current].addresses|
      requires AlignUp(heap.top) != current
      modifies this`dirs, heap
      ensures (Mem(), dir) == NewDirectory(old(Sys()))
    {
      dir := heap.Allocate(DIRECTORY_BYTES, true);
      dirs := dirs[dir := EmptyDirectory()];
      CopyNothing(dirs[current]);
      var i := 0;
      while i < base
        invariant 0 <= i <= base && heap.top == dir + DIRECTORY_BYTES
        invariant dirs == old(dirs)[dir := CopyTables(old(dirs)[current], i)]
      {
        CopyOneMore(old(dirs)[current], i);
        var from := dirs[current];
        var to := dirs[dir];
        dirs := dirs[dir := Directory(to.tables[i := from.tables[i]], to.addresses[i := from.addresses[i]])];
        i := i + 1;
      }
    }

    method PageFaultHandler(running: Option<int>, absent: bool, addr: int, ghost shared: set<int>)
      returns (panic: bool)
      requires SystemInv(Sys(), shared) && (running.Some? ==> running.value in dirs) && 0 <= addr < UINT32
      modifies this`tables, this`dirs, heap, frameTable.frames
      ensures SystemInv(Sys(), shared)
      ensures Outcome(Mem(), panic) == HandleFault(old(Mem()), running, absent, addr)
    {
      hide MapRegion;
      FaultRegion(addr);
      panic := true;
      if absent {
        if running.Some? {
          MapRegionKeeps(Sys(), shared, running.value, FaultStart(addr), FaultEnd(addr));
          var baseFault := addr - addr % PAGE_SIZE;
          var topFault := (baseFault + PAGE_SIZE) % UINT32;
          var pages;
          pages, panic := MapVirtToPhys(baseFault, topFault, running.value, shared);
        }
      }
    }
  }

  lemma CopyNothing(dir: Directory)
    ensures CopyTables(dir, 0) == EmptyDirectory()
  {
  }

  lemma CopyOneMore(dir: Directory, i: nat)
    requires i < ENTRIES == |dir.tables| == |dir.addresses|
    ensures var to := CopyTables(dir, i);
            CopyTables(dir, i + 1) == Directory(to.tables[i := dir.tables[i]], to.addresses[i := dir.addresses[i]])
  {
  }

  lemma {:induction false} PanicEnds(s: State, d: int, regions: seq<Region>, k: nat)
    requires k <= |regions| && MapAll(s, d, regions[..k]).panic
    ensures MapAll(s, d, regions) == MapAll(s, d, regions[..k])
    decreases |regions|
  {
    if k < |regions| {
      var front := regions[..|regions| - 1];
      assert front[..k] == regions[..k];
      PanicEnds(s, d, front, k);
    } else {
      assert regions[..k] == regions;
    }
  }
}
