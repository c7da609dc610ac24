/**
 Page directories, page tables and frames as values.

 Tables and directories are found by their address on the primitive heap, so two directories
 that hold the same table address share that table, as they do in the kernel.
 */
module PagingModel {
  import opened Basics
  import opened BumpHeap
  import opened FrameTables

  const ENTRIES: int := 1024
  const PAGES: int := ENTRIES * ENTRIES
  const TABLE_BYTES: int := 4 * ENTRIES
  const DIRECTORY_BYTES: int := 8 * ENTRIES
  const PRESENT_RW_USER: int := 7
  const LAST_PAGE: int := UINT32 - PAGE_SIZE

  datatype Page = Page(present: bool, rw: bool, user: bool, frame: int)
  type PageTable = seq<Page>

  /** `tables` are the pointers the kernel follows, `addresses` what the processor reads. */
  datatype Directory = Directory(tables: seq<int>, addresses: seq<int>)

  datatype State = State(top: int, frames: seq<bool>, tables: map<int, PageTable>, dirs: map<int, Directory>)

  /** Entry number `entry` of the table at address `table`. */
  datatype Slot = Slot(table: int, entry: int)

  datatype Outcome = Outcome(state: State, panic: bool)

  function EmptyTable(): PageTable
  {
    seq(ENTRIES, _ => Page(false, false, false, 0))
  }

  function EmptyDirectory(): Directory
  {
    Directory(seq(ENTRIES, _ => 0), seq(ENTRIES, _ => 0))
  }

  // ---------- invariants ----------

  ghost predicate TableOk(s: State, t: int)
  {
    t in s.tables ==>
      && 0 < t && t % PAGE_SIZE == 0 && t + TABLE_BYTES <= s.top
      && |s.tables[t]| == ENTRIES
  }

  ghost predicate DirOk(s: State, d: int)
  {
    d in s.dirs ==>
      && d + DIRECTORY_BYTES <= s.top
      && |s.dirs[d].tables| == ENTRIES && |s.dirs[d].addresses| == ENTRIES
  }

  /** The table pointer of place `i` is null, or leads to a table whose address the
      processor finds in `addresses` above the flag bits. */
  ghost predicate PlaceOk(s: State, d: int, i: int)
  {
    d in s.dirs && 0 <= i < |s.dirs[d].tables| && 0 <= i < |s.dirs[d].addresses| ==>
      var t := s.dirs[d].tables[i];
      && (t != 0 ==> t in s.tables)
      && s.dirs[d].addresses[i] == (if t == 0 then 0 else t + PRESENT_RW_USER)
  }

  ghost predicate Shape(s: State)
  {
    && 0 < s.top
    && (forall t :: TableOk(s, t))
    && (forall d :: DirOk(s, d))
    && (forall d, i :: PlaceOk(s, d, i))
  }

  ghost predicate Holds(s: State, at: Slot, f: int)
  {
    && at.table in s.tables
    && 0 <= at.entry < |s.tables[at.table]|
    && s.tables[at.table][at.entry].present
    && s.tables[at.table][at.entry].frame == f
  }

  /** A present entry is read-only for the supervisor and holds a taken frame, and no other
      entry holds the same one. */
  ghost predicate Exclusive(s: State, at: Slot, f: int)
  {
    Holds(s, at, f) ==>
      && !s.tables[at.table][at.entry].rw && !s.tables[at.table][at.entry].user
      && 0 <= f < Taken(s.frames)
      && forall other :: Holds(s, other, f) ==> other == at
  }

  ghost predicate FramesOk(s: State)
  {
    Segment(s.frames) && forall at, f :: Exclusive(s, at, f)
  }

  /** Equal table pointers stand at the same index, and in two directories only for tables
      of `shared`. */
  ghost predicate NoAlias(s: State, shared: set<int>, d1: int, i: int, d2: int, j: int)
  {
    d1 in s.dirs && d2 in s.dirs && 0 <= i < |s.dirs[d1].tables| && 0 <= j < |s.dirs[d2].tables| &&
    s.dirs[d1].tables[i] == s.dirs[d2].tables[j] != 0 ==>
      i == j && (d1 == d2 || s.dirs[d1].tables[i] in shared)
  }

  ghost predicate Sharing(s: State, shared: set<int>)
  {
    && (forall t :: t in shared ==> t in s.tables)
    && forall d1, i, d2, j :: NoAlias(s, shared, d1, i, d2, j)
  }

  ghost predicate Inv(s: State, shared: set<int>)
  {
    Shape(s) && FramesOk(s) && Sharing(s, shared)
  }

  // ---------- translation ----------

  predicate Walkable(s: State, d: int, p: int)
  {
    && d in s.dirs && 0 <= p < PAGES && p / ENTRIES < |s.dirs[d].tables|
    && var t := s.dirs[d].tables[p / ENTRIES]; t in s.tables && p % ENTRIES < |s.tables[t]|
  }

  /** The frame directory `d` gives page `p`: the two-level walk. */
  function Translate(s: State, d: int, p: int): Option<int>
  {
    if !Walkable(s, d, p) || s.dirs[d].tables[p / ENTRIES] == 0 then None
    else
      var e := s.tables[s.dirs[d].tables[p / ENTRIES]][p % ENTRIES];
      if e.present then Some(e.frame) else None
  }

  // ---------- operations ----------

  predicate Addressed(s: State, d: int, p: int)
  {
    d in s.dirs && 0 <= p < PAGES && p / ENTRIES < |s.dirs[d].tables| && p / ENTRIES < |s.dirs[d].addresses|
  }

  /** `| 0x7` */
  function WithFlags(a: int): int
  {
    a - a % 8 + PRESENT_RW_USER
  }

  /** `_get_page` with `make_page`.  A table made on the way answers with the entry whose
      number is the new table's own address modulo 1024. */
  function GetPage(s: State, d: int, p: int): (State, Slot)
    requires Addressed(s, d, p)
  {
    var i := p / ENTRIES;
    var dir := s.dirs[d];
    if dir.tables[i] != 0 then (s, Slot(dir.tables[i], p % ENTRIES))
    else
      var a := AlignUp(s.top);
      var dir' := Directory(dir.tables[i := a], dir.addresses[i := WithFlags(a)]);
      (State(a + TABLE_BYTES, s.frames, s.tables[a := EmptyTable()], s.dirs[d := dir']), Slot(a, a % ENTRIES))
  }

  /** The entry is filled in and its frame taken. */
  function Fill(s: State, at: Slot): State
    requires Taken(s.frames) < |s.frames|
    requires at.table in s.tables && 0 <= at.entry < |s.tables[at.table]|
  {
    var e := Page(true, false, false, Taken(s.frames));
    s.(tables := s.tables[at.table := s.tables[at.table][at.entry := e]], frames := Take(s.frames))
  }

  predicate SlotIn(s: State, at: Slot)
  {
    at.table in s.tables && 0 <= at.entry < |s.tables[at.table]|
  }

  /** One round of the mapping loop; without a free frame the kernel panics, after the table
      has been made. */
  function MapOne(s: State, d: int, p: int): Outcome
  {
    if !Addressed(s, d, p) then Outcome(s, true)
    else
      var (s1, at) := GetPage(s, d, p);
      if Taken(s.frames) == |s.frames| || !SlotIn(s1, at) then Outcome(s1, true)
      else Outcome(Fill(s1, at), false)
  }

  lemma MapOneTakes(s: State, d: int, p: int)
    requires !MapOne(s, d, p).panic
    ensures |MapOne(s, d, p).state.frames| == |s.frames|
    ensures |s.frames| - Taken(MapOne(s, d, p).state.frames) < |s.frames| - Taken(s.frames)
  {
    TakeAdvances(s.frames);
  }

  /** The mapping loop, with its 32-bit counter.  It ends when the counter reaches `end`, or
      in the panic when no frame is left. */
  function MapRegion(s: State, d: int, top: int, end: int): Outcome
    decreases |s.frames| - Taken(s.frames)
  {
    if top >= end then Outcome(s, false)
    else
      var r := MapOne(s, d, top / PAGE_SIZE);
      if r.panic then r
      else
        MapOneTakes(s, d, top / PAGE_SIZE);
        MapRegion(r.state, d, (top + PAGE_SIZE) % UINT32, end)
  }

  /** What the loop does if its counter does not wrap: `n` pages from page `first`. */
  function MapPages(s: State, d: int, first: int, n: nat): Outcome
  {
    if n == 0 then Outcome(s, false)
    else
      var r := MapPages(s, d, first, n - 1);
      if r.panic then r else MapOne(r.state, d, first + n - 1)
  }

  /** How many steps of a page lead from `start` to `end` or past it. */
  function PagesIn(start: int, end: int): nat
  {
    if start < end then (end - start + PAGE_SIZE - 1) / PAGE_SIZE else 0
  }

  /** A 32-bit region whose end the counter reaches before it wraps. */
  predicate Reached(start: int, end: int)
  {
    start < end ==> end <= LAST_PAGE + start % PAGE_SIZE
  }

  predicate Words(start: int, end: int)
  {
    0 <= start < UINT32 && 0 <= end < UINT32
  }

  /** The page is the first of its table, or its table exists. */
  predicate Ready(s: State, d: int, p: int)
  {
    Addressed(s, d, p) && (p % ENTRIES == 0 || s.dirs[d].tables[p / ENTRIES] != 0)
  }

  // ---------- one page ----------

  lemma GetPageShape(s: State, shared: set<int>, d: int, p: int)
    requires Inv(s, shared) && Addressed(s, d, p)
    ensures var (t, at) := GetPage(s, d, p);
            && Shape(t) && SlotIn(t, at)
            && t.frames == s.frames && t.dirs.Keys == s.dirs.Keys
            && Addressed(t, d, p)
            && t.dirs[d].tables[p / ENTRIES] == at.table != 0
            && at.entry == (if s.dirs[d].tables[p / ENTRIES] == 0 then 0 else p % ENTRIES)
  {
    assert PlaceOk(s, d, p / ENTRIES) && DirOk(s, d);
    if s.dirs[d].tables[p / ENTRIES] == 0 {
      AlignUpIsLeast(s.top);
      AlignedAddress(AlignUp(s.top));
      NewTableShape(s, d, p / ENTRIES, AlignUp(s.top));
    } else {
      assert TableOk(s, s.dirs[d].tables[p / ENTRIES]);
    }
  }

  lemma AlignedAddress(a: int)
    requires a % PAGE_SIZE == 0
    ensures a % ENTRIES == 0 && WithFlags(a) == a + PRESENT_RW_USER
  {
  }

  lemma NewTableShape(s: State, d: int, i: int, a: int)
    requires Shape(s) && d in s.dirs && 0 <= i < |s.dirs[d].tables| && i < |s.dirs[d].addresses|
    requires s.top <= a && a % PAGE_SIZE == 0
    ensures var dir := Directory(s.dirs[d].tables[i := a], s.dirs[d].addresses[i := WithFlags(a)]);
            Shape(State(a + TABLE_BYTES, s.frames, s.tables[a := EmptyTable()], s.dirs[d := dir]))
  {
    AlignedAddress(a);
    var dir := Directory(s.dirs[d].tables[i := a], s.dirs[d].addresses[i := WithFlags(a)]);
    var t := State(a + TABLE_BYTES, s.frames, s.tables[a := EmptyTable()], s.dirs[d := dir]);
    forall x
      ensures TableOk(t, x) && DirOk(t, x)
    {
      assert TableOk(s, x) && DirOk(s, x);
    }
    forall x, j
      ensures PlaceOk(t, x, j)
    {
      assert PlaceOk(s, x, j);
    }
  }

  /** A new table is empty and nowhere else. */
  lemma GetPageKeeps(s: State, shared: set<int>, d: int, p: int)
    requires Inv(s, shared) && Addressed(s, d, p)
    ensures Inv(GetPage(s, d, p).0, shared)
    ensures forall at, f :: Holds(GetPage(s, d, p).0, at, f) <==> Holds(s, at, f)
  {
    var (t, slot) := GetPage(s, d, p);
    GetPageShape(s, shared, d, p);
    if s.dirs[d].tables[p / ENTRIES] == 0 {
      var a := AlignUp(s.top);
      AlignUpIsLeast(s.top);
      assert TableOk(s, a);
      forall at, f
        ensures Holds(t, at, f) <==> Holds(s, at, f)
      {
      }
      forall at, f
        ensures Exclusive(t, at, f)
      {
        assert Exclusive(s, at, f);
      }
      forall d1, i, d2, j
        ensures NoAlias(t, shared, d1, i, d2, j)
      {
        assert NoAlias(s, shared, d1, i, d2, j);
        assert PlaceOk(s, d1, i) && PlaceOk(s, d2, j) && DirOk(s, d1) && DirOk(s, d2);
      }
    }
  }

  lemma FillHolds(s: State, shared: set<int>, at: Slot, o: Slot, f: int)
    requires Inv(s, shared) && SlotIn(s, at) && Taken(s.frames) < |s.frames|
    ensures Holds(Fill(s, at), o, f) <==> if o == at then f == Taken(s.frames) else Holds(s, o, f)
  {
  }

  lemma FillKeeps(s: State, shared: set<int>, at: Slot)
    requires Inv(s, shared) && SlotIn(s, at) && Taken(s.frames) < |s.frames|
    ensures Inv(Fill(s, at), shared)
  {
    var t := Fill(s, at);
    TakeKeepsSegment(s.frames);
    forall x
      ensures TableOk(t, x) && DirOk(t, x)
    {
      assert TableOk(s, x) && DirOk(s, x);
    }
    forall x, i
      ensures PlaceOk(t, x, i)
    {
      assert PlaceOk(s, x, i);
    }
    forall o, f
      ensures Exclusive(t, o, f)
    {
      FillExclusive(s, shared, at, o, f);
    }
    forall d1, i, d2, j
      ensures NoAlias(t, shared, d1, i, d2, j)
    {
      assert NoAlias(s, shared, d1, i, d2, j);
    }
  }

  lemma FillExclusive(s: State, shared: set<int>, at: Slot, o: Slot, f: int)
    requires Inv(s, shared) && SlotIn(s, at) && Taken(s.frames) < |s.frames|
    ensures Exclusive(Fill(s, at), o, f)
  {
    var t := Fill(s, at);
    TakeKeepsSegment(s.frames);
    FillHolds(s, shared, at, o, f);
    assert Exclusive(s, o, f);
    forall other | Holds(t, o, f) && Holds(t, other, f)
      ensures other == o
    {
      FillHolds(s, shared, at, other, f);
      assert Exclusive(s, other, f);
    }
  }

  /** What one round of the loop needs and keeps. */
  lemma MapOneKeeps(s: State, shared: set<int>, d: int, p: int)
    requires Inv(s, shared) && Addressed(s, d, p)
    ensures var r := MapOne(s, d, p);
            && Inv(r.state, shared)
            && r.state.dirs.Keys == s.dirs.Keys
            && |r.state.frames| == |s.frames|
            && (r.panic <==> Taken(s.frames) == |s.frames|)
            && Taken(r.state.frames) == Taken(s.frames) + (if r.panic then 0 else 1)
            && Addressed(r.state, d, p) && r.state.dirs[d].tables[p / ENTRIES] != 0
  {
    GetPageShape(s, shared, d, p);
    GetPageKeeps(s, shared, d, p);
    var (t, at) := GetPage(s, d, p);
    if Taken(s.frames) < |s.frames| {
      FillKeeps(t, shared, at);
      TakeKeepsSegment(s.frames);
    }
  }

  /** A table made on the way lies at the next page boundary of the heap, takes 4096 bytes, and
      is blank but for the entry filled in, its first. */
  lemma NewTableIsBlank(s: State, shared: set<int>, d: int, p: int, e: int)
    requires Inv(s, shared) && Addressed(s, d, p) && s.dirs[d].tables[p / ENTRIES] == 0
    requires Taken(s.frames) < |s.frames| && 0 <= e < 1024
    ensures var t := MapOne(s, d, p).state;
            && d in t.dirs && p / 1024 < |t.dirs[d].tables|
            && var a := t.dirs[d].tables[p / 1024];
               && s.top <= a < s.top + 4096 && a % 4096 == 0 && t.top == a + 4096
               && a in t.tables && |t.tables[a]| == 1024
               && t.tables[a][e] == if e == 0 then Page(true, false, false, Taken(s.frames))
                                    else Page(false, false, false, 0)
  {
    GetPageShape(s, shared, d, p);
  }

  /** The page the first round makes present: the page itself, or the first page of the table
      that had to be made. */
  function LandsOn(s: State, d: int, p: int): int
  {
    if Ready(s, d, p) then p else p / ENTRIES * ENTRIES
  }

  /** How a directory reads after one entry has been filled. */
  lemma FillTranslate(s: State, shared: set<int>, d: int, i: int, e: int, q: int)
    requires Inv(s, shared) && d in s.dirs && 0 <= i < ENTRIES && 0 <= e < ENTRIES && 0 <= q < PAGES
    requires Taken(s.frames) < |s.frames|
    requires DirOk(s, d) && s.dirs[d].tables[i] != 0 && SlotIn(s, Slot(s.dirs[d].tables[i], e))
    ensures Translate(Fill(s, Slot(s.dirs[d].tables[i], e)), d, q) ==
            if q == i * ENTRIES + e then Some(Taken(s.frames)) else Translate(s, d, q)
  {
    var at := Slot(s.dirs[d].tables[i], e);
    var j := q / ENTRIES;
    assert NoAlias(s, shared, d, i, d, j) && PlaceOk(s, d, j) && TableOk(s, s.dirs[d].tables[j]);
    assert TableOk(s, at.table);
    assert q == j * ENTRIES + q % ENTRIES;
  }

  lemma GetPageTranslate(s: State, shared: set<int>, d: int, p: int, d2: int, q: int)
    requires Inv(s, shared) && Addressed(s, d, p)
    ensures Translate(GetPage(s, d, p).0, d2, q) == Translate(s, d2, q)
  {
    if d2 in s.dirs && s.dirs[d].tables[p / ENTRIES] == 0 {
      AlignUpIsLeast(s.top);
      assert TableOk(s, AlignUp(s.top));
      assert DirOk(s, d2) && DirOk(s, d);
      if 0 <= q < PAGES {
        assert PlaceOk(s, d2, q / ENTRIES) && TableOk(s, s.dirs[d2].tables[q / ENTRIES]);
      }
    }
  }

  /** One round changes one translation of the directory, to the next free frame. */
  lemma MapOneTranslate(s: State, shared: set<int>, d: int, p: int, q: int)
    requires Inv(s, shared) && Addressed(s, d, p) && 0 <= q < PAGES && !MapOne(s, d, p).panic
    ensures Translate(MapOne(s, d, p).state, d, q) ==
            if q == LandsOn(s, d, p) then Some(Taken(s.frames)) else Translate(s, d, q)
  {
    GetPageShape(s, shared, d, p);
    GetPageKeeps(s, shared, d, p);
    GetPageTranslate(s, shared, d, p, d, q);
    var (t, at) := GetPage(s, d, p);
    assert DirOk(t, d) && TableOk(t, at.table);
    FillTranslate(t, shared, d, p / ENTRIES, at.entry, q);
    assert p == p / ENTRIES * ENTRIES + p % ENTRIES;
  }

  /** Another directory sees the change only through the table that was written. */
  lemma MapOneOthers(s: State, shared: set<int>, d: int, p: int, d2: int, q: int)
    requires Inv(s, shared) && Addressed(s, d, p) && Addressed(s, d2, q) && d2 != d
    requires s.dirs[d2].tables[q / ENTRIES] !in shared
    ensures var t := MapOne(s, d, p).state;
            && d2 in t.dirs && t.dirs[d2] == s.dirs[d2]
            && Translate(t, d2, q) == Translate(s, d2, q)
  {
    GetPageShape(s, shared, d, p);
    GetPageKeeps(s, shared, d, p);
    GetPageTranslate(s, shared, d, p, d2, q);
    var (t, at) := GetPage(s, d, p);
    assert DirOk(t, d) && DirOk(t, d2) && NoAlias(t, shared, d, p / ENTRIES, d2, q / ENTRIES);
  }

  // ---------- a region ----------

  lemma DirAddressed(s: State, shared: set<int>, d: int, p: int)
    requires Inv(s, shared) && d in s.dirs && 0 <= p < PAGES
    ensures Addressed(s, d, p)
  {
    assert DirOk(s, d);
  }

  /** The page after a mapped one is ready: its table exists or is due to begin. */
  lemma NextPageReady(s: State, shared: set<int>, d: int, p: int)
    requires Inv(s, shared) && Addressed(s, d, p) && p + 1 < PAGES
    ensures Ready(MapOne(s, d, p).state, d, p + 1)
  {
    MapOneKeeps(s, shared, d, p);
    DirAddressed(MapOne(s, d, p).state, shared, d, p + 1);
    assert (p + 1) % ENTRIES != 0 ==> (p + 1) / ENTRIES == p / ENTRIES;
  }

  /** What the loop keeps, for its outcome `r`; it panics when the frames run out. */
  lemma {:induction false} MapPagesKeeps(s: State, shared: set<int>, d: int, first: int, n: nat, r: Outcome)
    requires Inv(s, shared) && d in s.dirs && 0 <= first && first + n <= PAGES
    requires r == MapPages(s, d, first, n)
    ensures Inv(r.state, shared)
    ensures r.state.dirs.Keys == s.dirs.Keys
    ensures |r.state.frames| == |s.frames|
    ensures r.panic <==> Taken(s.frames) + n > |s.frames|
    ensures !r.panic ==> Taken(r.state.frames) == Taken(s.frames) + n
    ensures !r.panic && n > 0 && first + n < PAGES ==> Ready(r.state, d, first + n)
  {
    hide Fill, GetPage;
    if n > 0 {
      var before := MapPages(s, d, first, n - 1);
      MapPagesKeeps(s, shared, d, first, n - 1, before);
      if !before.panic {
        DirAddressed(before.state, shared, d, first + n - 1);
        MapOneKeeps(before.state, shared, d, first + n - 1);
        if first + n < PAGES {
          NextPageReady(before.state, shared, d, first + n - 1);
        }
      }
    }
  }

  /** What page `q` reads after `n` rounds from page `first`. */
  function FlatEffect(s: State, d: int, first: int, n: nat, q: int): Option<int>
  {
    if first < q < first + n then Some(Taken(s.frames) + q - first)
    else if q == LandsOn(s, d, first) then Some(Taken(s.frames))
    else Translate(s, d, q)
  }

  lemma LandsAtOrBefore(s: State, d: int, p: int)
    requires 0 <= p
    ensures 0 <= LandsOn(s, d, p) <= p
  {
  }

  /** The flat effect of the mapping loop, with outcome `r`, on a directory. */
  lemma {:induction false} MapPagesTranslate(
    s: State, shared: set<int>, d: int, first: int, n: nat, q: int, r: Outcome)
    requires Inv(s, shared) && d in s.dirs && 0 <= first && 0 < n && first + n <= PAGES && 0 <= q < PAGES
    requires r == MapPages(s, d, first, n) && !r.panic
    ensures Translate(r.state, d, q) == FlatEffect(s, d, first, n, q)
  {
    hide Fill, GetPage;
    LandsAtOrBefore(s, d, first);
    var before := MapPages(s, d, first, n - 1);
    MapPagesKeeps(s, shared, d, first, n - 1, before);
    if n == 1 {
      DirAddressed(s, shared, d, first);
      MapOneTranslate(s, shared, d, first, q);
    } else {
      MapPagesTranslate(s, shared, d, first, n - 1, q, before);
      LastRound(before.state, shared, d, first + n - 1, q);
    }
  }

  lemma LastRound(s: State, shared: set<int>, d: int, p: int, q: int)
    requires Inv(s, shared) && Ready(s, d, p) && 0 <= q < PAGES && !MapOne(s, d, p).panic
    ensures Translate(MapOne(s, d, p).state, d, q) == if q == p then Some(Taken(s.frames)) else Translate(s, d, q)
  {
    MapOneTranslate(s, shared, d, p, q);
  }

  // ---------- the loop and its counter ----------

  /** Whatever the counter does, the loop keeps the invariants. */
  lemma {:induction false} MapRegionKeepsInv(s: State, shared: set<int>, d: int, top: int, end: int, r: Outcome)
    requires Inv(s, shared) && d in s.dirs && Words(top, end)
    requires r == MapRegion(s, d, top, end)
    ensures Inv(r.state, shared)
    ensures r.state.dirs.Keys == s.dirs.Keys && |r.state.frames| == |s.frames|
    decreases |s.frames| - Taken(s.frames)
  {
    hide Fill, GetPage;
    if top < end {
      DirAddressed(s, shared, d, top / PAGE_SIZE);
      MapOneKeeps(s, shared, d, top / PAGE_SIZE);
      var one := MapOne(s, d, top / PAGE_SIZE);
      if !one.panic {
        MapRegionKeepsInv(one.state, shared, d, (top + PAGE_SIZE) % UINT32, end, r);
      }
    }
  }

  /** Mapping in one directory leaves every other directory's private pages as they were. */
  lemma {:induction false} MapRegionOthers(
    s: State, shared: set<int>, d: int, top: int, end: int, d2: int, q: int, r: Outcome)
    requires Inv(s, shared) && d in s.dirs && Words(top, end)
    requires Addressed(s, d2, q) && d2 != d && s.dirs[d2].tables[q / ENTRIES] !in shared
    requires r == MapRegion(s, d, top, end)
    ensures d2 in r.state.dirs && r.state.dirs[d2] == s.dirs[d2]
    ensures Translate(r.state, d2, q) == Translate(s, d2, q)
    decreases |s.frames| - Taken(s.frames)
  {
    hide Fill, GetPage, Translate;
    if top < end {
      DirAddressed(s, shared, d, top / PAGE_SIZE);
      MapOneKeeps(s, shared, d, top / PAGE_SIZE);
      MapOneOthers(s, shared, d, top / PAGE_SIZE, d2, q);
      var one := MapOne(s, d, top / PAGE_SIZE);
      if !one.panic {
        MapRegionOthers(one.state, shared, d, (top + PAGE_SIZE) % UINT32, end, d2, q, r);
      }
    }
  }

  /** A region that is reached fits below the last page. */
  lemma ReachedFits(start: int, end: int)
    requires Words(start, end) && Reached(start, end)
    ensures 0 <= start / PAGE_SIZE && start / PAGE_SIZE + PagesIn(start, end) <= PAGES
    ensures forall k: nat :: k < PagesIn(start, end) ==> CounterAt(start, k) < end && CounterAt(start, k) <= LAST_PAGE
    ensures CounterAt(start, PagesIn(start, end)) >= end
  {
    if start < end {
      var f, o := start / PAGE_SIZE, start % PAGE_SIZE;
      var n := PagesIn(start, end);
      assert start == PAGE_SIZE * f + o;
      assert start + PAGE_SIZE * (n - 1) < end <= start + PAGE_SIZE * n;
      assert PAGE_SIZE * (f + n - 1) < LAST_PAGE;
      forall k: nat | k < n
        ensures CounterAt(start, k) < end && CounterAt(start, k) <= LAST_PAGE
      {
        assert PAGE_SIZE * (f + k) < LAST_PAGE;
      }
    }
  }

  function CounterAt(start: int, k: nat): int
  {
    start + PAGE_SIZE * k
  }

  lemma {:induction false} PanicStays(s: State, d: int, first: int, k: nat, n: nat)
    requires k <= n && MapPages(s, d, first, k).panic
    ensures MapPages(s, d, first, n) == MapPages(s, d, first, k)
  {
    hide MapOne;
    if k < n {
      PanicStays(s, d, first, k, n - 1);
    }
  }

  lemma NextCounter(start: int, end: int, k: nat)
    requires Words(start, end) && Reached(start, end) && k < PagesIn(start, end)
    ensures 0 <= CounterAt(start, k) < end
    ensures CounterAt(start, k) / PAGE_SIZE == start / PAGE_SIZE + k
    ensures (CounterAt(start, k) + PAGE_SIZE) % UINT32 == CounterAt(start, k + 1)
  {
    ReachedFits(start, end);
    assert CounterAt(start, k) < end <= LAST_PAGE + start % PAGE_SIZE;
    assert CounterAt(start, k) % PAGE_SIZE == start % PAGE_SIZE;
  }

  /** From the k-th round on, the loop does what is left of the pages. */
  lemma {:induction false} LoopIsPagesFrom(s: State, d: int, start: int, end: int, k: nat,
                                           before: Outcome, all: Outcome)
    requires Words(start, end) && Reached(start, end) && k <= PagesIn(start, end)
    requires before == MapPages(s, d, start / PAGE_SIZE, k) && !before.panic
    requires all == MapPages(s, d, start / PAGE_SIZE, PagesIn(start, end))
    ensures MapRegion(before.state, d, CounterAt(start, k), end) == all
    decreases PagesIn(start, end) - k
  {
    hide MapOne;
    var n := PagesIn(start, end);
    if k == n {
      ReachedFits(start, end);
    } else {
      NextCounter(start, end, k);
      var next := MapPages(s, d, start / PAGE_SIZE, k + 1);
      if next.panic {
        PanicStays(s, d, start / PAGE_SIZE, k + 1, n);
      } else {
        LoopIsPagesFrom(s, d, start, end, k + 1, next, all);
      }
    }
  }

  lemma MapRegionIsPages(s: State, d: int, start: int, end: int)
    requires Words(start, end) && Reached(start, end)
    ensures MapRegion(s, d, start, end) == MapPages(s, d, start / PAGE_SIZE, PagesIn(start, end))
  {
    hide MapOne;
    LoopIsPagesFrom(s, d, start, end, 0, MapPages(s, d, start / PAGE_SIZE, 0),
                    MapPages(s, d, start / PAGE_SIZE, PagesIn(start, end)));
  }

  /** A counter that wraps never reaches the end: the loop maps on until the frames run out. */
  lemma {:induction false} WrappedLoopPanics(s: State, shared: set<int>, d: int, top: int, end: int)
    requires Inv(s, shared) && d in s.dirs && Words(top, end)
    requires end > LAST_PAGE + top % PAGE_SIZE
    ensures MapRegion(s, d, top, end).panic
    decreases |s.frames| - Taken(s.frames)
  {
    hide Fill, GetPage;
    assert top <= LAST_PAGE + top % PAGE_SIZE;
    DirAddressed(s, shared, d, top / PAGE_SIZE);
    MapOneKeeps(s, shared, d, top / PAGE_SIZE);
    var one := MapOne(s, d, top / PAGE_SIZE);
    var next := (top + PAGE_SIZE) % UINT32;
    assert next % PAGE_SIZE == top % PAGE_SIZE;
    if !one.panic {
      WrappedLoopPanics(one.state, shared, d, next, end);
    }
  }

  /** Main result: `map_region` returns exactly when its counter reaches the end before it
      wraps and the frames suffice; otherwise the kernel panics. */
  lemma MapRegionReturnsExactlyWhen(s: State, shared: set<int>, d: int, start: int, end: int)
    requires Inv(s, shared) && d in s.dirs && Words(start, end)
    ensures !MapRegion(s, d, start, end).panic <==>
            Reached(start, end) && Taken(s.frames) + PagesIn(start, end) <= |s.frames|
  {
    hide MapOne;
    if Reached(start, end) {
      ReachedFits(start, end);
      MapRegionIsPages(s, d, start, end);
      MapPagesKeeps(s, shared, d, start / PAGE_SIZE, PagesIn(start, end), MapRegion(s, d, start, end));
    } else {
      WrappedLoopPanics(s, shared, d, start, end);
    }
  }

  /** The region reads as asked: its pages present with the next free frames in order, and
      every other page of the directory as before. */
  ghost predicate MapsExactly(s: State, t: State, d: int, first: int, n: nat)
  {
    forall q :: 0 <= q < PAGES ==>
      Translate(t, d, q) == if first <= q < first + n then Some(Taken(s.frames) + q - first) else Translate(s, d, q)
  }

  /** Main result: `map_region` returns with a region mapped as a flat map would be exactly
      when the counter reaches its end, the frames suffice, and its first page is the first
      of its table or its first table exists. */
  lemma MapRegionExactlyWhenReady(s: State, shared: set<int>, d: int, start: int, end: int)
    requires Inv(s, shared) && d in s.dirs && Words(start, end) && start < end
    ensures var r := MapRegion(s, d, start, end); var first := start / PAGE_SIZE; var n := PagesIn(start, end);
            && (!r.panic && MapsExactly(s, r.state, d, first, n) <==>
                Reached(start, end) && Taken(s.frames) + n <= |s.frames| && Ready(s, d, first))
            && (!r.panic ==> Taken(r.state.frames) == Taken(s.frames) + n)
  {
    hide MapOne, Translate;
    MapRegionReturnsExactlyWhen(s, shared, d, start, end);
    var r := MapRegion(s, d, start, end);
    if !r.panic {
      ReachedFits(start, end);
      MapRegionIsPages(s, d, start, end);
      PagesExactlyWhenReady(s, shared, d, start / PAGE_SIZE, PagesIn(start, end), r);
    }
  }

  lemma PagesExactlyWhenReady(s: State, shared: set<int>, d: int, first: int, n: nat, r: Outcome)
    requires Inv(s, shared) && d in s.dirs && 0 <= first && 0 < n && first + n <= PAGES
    requires r == MapPages(s, d, first, n) && !r.panic
    ensures MapsExactly(s, r.state, d, first, n) <==> Ready(s, d, first)
    ensures Taken(r.state.frames) == Taken(s.frames) + n
  {
    DirAddressed(s, shared, d, first);
    MapPagesKeeps(s, shared, d, first, n, r);
    forall q | 0 <= q < PAGES
      ensures Translate(r.state, d, q) == FlatEffect(s, d, first, n, q)
    {
      MapPagesTranslate(s, shared, d, first, n, q, r);
    }
    if !Ready(s, d, first) {
      assert LandsOn(s, d, first) != first;
      assert Translate(r.state, d, first) == FlatEffect(s, d, first, n, first) == None;
    }
  }

  /** Page-aligned regions hold as many pages as their length says. */
  lemma AlignedRegionPages(start: int, end: int)
    requires start % PAGE_SIZE == 0 && end % PAGE_SIZE == 0 && 0 <= start <= end
    ensures PagesIn(start, end) * PAGE_SIZE == end - start
    ensures start / PAGE_SIZE + PagesIn(start, end) == end / PAGE_SIZE
  {
  }

  /** On a fresh frame table the first mapping from address 0 is the identity. */
  lemma FirstRegionIsIdentity(s: State, shared: set<int>, d: int, end: int, q: int)
    requires Inv(s, shared) && d in s.dirs && 0 < end < UINT32 && Taken(s.frames) == 0
    requires !MapRegion(s, d, 0, end).panic && 0 <= q < PagesIn(0, end)
    ensures Translate(MapRegion(s, d, 0, end).state, d, q) == Some(q)
  {
    hide MapOne, Translate;
    MapRegionReturnsExactlyWhen(s, shared, d, 0, end);
    ReachedFits(0, end);
    MapRegionIsPages(s, d, 0, end);
    DirAddressed(s, shared, d, 0);
    MapPagesTranslate(s, shared, d, 0, PagesIn(0, end), q, MapRegion(s, d, 0, end));
  }

  // ---------- isolation ----------

  /** Two pages that reach one frame reach it through one entry of one table, at the same
      page number; in two directories that table is a shared one. */
  lemma CommonFrame(s: State, shared: set<int>, d1: int, p1: int, d2: int, p2: int)
    requires Inv(s, shared)
    requires Translate(s, d1, p1).Some? && Translate(s, d1, p1) == Translate(s, d2, p2)
    ensures p1 == p2
    ensures s.dirs[d1].tables[p1 / ENTRIES] == s.dirs[d2].tables[p2 / ENTRIES]
    ensures d1 != d2 ==> s.dirs[d1].tables[p1 / ENTRIES] in shared
  {
    var f := Translate(s, d1, p1).value;
    var a := Slot(s.dirs[d1].tables[p1 / ENTRIES], p1 % ENTRIES);
    var b := Slot(s.dirs[d2].tables[p2 / ENTRIES], p2 % ENTRIES);
    assert Holds(s, a, f) && Holds(s, b, f);
    assert Exclusive(s, a, f);
    assert NoAlias(s, shared, d1, p1 / ENTRIES, d2, p2 / ENTRIES);
    assert p1 == p1 / ENTRIES * ENTRIES + p1 % ENTRIES && p2 == p2 / ENTRIES * ENTRIES + p2 % ENTRIES;
  }

  /** Every page that translates is read-only, closed to user mode, and has a taken frame. */
  lemma PresentPagesAreGuarded(s: State, shared: set<int>, d: int, p: int)
    requires Inv(s, shared) && Translate(s, d, p).Some?
    ensures var e := s.tables[s.dirs[d].tables[p / ENTRIES]][p % ENTRIES];
            && !e.rw && !e.user
            && Translate(s, d, p) == Some(e.frame) && 0 <= e.frame < |s.frames| && s.frames[e.frame]
  {
    var t := s.dirs[d].tables[p / ENTRIES];
    assert Holds(s, Slot(t, p % ENTRIES), Translate(s, d, p).value);
    assert Exclusive(s, Slot(t, p % ENTRIES), Translate(s, d, p).value);
    FirstFreeIsFirst(s.frames, 0);
  }

  /** The processor's address of every table, with its low 12 bits cleared, is the table. */
  lemma AddressesFindTables(s: State, shared: set<int>, d: int, i: int)
    requires Inv(s, shared) && d in s.dirs && 0 <= i < ENTRIES
    ensures DirOk(s, d) && |s.dirs[d].tables| == ENTRIES == |s.dirs[d].addresses|
    ensures s.dirs[d].addresses[i] / PAGE_SIZE * PAGE_SIZE == s.dirs[d].tables[i]
    ensures s.dirs[d].addresses[i] == if s.dirs[d].tables[i] == 0 then 0 else s.dirs[d].tables[i] + 7
  {
    assert DirOk(s, d) && PlaceOk(s, d, i) && TableOk(s, s.dirs[d].tables[i]);
  }
}
