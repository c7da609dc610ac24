/**
 What a list of regions maps, and so what a new process directory reads.

 Each region is mapped on the frames that follow those of the regions before it.  As with a
 single region, the first page goes astray when its table does not exist and it is not the
 first page of that table.
 */
module DirectoryMaps {
  import opened Basics
  import opened BumpHeap
  import opened FrameTables
  import opened PagingModel
  import opened PagingRuns

  function FirstPage(r: Region): int
  {
    r.begin / 0x1000
  }

  function PageCount(r: Region): nat
  {
    if r.begin < r.end then (r.end - r.begin + 0xFFF) / 0x1000 else 0
  }

  predicate In(r: Region, q: int)
  {
    FirstPage(r) <= q < FirstPage(r) + PageCount(r)
  }

  /** Some page of the region is in table `i`. */
  predicate Touches(r: Region, i: int)
  {
    PageCount(r) > 0 && FirstPage(r) / 1024 <= i <= (FirstPage(r) + PageCount(r) - 1) / 1024
  }

  function Total(regions: seq<Region>): nat
  {
    if regions == [] then 0 else Total(regions[..|regions| - 1]) + PageCount(regions[|regions| - 1])
  }

  ghost predicate AllWords(regions: seq<Region>)
  {
    forall i :: 0 <= i < |regions| ==> Words(regions[i].begin, regions[i].end)
  }

  ghost predicate AllReached(regions: seq<Region>)
  {
    forall i :: 0 <= i < |regions| ==> Reached(regions[i].begin, regions[i].end)
  }

  ghost predicate NotInBoth(regions: seq<Region>, i: int, j: int, q: int)
  {
    0 <= i < j < |regions| ==> !(In(regions[i], q) && In(regions[j], q))
  }

  ghost predicate Disjoint(regions: seq<Region>)
  {
    forall i, j, q :: NotInBoth(regions, i, j, q)
  }

  /** The table of the region's first page is there when its turn comes, or begins with it. */
  ghost predicate RegionReady(tables: seq<int>, regions: seq<Region>, i: nat)
    requires i < |regions|
  {
    var p := FirstPage(regions[i]);
    || p % 1024 == 0
    || (0 <= p / 1024 < |tables| && tables[p / 1024] != 0)
    || exists j :: 0 <= j < i && Touches(regions[j], p / 1024)
  }

  // ---------- one region ----------

  lemma RegionPages(r: Region)
    requires Words(r.begin, r.end)
    ensures PageCount(r) == PagesIn(r.begin, r.end) && FirstPage(r) == r.begin / PAGE_SIZE
    ensures Reached(r.begin, r.end) ==> 0 <= FirstPage(r) && FirstPage(r) + PageCount(r) <= PAGES
  {
    if Reached(r.begin, r.end) {
      ReachedFits(r.begin, r.end);
    }
  }

  lemma {:induction false} PagesPointers(
    s: State, shared: set<int>, d: int, first: int, n: nat, i: int, r: Outcome)
    requires Inv(s, shared) && d in s.dirs && 0 <= first && first + n <= PAGES && 0 <= i < ENTRIES
    requires r == MapPages(s, d, first, n) && !r.panic
    ensures DirOk(s, d) && DirOk(r.state, d) && d in r.state.dirs
    ensures r.state.dirs[d].tables[i] != 0 <==>
            s.dirs[d].tables[i] != 0 || (n > 0 && first / 1024 <= i <= (first + n - 1) / 1024)
  {
    hide GetPage, Fill;
    assert DirOk(s, d);
    MapPagesKeeps(s, shared, d, first, n, r);
    assert DirOk(r.state, d);
    if n > 0 {
      var before, p := MapPages(s, d, first, n - 1), first + n - 1;
      PagesPointers(s, shared, d, first, n - 1, i, before);
      MapPagesKeeps(s, shared, d, first, n - 1, before);
      DirAddressed(before.state, shared, d, p);
      MapOneKeeps(before.state, shared, d, p);
      if i != p / ENTRIES {
        OtherPointerStays(before.state, d, p, i);
      }
    }
  }

  /** One region, with what it costs, makes, and reads. */
  lemma OneRegion(s: State, shared: set<int>, d: int, g: Region, q: int, r: Outcome)
    requires Inv(s, shared) && d in s.dirs && Words(g.begin, g.end) && 0 <= q < PAGES
    requires r == MapRegion(s, d, g.begin, g.end)
    ensures Inv(r.state, shared) && r.state.dirs.Keys == s.dirs.Keys && |r.state.frames| == |s.frames|
    ensures !r.panic <==> Reached(g.begin, g.end) && Taken(s.frames) + PageCount(g) <= |s.frames|
    ensures DirOk(s, d) && DirOk(r.state, d)
    ensures !r.panic ==>
              var ready := Ready(s, d, FirstPage(g));
              && Taken(r.state.frames) == Taken(s.frames) + PageCount(g)
              && (r.state.dirs[d].tables[q / 1024] != 0 <==> s.dirs[d].tables[q / 1024] != 0 || Touches(g, q / 1024))
              && (In(g, q) && (ready || q > FirstPage(g)) ==>
                    Translate(r.state, d, q) == Some(Taken(s.frames) + q - FirstPage(g)))
              && (!In(g, q) && (ready || PageCount(g) == 0 || q % 1024 != 0 || s.dirs[d].tables[q / 1024] != 0) ==>
                    Translate(r.state, d, q) == Translate(s, d, q))
              && (q == FirstPage(g) && !ready ==> Translate(r.state, d, q) == Translate(s, d, q))
  {
    hide Translate, MapOne;
    RegionPages(g);
    MapRegionKeepsInv(s, shared, d, g.begin, g.end, r);
    MapRegionReturnsExactlyWhen(s, shared, d, g.begin, g.end);
    assert DirOk(s, d) && DirOk(r.state, d);
    if !r.panic {
      var first, n := FirstPage(g), PageCount(g);
      MapRegionIsPages(s, d, g.begin, g.end);
      MapPagesKeeps(s, shared, d, first, n, r);
      PagesPointers(s, shared, d, first, n, q / 1024, r);
      if n > 0 {
        MapPagesTranslate(s, shared, d, first, n, q, r);
      }
    }
  }

  // ---------- all of them ----------

  /** Main result: the regions are mapped without a panic if and only if the counter reaches the
      end of each and the free frames suffice for all. */
  lemma {:induction false} MapAllReturnsExactlyWhen(
    s: State, shared: set<int>, d: int, regions: seq<Region>, r: Outcome)
    requires Inv(s, shared) && d in s.dirs && AllWords(regions) && r == MapAll(s, d, regions)
    ensures Inv(r.state, shared) && r.state.dirs.Keys == s.dirs.Keys && |r.state.frames| == |s.frames|
    ensures !r.panic <==> AllReached(regions) && Taken(s.frames) + Total(regions) <= |s.frames|
    ensures !r.panic ==> Taken(r.state.frames) == Taken(s.frames) + Total(regions)
  {
    hide MapRegion, Inv, Taken, Reached;
    if regions == [] {
      TakenFits(s.frames);
    } else {
      var front, last := regions[..|regions| - 1], regions[|regions| - 1];
      var before := MapAll(s, d, front);
      MapAllReturnsExactlyWhen(s, shared, d, front, before);
      if !before.panic {
        OneRegion(before.state, shared, d, last, 0, r);
      }
      assert AllReached(regions) <==> AllReached(front) && Reached(last.begin, last.end) by {
        assert forall i :: 0 <= i < |front| ==> front[i] == regions[i];
      }
    }
  }

  lemma TakenFits(frames: seq<bool>)
    ensures Taken(frames) <= |frames|
  {
  }

  /** A table is there afterwards if it was, or if a region touched it. */
  lemma {:induction false} MapAllPointers(
    s: State, shared: set<int>, d: int, regions: seq<Region>, i: int, r: Outcome)
    requires Inv(s, shared) && d in s.dirs && AllWords(regions) && 0 <= i < 1024
    requires r == MapAll(s, d, regions) && !r.panic
    ensures d in r.state.dirs && DirOk(s, d) && DirOk(r.state, d)
    ensures r.state.dirs[d].tables[i] != 0 <==>
            s.dirs[d].tables[i] != 0 || exists j :: 0 <= j < |regions| && Touches(regions[j], i)
  {
    hide MapRegion, Touches;
    assert DirOk(s, d);
    MapAllReturnsExactlyWhen(s, shared, d, regions, r);
    assert DirOk(r.state, d);
    if regions != [] {
      var front, last := regions[..|regions| - 1], regions[|regions| - 1];
      var before := MapAll(s, d, front);
      MapAllReturnsExactlyWhen(s, shared, d, front, before);
      MapAllPointers(s, shared, d, front, i, before);
      OneRegion(before.state, shared, d, last, i * 1024, r);
      assert forall j :: 0 <= j < |front| ==> front[j] == regions[j];
      if Touches(last, i) {
        assert Touches(regions[|regions| - 1], i);
      }
    }
  }

  /** The readiness of a region in its turn is decided by the list. */
  lemma ReadyInTurn(s: State, shared: set<int>, d: int, regions: seq<Region>, i: nat, before: Outcome)
    requires Inv(s, shared) && d in s.dirs && AllWords(regions) && i < |regions|
    requires before == MapAll(s, d, regions[..i]) && !before.panic
    requires 0 <= FirstPage(regions[i]) < PAGES
    ensures Ready(before.state, d, FirstPage(regions[i])) <==> RegionReady(s.dirs[d].tables, regions, i)
  {
    hide MapAll, Touches;
    var front, p := regions[..i], FirstPage(regions[i]);
    MapAllReturnsExactlyWhen(s, shared, d, front, before);
    MapAllPointers(s, shared, d, front, p / 1024, before);
    DirAddressed(before.state, shared, d, p);
    assert forall j :: 0 <= j < i ==> front[j] == regions[j];
    assert DirOk(s, d);
  }

  /** A page reads what the last region that contains it gave it. */
  lemma {:induction false} MapAllInside(
    s: State, shared: set<int>, d: int, regions: seq<Region>, i: nat, q: int, r: Outcome)
    requires Inv(s, shared) && d in s.dirs && AllWords(regions) && i < |regions| && 0 <= q < PAGES
    requires r == MapAll(s, d, regions) && !r.panic
    requires DirOk(s, d) && (RegionReady(s.dirs[d].tables, regions, i) || q > FirstPage(regions[i]))
    requires In(regions[i], q) && forall j :: i < j < |regions| ==> !In(regions[j], q)
    ensures Translate(r.state, d, q) ==
            Some(Taken(s.frames) + Total(regions[..i]) + q - FirstPage(regions[i]))
    decreases |regions|
  {
    hide MapRegion, RegionReady, Translate;
    var front, last := regions[..|regions| - 1], regions[|regions| - 1];
    var before := MapAll(s, d, front);
    MapAllReturnsExactlyWhen(s, shared, d, regions, r);
    MapAllReturnsExactlyWhen(s, shared, d, front, before);
    OneRegion(before.state, shared, d, last, q, r);
    RegionPages(last);
    if i == |front| {
      if q == FirstPage(last) {
        ReadyInTurn(s, shared, d, regions, i, before);
      }
    } else {
      ReadyOfFront(s.dirs[d].tables, regions, i);
      MapAllInside(s, shared, d, front, i, q, before);
      assert front[..i] == regions[..i];
      MapAllPointers(s, shared, d, front, q / 1024, before);
      assert Touches(front[i], q / 1024);
    }
  }

  lemma ReadyOfFront(tables: seq<int>, regions: seq<Region>, i: nat)
    requires i + 1 < |regions|
    ensures RegionReady(tables, regions[..|regions| - 1], i) <==> RegionReady(tables, regions, i)
  {
    hide Touches;
  }

  /** A page in no region, or that went astray as its region's first, reads as before. */
  lemma {:induction false} MapAllOutside(
    s: State, shared: set<int>, d: int, regions: seq<Region>, q: int, r: Outcome)
    requires Inv(s, shared) && d in s.dirs && DirOk(s, d) && AllWords(regions) && 0 <= q < PAGES
    requires r == MapAll(s, d, regions) && !r.panic
    requires forall i: nat :: i < |regions| && In(regions[i], q) ==>
               q == FirstPage(regions[i]) && !RegionReady(s.dirs[d].tables, regions, i)
    requires q % 1024 != 0 ||
             forall i: nat :: i < |regions| && PageCount(regions[i]) > 0 ==> RegionReady(s.dirs[d].tables, regions, i)
    ensures Translate(r.state, d, q) == Translate(s, d, q)
    decreases |regions|
  {
    hide MapRegion, RegionReady, Translate, Total;
    if regions != [] {
      var front, last := regions[..|regions| - 1], regions[|regions| - 1];
      var before := MapAll(s, d, front);
      MapAllReturnsExactlyWhen(s, shared, d, regions, r);
      MapAllReturnsExactlyWhen(s, shared, d, front, before);
      OneRegion(before.state, shared, d, last, q, r);
      RegionPages(last);
      forall i: nat | i < |front|
        ensures front[i] == regions[i]
        ensures RegionReady(s.dirs[d].tables, front, i) <==> RegionReady(s.dirs[d].tables, regions, i)
      {
        ReadyOfFront(s.dirs[d].tables, regions, i);
      }
      MapAllOutside(s, shared, d, front, q, before);
      assert front == regions[..|front|];
      if PageCount(last) > 0 {
        ReadyInTurn(s, shared, d, regions, |front|, before);
      }
    }
  }

  // ---------- a new directory ----------

  /** Page `q` of directory `a` reads as asked: on the frames of its region, or, outside all
      regions, as the current directory reads in the shared tables and absent elsewhere. */
  ghost predicate ReadsAsAsked(y: System, t: State, a: int, regions: seq<Region>, q: int)
  {
    && (forall i :: 0 <= i < |regions| && In(regions[i], q) ==>
          Translate(t, a, q) == Some(Taken(y.mem.frames) + Total(regions[..i]) + q - FirstPage(regions[i])))
    && ((forall i :: 0 <= i < |regions| ==> !In(regions[i], q)) ==>
          Translate(t, a, q) == if q / 1024 < y.base then Translate(y.mem, y.current, q) else None)
  }

  /** The tables a new directory starts with. */
  function SharedTables(y: System): seq<int>
    requires y.current in y.mem.dirs
  {
    seq(1024, i => if 0 <= i < y.base && i < |y.mem.dirs[y.current].tables| then y.mem.dirs[y.current].tables[i] else 0)
  }

  lemma NewTables(y: System, shared: set<int>)
    requires SystemInv(y, shared)
    ensures var (s, a) := NewDirectory(y);
            && a in s.dirs && DirOk(s, a) && s.dirs[a].tables == SharedTables(y)
            && Inv(s, shared) && s.frames == y.mem.frames
  {
    NewDirectoryKeeps(y, shared);
    var (s, a) := NewDirectory(y);
    assert DirOk(s, a);
  }

  /** Main result: `create_directory` panics unless the counter reaches the end of each region
      and the free frames suffice for all.  If it returns, the new directory reads as asked on
      every page exactly when the first page of each region begins a table, or is in one that
      is shared or that an earlier region touched. */
  lemma CreateDirectoryExactlyWhen(y: System, shared: set<int>, regions: seq<Region>)
    requires SystemInv(y, shared) && AllWords(regions) && Disjoint(regions)
    ensures var r, a := CreateDirectory(y, regions), NewDirectory(y).1;
            && (!r.panic <==> AllReached(regions) && Taken(y.mem.frames) + Total(regions) <= |y.mem.frames|)
            && (!r.panic ==>
                  ((forall q :: 0 <= q < PAGES ==> ReadsAsAsked(y, r.state, a, regions, q)) <==>
                   (forall i: nat :: i < |regions| && PageCount(regions[i]) > 0 ==>
                      RegionReady(SharedTables(y), regions, i))))
  {
    hide NewDirectory, MapAll, Translate, SharedTables, RegionReady, ReadsAsAsked;
    NewTables(y, shared);
    var (s, a) := NewDirectory(y);
    var r := MapAll(s, a, regions);
    MapAllReturnsExactlyWhen(s, shared, a, regions, r);
    if !r.panic {
      forall q | 0 <= q < PAGES
        ensures (forall i: nat :: i < |regions| && PageCount(regions[i]) > 0 ==>
                   RegionReady(SharedTables(y), regions, i)) ==> ReadsAsAsked(y, r.state, a, regions, q)
      {
        if forall i: nat :: i < |regions| && PageCount(regions[i]) > 0 ==> RegionReady(SharedTables(y), regions, i) {
          ReadyReads(y, shared, regions, q);
        }
      }
      forall i: nat | i < |regions| && PageCount(regions[i]) > 0 && !RegionReady(SharedTables(y), regions, i)
        ensures exists q :: 0 <= q < PAGES && !ReadsAsAsked(y, r.state, a, regions, q)
      {
        UnreadyReads(y, shared, regions, i);
        assert !ReadsAsAsked(y, r.state, a, regions, FirstPage(regions[i]));
      }
    }
  }

  lemma InOne(regions: seq<Region>, i: nat, q: int)
    requires Disjoint(regions) && i < |regions| && In(regions[i], q)
    ensures forall j :: 0 <= j < |regions| && In(regions[j], q) ==> j == i
  {
    forall j | 0 <= j < |regions| && In(regions[j], q)
      ensures j == i
    {
      assert NotInBoth(regions, i, j, q) && NotInBoth(regions, j, i, q);
    }
  }

  lemma ReadyReads(y: System, shared: set<int>, regions: seq<Region>, q: int)
    requires SystemInv(y, shared) && AllWords(regions) && Disjoint(regions) && 0 <= q < PAGES
    requires !CreateDirectory(y, regions).panic
    requires forall i: nat :: i < |regions| && PageCount(regions[i]) > 0 ==>
               RegionReady(SharedTables(y), regions, i)
    ensures ReadsAsAsked(y, CreateDirectory(y, regions).state, NewDirectory(y).1, regions, q)
  {
    hide NewDirectory, MapAll, Translate, SharedTables, RegionReady, Total;
    NewTables(y, shared);
    NewDirectoryTranslate(y, shared, q);
    var (s, a) := NewDirectory(y);
    var r := MapAll(s, a, regions);
    if i: nat :| i < |regions| && In(regions[i], q) {
      InOne(regions, i, q);
      MapAllInside(s, shared, a, regions, i, q, r);
    } else {
      MapAllOutside(s, shared, a, regions, q, r);
    }
  }

  lemma UnreadyReads(y: System, shared: set<int>, regions: seq<Region>, i: nat)
    requires SystemInv(y, shared) && AllWords(regions) && Disjoint(regions)
    requires !CreateDirectory(y, regions).panic
    requires i < |regions| && PageCount(regions[i]) > 0 && !RegionReady(SharedTables(y), regions, i)
    ensures 0 <= FirstPage(regions[i]) < PAGES
    ensures !ReadsAsAsked(y, CreateDirectory(y, regions).state, NewDirectory(y).1, regions, FirstPage(regions[i]))
  {
    hide NewDirectory, MapAll, SharedTables, Total;
    NewTables(y, shared);
    var (s, a) := NewDirectory(y);
    var r, p := MapAll(s, a, regions), FirstPage(regions[i]);
    MapAllReturnsExactlyWhen(s, shared, a, regions, r);
    assert Reached(regions[i].begin, regions[i].end);
    RegionPages(regions[i]);
    InOne(regions, i, p);
    MapAllOutside(s, shared, a, regions, p, r);
    assert Translate(s, a, p) == None;
    assert In(regions[i], p);
  }
}
