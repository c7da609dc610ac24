/**
 `malloc` and `free` over both pools, and what holds over every run of calls.

 A run is a list of calls, each `free` of a live pointer.  The main result is that throughout a
 run every pointer handed out leads to a block as long as asked for, and all live blocks stay
 disjoint from each other and from every header of the list, exactly when no request wraps and
 every big request made with no big chunk in use fits before the second header.
 */
module HeapRuns {
  import opened Basics
  import opened HeapModel

  const FASTBIN_MAX_SIZE: int := 0x64
  const FAST_CHUNK_SIZE: int := 4
  const FASTBIN_AREA: int := (FAST_CHUNK_SIZE + FASTBIN_THRESHOLD) * FASTBIN_MAX_SIZE

  /** `start` is `fast_bins`; a slot holds the pointer it handed out, or 0 when it is free. */
  datatype Kmm = Kmm(start: int, slots: seq<int>, big: BigPool)

  datatype Call = Malloc(size: nat) | Free(ptr: int)

  function Head(s: Kmm): int
  {
    s.start + FASTBIN_AREA
  }

  function Init(start: int): Kmm
  {
    Kmm(start, seq(FASTBIN_MAX_SIZE, _ => 0), BigPool([Chunk(start + FASTBIN_AREA, 0, false, false, 0)], 0))
  }

  function FirstFree(slots: seq<int>, from: nat): (k: nat)
    requires from <= |slots|
    ensures from <= k <= |slots|
    ensures forall i :: from <= i < k ==> slots[i] != 0
    ensures k < |slots| ==> slots[k] == 0
    decreases |slots| - from
  {
    if from == |slots| || slots[from] == 0 then from else FirstFree(slots, from + 1)
  }

  function IndexAt(cs: seq<Chunk>, addr: int, from: nat): (k: nat)
    requires from <= |cs|
    ensures from <= k <= |cs|
    ensures forall i :: from <= i < k ==> cs[i].addr != addr
    ensures k < |cs| ==> cs[k].addr == addr
    decreases |cs| - from
  {
    if from == |cs| || cs[from].addr == addr then from else IndexAt(cs, addr, from + 1)
  }

  ghost predicate Inv(s: Kmm)
  {
    && s.start > 0
    && |s.slots| == FASTBIN_MAX_SIZE
    && (forall i :: 0 <= i < |s.slots| ==> s.slots[i] == 0 || s.slots[i] == s.start + FASTBIN_THRESHOLD * i)
    && ChainInv(s.big, Head(s))
  }

  function MallocStep(s: Kmm, size: nat): (Kmm, int)
  {
    if size == 0 then (s, 0)
    else if size <= FASTBIN_THRESHOLD then
      var k := FirstFree(s.slots, 0);
      if k == |s.slots| then (s, 0)
      else
        var ptr := s.start + FASTBIN_THRESHOLD * k;
        (s.(slots := s.slots[k := ptr]), ptr)
    else if s.big.chunks == [] then (s, 0)
    else
      var (q, k) := MallocBig(s.big, BigRequest(size));
      (s.(big := q), if k < |q.chunks| then q.chunks[k].addr + HEADER_SIZE else 0)
  }

  /** A pointer outside both pools leaves the model unchanged; no live pointer is one. */
  function FreeStep(s: Kmm, ptr: int): Kmm
  {
    if s.start <= ptr <= Head(s) then
      var k := (ptr - s.start) / FASTBIN_THRESHOLD;
      if k < |s.slots| then s.(slots := s.slots[k := 0]) else s
    else
      var k := IndexAt(s.big.chunks, ptr - HEADER_SIZE, 0);
      if k < |s.big.chunks| then s.(big := FreeBig(s.big, k)) else s
  }

  // ---------- live blocks ----------

  ghost predicate SmallBlock(s: Kmm, ptr: int, len: int)
  {
    ptr != 0 && len == FASTBIN_THRESHOLD && ptr in s.slots
  }

  /** `ptr` is live and its owner may use `len` bytes from there. */
  ghost predicate IsBlock(s: Kmm, ptr: int, len: int)
  {
    SmallBlock(s, ptr, len) || InUse(s.big.chunks, ptr - HEADER_SIZE, len + HEADER_SIZE)
  }

  ghost predicate IsLive(s: Kmm, ptr: int)
  {
    exists len :: IsBlock(s, ptr, len)
  }

  predicate Apart(a: int, n: int, b: int, m: int)
  {
    a + n <= b || b + m <= a
  }

  /** Live blocks do not meet each other, nor any header of the list. */
  ghost predicate Safe(s: Kmm)
  {
    && (forall p, n, q, m :: IsBlock(s, p, n) && IsBlock(s, q, m) && p != q ==> Apart(p, n, q, m))
    && (forall p, n, j :: IsBlock(s, p, n) && 0 <= j < |s.big.chunks| ==>
          Apart(p, n, s.big.chunks[j].addr, HEADER_SIZE))
  }

  lemma SmallBlocksBelowChunks(s: Kmm, ptr: int, len: int)
    requires Inv(s) && SmallBlock(s, ptr, len)
    ensures s.start <= ptr && ptr + len <= Head(s)
    ensures (ptr - s.start) % FASTBIN_THRESHOLD == 0
    ensures s.slots[(ptr - s.start) / FASTBIN_THRESHOLD] == ptr
  {
    var i :| 0 <= i < |s.slots| && s.slots[i] == ptr;
    assert (ptr - s.start) / FASTBIN_THRESHOLD == i;
  }

  lemma BigBlocksAboveHead(s: Kmm, ptr: int, len: int)
    requires Inv(s) && InUse(s.big.chunks, ptr - HEADER_SIZE, len + HEADER_SIZE)
    ensures ptr >= Head(s) + HEADER_SIZE
  {
    var cs := s.big.chunks;
    var i :| UsedAt(cs, i, ptr - HEADER_SIZE, len + HEADER_SIZE);
    assert Below(cs, 0, i);
  }

  lemma BigBlockApart(cs: seq<Chunk>, i: nat, j: nat)
    requires Ascending(cs) && GrantInv(cs) && i < |cs| && j < |cs| && cs[i].used
    ensures Apart(cs[i].addr + HEADER_SIZE, cs[i].grant - HEADER_SIZE, cs[j].addr, HEADER_SIZE)
    ensures cs[j].used && i != j ==>
              Apart(cs[i].addr + HEADER_SIZE, cs[i].grant - HEADER_SIZE,
                    cs[j].addr + HEADER_SIZE, cs[j].grant - HEADER_SIZE)
  {
    assert Below(cs, j, i) && Clear(cs, i, j) && Clear(cs, j, i);
  }

  lemma BlockPairApart(s: Kmm, p: int, n: int, q: int, m: int)
    requires Inv(s) && GrantInv(s.big.chunks)
    requires IsBlock(s, p, n) && IsBlock(s, q, m) && p != q
    ensures Apart(p, n, q, m)
  {
    var cs := s.big.chunks;
    if SmallBlock(s, p, n) {
      SmallBlocksBelowChunks(s, p, n);
      if SmallBlock(s, q, m) {
        SmallBlocksBelowChunks(s, q, m);
      } else {
        BigBlocksAboveHead(s, q, m);
      }
    } else {
      BigBlocksAboveHead(s, p, n);
      if SmallBlock(s, q, m) {
        SmallBlocksBelowChunks(s, q, m);
      } else {
        var i :| UsedAt(cs, i, p - HEADER_SIZE, n + HEADER_SIZE);
        var j :| UsedAt(cs, j, q - HEADER_SIZE, m + HEADER_SIZE);
        BigBlockApart(cs, i, j);
      }
    }
  }

  lemma BlockHeaderApart(s: Kmm, p: int, n: int, j: int)
    requires Inv(s) && GrantInv(s.big.chunks) && IsBlock(s, p, n) && 0 <= j < |s.big.chunks|
    ensures Apart(p, n, s.big.chunks[j].addr, HEADER_SIZE)
  {
    var cs := s.big.chunks;
    if SmallBlock(s, p, n) {
      SmallBlocksBelowChunks(s, p, n);
      assert Below(cs, 0, j);
    } else {
      var i :| UsedAt(cs, i, p - HEADER_SIZE, n + HEADER_SIZE);
      BigBlockApart(cs, i, j);
    }
  }

  lemma InvariantsAreSafe(s: Kmm)
    requires Inv(s) && GrantInv(s.big.chunks)
    ensures Safe(s)
  {
    forall p, n, q, m | IsBlock(s, p, n) && IsBlock(s, q, m) && p != q
      ensures Apart(p, n, q, m)
    {
      BlockPairApart(s, p, n, q, m);
    }
    forall p, n, j | IsBlock(s, p, n) && 0 <= j < |s.big.chunks|
      ensures Apart(p, n, s.big.chunks[j].addr, HEADER_SIZE)
    {
      BlockHeaderApart(s, p, n, j);
    }
  }

  // ---------- one call ----------

  ghost predicate Legal(s: Kmm, c: Call)
  {
    match c
    case Malloc(size) => size < UINT32
    case Free(ptr) => IsLive(s, ptr)
  }

  /** The size of the request, with header and alignment, fits in 32 bits. */
  predicate Whole(c: Call)
  {
    c.Malloc? ==> c.size <= MAX_REQUEST
  }

  /** A big request is whole, and made with no big chunk in use it fits before the second
      header. */
  predicate GuardAt(s: Kmm, c: Call)
  {
    && Whole(c)
    && (c.Malloc? && c.size > FASTBIN_THRESHOLD ==> Guard(s.big, BigRequest(c.size)))
  }

  /** The call writes no header over another: false only of a split without room. */
  predicate ApartAt(s: Kmm, c: Call)
  {
    c.Malloc? && c.size > FASTBIN_THRESHOLD && s.big.chunks != [] ==> HeadersApart(s.big, BigRequest(c.size))
  }

  /** The list of big chunks is one after the call too. */
  predicate Keeps(s: Kmm, c: Call)
  {
    c.Malloc? && c.size > FASTBIN_THRESHOLD && s.big.chunks != [] ==> KeepsList(s.big, BigRequest(c.size))
  }

  /** `malloc` wrote no header over another and returned null or a live block at least as long
      as asked for. */
  ghost predicate Served(s: Kmm, c: Call)
  {
    c.Malloc? ==>
      var (t, ptr) := MallocStep(s, c.size);
      ApartAt(s, c) && (ptr == 0 || exists len :: c.size <= len && IsBlock(t, ptr, len))
  }

  function Step(s: Kmm, c: Call): Kmm
  {
    match c
    case Malloc(size) => MallocStep(s, size).0
    case Free(ptr) => FreeStep(s, ptr)
  }

  /** `malloc` fails exactly on size 0 and on a small request with every slot taken. */
  lemma MallocFails(s: Kmm, size: nat)
    requires Inv(s)
    ensures MallocStep(s, size).1 == 0 <==>
            size == 0 || (size <= FASTBIN_THRESHOLD && forall i :: 0 <= i < |s.slots| ==> s.slots[i] != 0)
    ensures MallocStep(s, size).1 == 0 ==> MallocStep(s, size).0 == s
  {
    if size > FASTBIN_THRESHOLD {
      HandedOutAbove(s.big, BigRequest(size), Head(s));
    }
  }

  function BlockLength(size: nat): int
  {
    if size <= FASTBIN_THRESHOLD then FASTBIN_THRESHOLD else BigRequest(size) - HEADER_SIZE
  }

  /** A successful `malloc` adds one block that was not live and leaves every other block as it
      was.  The block is at least as long as asked for unless the size wrapped. */
  lemma MallocAddsBlock(s: Kmm, size: nat, p: int, n: int)
    requires Inv(s) && size < UINT32 && MallocStep(s, size).1 != 0
    ensures BlockLength(size) >= size <==> size <= MAX_REQUEST
    ensures ApartAt(s, Malloc(size)) ==>
              var (t, ptr) := MallocStep(s, size);
              && !IsBlock(s, ptr, n)
              && (IsBlock(t, p, n) <==> IsBlock(s, p, n) || (p == ptr && n == BlockLength(size)))
  {
    BigRequestCovers(size);
    if size <= FASTBIN_THRESHOLD {
      SmallAddsBlock(s, size, p, n);
    } else if ApartAt(s, Malloc(size)) {
      BigAddsBlock(s, size, p, n);
    }
  }

  lemma SmallAddsBlock(s: Kmm, size: nat, p: int, n: int)
    requires Inv(s) && 0 < size <= FASTBIN_THRESHOLD && MallocStep(s, size).1 != 0
    ensures var (t, ptr) := MallocStep(s, size);
            && !IsBlock(s, ptr, n)
            && (IsBlock(t, p, n) <==> IsBlock(s, p, n) || (p == ptr && n == FASTBIN_THRESHOLD))
  {
    var (t, ptr) := MallocStep(s, size);
    var k := FirstFree(s.slots, 0);
    assert t.slots[k] == ptr;
    if p != 0 {
      SlotsAfterSet(s.slots, k, ptr, p);
    }
    if SmallBlock(s, ptr, n) {
      SmallBlocksBelowChunks(s, ptr, n);
    } else if IsBlock(s, ptr, n) {
      BigBlocksAboveHead(s, ptr, n);
    }
  }

  lemma BigAddsBlock(s: Kmm, size: nat, p: int, n: int)
    requires Inv(s) && FASTBIN_THRESHOLD < size < UINT32 && ApartAt(s, Malloc(size))
    ensures var (t, ptr) := MallocStep(s, size);
            && !IsBlock(s, ptr, n)
            && (IsBlock(t, p, n) <==> IsBlock(s, p, n) || (p == ptr && n == BlockLength(size)))
  {
    hide MallocBig, BigRequest, HeadersApart, Ascending;
    var (t, ptr) := MallocStep(s, size);
    var req := BigRequest(size);
    HandedOutAbove(s.big, req, Head(s));
    MallocBigInUse(s.big, req, Head(s), p - HEADER_SIZE, n + HEADER_SIZE);
    MallocBigInUse(s.big, req, Head(s), ptr - HEADER_SIZE, n + HEADER_SIZE);
    if SmallBlock(s, ptr, n) {
      SmallBlocksBelowChunks(s, ptr, n);
    }
  }

  lemma SlotsAfterSet(slots: seq<int>, k: nat, v: int, p: int)
    requires k < |slots| && p != 0
    ensures slots[k] == 0 ==> (p in slots[k := v] <==> p in slots || p == v)
    ensures v == 0 && (forall i :: 0 <= i < |slots| && slots[i] == slots[k] ==> i == k) ==>
              (p in slots[k := v] <==> p in slots && p != slots[k])
  {
    var after := slots[k := v];
    if p in slots && p != slots[k] {
      var i :| 0 <= i < |slots| && slots[i] == p;
      assert after[i] == p;
    }
    if p in after {
      var i :| 0 <= i < |after| && after[i] == p;
      assert i != k ==> slots[i] == p;
    }
    assert after[k] == v;
  }

  /** `free` of a live pointer goes back to the pool the block came from and removes
      exactly that block. */
  lemma FreeRemovesBlock(s: Kmm, ptr: int, p: int, n: int)
    requires Inv(s) && IsLive(s, ptr)
    ensures IsBlock(FreeStep(s, ptr), p, n) <==> IsBlock(s, p, n) && p != ptr
    ensures Inv(FreeStep(s, ptr))
    ensures GrantInv(s.big.chunks) ==> GrantInv(FreeStep(s, ptr).big.chunks)
  {
    LivePlace(s, ptr);
    if ptr <= Head(s) {
      FreeSmall(s, (ptr - s.start) / FASTBIN_THRESHOLD, p, n);
    } else {
      FreeLarge(s, IndexAt(s.big.chunks, ptr - HEADER_SIZE, 0), p, n);
    }
  }

  /** Where a live pointer leads: to the slot that holds it or to the used chunk before it. */
  lemma LivePlace(s: Kmm, ptr: int)
    requires Inv(s) && IsLive(s, ptr)
    ensures s.start <= ptr
    ensures ptr <= Head(s) ==>
              ptr < s.start + FASTBIN_AREA
              && var k := (ptr - s.start) / FASTBIN_THRESHOLD; 0 <= k < |s.slots| && s.slots[k] == ptr
    ensures ptr > Head(s) ==>
              var k := IndexAt(s.big.chunks, ptr - HEADER_SIZE, 0);
              k < |s.big.chunks| && s.big.chunks[k].addr == ptr - HEADER_SIZE && s.big.chunks[k].used
  {
    var len :| IsBlock(s, ptr, len);
    var cs := s.big.chunks;
    if SmallBlock(s, ptr, len) {
      SmallBlocksBelowChunks(s, ptr, len);
    } else {
      BigBlocksAboveHead(s, ptr, len);
      var i :| UsedAt(cs, i, ptr - HEADER_SIZE, len + HEADER_SIZE);
      assert Below(cs, IndexAt(cs, ptr - HEADER_SIZE, 0), i);
    }
  }

  lemma FreeLarge(s: Kmm, k: nat, p: int, n: int)
    requires Inv(s) && k < |s.big.chunks| && s.big.chunks[k].used
    ensures var t := s.(big := FreeBig(s.big, k));
            && Inv(t)
            && (GrantInv(s.big.chunks) ==> GrantInv(t.big.chunks))
            && (IsBlock(t, p, n) <==> IsBlock(s, p, n) && p != s.big.chunks[k].addr + HEADER_SIZE)
  {
    FreeBigKeeps(s.big, k, Head(s), p - HEADER_SIZE, n + HEADER_SIZE);
    assert Below(s.big.chunks, 0, k);
    if SmallBlock(s, p, n) {
      SmallBlocksBelowChunks(s, p, n);
    }
  }

  lemma FreeSmall(s: Kmm, k: nat, p: int, n: int)
    requires Inv(s) && k < |s.slots| && s.slots[k] != 0
    ensures var t := s.(slots := s.slots[k := 0]);
            && Inv(t)
            && (IsBlock(t, p, n) <==> IsBlock(s, p, n) && p != s.slots[k])
  {
    var t := s.(slots := s.slots[k := 0]);
    if p != 0 {
      SlotsAfterSet(s.slots, k, 0, p);
    }
    if InUse(s.big.chunks, p - HEADER_SIZE, n + HEADER_SIZE) {
      BigBlocksAboveHead(s, p, n);
    }
  }

  /** A small request takes the lowest free slot, 64 bytes to a slot, and sets only that one;
      freeing its pointer sets it free. */
  lemma SmallTakesLowest(s: Kmm, size: nat, k: nat)
    requires Inv(s) && 0 < size <= 64 && k < |s.slots| && s.slots[k] == 0
    requires forall j :: 0 <= j < k ==> s.slots[j] != 0
    ensures var ptr := s.start + 64 * k; var t := s.(slots := s.slots[k := ptr]);
            MallocStep(s, size) == (t, ptr) && FreeStep(t, ptr) == t.(slots := t.slots[k := 0])
  {
    var f := FirstFree(s.slots, 0);
    assert f == k;
    assert (s.start + 64 * k - s.start) / FASTBIN_THRESHOLD == k;
  }

  /** A small block freed at once leaves both pools as they were. */
  lemma SmallRoundTrip(s: Kmm, size: nat)
    requires Inv(s) && size <= FASTBIN_THRESHOLD && MallocStep(s, size).1 != 0
    ensures var (t, ptr) := MallocStep(s, size); FreeStep(t, ptr) == s
  {
    var (t, ptr) := MallocStep(s, size);
    var k := FirstFree(s.slots, 0);
    assert (ptr - s.start) / FASTBIN_THRESHOLD == k;
    assert t.slots[k := 0] == s.slots;
  }

  /** Main result: a call leaves a list of headers, in order, with its counter exact, if and
      only if it keeps the list; and grants stay clear of headers exactly when guarded. */
  lemma StepKeepsExactlyWhen(s: Kmm, c: Call)
    requires Inv(s) && Legal(s, c)
    ensures Inv(Step(s, c)) <==> Keeps(s, c)
    ensures GrantInv(s.big.chunks) ==> (GrantInv(Step(s, c).big.chunks) <==> GuardAt(s, c))
    ensures Whole(c) ==> Keeps(s, c)
  {
    match c
    case Malloc(size) =>
      if size > FASTBIN_THRESHOLD {
        hide MallocBig, KeepsList, BigRequest, Guard;
        BigRequestCovers(size);
        ChainKeptExactlyWhen(s.big, BigRequest(size), Head(s));
        if GrantInv(s.big.chunks) {
          MallocBigKeepsGrants(s.big, BigRequest(size), Head(s));
        }
        if Whole(c) {
          WholeRequestKeeps(s.big, BigRequest(size));
        }
      }
    case Free(ptr) =>
      FreeRemovesBlock(s, ptr, 0, 0);
  }

  /** Without the guard the new block runs over the second header of the list. */
  lemma UnguardedIsUnsafe(s: Kmm, c: Call)
    requires Inv(s) && Legal(s, c) && Whole(c) && !GuardAt(s, c)
    ensures !Safe(Step(s, c))
  {
    BigRequestCovers(c.size);
    var req := BigRequest(c.size);
    var t := Step(s, c);
    var ptr := Head(s) + HEADER_SIZE;
    assert UsedAt(t.big.chunks, 0, Head(s), req);
    assert InUse(t.big.chunks, Head(s), req);
    assert IsBlock(t, ptr, req - HEADER_SIZE);
    assert t.big.chunks[1] == s.big.chunks[1];
    assert Below(s.big.chunks, 0, 1);
    assert !Apart(ptr, req - HEADER_SIZE, t.big.chunks[1].addr, HEADER_SIZE);
  }

  /** A request is served exactly when it is whole: one that wraps gets a chunk of 16 bytes
      at most, header included, or writes its header over another. */
  lemma ServedExactlyWhenWhole(s: Kmm, c: Call)
    requires Inv(s) && Legal(s, c)
    ensures Served(s, c) <==> Whole(c)
  {
    hide BigRequest, MallocBig, KeepsList;
    if c.Malloc? {
      var (t, ptr) := MallocStep(s, c.size);
      MallocFails(s, c.size);
      if ptr != 0 && ApartAt(s, c) {
        forall len
          ensures IsBlock(t, ptr, len) <==> len == BlockLength(c.size)
        {
          MallocAddsBlock(s, c.size, ptr, len);
        }
        assert IsBlock(t, ptr, BlockLength(c.size));
      }
      if Whole(c) {
        StepKeepsExactlyWhen(s, c);
        assert ApartAt(s, c) by { KeepsApart(s, c); }
      }
      if ptr != 0 {
        MallocAddsBlock(s, c.size, 0, 0);
      }
    }
  }

  lemma KeepsApart(s: Kmm, c: Call)
    requires Keeps(s, c)
    ensures ApartAt(s, c)
  {
  }

  // ---------- runs ----------

  /** Each call is legal as long as there is a list to call it on. */
  ghost predicate LegalRun(s: Kmm, calls: seq<Call>)
    decreases |calls|
  {
    calls != [] ==> Legal(s, calls[0]) && (Keeps(s, calls[0]) ==> LegalRun(Step(s, calls[0]), calls[1..]))
  }

  predicate GuardedRun(s: Kmm, calls: seq<Call>)
    decreases |calls|
  {
    calls != [] ==> GuardAt(s, calls[0]) && GuardedRun(Step(s, calls[0]), calls[1..])
  }

  predicate KeptRun(s: Kmm, calls: seq<Call>)
    decreases |calls|
  {
    calls != [] ==> Keeps(s, calls[0]) && KeptRun(Step(s, calls[0]), calls[1..])
  }

  ghost predicate AlwaysSafe(s: Kmm, calls: seq<Call>)
    decreases |calls|
  {
    Safe(s) && (calls != [] ==> Served(s, calls[0]) && AlwaysSafe(Step(s, calls[0]), calls[1..]))
  }

  ghost predicate AlwaysInv(s: Kmm, calls: seq<Call>)
    decreases |calls|
  {
    Inv(s) && (calls != [] ==> AlwaysInv(Step(s, calls[0]), calls[1..]))
  }

  function Run(s: Kmm, calls: seq<Call>): Kmm
    decreases |calls|
  {
    if calls == [] then s else Run(Step(s, calls[0]), calls[1..])
  }

  /** What the `malloc`s of a run return, in order. */
  function Answers(s: Kmm, calls: seq<Call>): seq<int>
    decreases |calls|
  {
    if calls == [] then []
    else (if calls[0].Malloc? then [MallocStep(s, calls[0].size).1] else []) + Answers(Step(s, calls[0]), calls[1..])
  }

  lemma {:induction false} SafeExactlyWhenGuardedFrom(s: Kmm, calls: seq<Call>)
    requires Inv(s) && GrantInv(s.big.chunks) && LegalRun(s, calls)
    ensures AlwaysSafe(s, calls) <==> GuardedRun(s, calls)
    decreases |calls|
  {
    InvariantsAreSafe(s);
    if calls != [] {
      ServedExactlyWhenWhole(s, calls[0]);
      if Whole(calls[0]) {
        StepKeepsExactlyWhen(s, calls[0]);
        if GuardAt(s, calls[0]) {
          SafeExactlyWhenGuardedFrom(Step(s, calls[0]), calls[1..]);
        } else {
          UnguardedIsUnsafe(s, calls[0]);
        }
      }
    }
  }

  /** A live block stays live, with its length, until it is freed. */
  lemma {:induction false} LiveUntilFreed(s: Kmm, calls: seq<Call>, p: int, n: int)
    requires Inv(s) && LegalRun(s, calls) && KeptRun(s, calls) && IsBlock(s, p, n)
    requires Free(p) !in calls
    ensures IsBlock(Run(s, calls), p, n)
    decreases |calls|
  {
    hide Keeps, MallocStep, FreeStep, Inv, IsBlock;
    if calls != [] {
      var c := calls[0];
      StepKeepsExactlyWhen(s, c);
      KeepsApart(s, c);
      match c {
        case Malloc(size) =>
          if MallocStep(s, size).1 == 0 {
            MallocFails(s, size);
          } else {
            MallocAddsBlock(s, size, p, n);
          }
        case Free(ptr) =>
          assert c in calls;
          FreeRemovesBlock(s, ptr, p, n);
      }
      LiveUntilFreed(Step(s, c), calls[1..], p, n);
    }
  }

  lemma InitHolds(start: int)
    requires start > 0
    ensures Inv(Init(start)) && GrantInv(Init(start).big.chunks)
    ensures |Init(start).slots| == 100 && Head(Init(start)) == start + 6800
  {
    assert CountUsed(Init(start).big.chunks) == 0;
  }

  lemma {:induction false} SafeAfterGuarded(s: Kmm, calls: seq<Call>)
    requires Inv(s) && GrantInv(s.big.chunks) && LegalRun(s, calls) && GuardedRun(s, calls)
    ensures KeptRun(s, calls) && Safe(Run(s, calls))
    decreases |calls|
  {
    hide Step, Keeps, Safe, Inv, GrantInv, GuardAt;
    InvariantsAreSafe(s);
    if calls != [] {
      StepKeepsExactlyWhen(s, calls[0]);
      GuardedIsWhole(s, calls[0]);
      SafeAfterGuarded(Step(s, calls[0]), calls[1..]);
    }
  }

  lemma GuardedIsWhole(s: Kmm, c: Call)
    requires GuardAt(s, c)
    ensures Whole(c)
  {
  }

  /** Main result: a run serves every request and keeps all live blocks apart exactly when it
      is guarded. */
  lemma SafeExactlyWhenGuarded(start: int, calls: seq<Call>)
    requires start > 0 && LegalRun(Init(start), calls)
    ensures AlwaysSafe(Init(start), calls) <==> GuardedRun(Init(start), calls)
  {
    InitHolds(start);
    SafeExactlyWhenGuardedFrom(Init(start), calls);
  }

  lemma {:induction false} ListKeptExactlyWhenFrom(s: Kmm, calls: seq<Call>)
    requires Inv(s) && LegalRun(s, calls)
    ensures AlwaysInv(s, calls) <==> KeptRun(s, calls)
    ensures KeptRun(s, calls) ==> Inv(Run(s, calls))
    decreases |calls|
  {
    hide Keeps, Step, Inv;
    if calls != [] {
      StepKeepsExactlyWhen(s, calls[0]);
      if Keeps(s, calls[0]) {
        ListKeptExactlyWhenFrom(Step(s, calls[0]), calls[1..]);
      } else if calls[1..] == [] {
        assert !AlwaysInv(Step(s, calls[0]), calls[1..]);
      }
    }
  }

  /** Main result: throughout a run, guarded or not, the headers ascend at least a header apart
      and the counter is the number of chunks in use, if and only if every call keeps the
      list: a wrapped request must find room for its header, and must not be left below 13
      bytes in the last chunk. */
  lemma ChainHoldsExactlyWhen(start: int, calls: seq<Call>)
    requires start > 0 && LegalRun(Init(start), calls)
    ensures AlwaysInv(Init(start), calls) <==> KeptRun(Init(start), calls)
  {
    InitHolds(start);
    ListKeptExactlyWhenFrom(Init(start), calls);
  }

  /** Whole requests keep the list, whatever else they do. */
  lemma {:induction false} WholeRunIsKept(s: Kmm, calls: seq<Call>)
    requires Inv(s) && LegalRun(s, calls)
    requires forall i :: 0 <= i < |calls| ==> Whole(calls[i])
    ensures KeptRun(s, calls)
    decreases |calls|
  {
    hide Keeps, Step, Inv;
    if calls != [] {
      StepKeepsExactlyWhen(s, calls[0]);
      WholeRunIsKept(Step(s, calls[0]), calls[1..]);
    }
  }

  // ---------- the guard is needed ----------

  lemma RunCons(s: Kmm, c: Call, rest: seq<Call>)
    requires Legal(s, c) && LegalRun(Step(s, c), rest)
    ensures LegalRun(s, [c] + rest) && Run(s, [c] + rest) == Run(Step(s, c), rest)
  {
    assert ([c] + rest)[1..] == rest;
  }

  function TwoBlocks(head: int): BigPool
  {
    BigPool([Chunk(head, 120, true, false, 120), Chunk(head + 120, 120, true, true, 120)], 2)
  }

  function OneFreed(head: int): BigPool
  {
    BigPool([Chunk(head, 120, false, false, 120), Chunk(head + 120, 120, true, true, 120)], 1)
  }

  function TwoFreed(head: int): BigPool
  {
    BigPool([Chunk(head, 120, false, false, 120), Chunk(head + 120, 253, false, false, 120)], 0)
  }

  lemma TwoMallocs(s: Kmm)
    requires s.big == BigPool([Chunk(Head(s), 0, false, false, 0)], 0)
    ensures var one := Step(s, Malloc(100));
            && one.big == BigPool([Chunk(Head(s), 120, true, false, 120)], 1)
            && Step(one, Malloc(100)) == s.(big := TwoBlocks(Head(s)))
  {
    HundredRequest();
    var one := Step(s, Malloc(100));
    assert one.big == BigPool([Chunk(Head(s), 120, true, false, 120)], 1);
    assert FirstHole(one.big.chunks, 120, 0) == 0;
  }

  lemma FirstFreed(s: Kmm)
    requires s.big == TwoBlocks(Head(s))
    ensures Legal(s, Free(Head(s) + 13))
    ensures Step(s, Free(Head(s) + 13)) == s.(big := OneFreed(Head(s)))
  {
    assert UsedAt(s.big.chunks, 0, Head(s), 120);
    assert IsBlock(s, Head(s) + 13, 107);
    assert IndexAt(s.big.chunks, Head(s), 0) == 0;
    assert FreeBig(s.big, 0).chunks == OneFreed(Head(s)).chunks;
  }

  lemma SecondFreed(s: Kmm)
    requires s.big == OneFreed(Head(s))
    ensures Legal(s, Free(Head(s) + 133))
    ensures Step(s, Free(Head(s) + 133)) == s.(big := TwoFreed(Head(s)))
  {
    assert UsedAt(s.big.chunks, 1, Head(s) + 120, 120);
    assert IsBlock(s, Head(s) + 133, 107);
    assert IndexAt(s.big.chunks, Head(s) + 120, 0) == 1;
    assert FreeBig(s.big, 1).chunks == TwoFreed(Head(s)).chunks;
  }

  lemma TwoFreedHolds(s: Kmm)
    requires s.start > 0 && |s.slots| == FASTBIN_MAX_SIZE && (forall i :: 0 <= i < |s.slots| ==> s.slots[i] == 0)
    requires s.big == TwoFreed(Head(s))
    ensures Inv(s) && !Guard(s.big, BigRequest(1000))
  {
    CountUsedZero(s.big.chunks);
  }

  lemma ThirdOverlaps(s: Kmm)
    requires s.start > 0 && |s.slots| == FASTBIN_MAX_SIZE && (forall i :: 0 <= i < |s.slots| ==> s.slots[i] == 0)
    requires s.big == TwoFreed(Head(s))
    ensures LegalRun(s, [Malloc(1000)]) && !Safe(Run(s, [Malloc(1000)]))
  {
    hide Inv, Safe, Step, Guard, BigRequest, TwoFreed;
    TwoFreedHolds(s);
    UnguardedIsUnsafe(s, Malloc(1000));
    var last := [Malloc(1000)];
    assert last[1..] == [];
    assert Run(Step(s, Malloc(1000)), last[1..]) == Step(s, Malloc(1000));
  }

  function OverlappingCalls(head: int): seq<Call>
  {
    [Malloc(100)] + ([Malloc(100)] + ([Free(head + 13)] + ([Free(head + 133)] + [Malloc(1000)])))
  }

  /** Two blocks of 100 bytes, both freed, and then one of 1000: the last block covers the
      header that the list still links behind it. */
  lemma UnguardedRun(start: int)
    requires start > 0
    ensures var calls := OverlappingCalls(start + FASTBIN_AREA);
            LegalRun(Init(start), calls) && !Safe(Run(Init(start), calls))
  {
    var s := Init(start);
    var head := Head(s);
    TwoMallocs(s);
    FirstFreed(s.(big := TwoBlocks(head)));
    SecondFreed(s.(big := OneFreed(head)));
    ThirdOverlaps(s.(big := TwoFreed(head)));
    var last := [Malloc(1000)];
    RunCons(s.(big := OneFreed(head)), Free(head + 133), last);
    RunCons(s.(big := TwoBlocks(head)), Free(head + 13), [Free(head + 133)] + last);
    RunCons(Step(s, Malloc(100)), Malloc(100), [Free(head + 13)] + ([Free(head + 133)] + last));
    RunCons(s, Malloc(100), [Malloc(100)] + ([Free(head + 13)] + ([Free(head + 133)] + last)));
  }

  // ---------- two more runs ----------

  /** A request that no hole meets is appended. */
  lemma AppendStep(s: Kmm, size: nat, req: int)
    requires s.big.chunks != [] && s.big.allocatedChunks > 0 && size > FASTBIN_THRESHOLD
    requires req == BigRequest(size)
    requires forall i :: 0 <= i < |s.big.chunks| ==> !IsHole(s.big.chunks, i, req)
    ensures Step(s, Malloc(size)) == s.(big := BigPool(Append(s.big.chunks, req), s.big.allocatedChunks + 1))
  {
  }

  /** Freeing the chunk at index `k`. */
  lemma FreeStepAt(s: Kmm, k: nat)
    requires Ascending(s.big.chunks) && k < |s.big.chunks| && s.big.chunks[k].used
    requires s.big.chunks[0].addr == Head(s) && |s.slots| == FASTBIN_MAX_SIZE
    ensures Legal(s, Free(s.big.chunks[k].addr + HEADER_SIZE))
    ensures Step(s, Free(s.big.chunks[k].addr + HEADER_SIZE)) == s.(big := FreeBig(s.big, k))
  {
    var cs := s.big.chunks;
    var j := IndexAt(cs, cs[k].addr, 0);
    assert Below(cs, 0, k) && Below(cs, j, k);
    assert UsedAt(cs, k, cs[k].addr, cs[k].grant);
    assert IsBlock(s, cs[k].addr + HEADER_SIZE, cs[k].grant - HEADER_SIZE);
  }

  /** Four chunks, of 216 bytes and three times 120; the first and third as marked. */
  function FourChunks(head: int, first: bool, third: bool): (cs: seq<Chunk>)
    ensures |cs| == 4
  {
    [Chunk(head, 216, first, false, 216), Chunk(head + 216, 120, true, true, 120),
     Chunk(head + 336, 120, third, true, 120), Chunk(head + 456, 120, true, true, 120)]
  }

  lemma HundredRequest()
    ensures BigRequest(100) == 120
  {
    hide AlignVal;
    var aligned := AlignVal(113, CHUNK_SIZE_ALIGN);
    assert aligned == CHUNK_SIZE_ALIGN * (aligned / CHUNK_SIZE_ALIGN);
    assert aligned == 120;
  }

  lemma AppendFourth(s: Kmm, n: nat)
    requires 1 <= n < 4 && s.big == BigPool(FourChunks(Head(s), true, true)[..n], n)
    ensures Step(s, Malloc(100)) == s.(big := BigPool(FourChunks(Head(s), true, true)[..n + 1], n + 1))
  {
    hide BigRequest, Step, MallocBig, FirstHole;
    HundredRequest();
    AppendStep(s, 100, 120);
    assert Append(s.big.chunks, 120) == FourChunks(Head(s), true, true)[..n + 1];
  }

  lemma FirstOfFour(s: Kmm)
    requires s.big == BigPool([Chunk(Head(s), 0, false, false, 0)], 0)
    ensures Step(s, Malloc(200)) == s.(big := BigPool(FourChunks(Head(s), true, true)[..1], 1))
  {
    assert BigRequest(200) == 216;
    assert FourChunks(Head(s), true, true)[..1] == [Chunk(Head(s), 216, true, false, 216)];
  }

  lemma FourMallocs(s: Kmm)
    requires s.big == BigPool([Chunk(Head(s), 0, false, false, 0)], 0)
    ensures var s1 := Step(s, Malloc(200)); var s2 := Step(s1, Malloc(100)); var s3 := Step(s2, Malloc(100));
            Step(s3, Malloc(100)) == s.(big := BigPool(FourChunks(Head(s), true, true), 4))
  {
    hide Step, FourChunks;
    var four := FourChunks(Head(s), true, true);
    FirstOfFour(s);
    AppendFourth(s.(big := BigPool(four[..1], 1)), 1);
    AppendFourth(s.(big := BigPool(four[..2], 2)), 2);
    AppendFourth(s.(big := BigPool(four[..3], 3)), 3);
    assert |four| == 4 && four[..4] == four;
  }

  lemma TwoHoles(s: Kmm)
    requires |s.slots| == FASTBIN_MAX_SIZE && s.big == BigPool(FourChunks(Head(s), true, true), 4)
    ensures var h := Head(s); var one := Step(s, Free(h + 13));
            && Legal(s, Free(h + 13)) && Legal(one, Free(h + 349))
            && Step(one, Free(h + 349)) == s.(big := BigPool(FourChunks(h, false, false), 2))
  {
    var h := Head(s);
    FreeStepAt(s, 0);
    assert FreeBig(s.big, 0) == BigPool(FourChunks(h, false, true), 3);
    FreeStepAt(s.(big := BigPool(FourChunks(h, false, true), 3)), 2);
    assert FreeBig(BigPool(FourChunks(h, false, true), 3), 2).chunks == FourChunks(h, false, false);
  }

  lemma LargerHoleIsGiven(t: Kmm)
    requires t.big == BigPool(FourChunks(Head(t), false, false), 2)
    ensures var cs := t.big.chunks; var req := BigRequest(100);
            && IsHole(cs, 0, req) && IsHole(cs, 2, req)
            && cs[3].addr - cs[2].addr < cs[1].addr - cs[0].addr
            && FirstHole(cs, req, 0) == 0
            && MallocStep(t, 100).1 == cs[0].addr + HEADER_SIZE
  {
    HundredRequest();
  }

  /** The search is not best fit: after these calls a request of 100 bytes is given the hole of
      216 bytes at the head, though the hole of 120 bytes behind it would have held it. */
  lemma FirstHoleIsNotSmallest(start: int)
    requires start > 0
    ensures var h := start + FASTBIN_AREA;
            var calls := [Malloc(200)] + ([Malloc(100)] + ([Malloc(100)] + ([Malloc(100)] +
                         ([Free(h + 13)] + ([Free(h + 349)] + [])))));
            && LegalRun(Init(start), calls)
            && var t := Run(Init(start), calls); var cs := t.big.chunks; var req := BigRequest(100);
            && IsHole(cs, 0, req) && IsHole(cs, 2, req)
            && cs[3].addr - cs[2].addr < cs[1].addr - cs[0].addr
            && FirstHole(cs, req, 0) == 0
            && MallocStep(t, 100).1 == cs[0].addr + HEADER_SIZE
  {
    var h := start + FASTBIN_AREA;
    var s := Init(start);
    hide Step, BigRequest, FourChunks, IsHole, FirstHole, MallocStep;
    FourMallocs(s);
    var s1 := Step(s, Malloc(200));
    var s2 := Step(s1, Malloc(100));
    var s3 := Step(s2, Malloc(100));
    var s4 := Step(s3, Malloc(100));
    TwoHoles(s4);
    var s5 := Step(s4, Free(h + 13));
    LargerHoleIsGiven(Step(s5, Free(h + 349)));
    RunCons(s5, Free(h + 349), []);
    RunCons(s4, Free(h + 13), [Free(h + 349)] + []);
    RunCons(s3, Malloc(100), [Free(h + 13)] + ([Free(h + 349)] + []));
    RunCons(s2, Malloc(100), [Malloc(100)] + ([Free(h + 13)] + ([Free(h + 349)] + [])));
    RunCons(s1, Malloc(100), [Malloc(100)] + ([Malloc(100)] + ([Free(h + 13)] + ([Free(h + 349)] + []))));
    RunCons(s, Malloc(200),
            [Malloc(100)] + ([Malloc(100)] + ([Malloc(100)] + ([Free(h + 13)] + ([Free(h + 349)] + [])))));
  }

  lemma WrapsToNothing()
    ensures BigRequest(UINT32 - 20) == 0
  {
    hide AlignVal;
    assert (UINT32 - 20 + HEADER_SIZE) % UINT32 == UINT32 - 7;
    var aligned := AlignVal(UINT32 - 7, CHUNK_SIZE_ALIGN);
    assert aligned == CHUNK_SIZE_ALIGN * (aligned / CHUNK_SIZE_ALIGN);
    assert aligned == UINT32;
  }

  lemma WrapsToSixteen()
    ensures BigRequest(UINT32 - 1) == 16
  {
    hide AlignVal;
    assert (UINT32 - 1 + HEADER_SIZE) % UINT32 == 12;
    var aligned := AlignVal(12, CHUNK_SIZE_ALIGN);
    assert aligned == CHUNK_SIZE_ALIGN * (aligned / CHUNK_SIZE_ALIGN);
    assert aligned == 16;
  }

  /** Of two sizes that wrap, the first request of one keeps the list and of the other does not. */
  lemma WrappedRequests(start: int)
    requires start > 0
    ensures Keeps(Init(start), Malloc(UINT32 - 1)) && !Whole(Malloc(UINT32 - 1))
    ensures !Keeps(Init(start), Malloc(UINT32 - 20))
  {
    hide BigRequest;
    WrapsToNothing();
    WrapsToSixteen();
  }
}
