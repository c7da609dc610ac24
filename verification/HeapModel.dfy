/**
 The big-chunk pool of the kernel heap as a value: the address-ordered list of chunk
 headers, and what `__malloc_big` and `__free_big` do to it.

 A `Chunk` is one header of the list.  `linked` says that its `prev` pointer is not null;
 where it points is fixed by `ChainInv`.  `grant` is the size the last `malloc` asked of the
 chunk; the kernel does not store it, and no step below reads it.
 */
module HeapModel {
  import opened Basics

  const HEADER_SIZE: int := 13
  const FASTBIN_THRESHOLD: int := 0x40
  const CHUNK_SIZE_ALIGN: int := 8
  const BIGCHUNK_MIN_SPACE: int := HEADER_SIZE + FASTBIN_THRESHOLD + 1
  const MAX_REQUEST: int := UINT32 - 21
  const MIN_BIG_REQUEST: int := 80

  // ---------- request sizes ----------

  /** ALIGN_VAL; for a power of two, masking with `alignment - 1` is the remainder. */
  function AlignVal(value: nat, alignment: nat): (r: nat)
    requires alignment > 0
    ensures r % alignment == 0
    ensures value <= r < value + alignment
  {
    var pad: nat := (0 - value) % alignment;
    assert (value + pad) % alignment == 0 by { AlignedSum(value, alignment); }
    value + pad
  }

  lemma AlignedSum(value: int, alignment: int)
    requires alignment > 0
    ensures (value + (-value) % alignment) % alignment == 0
  {
    var q := (-value) / alignment;
    assert value + (-value) % alignment == (-q) * alignment;
    MultipleHasNoRemainder(-q, alignment);
  }

  lemma MultipleHasNoRemainder(q: int, a: int)
    requires a > 0
    ensures (q * a) % a == 0
  {
    var m := (q * a) % a;
    var d := (q * a) / a;
    assert (q - d) * a == m;
    assert q - d >= 1 ==> (q - d) * a >= a;
    assert q - d <= -1 ==> (q - d) * a <= -a;
  }

  /** The size `malloc` hands to `__malloc_big`, with the 32-bit wrap-around of `size_t`. */
  function BigRequest(size: nat): nat
  {
    AlignVal((size + HEADER_SIZE) % UINT32, CHUNK_SIZE_ALIGN) % UINT32
  }

  /** The test at the split, in unsigned 32-bit arithmetic. */
  predicate SplitTaken(holeValue: int, req: int)
  {
    (holeValue - BIGCHUNK_MIN_SPACE) % UINT32 > req
  }

  /** The request covers the block and its header exactly when nothing wraps. */
  lemma BigRequestCovers(size: nat)
    requires size < UINT32
    ensures BigRequest(size) >= size + HEADER_SIZE <==> size <= MAX_REQUEST
    ensures FASTBIN_THRESHOLD < size <= MAX_REQUEST ==>
              MIN_BIG_REQUEST <= BigRequest(size) < size + HEADER_SIZE + CHUNK_SIZE_ALIGN
    ensures size > MAX_REQUEST ==> BigRequest(size) <= 16
  {
    hide AlignVal;
    var wrapped := (size + HEADER_SIZE) % UINT32;
    var aligned := AlignVal(wrapped, CHUNK_SIZE_ALIGN);
    var k := aligned / CHUNK_SIZE_ALIGN;
    assert aligned == CHUNK_SIZE_ALIGN * k;
    if size <= MAX_REQUEST {
      assert wrapped == size + HEADER_SIZE;
      assert aligned < UINT32;
      assert BigRequest(size) == aligned;
    } else if size + HEADER_SIZE < UINT32 {
      assert wrapped == size + HEADER_SIZE;
      assert k == UINT32 / CHUNK_SIZE_ALIGN;
      assert BigRequest(size) == 0;
    } else {
      assert wrapped == size + HEADER_SIZE - UINT32;
      assert k <= 2;
      assert BigRequest(size) == aligned;
    }
  }

  /** The search stores the request as the hole's value, so the split is taken for the sizes
      whose request wraps and for no others. */
  lemma SplitTakenExactlyWhenWrapped(size: nat)
    requires FASTBIN_THRESHOLD < size < UINT32
    ensures SplitTaken(BigRequest(size), BigRequest(size)) <==> size > MAX_REQUEST
  {
    hide BigRequest;
    BigRequestCovers(size);
    if size <= MAX_REQUEST {
      WholeRequestNeverSplits(BigRequest(size));
    }
  }

  lemma WholeRequestNeverSplits(req: int)
    requires req >= MIN_BIG_REQUEST
    ensures !SplitTaken(req, req)
  {
  }

  // ---------- the chunk list ----------

  datatype Chunk = Chunk(addr: int, size: int, used: bool, linked: bool, grant: int)
  datatype BigPool = BigPool(chunks: seq<Chunk>, allocatedChunks: int)

  function CountUsed(cs: seq<Chunk>): nat
  {
    if cs == [] then 0
    else CountUsed(cs[..|cs| - 1]) + if cs[|cs| - 1].used then 1 else 0
  }

  /** A chunk the search may reuse: not in use, not the last one, and large enough. */
  predicate IsHole(cs: seq<Chunk>, i: int, req: int)
  {
    && 0 <= i < |cs| - 1
    && !cs[i].used
    && req <= cs[i + 1].addr - cs[i].addr < UINT32 - 1
  }

  /** Where the search loop stops: at the first hole, or at the last chunk. */
  function FirstHole(cs: seq<Chunk>, req: int, from: nat): (k: nat)
    requires from < |cs|
    ensures from <= k < |cs|
    ensures forall i :: from <= i < k ==> !IsHole(cs, i, req)
    ensures k < |cs| - 1 ==> IsHole(cs, k, req)
    decreases |cs| - from
  {
    if from == |cs| - 1 || IsHole(cs, from, req) then from else FirstHole(cs, req, from + 1)
  }

  function ReuseAt(cs: seq<Chunk>, k: nat, req: int): seq<Chunk>
    requires k < |cs| - 1
  {
    cs[k := cs[k].(used := true, size := (cs[k + 1].addr - cs[k].addr) / HEADER_SIZE - 1, grant := req)]
  }

  /** The split: a new unused header behind the request, between the hole and its successor.
      The hole's own size is left as it was. */
  function SplitAt(cs: seq<Chunk>, k: nat, req: int): (r: seq<Chunk>)
    requires k < |cs| - 1
    ensures |r| == |cs| + 1
    ensures forall i :: 0 <= i < k ==> r[i] == cs[i]
    ensures r[k] == cs[k].(used := true, grant := req)
    ensures r[k + 1] == Chunk(cs[k].addr + req, cs[k + 1].addr - cs[k].addr - req, false, true, 0)
    ensures r[k + 2] == cs[k + 1].(linked := true)
    ensures forall i :: k + 2 < i < |r| ==> r[i] == cs[i - 1]
  {
    var rest := Chunk(cs[k].addr + req, cs[k + 1].addr - cs[k].addr - req, false, true, 0);
    cs[..k] + [cs[k].(used := true, grant := req), rest, cs[k + 1].(linked := true)] + cs[k + 2..]
  }

  function TakeHole(cs: seq<Chunk>, k: nat, req: int): seq<Chunk>
    requires k < |cs| - 1
  {
    if SplitTaken(req, req) then SplitAt(cs, k, req) else ReuseAt(cs, k, req)
  }

  function Append(cs: seq<Chunk>, req: int): seq<Chunk>
    requires cs != []
  {
    var last := cs[|cs| - 1];
    cs + [Chunk(last.addr + last.size, req, true, true, req)]
  }

  /** `__malloc_big`: the new pool and the index of the chunk handed out. */
  function MallocBig(p: BigPool, req: int): (BigPool, nat)
    requires p.chunks != []
  {
    var cs := p.chunks;
    if p.allocatedChunks == 0 then
      (BigPool(cs[0 := cs[0].(size := req, used := true, grant := req)], 1), 0)
    else
      var k := FirstHole(cs, req, 0);
      if k < |cs| - 1 then (BigPool(TakeHole(cs, k, req), p.allocatedChunks + 1), k)
      else (BigPool(Append(cs, req), p.allocatedChunks + 1), |cs|)
  }

  function RemoveAt<T>(cs: seq<T>, k: nat): (r: seq<T>)
    requires k < |cs|
    ensures |r| == |cs| - 1
    ensures forall i :: 0 <= i < k ==> r[i] == cs[i]
    ensures forall i :: k <= i < |r| ==> r[i] == cs[i + 1]
  {
    seq(|cs| - 1, i requires 0 <= i < |cs| - 1 => if i < k then cs[i] else cs[i + 1])
  }

  function Unuse(cs: seq<Chunk>, i: nat): seq<Chunk>
    requires i < |cs|
  {
    cs[i := cs[i].(used := false)]
  }

  function Absorb(cs: seq<Chunk>, i: nat, k: nat): seq<Chunk>
    requires i < |cs| && k < |cs|
  {
    cs[i := cs[i].(size := cs[i].size + cs[k].size + HEADER_SIZE)]
  }

  function Relink(cs: seq<Chunk>, i: nat, linked: bool): seq<Chunk>
  {
    if i < |cs| then cs[i := cs[i].(linked := linked)] else cs
  }

  /** Forward consolidation: chunk `i` swallows an unused successor. */
  function MergeForward(cs: seq<Chunk>, i: nat): seq<Chunk>
    requires i < |cs|
  {
    if i + 1 < |cs| && !cs[i + 1].used then RemoveAt(Relink(Absorb(cs, i, i + 1), i + 2, true), i + 1)
    else cs
  }

  /** Backward consolidation: the higher header survives, and the lower one leaves the
      list only when its own `prev` is not null. */
  function MergeBackward(cs: seq<Chunk>, i: nat): seq<Chunk>
    requires i < |cs|
  {
    if i > 0 && cs[i].linked && !cs[i - 1].used then
      var grown := Relink(Absorb(cs, i, i - 1), i, cs[i - 1].linked);
      if cs[i - 1].linked then RemoveAt(grown, i - 1) else grown
    else cs
  }

  /** `__free_big` of the chunk at index `i`. */
  function FreeBig(p: BigPool, i: nat): BigPool
    requires i < |p.chunks|
  {
    BigPool(MergeBackward(MergeForward(Unuse(p.chunks, i), i), i), p.allocatedChunks - 1)
  }

  // ---------- invariants ----------

  ghost predicate Below(cs: seq<Chunk>, i: int, j: int)
  {
    0 <= i < j < |cs| ==> cs[i].addr + HEADER_SIZE <= cs[j].addr
  }

  /** Addresses ascend, at least a header apart. */
  ghost predicate Ascending(cs: seq<Chunk>)
  {
    forall i, j :: Below(cs, i, j)
  }

  ghost predicate ChainEnds(cs: seq<Chunk>, head: int)
  {
    && cs != []
    && cs[0].addr == head
    && !cs[0].linked
    && (forall i :: 0 <= i < |cs| ==> 0 <= cs[i].size)
    && (|cs| > 1 || cs[0].used ==> cs[|cs| - 1].size >= HEADER_SIZE)
  }

  /** The shape of the list: its ends, and addresses in order. */
  ghost predicate ChainShape(cs: seq<Chunk>, head: int)
  {
    ChainEnds(cs, head) && Ascending(cs)
  }

  ghost predicate ChainInv(p: BigPool, head: int)
  {
    ChainShape(p.chunks, head) && p.allocatedChunks == CountUsed(p.chunks)
  }

  ghost predicate Clear(cs: seq<Chunk>, i: int, j: int)
  {
    0 <= i < j < |cs| && cs[i].used ==> cs[i].addr + cs[i].grant <= cs[j].addr
  }

  /** What guarded steps keep: every granted range ends before the next header. */
  ghost predicate Separated(cs: seq<Chunk>)
  {
    forall i, j :: Clear(cs, i, j)
  }

  ghost predicate GrantSizes(cs: seq<Chunk>)
  {
    && (forall i :: 0 <= i < |cs| && cs[i].used ==> MIN_BIG_REQUEST <= cs[i].grant)
    && (cs != [] && cs[|cs| - 1].used ==> cs[|cs| - 1].grant <= cs[|cs| - 1].size)
  }

  ghost predicate GrantInv(cs: seq<Chunk>)
  {
    Separated(cs) && GrantSizes(cs)
  }

  /** A request made while nothing is in use must fit before the second header, if there is one. */
  predicate Guard(p: BigPool, req: int)
  {
    p.allocatedChunks == 0 && |p.chunks| > 1 ==> req <= p.chunks[1].addr - p.chunks[0].addr
  }

  /** Room for a second header between the request and the next chunk. */
  predicate RoomToSplit(cs: seq<Chunk>, k: int, req: int)
  {
    0 <= k < |cs| - 1 && HEADER_SIZE <= req && req + HEADER_SIZE <= cs[k + 1].addr - cs[k].addr
  }

  /** The request is not met by a split without room, which writes its header over one that is
      there.  A list on which it is does not show what memory holds after it. */
  predicate HeadersApart(p: BigPool, req: int)
    requires p.chunks != []
  {
    var k := FirstHole(p.chunks, req, 0);
    p.allocatedChunks != 0 && k < |p.chunks| - 1 && SplitTaken(req, req) ==> RoomToSplit(p.chunks, k, req)
  }

  /** What a request must meet for the list to be one afterwards: room for the header of a
      split, and room for a header in the last chunk. */
  predicate KeepsList(p: BigPool, req: int)
    requires p.chunks != []
  {
    var last := |p.chunks| - 1;
    && HeadersApart(p, req)
    && ((if p.allocatedChunks == 0 then last == 0 else FirstHole(p.chunks, req, 0) == last) ==> req >= HEADER_SIZE)
  }

  // ---------- counting ----------

  lemma {:induction false} CountUsedConcat(a: seq<Chunk>, b: seq<Chunk>)
    ensures CountUsed(a + b) == CountUsed(a) + CountUsed(b)
  {
    if b == [] {
      assert a + b == a;
    } else {
      CountUsedConcat(a, b[..|b| - 1]);
      assert (a + b)[..|a + b| - 1] == a + b[..|b| - 1];
    }
  }

  lemma CountUsedSplit(cs: seq<Chunk>, i: nat)
    requires i < |cs|
    ensures CountUsed(cs) == CountUsed(cs[..i]) + (if cs[i].used then 1 else 0) + CountUsed(cs[i + 1..])
  {
    assert cs == cs[..i] + ([cs[i]] + cs[i + 1..]);
    CountUsedConcat(cs[..i], [cs[i]] + cs[i + 1..]);
    CountUsedConcat([cs[i]], cs[i + 1..]);
  }

  lemma CountUsedUpdate(cs: seq<Chunk>, i: nat, c: Chunk)
    requires i < |cs|
    ensures CountUsed(cs[i := c]) ==
            CountUsed(cs) - (if cs[i].used then 1 else 0) + (if c.used then 1 else 0)
  {
    var ds := cs[i := c];
    CountUsedSplit(cs, i);
    CountUsedSplit(ds, i);
    assert ds[..i] == cs[..i] && ds[i + 1..] == cs[i + 1..];
  }

  lemma CountUsedRemove(cs: seq<Chunk>, i: nat)
    requires i < |cs|
    ensures CountUsed(RemoveAt(cs, i)) == CountUsed(cs) - if cs[i].used then 1 else 0
  {
    CountUsedSplit(cs, i);
    CountUsedConcat(cs[..i], cs[i + 1..]);
    RemoveAtConcat(cs, i);
  }

  lemma RemoveAtConcat(cs: seq<Chunk>, i: nat)
    requires i < |cs|
    ensures RemoveAt(cs, i) == cs[..i] + cs[i + 1..]
  {
  }

  lemma {:induction false} CountUsedZero(cs: seq<Chunk>)
    ensures CountUsed(cs) == 0 <==> forall i :: 0 <= i < |cs| ==> !cs[i].used
  {
    if cs != [] {
      CountUsedZero(cs[..|cs| - 1]);
    }
  }

  /** While a chunk is in use, the last one can hold a header: it is never an empty head. */
  lemma LastIsWide(p: BigPool, head: int)
    requires ChainInv(p, head) && p.allocatedChunks != 0
    ensures p.chunks[|p.chunks| - 1].size >= HEADER_SIZE
  {
    CountUsedZero(p.chunks);
  }

  // ---------- every step keeps the invariants ----------

  lemma AppendAscends(cs: seq<Chunk>, req: int)
    requires cs != [] && Ascending(cs) && cs[|cs| - 1].size >= HEADER_SIZE
    ensures Ascending(Append(cs, req))
  {
    var ds := Append(cs, req);
    forall i, j
      ensures Below(ds, i, j)
    {
      assert Below(cs, i, j) && Below(cs, i, |cs| - 1);
    }
  }

  lemma SplitCounts(cs: seq<Chunk>, k: nat, req: int)
    requires k < |cs| - 1 && !cs[k].used
    ensures CountUsed(SplitAt(cs, k, req)) == CountUsed(cs) + 1
  {
    hide SplitAt;
    var ds := SplitAt(cs, k, req);
    CountUsedRemove(ds, k + 1);
    CountUsedUpdate(cs, k, ds[k]);
    CountUsedUpdate(cs[k := ds[k]], k + 1, ds[k + 2]);
    assert RemoveAt(ds, k + 1) == cs[k := ds[k]][k + 1 := ds[k + 2]];
  }

  lemma SplitAscends(cs: seq<Chunk>, k: nat, req: int)
    requires k < |cs| - 1 && Ascending(cs)
    ensures Ascending(SplitAt(cs, k, req)) <==> RoomToSplit(cs, k, req)
  {
    hide SplitAt;
    var ds := SplitAt(cs, k, req);
    if RoomToSplit(cs, k, req) {
      forall i, j
        ensures Below(ds, i, j)
      {
        var i', j' := if i <= k then i else i - 1, if j <= k then j else j - 1;
        assert Below(cs, i', j') && Below(cs, i', k) && Below(cs, k + 1, j');
      }
    } else {
      assert !Below(ds, k, k + 1) || !Below(ds, k + 1, k + 2);
    }
  }

  lemma MallocBigCounts(p: BigPool, req: int)
    requires p.chunks != [] && p.allocatedChunks == CountUsed(p.chunks)
    ensures var q := MallocBig(p, req).0; q.allocatedChunks == CountUsed(q.chunks)
  {
    var cs := p.chunks;
    CountUsedZero(cs);
    if p.allocatedChunks == 0 {
      CountUsedUpdate(cs, 0, cs[0].(size := req, used := true, grant := req));
    } else {
      var k := FirstHole(cs, req, 0);
      if k == |cs| - 1 {
        CountUsedConcat(cs, Append(cs, req)[|cs|..]);
      } else if SplitTaken(req, req) {
        SplitCounts(cs, k, req);
      } else {
        CountUsedUpdate(cs, k, ReuseAt(cs, k, req)[k]);
      }
    }
  }

  lemma MallocBigEnds(p: BigPool, req: int, head: int)
    requires ChainInv(p, head) && req >= 0
    ensures HeadersApart(p, req) ==> (ChainEnds(MallocBig(p, req).0.chunks, head) <==> KeepsList(p, req))
  {
    hide Ascending, SplitAt;
    CountUsedZero(p.chunks);
  }

  lemma MallocBigAscends(p: BigPool, req: int, head: int)
    requires ChainInv(p, head)
    ensures Ascending(MallocBig(p, req).0.chunks) <==> HeadersApart(p, req)
  {
    var cs, q := p.chunks, MallocBig(p, req).0.chunks;
    if |q| == |cs| {
      SameAddressesKeep(cs, q);
    } else if FirstHole(cs, req, 0) < |cs| - 1 {
      SplitAscends(cs, FirstHole(cs, req, 0), req);
    } else {
      LastIsWide(p, head);
      AppendAscends(cs, req);
    }
  }

  /** Main result: allocation leaves a list, headers ascending, sizes usable and the counter
      exact, if and only if the request keeps it. */
  lemma ChainKeptExactlyWhen(p: BigPool, req: int, head: int)
    requires ChainInv(p, head) && req >= 0
    ensures ChainInv(MallocBig(p, req).0, head) <==> KeepsList(p, req)
  {
    hide MallocBig, Ascending, ChainEnds;
    assert p.chunks != [] by { ChainNotEmpty(p.chunks, head); }
    MallocBigCounts(p, req);
    MallocBigEnds(p, req, head);
    MallocBigAscends(p, req, head);
  }

  lemma ChainNotEmpty(cs: seq<Chunk>, head: int)
    requires ChainEnds(cs, head)
    ensures cs != []
  {
  }

  lemma WholeRequestKeeps(p: BigPool, req: int)
    requires p.chunks != [] && req >= MIN_BIG_REQUEST
    ensures KeepsList(p, req)
  {
    WholeRequestNeverSplits(req);
  }

  lemma SeparatedUpdate(cs: seq<Chunk>, k: nat, c: Chunk)
    requires k < |cs| && Ascending(cs) && Separated(cs) && c.addr == cs[k].addr && c.used
    ensures Separated(cs[k := c]) <==> (k + 1 < |cs| ==> c.addr + c.grant <= cs[k + 1].addr)
  {
    var ds := cs[k := c];
    if Separated(ds) {
      assert Clear(ds, k, k + 1);
    }
    if k + 1 < |cs| ==> c.addr + c.grant <= cs[k + 1].addr {
      forall i, j
        ensures Clear(ds, i, j)
      {
        assert Clear(cs, i, j) && Below(cs, k + 1, j);
      }
    }
  }

  lemma SeparatedAppend(cs: seq<Chunk>, req: int)
    requires cs != [] && Separated(cs)
    requires var last := cs[|cs| - 1]; 0 <= last.size && (last.used ==> last.grant <= last.size)
    ensures Separated(Append(cs, req))
  {
    var ds := Append(cs, req);
    forall i, j
      ensures Clear(ds, i, j)
    {
      assert Clear(cs, i, j) && Clear(cs, i, |cs| - 1);
    }
  }

  lemma MallocBigGrantSizes(p: BigPool, req: int, head: int)
    requires ChainInv(p, head) && GrantSizes(p.chunks) && req >= MIN_BIG_REQUEST
    ensures GrantSizes(MallocBig(p, req).0.chunks)
  {
    WholeRequestNeverSplits(req);
    CountUsedZero(p.chunks);
  }

  /** The list stays safe exactly when the request is whole and the guard holds. */
  lemma MallocBigKeepsGrants(p: BigPool, req: int, head: int)
    requires ChainInv(p, head) && GrantInv(p.chunks) && req >= 0
    ensures GrantInv(MallocBig(p, req).0.chunks) <==> req >= MIN_BIG_REQUEST && Guard(p, req)
  {
    var cs := p.chunks;
    var (q, k) := MallocBig(p, req);
    if req < MIN_BIG_REQUEST {
      assert q.chunks[k].used && q.chunks[k].grant == req;
    } else {
      WholeRequestNeverSplits(req);
      MallocBigGrantSizes(p, req, head);
      if k < |cs| {
        SeparatedUpdate(cs, k, q.chunks[k]);
      } else {
        SeparatedAppend(cs, req);
      }
    }
  }

  // ---------- chunks compared by what callers can see ----------

  /** The same addresses, use marks and grants; sizes and links may differ. */
  ghost predicate SameRanges(cs: seq<Chunk>, ds: seq<Chunk>)
  {
    && |cs| == |ds|
    && forall i :: 0 <= i < |cs| ==>
         cs[i].addr == ds[i].addr && cs[i].used == ds[i].used && cs[i].grant == ds[i].grant
  }

  lemma AbsorbSame(cs: seq<Chunk>, i: nat, k: nat, j: nat, linked: bool)
    requires i < |cs| && k < |cs|
    ensures SameRanges(cs, Relink(Absorb(cs, i, k), j, linked))
  {
  }

  lemma {:induction false} SameRangesCount(cs: seq<Chunk>, ds: seq<Chunk>)
    requires SameRanges(cs, ds)
    ensures CountUsed(cs) == CountUsed(ds)
  {
    if cs != [] {
      SameRangesCount(cs[..|cs| - 1], ds[..|ds| - 1]);
    }
  }

  lemma SameRangesInUse(cs: seq<Chunk>, ds: seq<Chunk>, addr: int, grant: int)
    requires SameRanges(cs, ds)
    ensures InUse(cs, addr, grant) <==> InUse(ds, addr, grant)
  {
    if InUse(cs, addr, grant) {
      var j :| UsedAt(cs, j, addr, grant);
      assert UsedAt(ds, j, addr, grant);
    }
    if InUse(ds, addr, grant) {
      var j :| UsedAt(ds, j, addr, grant);
      assert UsedAt(cs, j, addr, grant);
    }
  }

  lemma RemoveKeepsInUse(cs: seq<Chunk>, k: nat, addr: int, grant: int)
    requires k < |cs| && !cs[k].used
    ensures InUse(RemoveAt(cs, k), addr, grant) <==> InUse(cs, addr, grant)
  {
    var r := RemoveAt(cs, k);
    if InUse(cs, addr, grant) {
      var j :| UsedAt(cs, j, addr, grant);
      assert UsedAt(r, if j > k then j - 1 else j, addr, grant);
    }
    if InUse(r, addr, grant) {
      var j :| UsedAt(r, j, addr, grant);
      assert UsedAt(cs, if j >= k then j + 1 else j, addr, grant);
    }
  }

  lemma RemoveKeepsOrder(cs: seq<Chunk>, k: nat)
    requires k < |cs|
    ensures Ascending(cs) ==> Ascending(RemoveAt(cs, k))
    ensures Separated(cs) ==> Separated(RemoveAt(cs, k))
  {
    var r := RemoveAt(cs, k);
    forall i, j
      ensures Ascending(cs) ==> Below(r, i, j)
      ensures Separated(cs) ==> Clear(r, i, j)
    {
      var i', j' := if i < k then i else i + 1, if j < k then j else j + 1;
      assert Ascending(cs) ==> Below(cs, i', j');
      assert Separated(cs) ==> Clear(cs, i', j');
    }
  }

  /** Dropping an unused chunk keeps order, separation, the count and the ranges in use. */
  lemma DropUnused(cs: seq<Chunk>, ds: seq<Chunk>, k: nat, addr: int, grant: int)
    requires SameRanges(cs, ds) && k < |cs| && !cs[k].used
    ensures Ascending(cs) ==> Ascending(RemoveAt(ds, k))
    ensures Separated(cs) ==> Separated(RemoveAt(ds, k))
    ensures CountUsed(RemoveAt(ds, k)) == CountUsed(cs)
    ensures InUse(RemoveAt(ds, k), addr, grant) <==> InUse(cs, addr, grant)
  {
    SameRangesCount(cs, ds);
    SameRangesInUse(cs, ds, addr, grant);
    CountUsedRemove(ds, k);
    RemoveKeepsInUse(ds, k, addr, grant);
    SameAddressesKeep(cs, ds);
    RemoveKeepsOrder(ds, k);
  }

  /** Shape and grants of a list that has the same addresses as a well-shaped one. */
  lemma SameAddressesKeep(cs: seq<Chunk>, ds: seq<Chunk>)
    requires |cs| == |ds|
    requires forall i :: 0 <= i < |cs| ==>
               ds[i].addr == cs[i].addr
    ensures Ascending(cs) ==> Ascending(ds)
    ensures (forall i :: 0 <= i < |cs| && ds[i].used ==> cs[i].used && ds[i].grant == cs[i].grant) ==>
              Separated(cs) ==> Separated(ds)
  {
    forall i, j
      ensures Ascending(cs) ==> Below(ds, i, j)
    {
      assert Ascending(cs) ==> Below(cs, i, j);
    }
    if (forall i :: 0 <= i < |cs| && ds[i].used ==> cs[i].used && ds[i].grant == cs[i].grant) && Separated(cs) {
      forall i, j
        ensures Clear(ds, i, j)
      {
        assert Clear(cs, i, j);
      }
    }
  }

  lemma MergeForwardRanges(cs: seq<Chunk>, i: nat, addr: int, grant: int)
    requires i < |cs|
    ensures var r := MergeForward(cs, i);
            && (Ascending(cs) ==> Ascending(r))
            && (Separated(cs) ==> Separated(r))
            && CountUsed(r) == CountUsed(cs)
            && (InUse(r, addr, grant) <==> InUse(cs, addr, grant))
  {
    if i + 1 < |cs| && !cs[i + 1].used {
      AbsorbSame(cs, i, i + 1, i + 2, true);
      DropUnused(cs, Relink(Absorb(cs, i, i + 1), i + 2, true), i + 1, addr, grant);
    }
  }

  lemma MergeForwardEnds(cs: seq<Chunk>, i: nat, head: int)
    requires i < |cs| && !cs[i].used && ChainEnds(cs, head)
    ensures var r := MergeForward(cs, i);
            && i < |r| && !r[i].used && ChainEnds(r, head)
            && (GrantSizes(cs) ==> GrantSizes(r))
  {
    if i + 1 < |cs| && !cs[i + 1].used {
      var r := MergeForward(cs, i);
      assert i + 2 < |cs| ==> r[|r| - 1].size == cs[|cs| - 1].size && r[|r| - 1].used == cs[|cs| - 1].used;
    }
  }

  lemma SameRangesKeep(cs: seq<Chunk>, ds: seq<Chunk>, addr: int, grant: int)
    requires SameRanges(cs, ds)
    ensures Ascending(cs) ==> Ascending(ds)
    ensures Separated(cs) ==> Separated(ds)
    ensures CountUsed(ds) == CountUsed(cs)
    ensures InUse(ds, addr, grant) <==> InUse(cs, addr, grant)
  {
    SameRangesCount(cs, ds);
    SameRangesInUse(cs, ds, addr, grant);
    SameAddressesKeep(cs, ds);
  }

  /** What backward consolidation makes of the list, case by case. */
  lemma MergeBackwardIs(cs: seq<Chunk>, i: nat)
    requires 0 < i < |cs|
    ensures var grown := Relink(Absorb(cs, i, i - 1), i, cs[i - 1].linked);
            && |grown| == |cs|
            && MergeBackward(cs, i) ==
               (if !cs[i].linked || cs[i - 1].used then cs
                else if cs[i - 1].linked then RemoveAt(grown, i - 1) else grown)
  {
  }

  lemma NothingBefore(cs: seq<Chunk>)
    requires cs != []
    ensures MergeBackward(cs, 0) == cs
  {
  }

  lemma MergeBackwardRanges(cs: seq<Chunk>, i: nat, addr: int, grant: int)
    requires i < |cs|
    ensures var r := MergeBackward(cs, i);
            && (Ascending(cs) ==> Ascending(r))
            && (Separated(cs) ==> Separated(r))
            && CountUsed(r) == CountUsed(cs)
            && (InUse(r, addr, grant) <==> InUse(cs, addr, grant))
  {
    hide MergeBackward, RemoveAt, Relink, Absorb, Ascending, Separated, InUse, CountUsed;
    if i > 0 {
      MergeBackwardIs(cs, i);
      if !cs[i - 1].used {
        BackwardCases(cs, i, addr, grant);
      }
    } else {
      NothingBefore(cs);
    }
  }

  lemma BackwardCases(cs: seq<Chunk>, i: nat, addr: int, grant: int)
    requires 0 < i < |cs| && !cs[i - 1].used
    ensures var grown := Relink(Absorb(cs, i, i - 1), i, cs[i - 1].linked);
            && |grown| == |cs|
            && (Ascending(cs) ==> Ascending(grown) && Ascending(RemoveAt(grown, i - 1)))
            && (Separated(cs) ==> Separated(grown) && Separated(RemoveAt(grown, i - 1)))
            && CountUsed(RemoveAt(grown, i - 1)) == CountUsed(grown) == CountUsed(cs)
            && (InUse(grown, addr, grant) <==> InUse(cs, addr, grant))
            && (InUse(RemoveAt(grown, i - 1), addr, grant) <==> InUse(cs, addr, grant))
  {
    hide Ascending, Separated, InUse, CountUsed;
    var grown := Relink(Absorb(cs, i, i - 1), i, cs[i - 1].linked);
    AbsorbSame(cs, i, i - 1, i, cs[i - 1].linked);
    DropUnused(cs, grown, i - 1, addr, grant);
    SameRangesKeep(cs, grown, addr, grant);
  }

  lemma AbsorbEnds(cs: seq<Chunk>, i: nat, linked: bool, head: int)
    requires 0 < i < |cs| && !cs[i].used && ChainEnds(cs, head)
    ensures var g := Relink(Absorb(cs, i, i - 1), i, linked);
            && ChainEnds(g, head)
            && (GrantSizes(cs) ==> GrantSizes(g))
  {
  }

  lemma RemoveKeepsEnds(cs: seq<Chunk>, k: nat, head: int)
    requires 0 < k < |cs| - 1 && ChainEnds(cs, head)
    ensures ChainEnds(RemoveAt(cs, k), head)
    ensures GrantSizes(cs) ==> GrantSizes(RemoveAt(cs, k))
  {
  }

  lemma MergeBackwardEnds(cs: seq<Chunk>, i: nat, head: int)
    requires i < |cs| && !cs[i].used && ChainEnds(cs, head)
    ensures ChainEnds(MergeBackward(cs, i), head)
    ensures GrantSizes(cs) ==> GrantSizes(MergeBackward(cs, i))
  {
    if i > 0 && cs[i].linked && !cs[i - 1].used {
      AbsorbEnds(cs, i, cs[i - 1].linked, head);
      if cs[i - 1].linked {
        RemoveKeepsEnds(Relink(Absorb(cs, i, i - 1), i, true), i - 1, head);
      }
    }
  }

  lemma UnuseRanges(cs: seq<Chunk>, i: nat, addr: int, grant: int)
    requires i < |cs| && cs[i].used && Ascending(cs)
    ensures Ascending(Unuse(cs, i))
    ensures Separated(cs) ==> Separated(Unuse(cs, i))
    ensures CountUsed(Unuse(cs, i)) == CountUsed(cs) - 1
    ensures InUse(Unuse(cs, i), addr, grant) <==> InUse(cs, addr, grant) && addr != cs[i].addr
  {
    var r := Unuse(cs, i);
    SameAddressesKeep(cs, r);
    CountUsedUpdate(cs, i, r[i]);
    if InUse(cs, addr, grant) && addr != cs[i].addr {
      var j :| UsedAt(cs, j, addr, grant);
      assert UsedAt(r, j, addr, grant);
    }
    if InUse(r, addr, grant) {
      var j :| UsedAt(r, j, addr, grant);
      assert Below(cs, i, j) && Below(cs, j, i);
      assert UsedAt(cs, j, addr, grant);
    }
  }

  lemma UnuseEnds(cs: seq<Chunk>, i: nat, head: int)
    requires i < |cs| && cs[i].used && ChainEnds(cs, head)
    ensures ChainEnds(Unuse(cs, i), head)
    ensures GrantSizes(cs) ==> GrantSizes(Unuse(cs, i))
  {
  }

  /** Freeing keeps the invariants, removes one range from those in use, and keeps the rest. */
  lemma FreeBigKeeps(p: BigPool, i: nat, head: int, addr: int, grant: int)
    requires ChainInv(p, head) && i < |p.chunks| && p.chunks[i].used
    ensures ChainInv(FreeBig(p, i), head)
    ensures GrantInv(p.chunks) ==> GrantInv(FreeBig(p, i).chunks)
    ensures InUse(FreeBig(p, i).chunks, addr, grant) <==>
            InUse(p.chunks, addr, grant) && addr != p.chunks[i].addr
  {
    var freed := Unuse(p.chunks, i);
    UnuseEnds(p.chunks, i, head);
    UnuseRanges(p.chunks, i, addr, grant);
    var merged := MergeForward(freed, i);
    MergeForwardEnds(freed, i, head);
    MergeForwardRanges(freed, i, addr, grant);
    MergeBackwardEnds(merged, i, head);
    MergeBackwardRanges(merged, i, addr, grant);
  }

  // ---------- which chunks are in use ----------

  ghost predicate UsedAt(cs: seq<Chunk>, i: int, addr: int, grant: int)
  {
    0 <= i < |cs| && cs[i].used && cs[i].addr == addr && cs[i].grant == grant
  }

  /** Some chunk of the list is in use with exactly this address and grant. */
  ghost predicate InUse(cs: seq<Chunk>, addr: int, grant: int)
  {
    exists i :: UsedAt(cs, i, addr, grant)
  }

  /** Where chunk `i` is after the request: a split puts a chunk behind the one handed out. */
  function NewIndex(p: BigPool, req: int, i: nat): nat
    requires p.chunks != []
  {
    var (q, k) := MallocBig(p, req);
    if k < i && |q.chunks| > |p.chunks| then i + 1 else i
  }

  /** The chunk handed out was not in use, and no other chunk `i` changes its address, size,
      mark or grant. */
  lemma MallocBigAt(p: BigPool, req: int, head: int, i: nat)
    requires ChainInv(p, head) && HeadersApart(p, req) && i < |p.chunks|
    ensures var (q, k) := MallocBig(p, req); var j := NewIndex(p, req, i);
            && k < |q.chunks| && q.chunks[k].used && q.chunks[k].grant == req
            && (k < |p.chunks| ==> !p.chunks[k].used && q.chunks[k].addr == p.chunks[k].addr)
            && j < |q.chunks| && (i != k ==> j != k && SameButLink(p.chunks[i], q.chunks[j]))
  {
    hide SplitAt;
    CountUsedZero(p.chunks);
  }

  predicate SameButLink(a: Chunk, b: Chunk)
  {
    a.addr == b.addr && a.size == b.size && a.used == b.used && a.grant == b.grant
  }

  /** Every other chunk in use was there before: what a split leaves over is not in use. */
  lemma NothingElseInUse(p: BigPool, req: int, head: int, j: nat) returns (i: nat)
    requires ChainInv(p, head) && HeadersApart(p, req)
    requires var (q, k) := MallocBig(p, req); j < |q.chunks| && j != k && q.chunks[j].used
    ensures i < |p.chunks| && i != MallocBig(p, req).1 && j == NewIndex(p, req, i)
  {
    hide SplitAt;
    CountUsedZero(p.chunks);
    var (q, k) := MallocBig(p, req);
    i := if k < |p.chunks| && j > k && |q.chunks| > |p.chunks| then j - 1 else j;
  }

  lemma TakenElsewhere(p: BigPool, req: int, head: int, i: nat)
    requires ChainInv(p, head) && HeadersApart(p, req) && i < |p.chunks| && p.chunks[i].used
    ensures var (q, k) := MallocBig(p, req); k < |q.chunks| && q.chunks[k].addr != p.chunks[i].addr
  {
    hide SplitAt;
    var cs := p.chunks;
    CountUsedZero(cs);
    MallocBigAt(p, req, head, i);
    var k := MallocBig(p, req).1;
    assert Below(cs, i, k) && Below(cs, k, i) && Below(cs, i, |cs| - 1);
  }

  /** Allocation adds one range that was not in use and keeps all others, split or not. */
  lemma MallocBigInUse(p: BigPool, req: int, head: int, addr: int, grant: int)
    requires ChainInv(p, head)
    ensures HeadersApart(p, req) ==>
              var (q, k) := MallocBig(p, req);
              && k < |q.chunks| && head <= q.chunks[k].addr
              && (InUse(q.chunks, addr, grant) <==>
                  InUse(p.chunks, addr, grant) || (addr == q.chunks[k].addr && grant == req))
              && !InUse(p.chunks, q.chunks[k].addr, grant)
  {
    if HeadersApart(p, req) {
      var cs := p.chunks;
      var (q, k) := MallocBig(p, req);
      MallocBigAt(p, req, head, 0);
      hide MallocBig, HeadersApart, NewIndex, Ascending;
      assert UsedAt(q.chunks, k, q.chunks[k].addr, req);
      if InUse(cs, addr, grant) {
        var i: nat :| UsedAt(cs, i, addr, grant);
        TakenElsewhere(p, req, head, i);
        MallocBigAt(p, req, head, i);
        assert UsedAt(q.chunks, NewIndex(p, req, i), addr, grant);
      }
      if InUse(q.chunks, addr, grant) {
        var j: nat :| UsedAt(q.chunks, j, addr, grant);
        if j != k {
          var i := NothingElseInUse(p, req, head, j);
          MallocBigAt(p, req, head, i);
          assert UsedAt(cs, i, addr, grant);
        }
      }
      if InUse(cs, q.chunks[k].addr, grant) {
        var i: nat :| UsedAt(cs, i, q.chunks[k].addr, grant);
        TakenElsewhere(p, req, head, i);
      }
      HandedOutAbove(p, req, head);
    }
  }

  lemma HandedOutAbove(p: BigPool, req: int, head: int)
    requires ChainInv(p, head)
    ensures var (q, k) := MallocBig(p, req); k < |q.chunks| && head <= q.chunks[k].addr
  {
    assert Below(p.chunks, 0, MallocBig(p, req).1) && Below(p.chunks, 0, |p.chunks| - 1);
  }

  /** Unless a split lacks room, the pointer handed out leads to one chunk, in use with exactly
      the request as its grant. */
  lemma MallocBigGrants(p: BigPool, req: int, head: int, grant: int)
    requires ChainInv(p, head)
    ensures HeadersApart(p, req) ==>
              var (q, k) := MallocBig(p, req);
              && k < |q.chunks| && head <= q.chunks[k].addr
              && (InUse(q.chunks, q.chunks[k].addr, grant) <==> grant == req)
  {
    hide MallocBig, HeadersApart;
    HandedOutAbove(p, req, head);
    var (q, k) := MallocBig(p, req);
    MallocBigInUse(p, req, head, q.chunks[k].addr, grant);
  }

  /** Main result, first fit by addresses: with chunks in use, the lowest chunk that is unused,
      not the last, and reaches far enough up to the next is handed out; if there is none, a
      chunk is added where the last one ends. */
  lemma FirstFitByAddress(p: BigPool, req: int, head: int)
    requires ChainInv(p, head) && p.allocatedChunks > 0
    ensures var cs := p.chunks; var (q, k) := MallocBig(p, req);
            && k <= |cs|
            && (forall i :: 0 <= i < |cs| - 1 && !cs[i].used && req <= cs[i + 1].addr - cs[i].addr < 0xFFFF_FFFF ==>
                  k <= i)
            && (k < |cs| ==>
                  && k + 1 < |cs| && !cs[k].used && req <= cs[k + 1].addr - cs[k].addr < 0xFFFF_FFFF)
            && (k == |cs| ==>
                  && |q.chunks| == |cs| + 1 && q.chunks[..k] == cs
                  && q.chunks[k].addr == cs[k - 1].addr + cs[k - 1].size)
  {
    hide SplitAt;
    var k := FirstHole(p.chunks, req, 0);
    forall i | 0 <= i < |p.chunks| - 1 && !p.chunks[i].used
               && req <= p.chunks[i + 1].addr - p.chunks[i].addr < 0xFFFF_FFFF
      ensures MallocBig(p, req).1 <= i
    {
      assert IsHole(p.chunks, i, req);
    }
  }

  /** What the chunk handed out stores as its size: the request, or for a whole hole its length
      counted in headers, less one. */
  lemma StoredSize(p: BigPool, req: int, head: int)
    requires ChainInv(p, head) && MIN_BIG_REQUEST <= req
    ensures var cs := p.chunks; var (q, k) := MallocBig(p, req);
            && k < |q.chunks| && q.chunks[k].used
            && (p.allocatedChunks == 0 ==> k == 0 && |q.chunks| == |cs|)
            && (p.allocatedChunks == 0 || k == |cs| ==> q.chunks[k].size == req)
            && (k == |cs| ==> q.chunks[k].linked)
            && (p.allocatedChunks > 0 && k < |cs| ==>
                  k + 1 < |cs| &&
                  13 * (q.chunks[k].size + 1) <= cs[k + 1].addr - cs[k].addr < 13 * (q.chunks[k].size + 2))
  {
    WholeRequestNeverSplits(req);
  }

  /** A split hole keeps its own size; the new chunk behind the request is unused, linked, and
      ends where the next one starts. */
  lemma SplitParts(p: BigPool, req: int, head: int)
    requires ChainInv(p, head) && p.allocatedChunks > 0 && 0 <= req < 78
    requires FirstHole(p.chunks, req, 0) < |p.chunks| - 1
    ensures var cs := p.chunks; var (q, k) := MallocBig(p, req);
            && k + 1 < |cs| && |q.chunks| == |cs| + 1
            && q.chunks[k].addr == cs[k].addr && q.chunks[k].size == cs[k].size
            && q.chunks[k + 1].addr == cs[k].addr + req && !q.chunks[k + 1].used && q.chunks[k + 1].linked
            && q.chunks[k + 1].addr + q.chunks[k + 1].size == q.chunks[k + 2].addr == cs[k + 1].addr
            && q.chunks[k + 2].linked
  {
    hide SplitAt;
  }

  /** Chunk `j` once the size and the link of a merge are set, before a chunk leaves the list. */
  lemma GrownAt(cs: seq<Chunk>, i: nat, k: nat, at: nat, linked: bool, j: nat)
    requires i < |cs| && k < |cs| && i != at && j < |cs|
    ensures var r := Relink(Absorb(cs, i, k), at, linked);
            && |r| == |cs|
            && r[j] == if j == i then cs[i].(size := cs[i].size + cs[k].size + 13)
                       else if j == at then cs[j].(linked := linked) else cs[j]
  {
  }

  lemma MergeForwardExact(cs: seq<Chunk>, i: nat, j: nat)
    requires i < |cs|
    ensures var q := MergeForward(cs, i); var after := i + 1 < |cs| && !cs[i + 1].used;
            && |q| == |cs| - (if after then 1 else 0) && i < |q|
            && q[i] == cs[i].(size := cs[i].size + if after then cs[i + 1].size + 13 else 0)
            && (j < i ==> q[j] == cs[j])
            && (i < j < |q| ==>
                  var from := j + if after then 1 else 0;
                  from < |cs| && q[j] == if after && j == i + 1 then cs[from].(linked := true) else cs[from])
  {
    hide RemoveAt, Relink, Absorb;
    if i + 1 < |cs| && !cs[i + 1].used {
      GrownAt(cs, i, i + 1, i + 2, true, i);
      if j < |cs| {
        GrownAt(cs, i, i + 1, i + 2, true, j);
      }
      if j + 1 < |cs| {
        GrownAt(cs, i, i + 1, i + 2, true, j + 1);
      }
    }
  }

  lemma MergeBackwardExact(cs: seq<Chunk>, i: nat, j: nat)
    requires i < |cs|
    ensures var q := MergeBackward(cs, i); var before := i > 0 && cs[i].linked && !cs[i - 1].used;
            var gone := before && cs[i - 1].linked; var k := if gone then i - 1 else i;
            && |q| == |cs| - (if gone then 1 else 0) && k < |q|
            && q[k] == cs[i].(size := cs[i].size + (if before then cs[i - 1].size + 13 else 0),
                              linked := if before then cs[i - 1].linked else cs[i].linked)
            && (j < k ==> q[j] == cs[j])
            && (k < j < |q| ==> q[j] == cs[j + if gone then 1 else 0])
  {
  }

  /** Main result, what freeing chunk `i` does to the list.  An unused chunk behind it leaves
      the list, and so does an unused one before it, if both have a `prev`; their sizes, and 13
      for each header, go to the freed chunk, which is unused.  Nothing else changes but the
      `prev` of the chunk behind. */
  lemma FreeBigExact(p: BigPool, i: nat, j: nat)
    requires i < |p.chunks|
    ensures var cs, q := p.chunks, FreeBig(p, i).chunks;
            var after := i + 1 < |cs| && !cs[i + 1].used;
            var before := i > 0 && cs[i].linked && !cs[i - 1].used;
            var gone := before && cs[i - 1].linked;
            var k := if gone then i - 1 else i;
            && |q| == |cs| - (if after then 1 else 0) - (if gone then 1 else 0)
            && k < |q| && q[k].addr == cs[i].addr && !q[k].used
            && q[k].size == cs[i].size + (if after then cs[i + 1].size + 13 else 0)
                            + (if before then cs[i - 1].size + 13 else 0)
            && (q[k].linked <==> if before then cs[i - 1].linked else cs[i].linked)
            && (j < k ==> q[j] == cs[j])
            && (k < j < |q| ==>
                  var from := j + (if after then 1 else 0) + (if gone then 1 else 0);
                  from < |cs| && q[j] == if after && j == k + 1 then cs[from].(linked := true) else cs[from])
    ensures FreeBig(p, i).allocatedChunks == p.allocatedChunks - 1
  {
    hide MergeForward, MergeBackward;
    var freed := Unuse(p.chunks, i);
    var merged := MergeForward(freed, i);
    MergeForwardExact(freed, i, j);
    MergeForwardExact(freed, i, j + 1);
    if i > 0 {
      MergeForwardExact(freed, i, i - 1);
    }
    MergeBackwardExact(merged, i, j);
  }

  /** With chunks in use the search is first fit: the lowest hole is handed out, whole or, for
      a wrapped request, split by one new header; and the list grows, behind its last chunk,
      only when there is no hole. */
  lemma MallocBigIsFirstFit(p: BigPool, req: int, head: int, i: nat)
    requires ChainInv(p, head) && p.allocatedChunks > 0 && i < |p.chunks|
    ensures var cs := p.chunks; var (q, k) := MallocBig(p, req);
            && (IsHole(cs, i, req) ==> IsHole(cs, k, req) && cs[k].addr <= cs[i].addr)
            && (IsHole(cs, k, req) && HeadersApart(p, req) ==>
                  && |q.chunks| == |cs| + (if SplitTaken(req, req) then 1 else 0)
                  && NewIndex(p, req, i) < |q.chunks| && q.chunks[NewIndex(p, req, i)].addr == cs[i].addr)
            && (!IsHole(cs, k, req) ==>
                  k == |cs| && q.chunks[..k] == cs && q.chunks[k].addr == cs[k - 1].addr + cs[k - 1].size)
  {
    hide SplitAt;
    assert Below(p.chunks, MallocBig(p, req).1, i);
  }

  function Gap(cs: seq<Chunk>, i: nat): int
    requires i < |cs| - 1
  {
    cs[i + 1].addr - cs[i].addr
  }

  /** Main result: of the holes that would do, a smallest one is handed out if and only if none
      behind the first is smaller than it. */
  lemma SmallestHoleExactlyWhen(p: BigPool, req: int, head: int)
    requires ChainInv(p, head) && p.allocatedChunks > 0
    requires FirstHole(p.chunks, req, 0) < |p.chunks| - 1
    ensures var cs := p.chunks; var k, first := MallocBig(p, req).1, FirstHole(cs, req, 0);
            && IsHole(cs, k, req)
            && ((forall i :: IsHole(cs, i, req) ==> Gap(cs, k) <= Gap(cs, i)) <==>
                (forall i :: first < i && IsHole(cs, i, req) ==> Gap(cs, first) <= Gap(cs, i)))
  {
    assert MallocBig(p, req).1 == FirstHole(p.chunks, req, 0);
  }
}
