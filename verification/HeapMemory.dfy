/**
 The headers of the big chunks in memory, linked by address, and what each change of memory
 does to the list.

 `mem` holds the 13-byte headers by address.  Headers of a list never overlap (they are at
 least 13 bytes apart), so a write to one does not reach another.  A header that is written
 over another in part is kept beside it here; `HeapBytes` has the bytes that the two share.
 */
module HeapMemory {
  import opened HeapModel

  /** A packed chunk header; 0 is the null pointer. */
  datatype Header = Header(prev: int, next: int, size: int, used: bool)

  type Memory = map<int, Header>

  ghost predicate Mapped(mem: Memory, grants: map<int, int>, chain: seq<int>)
  {
    forall i :: 0 <= i < |chain| ==> chain[i] in mem && chain[i] in grants
  }

  ghost function ChunkAt(mem: Memory, grants: map<int, int>, a: int): Chunk
    requires a in mem && a in grants
  {
    Chunk(a, mem[a].size, mem[a].used, mem[a].prev != 0, grants[a])
  }

  /** The list as a value. */
  ghost function View(mem: Memory, grants: map<int, int>, chain: seq<int>): (cs: seq<Chunk>)
    requires Mapped(mem, grants, chain)
    ensures |cs| == |chain|
  {
    seq(|chain|, i requires 0 <= i < |chain| => ChunkAt(mem, grants, chain[i]))
  }

  /** Header `i` points forward to the next one, which lies higher, and backward to the one
      before or nowhere. */
  ghost predicate NodeOk(mem: Memory, chain: seq<int>, i: nat)
  {
    && i < |chain|
    && chain[i] in mem
    && mem[chain[i]].next == (if i + 1 < |chain| then chain[i + 1] else 0)
    && (mem[chain[i]].prev == 0 || (i > 0 && mem[chain[i]].prev == chain[i - 1]))
    && (i + 1 < |chain| ==> chain[i] < chain[i + 1])
  }

  /** `chain` is what following `next` from the head visits, and every `prev` is null or the
      true predecessor. */
  ghost predicate Linked(mem: Memory, chain: seq<int>, head: int)
  {
    && chain != [] && chain[0] == head && head > 0
    && forall i: nat :: i < |chain| ==> NodeOk(mem, chain, i)
  }

  lemma {:induction false} ChainAscends(mem: Memory, chain: seq<int>, head: int, i: nat, j: nat)
    requires Linked(mem, chain, head) && i <= j < |chain|
    ensures chain[i] <= chain[j] && (i < j ==> chain[i] < chain[j])
    ensures 0 < chain[i]
    decreases j
  {
    if i < j {
      ChainAscends(mem, chain, head, i, j - 1);
      assert NodeOk(mem, chain, j - 1);
    } else if i > 0 {
      ChainAscends(mem, chain, head, 0, i - 1);
      assert NodeOk(mem, chain, i - 1);
    }
  }

  lemma ChainDistinct(mem: Memory, chain: seq<int>, head: int, i: nat)
    requires Linked(mem, chain, head) && i < |chain|
    ensures forall j :: 0 <= j < |chain| && j != i ==> chain[j] != chain[i]
    ensures 0 < chain[i]
  {
    ChainAscends(mem, chain, head, i, i);
    forall j | 0 <= j < |chain| && j != i
      ensures chain[j] != chain[i]
    {
      if j < i {
        ChainAscends(mem, chain, head, j, i);
      } else {
        ChainAscends(mem, chain, head, i, j);
      }
    }
  }

  // ---------- what one change of memory does to the list ----------

  lemma SetHeader(mem: Memory, grants: map<int, int>, chain: seq<int>, head: int, i: nat, h: Header, g: int)
    requires Linked(mem, chain, head) && Mapped(mem, grants, chain) && i < |chain|
    requires h.next == mem[chain[i]].next && h.prev == mem[chain[i]].prev
    ensures var m := mem[chain[i] := h]; var gs := grants[chain[i] := g];
            && Linked(m, chain, head) && Mapped(m, gs, chain)
            && View(m, gs, chain) ==
               View(mem, grants, chain)[i := Chunk(chain[i], h.size, h.used, h.prev != 0, g)]
  {
    var m := mem[chain[i] := h];
    ChainDistinct(mem, chain, head, i);
    forall j: nat | j < |chain|
      ensures NodeOk(m, chain, j)
    {
      assert NodeOk(mem, chain, j);
    }
  }

  /** The writes that append a header at `at`, in order. */
  function AppendMem(mem: Memory, last: int, at: int, req: int): Memory
    requires last in mem
  {
    var m1 := mem[at := Header(0, 0, 0, false)];
    var m2 := m1[last := m1[last].(next := at)];
    var m3 := m2[at := m2[at].(prev := last)];
    var m4 := m3[at := m3[at].(used := true)];
    m4[at := m4[at].(size := req)]
  }

  lemma AppendMemAt(mem: Memory, last: int, at: int, req: int)
    requires last in mem && last != at
    ensures AppendMem(mem, last, at, req) == mem[last := mem[last].(next := at)][at := Header(last, 0, req, true)]
  {
  }

  lemma AppendLinked(mem: Memory, chain: seq<int>, head: int, at: int, req: int)
    requires Linked(mem, chain, head)
    requires chain[|chain| - 1] in mem && chain[|chain| - 1] < at
    ensures Linked(AppendMem(mem, chain[|chain| - 1], at, req), chain + [at], head)
  {
    AppendMemAt(mem, chain[|chain| - 1], at, req);
    hide AppendMem;
    var m := AppendMem(mem, chain[|chain| - 1], at, req);
    var longer := chain + [at];
    forall j: nat | j < |longer|
      ensures NodeOk(m, longer, j)
    {
      if j < |chain| {
        ChainAscends(mem, chain, head, j, |chain| - 1);
        assert NodeOk(mem, chain, j);
      }
    }
  }

  lemma AppendView(mem: Memory, grants: map<int, int>, chain: seq<int>, head: int, at: int, req: int)
    requires Linked(mem, chain, head) && Mapped(mem, grants, chain)
    requires var last := chain[|chain| - 1]; last < at == last + mem[last].size
    ensures var m := AppendMem(mem, chain[|chain| - 1], at, req); var gs := grants[at := req];
            Mapped(m, gs, chain + [at]) && View(m, gs, chain + [at]) == Append(View(mem, grants, chain), req)
  {
    AppendMemAt(mem, chain[|chain| - 1], at, req);
    hide AppendMem;
    var m := AppendMem(mem, chain[|chain| - 1], at, req);
    var gs := grants[at := req];
    var longer := chain + [at];
    var w := Append(View(mem, grants, chain), req);
    ChainAscends(mem, chain, head, |chain| - 1, |chain| - 1);
    forall j | 0 <= j < |longer|
      ensures longer[j] in m && longer[j] in gs && ChunkAt(m, gs, longer[j]) == w[j]
    {
      if j < |chain| {
        ChainAscends(mem, chain, head, j, |chain| - 1);
        assert w[j] == ChunkAt(mem, grants, chain[j]);
      }
    }
  }

  ghost function SplitChain(chain: seq<int>, i: nat, req: int): seq<int>
    requires i + 1 < |chain|
  {
    chain[..i + 1] + [chain[i] + req] + chain[i + 1..]
  }

  /** The writes of the split of the hole at `ret`, in order.  When the request is empty the new
      header lies on `ret`, and the null page is written through `next`. */
  function SplitMem(mem: Memory, ret: int, req: int): Memory
    requires ret in mem
  {
    var unused := ret + req;
    var m1 := mem[ret := mem[ret].(used := true)];
    var m2 := m1[unused := Header(0, 0, 0, false)];
    var m3 := m2[unused := m2[unused].(size := m2[ret].next - ret - req)];
    var tmp := m3[ret].next;
    var m4 := m3[ret := m3[ret].(next := unused)];
    var m5 := if tmp in m4 then m4[tmp := m4[tmp].(prev := unused)] else m4;
    var m6 := m5[unused := m5[unused].(prev := ret)];
    m6[unused := m6[unused].(next := tmp)]
  }

  /** With the three headers apart, what the writes come to. */
  lemma SplitMemApart(mem: Memory, ret: int, req: int)
    requires ret in mem && mem[ret].next in mem && mem[ret].next != ret
    requires ret + req != ret && ret + req != mem[ret].next
    ensures var unused, tmp := ret + req, mem[ret].next;
            SplitMem(mem, ret, req) ==
            mem[ret := mem[ret].(used := true, next := unused)]
               [tmp := mem[tmp].(prev := unused)]
               [unused := Header(ret, tmp, tmp - ret - req, false)]
  {
  }

  lemma SplitMemAt(mem: Memory, chain: seq<int>, head: int, i: nat, req: int, k: nat)
    requires Linked(mem, chain, head) && i + 1 < |chain| && k < |chain|
    requires HEADER_SIZE <= req && chain[i] + req + HEADER_SIZE <= chain[i + 1]
    ensures chain[i] in mem && chain[i + 1] in mem && chain[k] in mem && chain[i] > 0
    ensures var m := SplitMem(mem, chain[i], req);
            && chain[k] != chain[i] + req && chain[k] in m
            && m[chain[k]] == (if k == i then mem[chain[k]].(used := true, next := chain[i] + req)
                               else if k == i + 1 then mem[chain[k]].(prev := chain[i] + req)
                               else mem[chain[k]])
            && chain[i] + req in m
            && m[chain[i] + req] == Header(chain[i], chain[i + 1], chain[i + 1] - chain[i] - req, false)
  {
    assert NodeOk(mem, chain, i) && NodeOk(mem, chain, i + 1) && NodeOk(mem, chain, k);
    ChainDistinct(mem, chain, head, k);
    ChainAscends(mem, chain, head, i, i + 1);
    SplitMemApart(mem, chain[i], req);
    hide SplitMem;
    if k <= i {
      ChainAscends(mem, chain, head, k, i);
    } else {
      ChainAscends(mem, chain, head, i + 1, k);
    }
  }

  lemma SplitLinked(mem: Memory, chain: seq<int>, head: int, i: nat, req: int)
    requires Linked(mem, chain, head) && i + 1 < |chain|
    requires HEADER_SIZE <= req && chain[i] + req + HEADER_SIZE <= chain[i + 1]
    ensures chain[i] in mem && chain[i + 1] in mem
    ensures Linked(SplitMem(mem, chain[i], req), SplitChain(chain, i, req), head)
  {
    SplitMemAt(mem, chain, head, i, req, i);
    hide SplitMem;
    var m, r := SplitMem(mem, chain[i], req), SplitChain(chain, i, req);
    forall j: nat | j < |r|
      ensures NodeOk(m, r, j)
    {
      if j == i + 1 {
        assert r[j] == chain[i] + req && r[j + 1] == chain[i + 1] && r[j - 1] == chain[i];
      } else {
        var k := if j <= i then j else j - 1;
        SplitMemAt(mem, chain, head, i, req, k);
        assert NodeOk(mem, chain, k) && r[j] == chain[k];
        assert j + 1 < |r| ==> r[j + 1] == if j == i then chain[i] + req else chain[k + 1];
        assert j > 0 ==> r[j - 1] == if j == i + 2 then chain[i] + req else chain[k - 1];
      }
    }
  }

  lemma SplitView(mem: Memory, grants: map<int, int>, chain: seq<int>, head: int, i: nat, req: int)
    requires Linked(mem, chain, head) && Mapped(mem, grants, chain) && i + 1 < |chain|
    requires HEADER_SIZE <= req && chain[i] + req + HEADER_SIZE <= chain[i + 1]
    ensures chain[i] in mem && chain[i + 1] in mem
    ensures var m := SplitMem(mem, chain[i], req); var r := SplitChain(chain, i, req);
            var gs := grants[chain[i] := req][chain[i] + req := 0];
            Mapped(m, gs, r) && View(m, gs, r) == SplitAt(View(mem, grants, chain), i, req)
  {
    SplitMemAt(mem, chain, head, i, req, i);
    hide SplitMem;
    var m, r := SplitMem(mem, chain[i], req), SplitChain(chain, i, req);
    var gs := grants[chain[i] := req][chain[i] + req := 0];
    var w := SplitAt(View(mem, grants, chain), i, req);
    ChainDistinct(mem, chain, head, i);
    forall j | 0 <= j < |r|
      ensures r[j] in m && r[j] in gs && ChunkAt(m, gs, r[j]) == w[j]
    {
      if j != i + 1 {
        var k := if j <= i then j else j - 1;
        SplitMemAt(mem, chain, head, i, req, k);
        assert r[j] == chain[k];
      }
    }
  }

  predicate LinkInside(mem: Memory, a: int)
  {
    a == 0 || a in mem
  }

  /** Memory after forward consolidation of `chunk` with its successor. */
  function ForwardMem(mem: Memory, chunk: int): Memory
    requires chunk in mem && mem[chunk].next in mem && LinkInside(mem, mem[mem[chunk].next].next)
    requires chunk != mem[chunk].next
  {
    var tmp := mem[chunk].next;
    var m1 := mem[chunk := mem[chunk].(next := mem[tmp].next)];
    var m2 := if m1[tmp].next != 0 then m1[m1[tmp].next := m1[m1[tmp].next].(prev := chunk)] else m1;
    m2[chunk := m2[chunk].(size := m2[chunk].size + m2[tmp].size + HEADER_SIZE)]
  }

  /** The headers around a consolidation, and what memory holds at every header after it. */
  lemma ForwardMemAt(mem: Memory, chain: seq<int>, head: int, i: nat, k: nat)
    requires Linked(mem, chain, head) && i + 1 < |chain| && k < |chain|
    ensures chain[i] in mem && chain[i + 1] in mem && mem[chain[i]].next == chain[i + 1] && chain[i + 1] > chain[i] > 0
    ensures LinkInside(mem, mem[chain[i + 1]].next)
    ensures var m := ForwardMem(mem, chain[i]);
            && chain[k] in mem && chain[k] in m
            && m[chain[k]] ==
               (if k == i then mem[chain[i]].(next := mem[chain[i + 1]].next,
                                              size := mem[chain[i]].size + mem[chain[i + 1]].size + HEADER_SIZE)
                else if k == i + 2 then mem[chain[k]].(prev := chain[i])
                else mem[chain[k]])
  {
    assert NodeOk(mem, chain, i) && NodeOk(mem, chain, i + 1) && NodeOk(mem, chain, k);
    ChainDistinct(mem, chain, head, k);
    ChainDistinct(mem, chain, head, i + 1);
    ChainAscends(mem, chain, head, i, i + 1);
    if i + 2 < |chain| {
      ChainDistinct(mem, chain, head, i + 2);
      assert NodeOk(mem, chain, i + 2);
    }
  }

  lemma ForwardLinked(mem: Memory, chain: seq<int>, head: int, i: nat)
    requires Linked(mem, chain, head) && i + 1 < |chain|
    ensures chain[i] in mem && chain[i + 1] in mem && mem[chain[i]].next == chain[i + 1] && chain[i + 1] > chain[i] > 0
    ensures LinkInside(mem, mem[chain[i + 1]].next)
    ensures Linked(ForwardMem(mem, chain[i]), RemoveAt(chain, i + 1), head)
  {
    ForwardMemAt(mem, chain, head, i, i);
    var m := ForwardMem(mem, chain[i]);
    var r := RemoveAt(chain, i + 1);
    forall j: nat | j < |r|
      ensures NodeOk(m, r, j)
    {
      var k := if j <= i then j else j + 1;
      ForwardMemAt(mem, chain, head, i, k);
      assert NodeOk(mem, chain, k) && NodeOk(mem, chain, i + 1);
      assert r[j] == chain[k];
      assert j > 0 ==> r[j - 1] == if j - 1 <= i then chain[j - 1] else chain[j];
    }
  }

  lemma ForwardView(mem: Memory, grants: map<int, int>, chain: seq<int>, head: int, i: nat)
    requires Linked(mem, chain, head) && Mapped(mem, grants, chain) && i + 1 < |chain|
    requires !mem[chain[i + 1]].used
    ensures chain[i] in mem && chain[i + 1] in mem && mem[chain[i]].next == chain[i + 1] && chain[i + 1] > chain[i] > 0
    ensures LinkInside(mem, mem[chain[i + 1]].next)
    ensures Mapped(ForwardMem(mem, chain[i]), grants, RemoveAt(chain, i + 1))
    ensures View(ForwardMem(mem, chain[i]), grants, RemoveAt(chain, i + 1)) ==
            MergeForward(View(mem, grants, chain), i)
  {
    ForwardMemAt(mem, chain, head, i, i);
    ChainAscends(mem, chain, head, i, i);
    var m, r := ForwardMem(mem, chain[i]), RemoveAt(chain, i + 1);
    var w := MergeForward(View(mem, grants, chain), i);
    assert |w| == |r|;
    forall j | 0 <= j < |r|
      ensures r[j] in m && r[j] in grants && ChunkAt(m, grants, r[j]) == w[j]
    {
      var k := if j <= i then j else j + 1;
      ForwardMemAt(mem, chain, head, i, k);
      assert r[j] == chain[k];
    }
  }

  /** Memory after backward consolidation of `chunk` with its predecessor. */
  function BackwardMem(mem: Memory, chunk: int): Memory
    requires chunk in mem && mem[chunk].prev in mem && LinkInside(mem, mem[mem[chunk].prev].prev)
    requires chunk != mem[chunk].prev
  {
    var tmp := mem[chunk].prev;
    var m1 := mem[chunk := mem[chunk].(prev := mem[tmp].prev)];
    var m2 := if m1[tmp].prev != 0 then m1[m1[tmp].prev := m1[m1[tmp].prev].(next := chunk)] else m1;
    m2[chunk := m2[chunk].(size := m2[chunk].size + m2[tmp].size + HEADER_SIZE)]
  }

  ghost function BackwardChain(mem: Memory, chain: seq<int>, i: nat): seq<int>
    requires 0 < i < |chain| && chain[i - 1] in mem
  {
    if mem[chain[i - 1]].prev != 0 then RemoveAt(chain, i - 1) else chain
  }

  lemma BackwardMemAt(mem: Memory, chain: seq<int>, head: int, i: nat, k: nat)
    requires Linked(mem, chain, head) && 0 < i < |chain| && k < |chain|
    requires chain[i] in mem && mem[chain[i]].prev != 0
    ensures chain[i - 1] in mem && mem[chain[i]].prev == chain[i - 1] != chain[i]
    ensures LinkInside(mem, mem[chain[i - 1]].prev)
    ensures var m := BackwardMem(mem, chain[i]); var before := mem[chain[i - 1]].prev;
            && (before != 0 ==> i >= 2 && before == chain[i - 2])
            && chain[k] in mem && chain[k] in m
            && m[chain[k]] ==
               (if k == i then mem[chain[i]].(prev := before,
                                              size := mem[chain[i]].size + mem[chain[i - 1]].size + HEADER_SIZE)
                else if k == i - 2 && before != 0 then mem[chain[k]].(next := chain[i])
                else mem[chain[k]])
  {
    assert NodeOk(mem, chain, i) && NodeOk(mem, chain, i - 1) && NodeOk(mem, chain, k);
    ChainDistinct(mem, chain, head, k);
    ChainDistinct(mem, chain, head, i);
    if i >= 2 {
      ChainDistinct(mem, chain, head, i - 2);
      assert NodeOk(mem, chain, i - 2);
    }
  }

  lemma BackwardLinked(mem: Memory, chain: seq<int>, head: int, i: nat)
    requires Linked(mem, chain, head) && 0 < i < |chain|
    requires chain[i] in mem && mem[chain[i]].prev != 0
    ensures chain[i - 1] in mem && mem[chain[i]].prev == chain[i - 1] != chain[i]
    ensures LinkInside(mem, mem[chain[i - 1]].prev)
    ensures Linked(BackwardMem(mem, chain[i]), BackwardChain(mem, chain, i), head)
  {
    BackwardMemAt(mem, chain, head, i, i);
    var m := BackwardMem(mem, chain[i]);
    var r := BackwardChain(mem, chain, i);
    ChainAscends(mem, chain, head, 0, i);
    forall j: nat | j < |r|
      ensures NodeOk(m, r, j)
    {
      var k := if |r| == |chain| || j < i - 1 then j else j + 1;
      BackwardMemAt(mem, chain, head, i, k);
      assert NodeOk(mem, chain, k) && NodeOk(mem, chain, i - 1);
      assert r[j] == chain[k];
      assert j > 0 ==> r[j - 1] == if |r| == |chain| || j < i then chain[j - 1] else chain[j];
      assert j + 1 < |r| ==> r[j + 1] == if |r| == |chain| || j + 1 < i - 1 then chain[j + 1] else chain[j + 2];
    }
  }

  lemma BackwardView(mem: Memory, grants: map<int, int>, chain: seq<int>, head: int, i: nat)
    requires Linked(mem, chain, head) && Mapped(mem, grants, chain) && 0 < i < |chain|
    requires mem[chain[i]].prev != 0 && !mem[chain[i - 1]].used
    ensures chain[i - 1] in mem && mem[chain[i]].prev == chain[i - 1] != chain[i]
    ensures LinkInside(mem, mem[chain[i - 1]].prev)
    ensures Mapped(BackwardMem(mem, chain[i]), grants, BackwardChain(mem, chain, i))
    ensures View(BackwardMem(mem, chain[i]), grants, BackwardChain(mem, chain, i)) ==
            MergeBackward(View(mem, grants, chain), i)
  {
    BackwardMemAt(mem, chain, head, i, i);
    var m, r := BackwardMem(mem, chain[i]), BackwardChain(mem, chain, i);
    var w := MergeBackward(View(mem, grants, chain), i);
    assert |w| == |r|;
    forall j | 0 <= j < |r|
      ensures r[j] in m && r[j] in grants && ChunkAt(m, grants, r[j]) == w[j]
    {
      var k := if |r| == |chain| || j < i - 1 then j else j + 1;
      BackwardMemAt(mem, chain, head, i, k);
      assert r[j] == chain[k];
    }
  }

  // ---------- is there a list in memory? ----------

  function NoGrants(mem: Memory): map<int, int>
  {
    map a | a in mem :: 0
  }

  /** `chain` is a list of headers from the head on, in order, with a usable last size, and `n`
      counts its chunks in use. */
  ghost predicate IsList(mem: Memory, chain: seq<int>, head: int, n: int)
  {
    && Linked(mem, chain, head)
    && Mapped(mem, NoGrants(mem), chain)
    && ChainInv(BigPool(View(mem, NoGrants(mem), chain), n), head)
  }

  ghost predicate HoldsList(mem: Memory, head: int, n: int)
  {
    exists chain :: IsList(mem, chain, head, n)
  }

  /** Following `next` in two memories that agree so far visits the same headers. */
  lemma {:induction false} WalkAgrees(mem: Memory, chain: seq<int>, m: Memory, other: seq<int>, head: int, i: nat)
    requires Linked(mem, chain, head) && Linked(m, other, head) && i < |chain|
    requires forall j :: 0 <= j < i ==> chain[j] in mem && chain[j] in m && m[chain[j]].next == mem[chain[j]].next
    ensures i < |other| && other[..i + 1] == chain[..i + 1]
  {
    if i > 0 {
      WalkAgrees(mem, chain, m, other, head, i - 1);
      assert other[i - 1] == other[..i][i - 1] == chain[..i][i - 1] == chain[i - 1];
      assert NodeOk(mem, chain, i - 1) && NodeOk(m, other, i - 1);
      ChainAscends(mem, chain, head, i, i);
      assert i < |other|;
      assert other[..i + 1] == other[..i] + [other[i]] && chain[..i + 1] == chain[..i] + [chain[i]];
    }
  }

  lemma OneChain(mem: Memory, chain: seq<int>, other: seq<int>, head: int)
    requires Linked(mem, chain, head) && Linked(mem, other, head)
    ensures chain == other
  {
    forall j | 0 <= j < |chain|
      ensures chain[j] in mem
    {
      assert NodeOk(mem, chain, j);
    }
    forall j | 0 <= j < |other|
      ensures other[j] in mem
    {
      assert NodeOk(mem, other, j);
    }
    WalkAgrees(mem, chain, mem, other, head, |chain| - 1);
    WalkAgrees(mem, other, mem, chain, head, |other| - 1);
    assert chain[..|chain|] == chain && other[..|other|] == other;
  }

  lemma {:induction false} SameMarksCount(cs: seq<Chunk>, ds: seq<Chunk>)
    requires |cs| == |ds| && forall i :: 0 <= i < |cs| ==> cs[i].used == ds[i].used
    ensures CountUsed(cs) == CountUsed(ds)
  {
    if cs != [] {
      SameMarksCount(cs[..|cs| - 1], ds[..|ds| - 1]);
    }
  }

  /** Whether a chain is a list does not depend on what was granted. */
  lemma GrantsDoNotMatter(mem: Memory, grants: map<int, int>, chain: seq<int>, head: int, n: int)
    requires Linked(mem, chain, head) && Mapped(mem, grants, chain)
    ensures IsList(mem, chain, head, n) <==> ChainInv(BigPool(View(mem, grants, chain), n), head)
  {
    var cs, ds := View(mem, grants, chain), View(mem, NoGrants(mem), chain);
    SameMarksCount(cs, ds);
    assert forall i, j :: Below(cs, i, j) <==> Below(ds, i, j);
  }

  /** A chain in memory is the only one, so memory holds a list exactly when that chain is one. */
  lemma HoldsExactlyWhen(mem: Memory, grants: map<int, int>, chain: seq<int>, head: int, n: int)
    requires Linked(mem, chain, head) && Mapped(mem, grants, chain)
    ensures HoldsList(mem, head, n) <==> ChainInv(BigPool(View(mem, grants, chain), n), head)
  {
    GrantsDoNotMatter(mem, grants, chain, head, n);
    forall other | IsList(mem, other, head, n)
      ensures IsList(mem, chain, head, n)
    {
      OneChain(mem, chain, other, head);
    }
  }

  // ---------- a split without room ----------

  /** Where `next` leads after a split of any size. */
  lemma SplitNext(mem: Memory, ret: int, tmp: int, req: int, a: int)
    requires ret in mem && mem[ret].next == tmp && tmp in mem && 0 < ret < tmp && 0 <= req
    ensures var m := SplitMem(mem, ret, req);
            && ret in m && m[ret].next == (if req == 0 then 0 else ret + req)
            && (req == 0 ==> !m[ret].used)
            && (req != 0 ==> ret + req in m && m[ret + req].next == tmp)
            && (a in mem && a !in {0, ret, tmp, ret + req} ==> a in m && m[a] == mem[a])
  {
  }

  /** What of `m` decides that a split left no list there: where `next` leads from the hole and
      from the new header, and that the headers below the hole are as they were. */
  ghost predicate Overlaid(mem: Memory, chain: seq<int>, i: nat, req: int, m: Memory)
    requires i + 1 < |chain|
  {
    var ret := chain[i];
    && ret in m && m[ret].next == (if req == 0 then 0 else ret + req)
    && (req == 0 ==> !m[ret].used)
    && (req != 0 ==> ret + req in m && m[ret + req].next == chain[i + 1])
    && forall j :: 0 <= j < i ==> chain[j] in mem && chain[j] in m && m[chain[j]] == mem[chain[j]]
  }

  /** Main result: after a split without room no list is left in memory.  An empty request cuts
      the list off at the hole, with one use too many counted; a longer one leads to a header
      less than 13 bytes behind another, or to one that is its own successor. */
  lemma OverlaidHoldsNoList(mem: Memory, grants: map<int, int>, chain: seq<int>, head: int, i: nat, req: int, n: int)
    requires Linked(mem, chain, head) && Mapped(mem, grants, chain)
    requires ChainInv(BigPool(View(mem, grants, chain), n), head)
    requires IsHole(View(mem, grants, chain), i, req) && 0 <= req
    requires !RoomToSplit(View(mem, grants, chain), i, req)
    ensures chain[i] in mem && !HoldsList(SplitMem(mem, chain[i], req), head, n + 1)
  {
    var cs := View(mem, grants, chain);
    var ret, tmp := chain[i], chain[i + 1];
    assert NodeOk(mem, chain, i) && NodeOk(mem, chain, i + 1) && Below(cs, i, i + 1);
    ChainAscends(mem, chain, head, i, i + 1);
    SplitNext(mem, ret, tmp, req, 0);
    var m := SplitMem(mem, ret, req);
    forall j | 0 <= j < i
      ensures chain[j] in mem && chain[j] in m && m[chain[j]] == mem[chain[j]]
    {
      assert NodeOk(mem, chain, j);
      ChainAscends(mem, chain, head, j, i);
      ChainDistinct(mem, chain, head, j);
      SplitNext(mem, ret, tmp, req, chain[j]);
    }
    OverlaidLeavesNone(mem, grants, chain, head, i, req, n, m);
  }

  lemma OverlaidLeavesNone(
    mem: Memory, grants: map<int, int>, chain: seq<int>, head: int, i: nat, req: int, n: int, m: Memory)
    requires Linked(mem, chain, head) && Mapped(mem, grants, chain)
    requires ChainInv(BigPool(View(mem, grants, chain), n), head)
    requires i + 1 < |chain| && 0 <= req && !RoomToSplit(View(mem, grants, chain), i, req)
    requires Overlaid(mem, chain, i, req, m)
    ensures !HoldsList(m, head, n + 1)
  {
    var cs := View(mem, grants, chain);
    assert Below(cs, i, i + 1);
    ChainAscends(mem, chain, head, i, i);
    if HoldsList(m, head, n + 1) {
      var other :| IsList(m, other, head, n + 1);
      OverlaidChain(mem, grants, chain, head, i, req, n, m, other);
    }
  }

  lemma OverlaidChain(mem: Memory, grants: map<int, int>, chain: seq<int>, head: int, i: nat, req: int, n: int,
                      m: Memory, other: seq<int>)
    requires Linked(mem, chain, head) && Mapped(mem, grants, chain) && i + 1 < |chain| && 0 <= req
    requires ChainInv(BigPool(View(mem, grants, chain), n), head)
    requires chain[i] in mem && 0 < chain[i] && chain[i] + HEADER_SIZE <= chain[i + 1]
    requires !(HEADER_SIZE <= req && chain[i] + req + HEADER_SIZE <= chain[i + 1])
    requires Overlaid(mem, chain, i, req, m)
    ensures !IsList(m, other, head, n + 1)
  {
    if !Linked(m, other, head) || !Mapped(m, NoGrants(m), other) {
      return;
    }
    WalkAgrees(mem, chain, m, other, head, i);
    assert other[i] == other[..i + 1][i] == chain[..i + 1][i] == chain[i];
    var cs := View(m, NoGrants(m), other);
    assert NodeOk(m, other, i);
    if req == 0 {
      assert |other| == i + 1;
      CutOffCount(mem, grants, chain, m, other, i);
    } else {
      assert other[i + 1] == chain[i] + req;
      assert NodeOk(m, other, i + 1);
      assert other[i + 2] == chain[i + 1];
      assert !Below(cs, i, i + 1) || !Below(cs, i + 1, i + 2);
    }
  }

  /** What is left of a list that is cut off behind an unused header has no more in use. */
  lemma CutOffCount(mem: Memory, grants: map<int, int>, chain: seq<int>, m: Memory, other: seq<int>, i: nat)
    requires Mapped(mem, grants, chain) && Mapped(m, NoGrants(m), other) && i < |chain| && |other| == i + 1
    requires other[..i + 1] == chain[..i + 1] && !m[chain[i]].used
    requires forall j :: 0 <= j < i ==> m[chain[j]] == mem[chain[j]]
    ensures CountUsed(View(m, NoGrants(m), other)) <= CountUsed(View(mem, grants, chain))
  {
    var cs, ds := View(mem, grants, chain), View(m, NoGrants(m), other);
    forall j | 0 <= j <= i
      ensures other[j] == chain[j]
    {
      assert other[j] == other[..i + 1][j];
    }
    SameMarksCount(cs[..i], ds[..i]);
    CountUsedConcat(cs[..i], cs[i..]);
    assert cs == cs[..i] + cs[i..];
  }
}
