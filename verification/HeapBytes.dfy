/**
 The split of a hole on the bytes of memory.

 A header is 13 bytes, packed: the words `prev`, `next` and `size`, and the byte `used`.  Headers
 may overlap here in any way, so this is what the split does where it has no room.
 */
module HeapBytes {
  import opened Basics
  import opened Bytes
  import opened HeapModel
  import opened HeapMemory

  const PREV: int := 0
  const NEXT: int := 4
  const SIZE: int := 8
  const USED: int := 12

  function ReadWord(b: seq<Byte>, a: nat): nat
    requires a + 4 <= |b|
  {
    FromWord(b[a], b[a + 1], b[a + 2], b[a + 3])
  }

  function PutWord(b: seq<Byte>, a: nat, v: nat): (r: seq<Byte>)
    requires a + 4 <= |b|
    ensures |r| == |b|
  {
    Splice(b, a, Word(v))
  }

  /** What the processor reads of the header at `a`. */
  function HeaderAt(b: seq<Byte>, a: nat): Header
    requires a + HEADER_SIZE <= |b|
  {
    Header(ReadWord(b, a + PREV), ReadWord(b, a + NEXT), ReadWord(b, a + SIZE), b[a + USED] != 0)
  }

  /** Every address read as a header, whatever else lies there. */
  function Headers(b: seq<Byte>): Memory
  {
    map a: nat | 0 <= a <= |b| - HEADER_SIZE :: HeaderAt(b, a)
  }

  lemma PutWordReads(b: seq<Byte>, a: nat, v: nat, c: nat)
    requires a + 4 <= |b| && c + 4 <= |b| && v < UINT32
    requires c == a || c + 4 <= a || a + 4 <= c
    ensures ReadWord(PutWord(b, a, v), c) == if c == a then v else ReadWord(b, c)
  {
    hide Word;
    var r := PutWord(b, a, v);
    forall k | 0 <= k < 4
      ensures r[c + k] == if c == a then Word(v)[k] else b[c + k]
    {
      SpliceAt(b, a, Word(v), c + k);
    }
    WordIsUnique(v, r[c], r[c + 1], r[c + 2], r[c + 3]);
    if c == a {
      assert [r[c], r[c + 1], r[c + 2], r[c + 3]] == Word(v);
    } else {
      assert [r[c], r[c + 1], r[c + 2], r[c + 3]] == [b[c], b[c + 1], b[c + 2], b[c + 3]];
    }
  }

  lemma PutWordKeeps(b: seq<Byte>, a: nat, v: nat, k: nat)
    requires a + 4 <= |b| && k < |b|
    requires k < a || a + 4 <= k
    ensures PutWord(b, a, v)[k] == b[k]
  {
    SpliceAt(b, a, Word(v), k);
  }

  // ---------- the split ----------

  /** A header of zeros. */
  function Cleared(): (r: seq<Byte>)
    ensures |r| == HEADER_SIZE
    ensures forall k :: 0 <= k < HEADER_SIZE ==> r[k] == 0
  {
    seq(HEADER_SIZE, _ => 0)
  }

  /** What a hole has left behind the request, in unsigned 32-bit arithmetic. */
  function LeftOver(next: nat, unused: nat): (r: nat)
    ensures r < UINT32
  {
    (next - unused) % UINT32
  }

  /** The new header is cleared and given what is left of the hole. */
  function ClearBytes(b: seq<Byte>, ret: nat, unused: nat): (r: seq<Byte>)
    requires ret <= unused && unused + HEADER_SIZE <= |b|
    ensures |r| == |b|
  {
    var b1 := b[ret + USED := 1];
    var b2 := Splice(b1, unused, Cleared());
    PutWord(b2, unused + SIZE, LeftOver(ReadWord(b2, ret + NEXT), unused))
  }

  /** The new header is linked between the hole and the chunk that was next. */
  function LinkBytes(b: seq<Byte>, ret: nat, unused: nat, tmp: nat): (r: seq<Byte>)
    requires ret <= unused && unused + HEADER_SIZE <= |b| && tmp + 4 <= |b|
    ensures |r| == |b|
  {
    var b1 := PutWord(b, ret + NEXT, unused);
    var b2 := PutWord(b1, tmp + PREV, unused);
    var b3 := PutWord(b2, unused + PREV, ret);
    PutWord(b3, unused + NEXT, tmp)
  }

  /** The writes of the split, in order.  A successor that cannot be written to, as it lies at
      the end of memory, has none in a list. */
  function SplitBytes(b: seq<Byte>, ret: nat, req: nat): (r: seq<Byte>)
    requires ret + req + HEADER_SIZE <= |b|
    ensures |r| == |b|
  {
    var cleared := ClearBytes(b, ret, ret + req);
    var tmp := ReadWord(cleared, ret + NEXT);
    if tmp + 4 <= |b| then LinkBytes(cleared, ret, ret + req, tmp) else cleared
  }

  /** Before `next` is read, clearing has reached it only if the new header lies on the hole. */
  lemma ClearBytesAt(b: seq<Byte>, ret: nat, unused: nat, k: nat)
    requires ret <= unused && unused + HEADER_SIZE <= |b| && k < |b|
    ensures var r := ClearBytes(b, ret, unused);
            && (unused == ret ==> ReadWord(r, ret + NEXT) == 0)
            && (unused >= ret + SIZE ==> ReadWord(r, ret + NEXT) == ReadWord(b, ret + NEXT))
            && (k < ret ==> r[k] == b[k])
  {
    hide PutWord, Splice, ReadWord, LeftOver;
    var b1 := b[ret + USED := 1];
    var zeros := Cleared();
    var b2 := Splice(b1, unused, zeros);
    var size := LeftOver(ReadWord(b2, ret + NEXT), unused);
    assert ClearBytes(b, ret, unused) == PutWord(b2, unused + SIZE, size);
    PutWordReads(b2, unused + SIZE, size, ret + NEXT);
    ClearedNext(b, ret, unused, b2);
    if k < ret {
      PutWordKeeps(b2, unused + SIZE, size, k);
      SpliceAt(b1, unused, zeros, k);
    }
  }

  lemma ClearedNext(b: seq<Byte>, ret: nat, unused: nat, b2: seq<Byte>)
    requires ret <= unused && unused + HEADER_SIZE <= |b|
    requires b2 == Splice(b[ret + USED := 1], unused, Cleared())
    ensures unused == ret ==> ReadWord(b2, ret + NEXT) == 0
    ensures unused >= ret + SIZE ==> ReadWord(b2, ret + NEXT) == ReadWord(b, ret + NEXT)
  {
    hide Splice;
    var b1, at := b[ret + USED := 1], ret + NEXT;
    SpliceAt(b1, unused, Cleared(), at);
    SpliceAt(b1, unused, Cleared(), at + 1);
    SpliceAt(b1, unused, Cleared(), at + 2);
    SpliceAt(b1, unused, Cleared(), at + 3);
  }

  lemma ClearedUsed(b: seq<Byte>, ret: nat)
    requires ret + HEADER_SIZE <= |b|
    ensures ClearBytes(b, ret, ret)[ret + USED] == 0
  {
    hide PutWord, Splice, ReadWord;
    var b1 := b[ret + USED := 1];
    var b2 := Splice(b1, ret, Cleared());
    PutWordKeeps(b2, ret + SIZE, LeftOver(ReadWord(b2, ret + NEXT), ret), ret + USED);
    SpliceAt(b1, ret, Cleared(), ret + USED);
  }

  lemma LinkBytesAt(b: seq<Byte>, ret: nat, unused: nat, tmp: nat, k: nat)
    requires |b| <= UINT32 && unused + HEADER_SIZE <= |b| && tmp + 4 <= |b| && k < |b|
    requires (unused == ret && tmp == 0 && ret >= 4) || (ret + SIZE <= unused && ret + HEADER_SIZE <= tmp)
    ensures var r := LinkBytes(b, ret, unused, tmp);
            && ReadWord(r, ret + NEXT) == (if unused == ret then 0 else unused)
            && ReadWord(r, unused + NEXT) == tmp
            && (4 <= k < ret || (unused == ret && k == ret + USED) ==> r[k] == b[k])
  {
    hide PutWord, ReadWord;
    var b1 := PutWord(b, ret + NEXT, unused);
    var b2 := PutWord(b1, tmp + PREV, unused);
    var b3 := PutWord(b2, unused + PREV, ret);
    PutWordReads(b3, unused + NEXT, tmp, unused + NEXT);
    if unused != ret {
      PutWordReads(b, ret + NEXT, unused, ret + NEXT);
      PutWordReads(b1, tmp + PREV, unused, ret + NEXT);
      PutWordReads(b2, unused + PREV, ret, ret + NEXT);
      PutWordReads(b3, unused + NEXT, tmp, ret + NEXT);
    }
    if 4 <= k < ret || (unused == ret && k == ret + USED) {
      PutWordKeeps(b, ret + NEXT, unused, k);
      PutWordKeeps(b1, tmp + PREV, unused, k);
      PutWordKeeps(b2, unused + PREV, ret, k);
      PutWordKeeps(b3, unused + NEXT, tmp, k);
    }
  }

  lemma SplitBytesAt(b: seq<Byte>, ret: nat, req: nat, tmp: nat, k: nat)
    requires |b| <= UINT32 && 4 <= ret && ret + HEADER_SIZE <= tmp && tmp + HEADER_SIZE <= |b| && k < |b|
    requires ReadWord(b, ret + NEXT) == tmp && req <= tmp - ret && req % CHUNK_SIZE_ALIGN == 0
    ensures var r := SplitBytes(b, ret, req);
            && ReadWord(r, ret + NEXT) == (if req == 0 then 0 else ret + req)
            && (req == 0 ==> r[ret + USED] == 0)
            && (req != 0 ==> ReadWord(r, ret + req + NEXT) == tmp)
            && (4 <= k < ret ==> r[k] == b[k])
  {
    hide ClearBytes, LinkBytes, ReadWord;
    ClearBytesAt(b, ret, ret + req, k);
    var next := if req == 0 then 0 else tmp;
    LinkBytesAt(ClearBytes(b, ret, ret + req), ret, ret + req, next, k);
    if req == 0 {
      ClearedUsed(b, ret);
      LinkBytesAt(ClearBytes(b, ret, ret), ret, ret, 0, ret + USED);
    }
  }

  /** Main result: byte for byte, a split without room leaves no list that `next` leads through,
      whatever two headers share.  Requests are multiples of 8. */
  lemma OverlaidBytesHoldNoList(
    b: seq<Byte>, grants: map<int, int>, chain: seq<int>, head: int, i: nat, req: nat, n: int)
    requires |b| <= UINT32 && 4 <= head && req % CHUNK_SIZE_ALIGN == 0
    requires Linked(Headers(b), chain, head) && Mapped(Headers(b), grants, chain)
    requires ChainInv(BigPool(View(Headers(b), grants, chain), n), head)
    requires IsHole(View(Headers(b), grants, chain), i, req)
    requires !RoomToSplit(View(Headers(b), grants, chain), i, req)
    ensures 0 <= chain[i] && chain[i] + req + HEADER_SIZE <= |b|
    ensures !HoldsList(Headers(SplitBytes(b, chain[i], req)), head, n + 1)
  {
    hide SplitBytes, ReadWord;
    var mem := Headers(b);
    var cs := View(mem, grants, chain);
    var ret, tmp := chain[i], chain[i + 1];
    assert NodeOk(mem, chain, 0) && NodeOk(mem, chain, i) && NodeOk(mem, chain, i + 1) && Below(cs, i, i + 1);
    ChainAscends(mem, chain, head, 0, i);
    SplitBytesAt(b, ret, req, tmp, 0);
    var m := Headers(SplitBytes(b, ret, req));
    forall j | 0 <= j < i
      ensures chain[j] in mem && chain[j] in m && m[chain[j]] == mem[chain[j]]
    {
      assert NodeOk(mem, chain, j) && Below(cs, j, i);
      ChainAscends(mem, chain, head, 0, j);
      HeaderBelowSplit(b, ret, req, tmp, chain[j]);
    }
    OverlaidLeavesNone(mem, grants, chain, head, i, req, n, m);
  }

  lemma HeaderBelowSplit(b: seq<Byte>, ret: nat, req: nat, tmp: nat, a: nat)
    requires |b| <= UINT32 && 4 <= a && a + HEADER_SIZE <= ret && ret + HEADER_SIZE <= tmp
    requires tmp + HEADER_SIZE <= |b|
    requires ReadWord(b, ret + NEXT) == tmp && req <= tmp - ret && req % CHUNK_SIZE_ALIGN == 0
    ensures HeaderAt(SplitBytes(b, ret, req), a) == HeaderAt(b, a)
  {
    hide SplitBytes;
    forall k | a <= k < a + HEADER_SIZE
      ensures SplitBytes(b, ret, req)[k] == b[k]
    {
      SplitBytesAt(b, ret, req, tmp, k);
    }
  }

  // ---------- with room ----------

  /** A word that no write of the split meets in part, with room for the new header. */
  lemma RoomyWord(b: seq<Byte>, ret: nat, req: nat, tmp: nat, c: nat)
    requires |b| <= UINT32 && tmp + HEADER_SIZE <= |b| && HEADER_SIZE <= req && ret + req + HEADER_SIZE <= tmp
    requires ReadWord(b, ret + NEXT) == tmp
    requires c + 4 <= |b| && (c + 4 <= ret + USED || ret + HEADER_SIZE <= c)
    requires var unused := ret + req;
             && (c + 4 <= unused || unused + HEADER_SIZE <= c || c in {unused, unused + NEXT, unused + SIZE})
             && (c == ret + NEXT || c + 4 <= ret + NEXT || ret + SIZE <= c)
             && (c == tmp || c + 4 <= tmp || tmp + 4 <= c)
    ensures ReadWord(SplitBytes(b, ret, req), c) ==
            if c == ret + NEXT || c == tmp then ret + req
            else if c == ret + req then ret
            else if c == ret + req + NEXT then tmp
            else if c == ret + req + SIZE then tmp - ret - req
            else ReadWord(b, c)
  {
    hide PutWord, ReadWord, LinkBytes, Splice;
    var unused := ret + req;
    var b1 := b[ret + USED := 1];
    var b2 := Splice(b1, unused, Cleared());
    var cleared := ClearBytes(b, ret, unused);
    RoomyClear(b, ret, unused, c, b2);
    RoomyClear(b, ret, unused, ret + NEXT, b2);
    PutWordReads(b2, unused + SIZE, LeftOver(tmp, unused), c);
    ClearBytesAt(b, ret, unused, 0);
    LinkWord(cleared, ret, unused, tmp, c);
  }

  lemma RoomyClear(b: seq<Byte>, ret: nat, unused: nat, c: nat, b2: seq<Byte>)
    requires ret + HEADER_SIZE <= unused && unused + HEADER_SIZE <= |b| && c + 4 <= |b|
    requires b2 == Splice(b[ret + USED := 1], unused, Cleared())
    requires c + 4 <= ret + USED || ret + HEADER_SIZE <= c
    ensures c + 4 <= unused || unused + HEADER_SIZE <= c ==> ReadWord(b2, c) == ReadWord(b, c)
  {
    hide FromWord;
  }

  lemma LinkWord(b: seq<Byte>, ret: nat, unused: nat, tmp: nat, c: nat)
    requires |b| <= UINT32 && ret + HEADER_SIZE <= unused && unused + HEADER_SIZE <= tmp && tmp + 4 <= |b|
    requires c + 4 <= |b|
    requires c == ret + NEXT || c + 4 <= ret + NEXT || ret + SIZE <= c
    requires c == tmp || c + 4 <= tmp || tmp + 4 <= c
    requires c in {unused, unused + NEXT} || c + 4 <= unused || unused + SIZE <= c
    ensures ReadWord(LinkBytes(b, ret, unused, tmp), c) ==
            if c == ret + NEXT || c == tmp then unused
            else if c == unused then ret
            else if c == unused + NEXT then tmp
            else ReadWord(b, c)
  {
    hide PutWord, ReadWord;
    var b1 := PutWord(b, ret + NEXT, unused);
    var b2 := PutWord(b1, tmp + PREV, unused);
    var b3 := PutWord(b2, unused + PREV, ret);
    PutWordReads(b, ret + NEXT, unused, c);
    PutWordReads(b1, tmp + PREV, unused, c);
    PutWordReads(b2, unused + PREV, ret, c);
    PutWordReads(b3, unused + NEXT, tmp, c);
  }

  lemma RoomyUsed(b: seq<Byte>, ret: nat, req: nat, tmp: nat, a: nat)
    requires |b| <= UINT32 && tmp + HEADER_SIZE <= |b| && HEADER_SIZE <= req && ret + req + HEADER_SIZE <= tmp
    requires ReadWord(b, ret + NEXT) == tmp && a + HEADER_SIZE <= |b|
    requires AtOrApart(a, ret) && AtOrApart(a, ret + req) && AtOrApart(a, tmp)
    ensures SplitBytes(b, ret, req)[a + USED] ==
            if a == ret then 1 else if a == ret + req then 0 else b[a + USED]
  {
    hide PutWord, ReadWord, Splice;
    var unused, k := ret + req, a + USED;
    var b1 := b[ret + USED := 1];
    var b2 := Splice(b1, unused, Cleared());
    var size := LeftOver(ReadWord(b2, ret + NEXT), unused);
    SpliceAt(b1, unused, Cleared(), k);
    PutWordKeeps(b2, unused + SIZE, size, k);
    ClearBytesAt(b, ret, unused, 0);
    var c := ClearBytes(b, ret, unused);
    var l1 := PutWord(c, ret + NEXT, unused);
    var l2 := PutWord(l1, tmp + PREV, unused);
    var l3 := PutWord(l2, unused + PREV, ret);
    PutWordKeeps(c, ret + NEXT, unused, k);
    PutWordKeeps(l1, tmp + PREV, unused, k);
    PutWordKeeps(l2, unused + PREV, ret, k);
    PutWordKeeps(l3, unused + NEXT, tmp, k);
  }

  predicate AtOrApart(a: int, b: int)
  {
    a == b || a + HEADER_SIZE <= b || b + HEADER_SIZE <= a
  }

  /** With room the split's bytes are the three headers of the split, and no other header that
      lies apart from them changes: headers may be taken one by one. */
  lemma RoomySplit(b: seq<Byte>, ret: nat, req: nat, tmp: nat, a: nat)
    requires |b| <= UINT32 && tmp + HEADER_SIZE <= |b| && HEADER_SIZE <= req && ret + req + HEADER_SIZE <= tmp
    requires ReadWord(b, ret + NEXT) == tmp && a + HEADER_SIZE <= |b|
    requires AtOrApart(a, ret) && AtOrApart(a, ret + req) && AtOrApart(a, tmp)
    ensures var m := SplitMem(Headers(b), ret, req);
            a in m && HeaderAt(SplitBytes(b, ret, req), a) == m[a]
  {
    hide SplitBytes, ReadWord;
    RoomyWord(b, ret, req, tmp, a + PREV);
    RoomyWord(b, ret, req, tmp, a + NEXT);
    RoomyWord(b, ret, req, tmp, a + SIZE);
    RoomyUsed(b, ret, req, tmp, a);
    SplitMemApart(Headers(b), ret, req);
    hide SplitMem;
  }

  /** Every request `malloc` passes on is a multiple of 8. */
  lemma RequestAligned(size: nat)
    ensures BigRequest(size) % CHUNK_SIZE_ALIGN == 0
  {
    hide AlignVal;
    var aligned := AlignVal((size + HEADER_SIZE) % UINT32, CHUNK_SIZE_ALIGN);
    assert aligned == CHUNK_SIZE_ALIGN * (aligned / CHUNK_SIZE_ALIGN);
    assert aligned < UINT32 + CHUNK_SIZE_ALIGN;
  }
}
