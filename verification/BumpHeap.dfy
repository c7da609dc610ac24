/** The primitive heap: a pointer that only moves up. */
module BumpHeap {

  const PAGE_SIZE: int := 0x1000

  /** Clear the low 12 bits and add a page, unless the address is aligned already. */
  function AlignUp(top: int): int
  {
    if top % PAGE_SIZE == 0 then top else top - top % PAGE_SIZE + PAGE_SIZE
  }

  lemma AlignUpIsLeast(top: int)
    ensures AlignUp(top) % PAGE_SIZE == 0 && top <= AlignUp(top)
    ensures forall a :: a % PAGE_SIZE == 0 && top <= a ==> AlignUp(top) <= a
  {
  }

  datatype Request = Request(bytes: nat, aligned: bool)

  function Place(top: int, r: Request): int
  {
    if r.aligned then AlignUp(top) else top
  }

  /** Where each of a list of requests is placed. */
  function Places(top: int, rs: seq<Request>): (ps: seq<int>)
    ensures |ps| == |rs|
    decreases rs
  {
    if rs == [] then [] else [Place(top, rs[0])] + Places(Place(top, rs[0]) + rs[0].bytes, rs[1..])
  }

  lemma {:induction false} PlacesAbove(top: int, rs: seq<Request>, i: nat)
    requires i < |rs|
    ensures top <= Places(top, rs)[i]
    ensures rs[i].aligned ==> Places(top, rs)[i] % PAGE_SIZE == 0
    decreases rs
  {
    AlignUpIsLeast(top);
    if i > 0 {
      PlacesAbove(Place(top, rs[0]) + rs[0].bytes, rs[1..], i - 1);
    }
  }

  /** No two allocations share a byte. */
  lemma {:induction false} AllocationsAreDisjoint(top: int, rs: seq<Request>, i: nat, j: nat)
    requires i < j < |rs|
    ensures Places(top, rs)[i] + rs[i].bytes <= Places(top, rs)[j]
    decreases rs
  {
    var next := Place(top, rs[0]) + rs[0].bytes;
    if i == 0 {
      PlacesAbove(next, rs[1..], j - 1);
    } else {
      AllocationsAreDisjoint(next, rs[1..], i - 1, j - 1);
    }
  }

  /** Nothing is skipped: each allocation has the least address from the end of the one before,
      or from the start, that is aligned as asked. */
  lemma {:induction false} PlacesAreLeast(top: int, rs: seq<Request>, i: nat, a: int)
    requires i < |rs| && (rs[i].aligned ==> a % 0x1000 == 0)
    requires a >= if i == 0 then top else Places(top, rs)[i - 1] + rs[i - 1].bytes
    ensures Places(top, rs)[i] <= a
    decreases rs
  {
    if i == 0 {
      AlignUpIsLeast(top);
    } else {
      PlacesAreLeast(Place(top, rs[0]) + rs[0].bytes, rs[1..], i - 1, a);
    }
  }

  class PrimitiveHeap {
    var top: int

    constructor (end: int)
      ensures top == end
    {
      top := end;
    }

    /** `phys` is what the source stores through its pointer argument. */
    method AllocateWPointer(n: nat, aligned: bool) returns (addr: int, phys: int)
      modifies this
      ensures addr == Place(old(top), Request(n, aligned)) && phys == addr
      ensures if aligned then addr % 0x1000 == 0 && old(top) <= addr < old(top) + 0x1000 else addr == old(top)
      ensures top == addr + n
    {
      if aligned {
        if top % PAGE_SIZE != 0 {
          top := top - top % PAGE_SIZE;
          top := top + PAGE_SIZE;
        }
      }
      phys := top;
      addr := top;
      top := top + n;
    }

    method Allocate(n: nat, aligned: bool) returns (addr: int)
      modifies this
      ensures addr == Place(old(top), Request(n, aligned))
      ensures top == addr + n
    {
      var phys;
      addr, phys := AllocateWPointer(n, aligned);
    }
  }
}
