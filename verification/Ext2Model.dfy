/**
 Formatting, mounting and creating files in a store of 512-byte blocks with its superblock in
 block 1.
 */
module Ext2Model {
  import opened Basics
  import opened Bytes

  const BLOCK: int := 512
  const INODE_SIZE: int := 128
  const MAX_FILES: int := 1024
  const NAME_SIZE: int := 256
  const FILENAME_LENGTH: int := 512
  const ENTRY_SIZE: int := 260
  const CACHE_BYTES: int := MAX_FILES * ENTRY_SIZE
  const SUPER_BLOCK: int := 1
  const GROUP_INODES: int := BLOCK
  const DISK_BLOCKS: int := 272

  function Zeros(n: nat): seq<Byte>
  {
    seq(n, _ => 0)
  }

  // ---------- blocks of 512 bytes ----------

  function Block(d: seq<Byte>, b: nat): seq<Byte>
    requires BLOCK * (b + 1) <= |d|
  {
    d[BLOCK * b..BLOCK * (b + 1)]
  }

  function SetBlock(d: seq<Byte>, b: nat, data: seq<Byte>): (r: seq<Byte>)
    requires BLOCK * (b + 1) <= |d| && |data| == BLOCK
    ensures |r| == |d|
  {
    Splice(d, BLOCK * b, data)
  }

  lemma SetBlockReads(d: seq<Byte>, b: nat, data: seq<Byte>, c: nat)
    requires BLOCK * (b + 1) <= |d| && |data| == BLOCK && BLOCK * (c + 1) <= |d|
    ensures Block(SetBlock(d, b, data), c) == if c == b then data else Block(d, c)
  {
    if c == b {
      SpliceReads(d, BLOCK * b, data);
    } else {
      SpliceApart(d, BLOCK * b, data, BLOCK * c, BLOCK * (c + 1));
    }
  }

  lemma SetBlockSame(d: seq<Byte>, b: nat)
    requires BLOCK * (b + 1) <= |d|
    ensures SetBlock(d, b, Block(d, b)) == d
  {
    SpliceSame(d, BLOCK * b, BLOCK);
  }

  /** An object at the start of a block of zeros. */
  function Padded(obj: seq<Byte>): (r: seq<Byte>)
    requires |obj| <= BLOCK
    ensures |r| == BLOCK
  {
    obj + Zeros(BLOCK - |obj|)
  }

  // ---------- group descriptors ----------

  /** The fields are 4, 4, 4, 2, 2 and 2 bits wide. */
  datatype GroupDescriptor = GroupDescriptor(
    blockBitmap: int, inodeBitmap: int, inodeTable: int, freeBlocks: int, freeInodes: int, dirs: int)

  function Truncated(g: GroupDescriptor): GroupDescriptor
  {
    GroupDescriptor(g.blockBitmap % 16, g.inodeBitmap % 16, g.inodeTable % 16,
                    g.freeBlocks % 4, g.freeInodes % 4, g.dirs % 4)
  }

  /** Four little-endian bytes; the 14 unused bits are taken as zero. */
  function Encode(g: GroupDescriptor): (r: seq<Byte>)
    ensures |r| == 4
  {
    [g.blockBitmap % 16 + 16 * (g.inodeBitmap % 16),
     g.inodeTable % 16 + 16 * (g.freeBlocks % 4) + 64 * (g.freeInodes % 4),
     g.dirs % 4,
     0]
  }

  function Decode(b: seq<Byte>): GroupDescriptor
    requires |b| >= 4
  {
    GroupDescriptor(b[0] % 16, b[0] / 16, b[1] % 16, b[1] / 16 % 4, b[1] / 64, b[2] % 4)
  }

  /** Storing a descriptor keeps what fits its fields. */
  lemma DescriptorRoundTrip(g: GroupDescriptor)
    ensures Decode(Encode(g)) == Truncated(g)
    ensures Decode(Padded(Encode(g))) == Truncated(g)
  {
    var b := Encode(g);
    assert Padded(b)[..4] == b;
    assert Padded(b)[0] == b[0] && Padded(b)[1] == b[1] && Padded(b)[2] == b[2];
    assert b[1] / 16 == g.freeBlocks % 4 + 4 * (g.freeInodes % 4);
  }

  /** The stored word has the fields side by side, the first in the lowest bits. */
  lemma DescriptorWord(g: GroupDescriptor)
    requires g == Truncated(g)
    ensures var b := Encode(g);
            FromWord(b[0], b[1], b[2], b[3]) ==
            g.blockBitmap + 0x10 * g.inodeBitmap + 0x100 * g.inodeTable +
            0x1000 * g.freeBlocks + 0x4000 * g.freeInodes + 0x1_0000 * g.dirs
  {
  }

  /** Reading takes the fields from those places of the word and ignores the 14 bits above. */
  lemma WordDecoded(b: seq<Byte>)
    requires |b| >= 4
    ensures var g := Decode(b);
            && 0 <= g.blockBitmap < 16 && 0 <= g.inodeBitmap < 16 && 0 <= g.inodeTable < 16
            && 0 <= g.freeBlocks < 4 && 0 <= g.freeInodes < 4 && 0 <= g.dirs < 4
            && FromWord(b[0], b[1], b[2], b[3]) % 0x4_0000 ==
               g.blockBitmap + 0x10 * g.inodeBitmap + 0x100 * g.inodeTable +
               0x1000 * g.freeBlocks + 0x4000 * g.freeInodes + 0x1_0000 * g.dirs
  {
    var b0: int, b1: int, b2: int, b3: int := b[0], b[1], b[2], b[3];
    var high := b2 / 4 + 0x40 * b3;
    assert b1 == b1 % 16 + 16 * (b1 / 16 % 4) + 64 * (b1 / 64);
    assert FromWord(b0, b1, b2, b3) == b0 + 0x100 * b1 + 0x1_0000 * (b2 % 4) + 0x4_0000 * high;
  }

  /** What a new group at block `at` is described by. */
  function NewDescriptor(at: nat): GroupDescriptor
  {
    Truncated(GroupDescriptor(at + 1, at + 2, at + 3, BLOCK, BLOCK, 0))
  }

  // ---------- the store ----------

  /** `cache` holds the entries as they lie in memory: 256 bytes of name and 4 of index each. */
  datatype Store = Store(bytes: seq<Byte>, cache: seq<Byte>)

  datatype Group = Group(descriptor: GroupDescriptor, blockBitmap: seq<Byte>, inodeBitmap: seq<Byte>)

  predicate Sized(s: Store)
  {
    |s.bytes| >= BLOCK * DISK_BLOCKS && |s.cache| == CACHE_BYTES
  }

  predicate Small(g: GroupDescriptor)
  {
    0 <= g.blockBitmap < 16 && 0 <= g.inodeBitmap < 16 && 0 <= g.inodeTable < 16
  }

  /** `_get_block_group` with ForceCreate. */
  function ForceGroup(d: seq<Byte>, at: nat): seq<Byte>
    requires |d| >= BLOCK * DISK_BLOCKS && at < DISK_BLOCKS
  {
    var g := NewDescriptor(at);
    var d1 := SetBlock(d, at, Padded(Encode(g)));
    var d2 := SetBlock(d1, g.blockBitmap, Zeros(BLOCK));
    var d3 := SetBlock(d2, g.inodeBitmap, Zeros(BLOCK));
    SetBlock(d3, g.inodeTable, Zeros(BLOCK))
  }

  predicate Missing(g: GroupDescriptor)
  {
    g.blockBitmap == 0 || g.inodeBitmap == 0
  }

  /** `_get_block_group` with CreateIfNotFound. */
  function GetGroup(d: seq<Byte>, at: nat): (r: (seq<Byte>, Group))
    requires |d| >= BLOCK * DISK_BLOCKS && at < DISK_BLOCKS
    ensures |r.0| == |d| && Small(r.1.descriptor)
    ensures |r.1.blockBitmap| == BLOCK == |r.1.inodeBitmap|
  {
    var found := Decode(Block(d, at));
    var d' := if Missing(found) then ForceGroup(d, at) else d;
    var g := if Missing(found) then NewDescriptor(at) else found;
    (d', Group(g, Block(d', g.blockBitmap), Block(d', g.inodeBitmap)))
  }

  function GroupBlock(idx: nat): int
    requires idx > 0
  {
    (idx - 1) / GROUP_INODES + SUPER_BLOCK + 1
  }

  function IndexInGroup(idx: nat): nat
    requires idx > 0
  {
    (idx - 1) % GROUP_INODES
  }

  function ContainingBlock(idx: nat): nat
  {
    idx * INODE_SIZE / BLOCK
  }

  /** All zero but for the operating system's word, 0x9999, at byte 36. */
  function InodeRecord(): (r: seq<Byte>)
    ensures |r| == INODE_SIZE
  {
    Zeros(36) + [0x99, 0x99] + Zeros(INODE_SIZE - 38)
  }

  /** `_write_block_group`: descriptor, both bitmaps, and the inode inside its block. */
  function WriteGroup(d: seq<Byte>, g: Group, at: nat, idx: nat): (r: seq<Byte>)
    requires |d| >= BLOCK * DISK_BLOCKS && at < DISK_BLOCKS && idx <= MAX_FILES
    requires Small(g.descriptor) && |g.blockBitmap| == BLOCK == |g.inodeBitmap|
    ensures |r| == |d|
  {
    var d1 := SetBlock(d, at, Padded(Encode(g.descriptor)));
    var d2 := SetBlock(d1, g.descriptor.blockBitmap, g.blockBitmap);
    var d3 := SetBlock(d2, g.descriptor.inodeBitmap, g.inodeBitmap);
    var block := g.descriptor.inodeTable + ContainingBlock(idx);
    SetBlock(d3, block, Splice(Block(d3, block), INODE_SIZE * (idx % 4), InodeRecord()))
  }

  lemma WordInUse(n: nat)
    requires 0 < n <= MAX_FILES
    ensures Word(n)[0] != 0 || Word(n)[1] != 0
  {
  }

  /** The index in entry `i`, four bytes with the lowest first; 0 marks the entry unused. */
  function IndexOf(cache: seq<Byte>, i: nat): nat
    requires |cache| == CACHE_BYTES && i < MAX_FILES
  {
    var at := ENTRY_SIZE * i + NAME_SIZE;
    FromWord(cache[at], cache[at + 1], cache[at + 2], cache[at + 3])
  }

  function FirstUnused(cache: seq<Byte>, from: nat): (k: nat)
    requires |cache| == CACHE_BYTES && from <= MAX_FILES
    ensures from <= k <= MAX_FILES
    ensures forall i :: from <= i < k ==> IndexOf(cache, i) != 0
    ensures k < MAX_FILES ==> IndexOf(cache, k) == 0
    decreases MAX_FILES - from
  {
    if from == MAX_FILES || IndexOf(cache, from) == 0 then from else FirstUnused(cache, from + 1)
  }

  /** A C string that passes the assertion on its length. */
  predicate NameOk(name: seq<Byte>)
  {
    |name| < FILENAME_LENGTH && forall j :: 0 <= j < |name| ==> name[j] != 0
  }

  /** The part of a name copied to entry `k` that lies in the cache: only the last entry's can
      run past the end. */
  function Clipped(name: seq<Byte>, k: nat): (r: seq<Byte>)
    requires k < MAX_FILES
    ensures ENTRY_SIZE * k + |r| <= CACHE_BYTES
  {
    if ENTRY_SIZE * k + |name| <= CACHE_BYTES then name else name[..CACHE_BYTES - ENTRY_SIZE * k]
  }

  /** The index is set first, and then the name is copied over the entry, however long. */
  function PlaceFile(cache: seq<Byte>, k: nat, name: seq<Byte>): (r: seq<Byte>)
    requires |cache| == CACHE_BYTES && k < MAX_FILES
    ensures |r| == CACHE_BYTES
  {
    Splice(Splice(cache, ENTRY_SIZE * k + NAME_SIZE, Word(k + 1)), ENTRY_SIZE * k, Clipped(name, k))
  }

  /** `None` is the failed assertion when every file is in use. */
  function CreateFile(s: Store, name: seq<Byte>): (r: Option<Store>)
    requires Sized(s) && NameOk(name)
    ensures r.Some? ==> Sized(r.value)
  {
    var k := FirstUnused(s.cache, 0);
    if k == MAX_FILES then None
    else
      var idx := k + 1;
      var at := GroupBlock(idx);
      var (d, g) := GetGroup(s.bytes, at);
      var marked := g.(inodeBitmap := g.inodeBitmap[IndexInGroup(idx) := 1]);
      Some(Store(WriteGroup(d, marked, at, idx), PlaceFile(s.cache, k, name)))
  }

  const ROOT: seq<Byte> := [114, 111, 111, 116, 0]

  /** The cache before any file is created: the root's entry and blank ones. */
  const EMPTY_CACHE: seq<Byte> := PlaceFile(Zeros(CACHE_BYTES), 0, ROOT)

  /** The store as the constructor leaves it.  The superblock is written afresh either way;
      the group is made anew when forced and otherwise only when none is found. */
  function Open(d: seq<Byte>, superBlock: seq<Byte>, force: bool): (s: Store)
    requires |d| >= BLOCK * DISK_BLOCKS && |superBlock| <= BLOCK
    ensures Sized(s)
  {
    var d1 := SetBlock(d, SUPER_BLOCK, Padded(superBlock));
    var at := SUPER_BLOCK + 1;
    Store(if force then ForceGroup(d1, at) else GetGroup(d1, at).0, EMPTY_CACHE)
  }

  predicate NamesOk(names: seq<seq<Byte>>)
  {
    forall i :: 0 <= i < |names| ==> NameOk(names[i])
  }

  /** The store after creating files of the given names one after the other. */
  function CreateAll(s: Store, names: seq<seq<Byte>>): (r: Option<Store>)
    requires Sized(s) && NamesOk(names)
    ensures r.Some? ==> Sized(r.value)
  {
    if names == [] then Some(s)
    else
      var front := CreateAll(s, names[..|names| - 1]);
      if front.None? then None else CreateFile(front.value, names[|names| - 1])
  }

  // ---------- one group ----------

  /** An inode bitmap in which files 2 to n + 1 have been marked. */
  function Marked(bits: seq<Byte>, n: nat): (r: seq<Byte>)
    requires |bits| == BLOCK
    ensures |r| == BLOCK
  {
    seq(BLOCK, j requires 0 <= j < BLOCK => if 1 <= j <= n then 1 else bits[j])
  }

  /** The inode bitmap when files 2 to n + 1 exist. */
  function Bitmap(n: nat): (r: seq<Byte>)
    ensures |r| == BLOCK
  {
    Marked(Zeros(BLOCK), n)
  }

  const FIRST_GROUP: GroupDescriptor := GroupDescriptor(3, 4, 5, 0, 0, 0)
  const SECOND_GROUP: GroupDescriptor := GroupDescriptor(4, 5, 6, 0, 0, 0)

  /** The first n + 1 entries are in use. */
  ghost predicate CacheHolds(cache: seq<Byte>, n: nat)
  {
    |cache| == CACHE_BYTES && forall i: nat :: i < MAX_FILES ==> (IndexOf(cache, i) != 0 <==> i <= n)
  }

  ghost predicate GroupOnDisk(d: seq<Byte>, bits: seq<Byte>)
  {
    && |d| >= BLOCK * DISK_BLOCKS
    && Block(d, 2) == Padded(Encode(FIRST_GROUP))
    && Block(d, 3) == Zeros(BLOCK)
    && Block(d, 4) == bits
  }

  /** The metadata of the store after n files, created over a bitmap `bits`. */
  ghost predicate OneGroup(s: Store, bits: seq<Byte>, n: nat)
  {
    Sized(s) && CacheHolds(s.cache, n) && |bits| == BLOCK && GroupOnDisk(s.bytes, Marked(bits, n))
  }

  function RecordAt(idx: nat): int
  {
    BLOCK * 5 + INODE_SIZE * idx
  }

  lemma {:induction false} UnusedAfter(cache: seq<Byte>, n: nat, from: nat)
    requires CacheHolds(cache, n) && n < MAX_FILES && from <= n + 1
    ensures FirstUnused(cache, from) == n + 1
    decreases n + 1 - from
  {
    if from < n + 1 {
      UnusedAfter(cache, n, from + 1);
    }
  }

  lemma FirstGroupDecodes()
    ensures NewDescriptor(2) == FIRST_GROUP && Decode(Padded(Encode(FIRST_GROUP))) == FIRST_GROUP
    ensures NewDescriptor(3) == SECOND_GROUP && Decode(Padded(Encode(SECOND_GROUP))) == SECOND_GROUP
  {
    hide Encode, Decode, Padded;
    DescriptorRoundTrip(FIRST_GROUP);
    DescriptorRoundTrip(SECOND_GROUP);
  }

  /** Writing the first group back, with one more file marked. */
  lemma WriteFirstGroup(d: seq<Byte>, bits: seq<Byte>, n: nat, g: Group, idx: nat)
    requires GroupOnDisk(d, bits) && n < 511 && idx == n + 2
    requires g == Group(FIRST_GROUP, Block(d, 3), bits[n + 1 := 1])
    ensures WriteGroup(d, g, 2, idx) ==
            Splice(Splice(d, BLOCK * 4 + n + 1, [1]), RecordAt(idx), InodeRecord())
  {
    hide Splice, Encode;
    SetBlockSame(d, 2);
    SetBlockSame(d, 3);
    MarkByte(d, n, g.inodeBitmap);
    WriteRecord(SetBlock(d, 4, g.inodeBitmap), idx);
  }

  lemma MarkByte(d: seq<Byte>, n: nat, bits: seq<Byte>)
    requires |d| >= BLOCK * DISK_BLOCKS && n < 511 && |bits| == BLOCK
    requires bits == Block(d, 4)[n + 1 := 1]
    ensures SetBlock(d, 4, bits) == Splice(d, BLOCK * 4 + n + 1, [1])
  {
    assert bits == Splice(d[BLOCK * 4..BLOCK * 4 + BLOCK], n + 1, [1]);
    SpliceInside(d, BLOCK * 4, BLOCK, n + 1, [1]);
  }

  lemma WriteRecord(d: seq<Byte>, idx: nat)
    requires |d| >= BLOCK * DISK_BLOCKS && idx <= MAX_FILES
    ensures var block := 5 + ContainingBlock(idx);
            SetBlock(d, block, Splice(Block(d, block), INODE_SIZE * (idx % 4), InodeRecord())) ==
            Splice(d, RecordAt(idx), InodeRecord())
  {
    RecordPlace(idx);
    SpliceInside(d, BLOCK * (5 + ContainingBlock(idx)), BLOCK, INODE_SIZE * (idx % 4), InodeRecord());
  }

  /** Four records to a block: where a record lies in the table. */
  lemma RecordPlace(idx: nat)
    ensures ContainingBlock(idx) == idx / 4
    ensures BLOCK * (5 + ContainingBlock(idx)) + INODE_SIZE * (idx % 4) == RecordAt(idx)
  {
  }

  /** What a new entry writes: the name's bytes from its own start on, its index where the name
      does not reach it, and nothing else. */
  lemma PlaceFileAt(cache: seq<Byte>, k: nat, name: seq<Byte>, p: nat)
    requires |cache| == CACHE_BYTES && k < MAX_FILES && p < CACHE_BYTES
    ensures var at := ENTRY_SIZE * k;
            PlaceFile(cache, k, name)[p] ==
            if at <= p < at + |name| then name[p - at]
            else if at + NAME_SIZE <= p < at + ENTRY_SIZE then Word(k + 1)[p - at - NAME_SIZE]
            else cache[p]
  {
    hide Splice, Word;
    var at := ENTRY_SIZE * k;
    SpliceAt(cache, at + NAME_SIZE, Word(k + 1), p);
    SpliceAt(Splice(cache, at + NAME_SIZE, Word(k + 1)), at, Clipped(name, k), p);
  }

  /** No other entry's index changes, and the new one is in use: a name that reaches its index
      leaves a character there. */
  lemma IndexAfter(cache: seq<Byte>, k: nat, name: seq<Byte>, i: nat)
    requires |cache| == CACHE_BYTES && k < MAX_FILES && i < MAX_FILES && NameOk(name)
    ensures i != k ==> IndexOf(PlaceFile(cache, k, name), i) == IndexOf(cache, i)
    ensures i == k ==> IndexOf(PlaceFile(cache, k, name), i) != 0
  {
    hide PlaceFile, Word;
    var at := ENTRY_SIZE * i + NAME_SIZE;
    PlaceFileAt(cache, k, name, at);
    PlaceFileAt(cache, k, name, at + 1);
    if i == k {
      WordInUse(k + 1);
    } else {
      PlaceFileAt(cache, k, name, at + 2);
      PlaceFileAt(cache, k, name, at + 3);
    }
  }

  /** The assertion fails exactly when all 1024 entries are in use. */
  lemma CreateFailsExactlyWhenFull(s: Store, name: seq<Byte>)
    requires Sized(s) && NameOk(name)
    ensures CreateFile(s, name) == None <==> forall i: nat :: i < 1024 ==> IndexOf(s.cache, i) != 0
  {
    hide GetGroup, WriteGroup, PlaceFile, IndexOf;
  }

  lemma PlaceFileHolds(cache: seq<Byte>, n: nat, name: seq<Byte>)
    requires CacheHolds(cache, n) && n + 1 < MAX_FILES && NameOk(name)
    ensures CacheHolds(PlaceFile(cache, n + 1, name), n + 1)
  {
    hide PlaceFile;
    var after := PlaceFile(cache, n + 1, name);
    forall i: nat | i < MAX_FILES
      ensures IndexOf(after, i) != 0 <==> i <= n + 1
    {
      IndexAfter(cache, n + 1, name, i);
    }
  }

  /** The file created after n others takes entry n + 1 of the cache and index n + 2. */
  lemma CreateFileUnfolds(s: Store, n: nat, name: seq<Byte>)
    requires Sized(s) && CacheHolds(s.cache, n) && n + 1 < MAX_FILES && NameOk(name)
    ensures CreateFile(s, name).Some?
    ensures var at := GroupBlock(n + 2); var (d, g) := GetGroup(s.bytes, at); var r := CreateFile(s, name).value;
            && r.bytes == WriteGroup(d, g.(inodeBitmap := g.inodeBitmap[IndexInGroup(n + 2) := 1]), at, n + 2)
            && r.cache == PlaceFile(s.cache, n + 1, name)
            && CacheHolds(r.cache, n + 1)
  {
    hide GetGroup, WriteGroup, PlaceFile;
    UnusedAfter(s.cache, n, 0);
    PlaceFileHolds(s.cache, n, name);
  }

  /** Main result: while the group has room, creating a file changes exactly one byte of the
      inode bitmap and the 128 bytes of its own record. */
  lemma CreateFileWrites(s: Store, bits: seq<Byte>, n: nat, name: seq<Byte>)
    requires OneGroup(s, bits, n) && n < 511 && NameOk(name)
    ensures var r := CreateFile(s, name);
            && r.Some?
            && r.value.bytes == Splice(Splice(s.bytes, BLOCK * 4 + n + 1, [1]), RecordAt(n + 2), InodeRecord())
            && r.value.cache == PlaceFile(s.cache, n + 1, name)
            && CacheHolds(r.value.cache, n + 1)
  {
    hide CreateFile, WriteGroup, Marked, PlaceFile, CacheHolds;
    CreateFileUnfolds(s, n, name);
    FirstGroupDecodes();
    assert GroupBlock(n + 2) == 2 && IndexInGroup(n + 2) == n + 1;
    var was := Marked(bits, n);
    WriteFirstGroup(s.bytes, was, n, Group(FIRST_GROUP, Block(s.bytes, 3), was[n + 1 := 1]), n + 2);
  }

  lemma MarkOne(d: seq<Byte>, bits: seq<Byte>, n: nat)
    requires |d| >= BLOCK * DISK_BLOCKS && n < 511 && |bits| == BLOCK && Block(d, 4) == Marked(bits, n)
    ensures Splice(d, BLOCK * 4 + n + 1, [1])[BLOCK * 4..BLOCK * 5] == Marked(bits, n + 1)
  {
    var d1 := Splice(d, BLOCK * 4 + n + 1, [1]);
    forall j | 0 <= j < BLOCK
      ensures d1[BLOCK * 4..BLOCK * 5][j] == Marked(bits, n + 1)[j]
    {
      SpliceAt(d, BLOCK * 4 + n + 1, [1], BLOCK * 4 + j);
      assert d[BLOCK * 4 + j] == Block(d, 4)[j];
    }
  }

  lemma CreateFileKeepsGroup(s: Store, bits: seq<Byte>, n: nat, name: seq<Byte>)
    requires OneGroup(s, bits, n) && n < 511 && NameOk(name)
    ensures CreateFile(s, name).Some? && OneGroup(CreateFile(s, name).value, bits, n + 1)
  {
    hide CreateFile, Splice, Encode, Marked;
    CreateFileWrites(s, bits, n, name);
    var d := s.bytes;
    var d1 := Splice(d, BLOCK * 4 + n + 1, [1]);
    SpliceApart(d, BLOCK * 4 + n + 1, [1], BLOCK * 2, BLOCK * 3);
    SpliceApart(d, BLOCK * 4 + n + 1, [1], BLOCK * 3, BLOCK * 4);
    MarkOne(d, bits, n);
    SpliceApart(d1, RecordAt(n + 2), InodeRecord(), BLOCK * 2, BLOCK * 3);
    SpliceApart(d1, RecordAt(n + 2), InodeRecord(), BLOCK * 3, BLOCK * 4);
    SpliceApart(d1, RecordAt(n + 2), InodeRecord(), BLOCK * 4, BLOCK * 5);
  }

  /** Formatting lays out an empty group with the superblock before it, and touches no block
      but the first five after block 0. */
  lemma FormatHolds(d: seq<Byte>, superBlock: seq<Byte>, other: nat)
    requires |d| >= BLOCK * DISK_BLOCKS && |superBlock| <= BLOCK && BLOCK * (other + 1) <= |d|
    ensures var s := Open(d, superBlock, true);
            && OneGroup(s, Zeros(BLOCK), 0)
            && |s.bytes| == |d|
            && Block(s.bytes, SUPER_BLOCK) == Padded(superBlock)
            && (other == 0 || other > 5 ==> Block(s.bytes, other) == Block(d, other))
            && Block(s.bytes, 5) == Zeros(BLOCK)
            && s.cache[..5] == [114, 111, 111, 116, 0] && IndexOf(s.cache, 0) == 1
  {
    hide SetBlock, Block, Encode, PlaceFile;
    OnlyRoot();
    var d1 := SetBlock(d, SUPER_BLOCK, Padded(superBlock));
    FirstGroupDecodes();
    ForceGroupReads(d1, 2);
    ForceGroupKeeps(d1, 2, SUPER_BLOCK);
    ForceGroupKeeps(d1, 2, other);
    SetBlockReads(d, SUPER_BLOCK, Padded(superBlock), SUPER_BLOCK);
    SetBlockReads(d, SUPER_BLOCK, Padded(superBlock), other);
    assert Zeros(BLOCK) == Marked(Zeros(BLOCK), 0);
  }

  lemma OnlyRoot()
    ensures CacheHolds(EMPTY_CACHE, 0)
    ensures EMPTY_CACHE[..5] == ROOT && IndexOf(EMPTY_CACHE, 0) == 1
  {
    hide PlaceFile;
    RootIndex(0);
    var cache := EMPTY_CACHE;
    forall i: nat | i < MAX_FILES
      ensures IndexOf(cache, i) != 0 <==> i <= 0
    {
      RootIndex(i);
    }
    forall j | 0 <= j < 5
      ensures cache[j] == ROOT[j]
    {
      PlaceFileAt(Zeros(CACHE_BYTES), 0, ROOT, j);
    }
  }

  lemma RootIndex(i: nat)
    requires i < MAX_FILES
    ensures IndexOf(EMPTY_CACHE, i) == if i == 0 then 1 else 0
  {
    hide PlaceFile;
    var at := ENTRY_SIZE * i + NAME_SIZE;
    PlaceFileAt(Zeros(CACHE_BYTES), 0, ROOT, at);
    PlaceFileAt(Zeros(CACHE_BYTES), 0, ROOT, at + 1);
    PlaceFileAt(Zeros(CACHE_BYTES), 0, ROOT, at + 2);
    PlaceFileAt(Zeros(CACHE_BYTES), 0, ROOT, at + 3);
  }

  lemma ForceGroupKeeps(d: seq<Byte>, at: nat, c: nat)
    requires |d| >= BLOCK * DISK_BLOCKS && 2 <= at <= 3 && BLOCK * (c + 1) <= |d|
    ensures |ForceGroup(d, at)| == |d|
    ensures c < at || at + 3 < c ==> Block(ForceGroup(d, at), c) == Block(d, c)
  {
    hide SetBlock, Block, Encode;
    var g := NewDescriptor(at);
    var d1 := SetBlock(d, at, Padded(Encode(g)));
    var d2 := SetBlock(d1, at + 1, Zeros(BLOCK));
    var d3 := SetBlock(d2, at + 2, Zeros(BLOCK));
    SetBlockReads(d, at, Padded(Encode(g)), c);
    SetBlockReads(d1, at + 1, Zeros(BLOCK), c);
    SetBlockReads(d2, at + 2, Zeros(BLOCK), c);
    SetBlockReads(d3, at + 3, Zeros(BLOCK), c);
  }

  lemma ForceGroupReads(d: seq<Byte>, at: nat)
    requires |d| >= BLOCK * DISK_BLOCKS && 2 <= at <= 3
    ensures var r := ForceGroup(d, at);
            && Block(r, at) == Padded(Encode(NewDescriptor(at)))
            && Block(r, at + 1) == Block(r, at + 2) == Block(r, at + 3) == Zeros(BLOCK)
  {
    hide SetBlock, Block, Encode;
    var g := NewDescriptor(at);
    assert g.blockBitmap == at + 1 && g.inodeBitmap == at + 2 && g.inodeTable == at + 3;
    var d1 := SetBlock(d, at, Padded(Encode(g)));
    var d2 := SetBlock(d1, at + 1, Zeros(BLOCK));
    var d3 := SetBlock(d2, at + 2, Zeros(BLOCK));
    SetBlockReads(d, at, Padded(Encode(g)), at);
    SetBlockReads(d1, at + 1, Zeros(BLOCK), at);
    SetBlockReads(d2, at + 2, Zeros(BLOCK), at);
    SetBlockReads(d3, at + 3, Zeros(BLOCK), at);
    SetBlockReads(d1, at + 1, Zeros(BLOCK), at + 1);
    SetBlockReads(d2, at + 2, Zeros(BLOCK), at + 1);
    SetBlockReads(d3, at + 3, Zeros(BLOCK), at + 1);
    SetBlockReads(d2, at + 2, Zeros(BLOCK), at + 2);
    SetBlockReads(d3, at + 3, Zeros(BLOCK), at + 2);
    SetBlockReads(d3, at + 3, Zeros(BLOCK), at + 3);
  }

  // ---------- up to 511 files ----------

  ghost predicate RecordHolds(d: seq<Byte>, idx: nat)
  {
    RecordAt(idx) + INODE_SIZE <= |d| && d[RecordAt(idx)..RecordAt(idx) + INODE_SIZE] == InodeRecord()
  }

  /** Entry `idx - 1` holds the name, and the index behind it where the name does not reach. */
  ghost predicate EntryHolds(cache: seq<Byte>, idx: nat, name: seq<Byte>)
  {
    && |cache| == CACHE_BYTES && 0 < idx <= MAX_FILES
    && var at := ENTRY_SIZE * (idx - 1);
       forall p :: at <= p < at + ENTRY_SIZE ==>
         && (p < at + |name| ==> cache[p] == name[p - at])
         && (p >= at + |name| && p >= at + NAME_SIZE ==> cache[p] == Word(idx)[p - at - NAME_SIZE])
  }

  /** The file's record is on disk and its entry is in the cache. */
  ghost predicate FileHolds(s: Store, idx: nat, name: seq<Byte>)
  {
    RecordHolds(s.bytes, idx) && EntryHolds(s.cache, idx, name)
  }

  lemma PlaceFileKeepsEntry(cache: seq<Byte>, k: nat, name: seq<Byte>, idx: nat, other: seq<Byte>)
    requires |cache| == CACHE_BYTES && k < MAX_FILES && 0 < idx <= k + 1
    requires if idx == k + 1 then other == name else EntryHolds(cache, idx, other)
    ensures EntryHolds(PlaceFile(cache, k, name), idx, other)
  {
    hide PlaceFile, Word;
    var at := ENTRY_SIZE * (idx - 1);
    forall p | at <= p < at + ENTRY_SIZE
      ensures var r := PlaceFile(cache, k, name);
              && (p < at + |other| ==> r[p] == other[p - at])
              && (p >= at + |other| && p >= at + NAME_SIZE ==> r[p] == Word(idx)[p - at - NAME_SIZE])
    {
      PlaceFileAt(cache, k, name, p);
    }
  }

  lemma CreateFileKeepsRecord(s: Store, bits: seq<Byte>, n: nat, name: seq<Byte>, idx: nat)
    requires OneGroup(s, bits, n) && n < 511 && NameOk(name) && 2 <= idx <= 512
    requires idx == n + 2 || RecordHolds(s.bytes, idx)
    ensures CreateFile(s, name).Some? && RecordHolds(CreateFile(s, name).value.bytes, idx)
  {
    hide CreateFile;
    CreateFileWrites(s, bits, n, name);
    var at := BLOCK * 4 + n + 1;
    var d1 := Splice(s.bytes, at, [1]);
    if idx == n + 2 {
      SpliceReads(d1, RecordAt(idx), InodeRecord());
    } else {
      SpliceApart(s.bytes, at, [1], RecordAt(idx), RecordAt(idx) + INODE_SIZE);
      SpliceApart(d1, RecordAt(n + 2), InodeRecord(), RecordAt(idx), RecordAt(idx) + INODE_SIZE);
    }
  }

  /** After n files: own indices, the bitmap exact, and every file so far intact. */
  lemma {:induction false} FilesSurvive(s: Store, bits: seq<Byte>, names: seq<seq<Byte>>, idx: nat)
    requires OneGroup(s, bits, 0) && |names| <= 511 && NamesOk(names)
    ensures CreateAll(s, names).Some? && OneGroup(CreateAll(s, names).value, bits, |names|)
    ensures 2 <= idx < |names| + 2 ==> FileHolds(CreateAll(s, names).value, idx, names[idx - 2])
    ensures 2 <= idx <= 512 && RecordHolds(s.bytes, idx) ==> RecordHolds(CreateAll(s, names).value.bytes, idx)
    decreases |names|
  {
    hide CreateFile, RecordHolds, EntryHolds, PlaceFile;
    if names != [] {
      var front, last := names[..|names| - 1], names[|names| - 1];
      FilesSurvive(s, bits, front, idx);
      var before := CreateAll(s, front).value;
      CreateFileKeepsGroup(before, bits, |front|, last);
      CreateFileWrites(before, bits, |front|, last);
      if 2 <= idx < |names| + 2 {
        PlaceFileKeepsEntry(before.cache, |names|, last, idx, names[idx - 2]);
      }
      if 2 <= idx <= 512 && (idx == |front| + 2 || RecordHolds(before.bytes, idx)) {
        CreateFileKeepsRecord(before, bits, |front|, last, idx);
      }
    }
  }

  /** Bytes that belong to neither the inode bitmap nor a record so far keep their value. */
  lemma {:induction false} OtherBytesSurvive(s: Store, bits: seq<Byte>, names: seq<seq<Byte>>, k: nat)
    requires OneGroup(s, bits, 0) && |names| <= 511
    requires NamesOk(names)
    requires k < |s.bytes|
    requires k < BLOCK * 4 || BLOCK * 5 <= k < RecordAt(2) || RecordAt(|names| + 2) <= k
    ensures var r := CreateAll(s, names);
            r.Some? && |r.value.bytes| == |s.bytes| && r.value.bytes[k] == s.bytes[k]
    decreases |names|
  {
    if names != [] {
      var front, last := names[..|names| - 1], names[|names| - 1];
      var n := |front|;
      OtherBytesSurvive(s, bits, front, k);
      FilesSurvive(s, bits, front, 0);
      var before := CreateAll(s, front).value;
      CreateFileWrites(before, bits, n, last);
      SpliceAt(before.bytes, BLOCK * 4 + n + 1, [1], k);
      SpliceAt(Splice(before.bytes, BLOCK * 4 + n + 1, [1]), RecordAt(n + 2), InodeRecord(), k);
    }
  }

  // ---------- names in the cache ----------

  lemma {:induction false} AllCreated(s: Store, names: seq<seq<Byte>>)
    requires Sized(s) && CacheHolds(s.cache, 0) && |names| < MAX_FILES && NamesOk(names)
    ensures var r := CreateAll(s, names); r.Some? && CacheHolds(r.value.cache, |names|)
    decreases |names|
  {
    hide CreateFile, CacheHolds;
    if names != [] {
      var front, last := names[..|names| - 1], names[|names| - 1];
      AllCreated(s, front);
      CreateFileUnfolds(CreateAll(s, front).value, |front|, last);
    }
  }

  /** The cache after one more file. */
  lemma LastPlaced(s: Store, names: seq<seq<Byte>>)
    requires Sized(s) && CacheHolds(s.cache, 0) && 0 < |names| < MAX_FILES && NamesOk(names)
    ensures var front := names[..|names| - 1];
            && CreateAll(s, front).Some? && CreateAll(s, names).Some?
            && CreateAll(s, names).value.cache ==
               PlaceFile(CreateAll(s, front).value.cache, |names|, names[|names| - 1])
  {
    hide CreateFile, CacheHolds, PlaceFile;
    AllCreated(s, names[..|names| - 1]);
    AllCreated(s, names);
    CreateFileUnfolds(CreateAll(s, names[..|names| - 1]).value, |names| - 1, names[|names| - 1]);
  }

  /** The entries of up to 1023 files, whatever becomes of the disk. */
  lemma {:induction false} EntriesSurvive(s: Store, names: seq<seq<Byte>>, idx: nat)
    requires Sized(s) && CacheHolds(s.cache, 0) && |names| < MAX_FILES && NamesOk(names)
    requires 2 <= idx < |names| + 2
    ensures CreateAll(s, names).Some? && EntryHolds(CreateAll(s, names).value.cache, idx, names[idx - 2])
    decreases |names|
  {
    hide CreateFile, CacheHolds, PlaceFile, EntryHolds;
    var front, last := names[..|names| - 1], names[|names| - 1];
    LastPlaced(s, names);
    if idx < |names| + 1 {
      EntriesSurvive(s, front, idx);
    }
    PlaceFileKeepsEntry(CreateAll(s, front).value.cache, |names|, last, idx, names[idx - 2]);
  }

  /** Main result: an entry has its own index if and only if the name ends before it or happens
      to spell the bytes that it overwrites. */
  lemma IndexKeptExactlyWhen(s: Store, names: seq<seq<Byte>>, idx: nat)
    requires Sized(s) && CacheHolds(s.cache, 0) && |names| < MAX_FILES && NamesOk(names)
    requires 2 <= idx < |names| + 2
    ensures CreateAll(s, names).Some?
    ensures var name := names[idx - 2];
            IndexOf(CreateAll(s, names).value.cache, idx - 1) == idx <==>
            forall j :: NAME_SIZE <= j < |name| && j < ENTRY_SIZE ==> name[j] == Word(idx)[j - NAME_SIZE]
  {
    EntriesSurvive(s, names, idx);
    OwnIndex(CreateAll(s, names).value.cache, idx, names[idx - 2]);
  }

  /** A name of 257 characters, one more than its field, costs the file its index unless that
      character is the lowest byte of it. */
  lemma OneCharacterOver(s: Store, names: seq<seq<Byte>>, idx: nat)
    requires Sized(s) && CacheHolds(s.cache, 0) && |names| < MAX_FILES && NamesOk(names)
    requires 2 <= idx < |names| + 2 && |names[idx - 2]| == 257
    ensures CreateAll(s, names).Some?
    ensures IndexOf(CreateAll(s, names).value.cache, idx - 1) == idx <==> names[idx - 2][256] == idx % 256
  {
    hide CreateAll, IndexOf, CacheHolds;
    IndexKeptExactlyWhen(s, names, idx);
    assert Word(idx)[0] == idx % 256;
  }

  lemma OwnIndex(cache: seq<Byte>, idx: nat, name: seq<Byte>)
    requires EntryHolds(cache, idx, name)
    ensures IndexOf(cache, idx - 1) == idx <==>
            forall j :: NAME_SIZE <= j < |name| && j < ENTRY_SIZE ==> name[j] == Word(idx)[j - NAME_SIZE]
  {
    hide Word;
    var at := ENTRY_SIZE * (idx - 1);
    var p := at + NAME_SIZE;
    var bytes := [cache[p], cache[p + 1], cache[p + 2], cache[p + 3]];
    WordIsUnique(idx, cache[p], cache[p + 1], cache[p + 2], cache[p + 3]);
    if forall j :: NAME_SIZE <= j < |name| && j < ENTRY_SIZE ==> name[j] == Word(idx)[j - NAME_SIZE] {
      assert forall i :: 0 <= i < 4 ==> bytes[i] == cache[p + i] == Word(idx)[i];
    } else {
      var j :| NAME_SIZE <= j < |name| && j < ENTRY_SIZE && name[j] != Word(idx)[j - NAME_SIZE];
      assert bytes[j - NAME_SIZE] == cache[at + j] == name[j];
    }
  }

  /** What the last name left behind its entry, at byte `j` of the next. */
  function Spilled(names: seq<seq<Byte>>, j: nat): Byte
  {
    if names != [] && ENTRY_SIZE + j < |names[|names| - 1]| then names[|names| - 1][ENTRY_SIZE + j] else 0
  }

  /** Of the unused entries only the first is not blank: the last name may have run into it. */
  lemma {:induction false} UnusedEntries(s: Store, names: seq<seq<Byte>>, k: nat, j: nat)
    requires Sized(s) && s.cache == EMPTY_CACHE
    requires |names| < MAX_FILES && NamesOk(names) && |names| < k < MAX_FILES && j < NAME_SIZE
    ensures CreateAll(s, names).Some?
    ensures CreateAll(s, names).value.cache[ENTRY_SIZE * k + j] == if k == |names| + 1 then Spilled(names, j) else 0
    decreases |names|
  {
    hide CreateFile, CacheHolds, PlaceFile;
    var p := ENTRY_SIZE * k + j;
    OnlyRoot();
    if names == [] {
      PlaceFileAt(Zeros(CACHE_BYTES), 0, ROOT, p);
    } else {
      var front, last := names[..|names| - 1], names[|names| - 1];
      UnusedEntries(s, front, k, j);
      LastPlaced(s, names);
      PlaceFileAt(CreateAll(s, front).value.cache, |names|, last, p);
    }
  }

  /** The name field starts with the name and a terminator. */
  ghost predicate NameReads(cache: seq<Byte>, idx: nat, name: seq<Byte>)
    requires |cache| == CACHE_BYTES && 0 < idx <= MAX_FILES
  {
    && |name| < NAME_SIZE
    && (forall j :: 0 <= j < |name| ==> cache[ENTRY_SIZE * (idx - 1) + j] == name[j])
    && cache[ENTRY_SIZE * (idx - 1) + |name|] == 0
  }

  /** Main result: names are copied without their terminator, so a file's name reads back if and
      only if it is shorter than its field and the name before it did not run on past its end. */
  lemma {:induction false} NameReadsExactlyWhen(s: Store, names: seq<seq<Byte>>, idx: nat)
    requires Sized(s) && s.cache == EMPTY_CACHE
    requires |names| < MAX_FILES && NamesOk(names) && 2 <= idx < |names| + 2
    ensures CreateAll(s, names).Some?
    ensures var name := names[idx - 2];
            NameReads(CreateAll(s, names).value.cache, idx, name) <==>
            |name| < NAME_SIZE && (idx == 2 || |names[idx - 3]| <= ENTRY_SIZE + |name|)
    decreases |names|
  {
    hide CreateFile, CacheHolds, PlaceFile;
    OnlyRoot();
    var front, last, name := names[..|names| - 1], names[|names| - 1], names[idx - 2];
    EntriesSurvive(s, names, idx);
    LastPlaced(s, names);
    if |name| < NAME_SIZE {
      var p := ENTRY_SIZE * (idx - 1) + |name|;
      PlaceFileAt(CreateAll(s, front).value.cache, |names|, last, p);
      if idx < |names| + 1 {
        NameReadsExactlyWhen(s, front, idx);
        EntriesSurvive(s, front, idx);
      } else {
        UnusedEntries(s, front, |names|, |name|);
      }
    }
  }

  // ---------- mounting again ----------

  /** Mounting a store that has its group changes the superblock only; the cache starts over. */
  lemma MountKeeps(d: seq<Byte>, bits: seq<Byte>, superBlock: seq<Byte>)
    requires GroupOnDisk(d, bits) && |bits| == BLOCK && |superBlock| <= BLOCK
    ensures var m := Open(d, superBlock, false);
            && m.bytes == SetBlock(d, SUPER_BLOCK, Padded(superBlock))
            && OneGroup(m, bits, 0)
  {
    hide SetBlock, Block, Encode, PlaceFile;
    OnlyRoot();
    var d1 := SetBlock(d, SUPER_BLOCK, Padded(superBlock));
    FirstGroupDecodes();
    SetBlockReads(d, SUPER_BLOCK, Padded(superBlock), 2);
    SetBlockReads(d, SUPER_BLOCK, Padded(superBlock), 3);
    SetBlockReads(d, SUPER_BLOCK, Padded(superBlock), 4);
    assert Marked(bits, 0) == bits;
  }

  /** A store with no group on it is formatted by mounting; one whose descriptor names both
      bitmap blocks keeps everything but its superblock's block. */
  lemma MountFormats(d: seq<Byte>, superBlock: seq<Byte>)
    requires |d| >= BLOCK * DISK_BLOCKS && |superBlock| <= BLOCK
    ensures var g, m := Decode(Block(d, 2)), Open(d, superBlock, false);
            if g.blockBitmap == 0 || g.inodeBitmap == 0 then m == Open(d, superBlock, true)
            else m.bytes == SetBlock(d, 1, Padded(superBlock))
  {
    hide SetBlock, Block;
    SetBlockReads(d, SUPER_BLOCK, Padded(superBlock), 2);
  }

  /** Creating a file whose byte and record are on the disk already writes nothing new. */
  lemma {:induction false} RecreatingChangesNothing(s: Store, bits: seq<Byte>, names: seq<seq<Byte>>)
    requires OneGroup(s, bits, 0) && |names| <= 511 && NamesOk(names)
    requires forall j :: 1 <= j <= |names| ==> bits[j] == 1
    requires forall idx :: 2 <= idx < |names| + 2 ==> RecordHolds(s.bytes, idx)
    ensures CreateAll(s, names).Some? && CreateAll(s, names).value.bytes == s.bytes
    decreases |names|
  {
    hide CreateFile;
    if names != [] {
      var front, last := names[..|names| - 1], names[|names| - 1];
      var n := |front|;
      RecreatingChangesNothing(s, bits, front);
      FilesSurvive(s, bits, front, 0);
      CreateFileWrites(CreateAll(s, front).value, bits, n, last);
      assert Block(s.bytes, 4) == Marked(bits, 0) && Block(s.bytes, 4)[n + 1] == 1;
      assert [1] == s.bytes[BLOCK * 4 + n + 1..BLOCK * 4 + n + 2];
      SpliceSame(s.bytes, BLOCK * 4 + n + 1, 1);
      assert RecordHolds(s.bytes, n + 2);
      SpliceSame(s.bytes, RecordAt(n + 2), INODE_SIZE);
    }
  }

  lemma MarkedTwice(n: nat, k: nat)
    requires n <= 511 && k <= 511
    ensures Marked(Bitmap(n), k) == Bitmap(if n < k then k else n)
    ensures Bitmap(n) == Bitmap(k) <==> n == k
  {
    if n != k {
      var j := if n < k then k else n;
      assert Bitmap(n)[j] != Bitmap(k)[j];
    }
  }

  /** Main result: mounting forgets which indices are taken.  Files created after it get the
      indices of the files that were there, and the disk shows any of them only when there are
      more than before. */
  lemma RemountReusesIndices(d: seq<Byte>, superBlock: seq<Byte>, names: seq<seq<Byte>>, superBlock': seq<Byte>,
                             more: seq<seq<Byte>>, idx: nat)
    requires |d| >= BLOCK * DISK_BLOCKS && |superBlock| <= BLOCK && |superBlock'| <= BLOCK
    requires |names| <= 511 && |more| <= 511 && NamesOk(names) && NamesOk(more)
    ensures CreateAll(Open(d, superBlock, true), names).Some?
    ensures var m := Open(CreateAll(Open(d, superBlock, true), names).value.bytes, superBlock', false);
            var r := CreateAll(m, more);
            && r.Some?
            && Block(r.value.bytes, 4) == Bitmap(if |names| < |more| then |more| else |names|)
            && (r.value.bytes == m.bytes <==> |more| <= |names|)
            && (2 <= idx < |names| + 2 ==> RecordHolds(r.value.bytes, idx))
            && (2 <= idx < |more| + 2 ==> FileHolds(r.value, idx, more[idx - 2]))
  {
    hide CreateAll, RecordHolds, Open;
    FormatHolds(d, superBlock, 0);
    var s := Open(d, superBlock, true);
    FilesSurvive(s, Zeros(BLOCK), names, idx);
    var t := CreateAll(s, names).value;
    var bits := Bitmap(|names|);
    MountKeeps(t.bytes, bits, superBlock');
    var m := Open(t.bytes, superBlock', false);
    forall i | 2 <= i < |names| + 2
      ensures RecordHolds(m.bytes, i)
    {
      FilesSurvive(s, Zeros(BLOCK), names, i);
      MountKeepsRecord(t.bytes, superBlock', i);
    }
    FilesSurvive(m, bits, more, idx);
    MarkedTwice(|names|, |more|);
    MarkedTwice(|names|, 0);
    MarkedTwice(if |names| < |more| then |more| else |names|, |names|);
    if |more| <= |names| {
      RecreatingChangesNothing(m, bits, more);
    }
  }

  lemma MountKeepsRecord(d: seq<Byte>, superBlock: seq<Byte>, idx: nat)
    requires |d| >= BLOCK * DISK_BLOCKS && |superBlock| <= BLOCK && RecordHolds(d, idx)
    ensures RecordHolds(SetBlock(d, SUPER_BLOCK, Padded(superBlock)), idx)
  {
    SpliceApart(d, BLOCK, Padded(superBlock), RecordAt(idx), RecordAt(idx) + INODE_SIZE);
  }

  // ---------- from the 512th file on ----------

  /** The second group's inode bitmap when it has n files. */
  function SecondBitmap(n: nat): (r: seq<Byte>)
    ensures |r| == BLOCK
  {
    seq(BLOCK, j => if j < n then 1 else 0)
  }

  /** Where a file's record lies, counted in records from block 5: the second group's table
      starts one block later and is indexed by the same number. */
  function PlaceOf(idx: nat): nat
  {
    if idx <= GROUP_INODES then idx else idx + 4
  }

  /** The second group has been laid over the bitmaps and the first records of the first: its
      inode bitmap is in block 5 and its table begins with block 6. */
  ghost predicate Overlaid(s: Store, n: nat)
  {
    && Sized(s) && CacheHolds(s.cache, n)
    && Block(s.bytes, 3) == Padded(Encode(SECOND_GROUP))
    && Block(s.bytes, 4) == Zeros(BLOCK)
    && n > 511 && Block(s.bytes, 5) == SecondBitmap(n - 511)
    && Block(s.bytes, 6) == Zeros(BLOCK)
  }

  lemma WriteSecondGroup(d: seq<Byte>, g: Group, idx: nat, c: nat)
    requires |d| >= BLOCK * DISK_BLOCKS && 513 <= idx <= MAX_FILES && 3 <= c <= 133
    requires g.descriptor == SECOND_GROUP && |g.blockBitmap| == BLOCK == |g.inodeBitmap|
    ensures var r := WriteGroup(d, g, 3, idx);
            Block(r, c) == if c == 3 then Padded(Encode(SECOND_GROUP))
                           else if c == 4 then g.blockBitmap
                           else if c == 5 then g.inodeBitmap
                           else Block(d, c)
  {
    hide SetBlock, Encode, Splice;
    var d1 := SetBlock(d, 3, Padded(Encode(g.descriptor)));
    var d2 := SetBlock(d1, 4, g.blockBitmap);
    var d3 := SetBlock(d2, 5, g.inodeBitmap);
    RecordPlace(idx);
    var block := 6 + ContainingBlock(idx);
    var last := Splice(Block(d3, block), INODE_SIZE * (idx % 4), InodeRecord());
    SetBlockReads(d, 3, Padded(Encode(g.descriptor)), c);
    SetBlockReads(d1, 4, g.blockBitmap, c);
    SetBlockReads(d2, 5, g.inodeBitmap, c);
    SetBlockReads(d3, block, last, c);
  }

  ghost predicate NeedsSecondGroup(s: Store, n: nat)
  {
    511 <= n && if n == 511 then OneGroup(s, Zeros(BLOCK), n) else Overlaid(s, n)
  }

  lemma SecondGroupFound(s: Store, n: nat, c: nat)
    requires NeedsSecondGroup(s, n) && 7 <= c <= 133
    ensures var (d, g) := GetGroup(s.bytes, 3);
            && g.descriptor == SECOND_GROUP && g.blockBitmap == Zeros(BLOCK)
            && g.inodeBitmap == SecondBitmap(n - 511)
            && Block(d, 6) == Zeros(BLOCK) && Block(d, c) == Block(s.bytes, c)
  {
    hide ForceGroup, Encode, NewDescriptor;
    FirstGroupDecodes();
    if n == 511 {
      assert Missing(Decode(Zeros(BLOCK)));
      ForceGroupReads(s.bytes, 3);
      ForceGroupKeeps(s.bytes, 3, c);
      assert Zeros(BLOCK) == SecondBitmap(0);
    }
  }

  /** The 512th file finds its group's block empty, for it is the first group's block
      bitmap, and makes a new group there.  Blocks 7 to 133 keep their records. */
  lemma SecondGroupOverlays(s: Store, n: nat, name: seq<Byte>, c: nat)
    requires NeedsSecondGroup(s, n) && n + 1 < MAX_FILES && NameOk(name) && 7 <= c <= 133
    ensures CreateFile(s, name).Some? && Overlaid(CreateFile(s, name).value, n + 1)
    ensures Block(CreateFile(s, name).value.bytes, c) == Block(s.bytes, c)
  {
    hide CreateFile, WriteGroup, GetGroup, Encode, PlaceFile, CacheHolds;
    CreateFileUnfolds(s, n, name);
    assert GroupBlock(n + 2) == 3;
    SecondGroupFound(s, n, c);
    var (d, g) := GetGroup(s.bytes, 3);
    var marked := g.(inodeBitmap := g.inodeBitmap[IndexInGroup(n + 2) := 1]);
    assert IndexInGroup(n + 2) == n - 511 && marked.inodeBitmap == SecondBitmap(n - 510);
    WriteSecondGroup(d, marked, n + 2, 3);
    WriteSecondGroup(d, marked, n + 2, 4);
    WriteSecondGroup(d, marked, n + 2, 5);
    WriteSecondGroup(d, marked, n + 2, 6);
    WriteSecondGroup(d, marked, n + 2, c);
  }

  /** The new file's record, and any record outside the first two blocks of the table, after
      the file is created in the second group. */
  lemma SecondGroupRecords(s: Store, n: nat, name: seq<Byte>, i: nat)
    requires NeedsSecondGroup(s, n) && n + 1 < MAX_FILES && NameOk(name) && 8 <= i <= MAX_FILES + 4
    requires i == n + 6 || RecordHolds(s.bytes, i)
    ensures CreateFile(s, name).Some? && RecordHolds(CreateFile(s, name).value.bytes, i)
  {
    hide CreateFile, WriteGroup, GetGroup, PlaceFile, CacheHolds, RecordHolds, ForceGroup;
    CreateFileUnfolds(s, n, name);
    assert GroupBlock(n + 2) == 3;
    SecondGroupFound(s, n, 7);
    var (d, g) := GetGroup(s.bytes, 3);
    if i != n + 6 {
      GetGroupKeepsRecord(s.bytes, i);
    }
    WriteSecondRecord(d, g.(inodeBitmap := g.inodeBitmap[IndexInGroup(n + 2) := 1]), n + 2, i);
  }

  lemma GetGroupKeepsRecord(d: seq<Byte>, i: nat)
    requires |d| >= BLOCK * DISK_BLOCKS && 8 <= i <= MAX_FILES + 4 && RecordHolds(d, i)
    ensures RecordHolds(GetGroup(d, 3).0, i)
  {
    hide ForceGroup;
    ForceGroupKeeps(d, 3, 5 + i / 4);
    RecordInBlock(d, i);
    RecordInBlock(GetGroup(d, 3).0, i);
  }

  lemma WriteSecondRecord(d: seq<Byte>, g: Group, idx: nat, i: nat)
    requires |d| >= BLOCK * DISK_BLOCKS && 513 <= idx <= MAX_FILES && 8 <= i <= MAX_FILES + 4
    requires g.descriptor == SECOND_GROUP && |g.blockBitmap| == BLOCK == |g.inodeBitmap|
    requires i == idx + 4 || RecordHolds(d, i)
    ensures RecordHolds(WriteGroup(d, g, 3, idx), i)
  {
    hide Splice, Encode;
    var d1 := SetBlock(d, 3, Padded(Encode(g.descriptor)));
    var d2 := SetBlock(d1, 4, g.blockBitmap);
    var d3 := SetBlock(d2, 5, g.inodeBitmap);
    RecordPlace(idx);
    var block := 6 + ContainingBlock(idx);
    SpliceInside(d3, BLOCK * block, BLOCK, INODE_SIZE * (idx % 4), InodeRecord());
    var from, to := RecordAt(i), RecordAt(i) + INODE_SIZE;
    if i == idx + 4 {
      SpliceReads(d3, from, InodeRecord());
    } else {
      SpliceApart(d, BLOCK * 3, Padded(Encode(g.descriptor)), from, to);
      SpliceApart(d1, BLOCK * 4, g.blockBitmap, from, to);
      SpliceApart(d2, BLOCK * 5, g.inodeBitmap, from, to);
      SpliceApart(d3, RecordAt(idx + 4), InodeRecord(), from, to);
    }
  }

  lemma {:induction false} StaysOverlaid(s: Store, names: seq<seq<Byte>>, idx: nat)
    requires OneGroup(s, Zeros(BLOCK), 0) && 511 < |names| < MAX_FILES
    requires NamesOk(names) && 8 <= idx < |names| + 2
    ensures var r := CreateAll(s, names);
            r.Some? && Overlaid(r.value, |names|) && RecordHolds(r.value.bytes, PlaceOf(idx))
    decreases |names|
  {
    hide CreateFile, RecordHolds;
    var front, last := names[..|names| - 1], names[|names| - 1];
    var before := if idx < |names| + 1 then idx else 8;
    if |front| == 511 {
      FilesSurvive(s, Zeros(BLOCK), front, before);
    } else {
      StaysOverlaid(s, front, before);
    }
    SecondGroupOverlays(CreateAll(s, front).value, |front|, last, 7);
    SecondGroupRecords(CreateAll(s, front).value, |front|, last, PlaceOf(idx));
  }

  lemma RecordInBlock(d: seq<Byte>, idx: nat)
    requires |d| >= BLOCK * DISK_BLOCKS && idx <= MAX_FILES + 4
    ensures RecordHolds(d, idx) <==>
            Block(d, 5 + idx / 4)[INODE_SIZE * (idx % 4)..INODE_SIZE * (idx % 4) + INODE_SIZE] == InodeRecord()
  {
    RecordPlace(idx);
    SliceOfSlice(d, BLOCK * (5 + idx / 4), BLOCK, INODE_SIZE * (idx % 4), INODE_SIZE);
  }

  lemma SliceOfSlice(d: seq<Byte>, at: nat, n: nat, off: nat, k: nat)
    requires at + n <= |d| && off + k <= n
    ensures d[at..at + n][off..off + k] == d[at + off..at + off + k]
  {
    var inner, outer := d[at..at + n][off..off + k], d[at + off..at + off + k];
    assert forall j :: 0 <= j < k ==> inner[j] == d[at + off + j] == outer[j];
  }

  lemma OverlaidRecordIsLost(s: Store, n: nat, idx: nat)
    requires Overlaid(s, n) && 2 <= idx < 8
    ensures !RecordHolds(s.bytes, idx)
  {
    RecordInBlock(s.bytes, idx);
    WordOfRecord();
    assert idx / 4 == if idx < 4 then 0 else 1;
    hide Block, InodeRecord, RecordHolds, Encode;
    var block, from := Block(s.bytes, 5 + idx / 4), INODE_SIZE * (idx % 4);
    assert block[from + 36] <= 1;
    assert block[from..from + INODE_SIZE][36] == block[from + 36];
  }

  lemma WordOfRecord()
    ensures InodeRecord()[36] == 0x99
  {
  }

  /** The bytes of a record: all zero but for the operating system's word, 0x9999. */
  lemma RecordBytes(d: seq<Byte>, idx: nat, j: nat)
    requires RecordHolds(d, idx) && j < 128
    ensures BLOCK * 5 + 128 * idx + j < |d|
    ensures d[BLOCK * 5 + 128 * idx + j] == if j == 36 || j == 37 then 0x99 else 0
  {
    var record := d[RecordAt(idx)..RecordAt(idx) + INODE_SIZE];
    assert record[j] == InodeRecord()[j];
    assert record[j] == d[RecordAt(idx) + j];
  }

  /** Main result: the inode bitmap of the group marks exactly the created files up to 511
      of them, and never again from the 512th on. */
  lemma BitmapExactUpTo511(d: seq<Byte>, superBlock: seq<Byte>, names: seq<seq<Byte>>)
    requires |d| >= BLOCK * DISK_BLOCKS && |superBlock| <= BLOCK && |names| < MAX_FILES
    requires NamesOk(names)
    ensures var r := CreateAll(Open(d, superBlock, true), names);
            r.Some? && (Block(r.value.bytes, 4) == Bitmap(|names|) <==> |names| <= 511)
  {
    FormatHolds(d, superBlock, 0);
    var s := Open(d, superBlock, true);
    if |names| <= 511 {
      FilesSurvive(s, Zeros(BLOCK), names, 0);
    } else {
      StaysOverlaid(s, names, 8);
      assert Zeros(BLOCK)[1] != Bitmap(|names|)[1];
    }
  }

  /** Main result: the files with indices 2 to 7 lose their record to the second group when the
      512th file is created, and no other file ever does. */
  lemma RecordsLostPast511(d: seq<Byte>, superBlock: seq<Byte>, names: seq<seq<Byte>>, idx: nat)
    requires |d| >= BLOCK * DISK_BLOCKS && |superBlock| <= BLOCK && |names| < MAX_FILES
    requires NamesOk(names) && 2 <= idx < |names| + 2
    ensures var r := CreateAll(Open(d, superBlock, true), names);
            r.Some? && (RecordHolds(r.value.bytes, PlaceOf(idx)) <==> |names| <= 511 || idx >= 8)
  {
    hide CreateAll, RecordHolds, Open;
    FormatHolds(d, superBlock, 0);
    var s := Open(d, superBlock, true);
    if |names| <= 511 {
      FilesSurvive(s, Zeros(BLOCK), names, idx);
      assert FileHolds(CreateAll(s, names).value, idx, names[idx - 2]);
    } else {
      StaysOverlaid(s, names, if idx >= 8 then idx else 8);
      if idx < 8 {
        OverlaidRecordIsLost(CreateAll(s, names).value, |names|, idx);
      }
    }
  }

  /** From the 512th file on, block 5 marks exactly the files of the second group. */
  lemma SecondBitmapExact(d: seq<Byte>, superBlock: seq<Byte>, names: seq<seq<Byte>>)
    requires |d| >= BLOCK * DISK_BLOCKS && |superBlock| <= BLOCK && 511 < |names| < MAX_FILES
    requires NamesOk(names)
    ensures var r := CreateAll(Open(d, superBlock, true), names);
            r.Some? && Block(r.value.bytes, 5) == SecondBitmap(|names| - 511)
  {
    hide CreateAll, Open;
    FormatHolds(d, superBlock, 0);
    StaysOverlaid(Open(d, superBlock, true), names, 8);
  }

  /** Main result: what is on the disk of the record of every file but those that lose it. */
  lemma CreatedRecordBytes(d: seq<Byte>, superBlock: seq<Byte>, names: seq<seq<Byte>>, idx: nat, j: nat)
    requires |d| >= BLOCK * DISK_BLOCKS && |superBlock| <= BLOCK && |names| < MAX_FILES
    requires NamesOk(names) && 2 <= idx < |names| + 2 && (|names| <= 511 || idx >= 8) && j < 128
    ensures var r := CreateAll(Open(d, superBlock, true), names);
            var at := 2560 + 128 * (if idx <= 512 then idx else idx + 4) + j;
            r.Some? && at < |r.value.bytes| && r.value.bytes[at] == if j == 36 || j == 37 then 0x99 else 0
  {
    hide CreateAll, RecordHolds, Open;
    RecordsLostPast511(d, superBlock, names, idx);
    RecordBytes(CreateAll(Open(d, superBlock, true), names).value.bytes, PlaceOf(idx), j);
  }
}
