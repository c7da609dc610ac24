/** A disk of bytes read and written in blocks of whole sectors. */
module BlockStore {
  import opened Bytes

  const SECTOR_SIZE: int := 512

  function BlockToSector(block: nat, blockSize: nat): nat
  {
    block * (blockSize / SECTOR_SIZE)
  }

  // ---------- blocks ----------

  function Blocks(d: seq<Byte>, blockSize: nat, block: nat, n: nat): seq<Byte>
    requires (block + n) * blockSize <= |d|
  {
    BlockOrder(blockSize, block, block + n);
    d[block * blockSize..(block + n) * blockSize]
  }

  lemma BlockOrder(blockSize: nat, a: nat, b: nat)
    requires a <= b
    ensures a * blockSize <= b * blockSize
    ensures b * blockSize - a * blockSize == (b - a) * blockSize
  {
    assert (b - a) * blockSize >= 0;
  }

  /** Main result: `n` blocks written read back the same, and every block outside the range
      reads as it did before. */
  lemma WriteThenRead(d: seq<Byte>, blockSize: nat, block: nat, n: nat, data: seq<Byte>, other: nat)
    requires (block + n) * blockSize <= |d| && |data| == n * blockSize
    requires (other + 1) * blockSize <= |d|
    ensures block * blockSize + |data| == (block + n) * blockSize
    ensures var w := Splice(d, block * blockSize, data);
            && Blocks(w, blockSize, block, n) == data
            && (other < block || block + n <= other ==>
                  Blocks(w, blockSize, other, 1) == Blocks(d, blockSize, other, 1))
  {
    BlockOrder(blockSize, block, block + n);
    SpliceReads(d, block * blockSize, data);
    BlockOrder(blockSize, other, other + 1);
    if other < block {
      BlockOrder(blockSize, other + 1, block);
      SpliceApart(d, block * blockSize, data, other * blockSize, (other + 1) * blockSize);
    } else if block + n <= other {
      BlockOrder(blockSize, block + n, other);
      SpliceApart(d, block * blockSize, data, other * blockSize, (other + 1) * blockSize);
    }
  }

  lemma WriteReadsAll(d: seq<Byte>, blockSize: nat, block: nat, n: nat, data: seq<Byte>)
    requires (block + n) * blockSize <= |d| && |data| == n * blockSize
    ensures block * blockSize + |data| == (block + n) * blockSize
    ensures var w := Splice(d, block * blockSize, data);
            && Blocks(w, blockSize, block, n) == data
            && forall other: nat | (other + 1) * blockSize <= |d| ::
                 other < block || block + n <= other ==>
                   Blocks(w, blockSize, other, 1) == Blocks(d, blockSize, other, 1)
  {
    BlockOrder(blockSize, block, block + n);
    SpliceReads(d, block * blockSize, data);
    forall other: nat | (other + 1) * blockSize <= |d| && (other < block || block + n <= other)
      ensures Blocks(Splice(d, block * blockSize, data), blockSize, other, 1) == Blocks(d, blockSize, other, 1)
    {
      WriteThenRead(d, blockSize, block, n, data, other);
    }
  }

  /** Counting in sectors and counting in bytes agree when blocks are whole sectors. */
  lemma SectorsOfBlocks(blockSize: nat, block: nat, n: nat)
    requires blockSize % SECTOR_SIZE == 0
    ensures BlockToSector(block, blockSize) * SECTOR_SIZE == block * blockSize
    ensures (blockSize / SECTOR_SIZE * n) * SECTOR_SIZE == n * blockSize
    ensures block * blockSize + n * blockSize == (block + n) * blockSize
  {
    var k := blockSize / SECTOR_SIZE;
    assert blockSize == k * SECTOR_SIZE;
    Regroup(block, k, SECTOR_SIZE);
    Regroup(n, k, SECTOR_SIZE);
    assert k * n == n * k;
  }

  lemma Regroup(a: int, b: int, c: int)
    ensures (a * b) * c == a * (b * c)
  {
  }

  // ---------- the device ----------

  /** One call moves one sector. */
  class Disk {
    var bytes: seq<Byte>

    constructor (bytes: seq<Byte>)
      ensures this.bytes == bytes
    {
      this.bytes := bytes;
    }

    method ReadSector(lba: nat) returns (data: seq<Byte>)
      requires (lba + 1) * SECTOR_SIZE <= |bytes|
      ensures data == bytes[lba * SECTOR_SIZE..(lba + 1) * SECTOR_SIZE]
    {
      data := bytes[lba * SECTOR_SIZE..(lba + 1) * SECTOR_SIZE];
    }

    method WriteSector(lba: nat, data: seq<Byte>)
      requires |data| == SECTOR_SIZE && (lba + 1) * SECTOR_SIZE <= |bytes|
      modifies this
      ensures bytes == Splice(old(bytes), lba * SECTOR_SIZE, data)
    {
      bytes := bytes[..lba * SECTOR_SIZE] + data + bytes[(lba + 1) * SECTOR_SIZE..];
    }
  }

  /** Block input and output over the device, a sector at a time. */
  class Storage {
    const disk: Disk
    const blockSize: nat

    constructor (disk: Disk, blockSize: nat)
      ensures this.disk == disk && this.blockSize == blockSize
    {
      this.disk := disk;
      this.blockSize := blockSize;
    }

    method Read(buffer: array<Byte>, block: nat, n: nat)
      requires blockSize % SECTOR_SIZE == 0 && (block + n) * blockSize <= |disk.bytes|
      requires n * blockSize <= buffer.Length
      modifies buffer
      ensures buffer[..] == Splice(old(buffer[..]), 0, Blocks(disk.bytes, blockSize, block, n))
    {
      SectorsOfBlocks(blockSize, block, n);
      ghost var start := block * blockSize;
      var sectors := blockSize / SECTOR_SIZE * n;
      var first := BlockToSector(block, blockSize);
      var i := 0;
      while i < sectors
        invariant 0 <= i <= sectors
        invariant buffer[..i * SECTOR_SIZE] == disk.bytes[start..start + i * SECTOR_SIZE]
        invariant buffer[i * SECTOR_SIZE..] == old(buffer[..])[i * SECTOR_SIZE..]
      {
        var data := disk.ReadSector(first + i);
        CopyInto(buffer, i * SECTOR_SIZE, data);
        assert disk.bytes[start..start + (i + 1) * SECTOR_SIZE] ==
               disk.bytes[start..start + i * SECTOR_SIZE] + data;
        i := i + 1;
      }
      assert buffer[..] == buffer[..n * blockSize] + buffer[n * blockSize..];
    }

    method Write(buffer: array<Byte>, block: nat, n: nat)
      requires blockSize % SECTOR_SIZE == 0 && (block + n) * blockSize <= |disk.bytes|
      requires n * blockSize <= buffer.Length
      modifies disk
      ensures block * blockSize + n * blockSize == (block + n) * blockSize
      ensures disk.bytes == Splice(old(disk.bytes), block * blockSize, buffer[..n * blockSize])
    {
      hide Splice;
      SectorsOfBlocks(blockSize, block, n);
      ghost var start := block * blockSize;
      var sectors := blockSize / SECTOR_SIZE * n;
      var first := BlockToSector(block, blockSize);
      var i := 0;
      SpliceSame(disk.bytes, start, 0);
      assert disk.bytes[start..start] == buffer[..0];
      while i < sectors
        invariant 0 <= i <= sectors
        invariant disk.bytes == Splice(old(disk.bytes), start, buffer[..i * SECTOR_SIZE])
      {
        var data := buffer[i * SECTOR_SIZE..(i + 1) * SECTOR_SIZE];
        SpliceAppend(old(disk.bytes), start, buffer[..i * SECTOR_SIZE], data);
        assert buffer[..(i + 1) * SECTOR_SIZE] == buffer[..i * SECTOR_SIZE] + data;
        disk.WriteSector(first + i, data);
        i := i + 1;
      }
    }
  }

  /** Blocks written from one buffer come back in another; the blocks around them stay. */
  method WriteReadBack(storage: Storage, source: array<Byte>, target: array<Byte>, block: nat, n: nat)
    requires storage.blockSize % SECTOR_SIZE == 0 && (block + n) * storage.blockSize <= |storage.disk.bytes|
    requires n * storage.blockSize <= source.Length && n * storage.blockSize <= target.Length
    requires source != target
    modifies storage.disk, target
    ensures target[..n * storage.blockSize] == source[..n * storage.blockSize]
    ensures target[n * storage.blockSize..] == old(target[n * storage.blockSize..])
    ensures |storage.disk.bytes| == |old(storage.disk.bytes)|
    ensures forall other: nat | (other + 1) * storage.blockSize <= |storage.disk.bytes| ::
              other < block || block + n <= other ==>
                Blocks(storage.disk.bytes, storage.blockSize, other, 1) ==
                Blocks(old(storage.disk.bytes), storage.blockSize, other, 1)
  {
    hide Splice, Blocks;
    var size := storage.blockSize;
    ghost var was := old(storage.disk.bytes);
    storage.Write(source, block, n);
    ghost var data := source[..n * size];
    WriteReadsAll(was, size, block, n, data);
    storage.Read(target, block, n);
    SpliceReads(old(target[..]), 0, data);
    SpliceApart(old(target[..]), 0, data, |data|, target.Length);
  }

  /** memcpy into a buffer. */
  method CopyInto(buffer: array<Byte>, at: nat, data: seq<Byte>)
    requires at + |data| <= buffer.Length
    modifies buffer
    ensures buffer[..] == Splice(old(buffer[..]), at, data)
  {
    forall i | 0 <= i < |data| {
      buffer[at + i] := data[i];
    }
    forall k | 0 <= k < buffer.Length
      ensures buffer[k] == Splice(old(buffer[..]), at, data)[k]
    {
      SpliceAt(old(buffer[..]), at, data, k);
    }
  }
}
