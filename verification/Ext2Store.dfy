/** The store as the driver runs it: one block buffer, the inode cache and the device. */
module Ext2Store {
  import opened Basics
  import opened Bytes
  import opened BlockStore
  import opened Ext2Model

  class Fs {
    const storage: Storage
    const buffer: array<Byte>
    const cache: array<Byte>

    ghost predicate Valid()
      reads this, storage, storage.disk, cache, buffer
    {
      && storage.blockSize == BLOCK
      && buffer.Length == BLOCK && buffer != cache
      && Sized(Store(storage.disk.bytes, cache[..]))
    }

    ghost function State(): Store
      requires Valid()
      reads this, storage, storage.disk, cache, buffer
    {
      Store(storage.disk.bytes, cache[..])
    }

    method ZeroBuffer()
      requires Valid()
      modifies buffer
      ensures buffer[..] == Zeros(BLOCK)
    {
      forall i | 0 <= i < buffer.Length {
        buffer[i] := 0;
      }
    }

    method ReadBlock(target: array<Byte>, block: nat)
      requires Valid() && target.Length == BLOCK && block < DISK_BLOCKS
      modifies target
      ensures target[..] == Block(storage.disk.bytes, block)
    {
      storage.Read(target, block, 1);
      WholeBlock(storage.disk.bytes, old(target[..]), block);
    }

    method WriteBlock(source: array<Byte>, block: nat)
      requires Valid() && source.Length == BLOCK && block < DISK_BLOCKS
      modifies storage.disk
      ensures Valid() && storage.disk.bytes == SetBlock(old(storage.disk.bytes), block, source[..])
    {
      storage.Write(source, block, 1);
      assert source[..BLOCK] == source[..];
    }

    method WriteObject(obj: seq<Byte>, block: nat)
      requires Valid() && |obj| <= BLOCK && block < DISK_BLOCKS
      modifies buffer, storage.disk
      ensures Valid() && storage.disk.bytes == SetBlock(old(storage.disk.bytes), block, Padded(obj))
    {
      ZeroBuffer();
      CopyInto(buffer, 0, obj);
      assert buffer[..] == Padded(obj);
      WriteBlock(buffer, block);
    }

    method ReadObject(block: nat, size: nat) returns (obj: seq<Byte>)
      requires Valid() && size <= BLOCK && block < DISK_BLOCKS
      modifies buffer
      ensures obj == Block(storage.disk.bytes, block)[..size]
    {
      ZeroBuffer();
      ReadBlock(buffer, block);
      obj := buffer[..size];
    }

    method ZeroBlock(block: nat)
      requires Valid() && block < DISK_BLOCKS
      modifies buffer, storage.disk
      ensures Valid() && storage.disk.bytes == SetBlock(old(storage.disk.bytes), block, Zeros(BLOCK))
    {
      ZeroBuffer();
      WriteBlock(buffer, block);
    }

    method ForceBlockGroup(at: nat) returns (descriptor: GroupDescriptor)
      requires Valid() && at < DISK_BLOCKS
      modifies buffer, storage.disk
      ensures Valid() && descriptor == NewDescriptor(at)
      ensures storage.disk.bytes == ForceGroup(old(storage.disk.bytes), at)
    {
      hide SetBlock, Encode, Padded;
      descriptor := Truncated(GroupDescriptor(at + 1, at + 2, at + 3, BLOCK, BLOCK, 0));
      WriteObject(Encode(descriptor), at);
      ZeroBlock(descriptor.blockBitmap);
      ZeroBlock(descriptor.inodeBitmap);
      ZeroBlock(descriptor.inodeTable);
    }

    /** `newStorage` is the build's K_NEW_STORAGE. */
    constructor (disk: Disk, superBlock: seq<Byte>, newStorage: bool)
      requires |disk.bytes| >= BLOCK * DISK_BLOCKS && |superBlock| <= BLOCK
      modifies disk
      ensures Valid() && fresh(buffer) && fresh(cache)
      ensures storage.disk == disk && State() == Open(old(disk.bytes), superBlock, newStorage)
    {
      storage := new Storage(disk, BLOCK);
      buffer := new Byte[BLOCK](_ => 0);
      cache := new Byte[CACHE_BYTES](_ => 0);
      new;
      hide SetBlock, Encode, ForceGroup;
      WriteObject(superBlock, SUPER_BLOCK);
      if newStorage {
        var descriptor := ForceBlockGroup(SUPER_BLOCK + 1);
      } else {
        var descriptor, blockBitmap, inodeBitmap := FindBlockGroup(SUPER_BLOCK + 1);
      }
      assert cache[..] == Zeros(CACHE_BYTES);
      PlaceEntry(1, ROOT);
    }

    method PlaceEntry(idx: nat, name: seq<Byte>)
      requires Valid() && 0 < idx <= MAX_FILES
      modifies cache
      ensures Valid() && cache[..] == PlaceFile(old(cache[..]), idx - 1, name)
    {
      CopyInto(cache, ENTRY_SIZE * (idx - 1) + NAME_SIZE, Word(idx));
      CopyInto(cache, ENTRY_SIZE * (idx - 1), Clipped(name, idx - 1));
    }

    method EntryIndex(i: nat) returns (idx: nat)
      requires Valid() && i < MAX_FILES
      ensures idx == IndexOf(cache[..], i)
    {
      var at := ENTRY_SIZE * i + NAME_SIZE;
      idx := FromWord(cache[at], cache[at + 1], cache[at + 2], cache[at + 3]);
    }

    method AvailableInode() returns (idx: Option<nat>)
      requires Valid()
      ensures var k := FirstUnused(cache[..], 0); idx == if k == MAX_FILES then None else Some(k + 1)
    {
      var i := 0;
      while i < MAX_FILES
        invariant 0 <= i <= MAX_FILES
        invariant FirstUnused(cache[..], 0) == FirstUnused(cache[..], i)
      {
        var idx := EntryIndex(i);
        if idx == 0 {
          return Some(i + 1);
        }
        i := i + 1;
      }
      return None;
    }

    method FindBlockGroup(at: nat)
      returns (descriptor: GroupDescriptor, blockBitmap: array<Byte>, inodeBitmap: array<Byte>)
      requires Valid() && at < DISK_BLOCKS
      modifies buffer, storage.disk
      ensures Valid() && fresh(blockBitmap) && fresh(inodeBitmap) && blockBitmap != inodeBitmap
      ensures blockBitmap.Length == BLOCK == inodeBitmap.Length
      ensures (storage.disk.bytes, Group(descriptor, blockBitmap[..], inodeBitmap[..])) ==
              GetGroup(old(storage.disk.bytes), at)
    {
      hide ForceGroup, Encode;
      var raw := ReadObject(at, 4);
      descriptor := Decode(raw);
      assert descriptor == Decode(Block(storage.disk.bytes, at));
      if descriptor.blockBitmap == 0 || descriptor.inodeBitmap == 0 {
        descriptor := ForceBlockGroup(at);
      }
      blockBitmap := new Byte[BLOCK](_ => 0);
      inodeBitmap := new Byte[BLOCK](_ => 0);
      ReadBlock(blockBitmap, descriptor.blockBitmap);
      ReadBlock(inodeBitmap, descriptor.inodeBitmap);
    }

    method WriteBlockGroup(descriptor: GroupDescriptor, blockBitmap: array<Byte>, inodeBitmap: array<Byte>,
                           at: nat, inode: seq<Byte>, idx: nat)
      requires Valid() && at < DISK_BLOCKS && idx <= MAX_FILES && Small(descriptor)
      requires blockBitmap.Length == BLOCK == inodeBitmap.Length && inode == InodeRecord()
      requires blockBitmap != buffer && inodeBitmap != buffer
      modifies buffer, storage.disk
      ensures Valid()
      ensures storage.disk.bytes ==
              WriteGroup(old(storage.disk.bytes), Group(descriptor, blockBitmap[..], inodeBitmap[..]), at, idx)
    {
      hide SetBlock, Encode, Padded;
      WriteObject(Encode(descriptor), at);
      WriteBlock(blockBitmap, descriptor.blockBitmap);
      WriteBlock(inodeBitmap, descriptor.inodeBitmap);
      var inodeBlock := descriptor.inodeTable + ContainingBlock(idx);
      var offset := INODE_SIZE * (idx % 4);
      ReadBlock(buffer, inodeBlock);
      ghost var was := buffer[..];
      CopyInto(buffer, offset, Zeros(INODE_SIZE));
      CopyInto(buffer, offset, inode);
      SpliceTwice(was, offset, Zeros(INODE_SIZE), inode);
      WriteBlock(buffer, inodeBlock);
    }

    /** False is the failed assertion that an inode is available. */
    method CreateFileNamed(name: seq<Byte>) returns (created: bool)
      requires Valid() && NameOk(name)
      modifies buffer, storage.disk, cache
      ensures Valid()
      ensures created <==> CreateFile(old(State()), name).Some?
      ensures created ==> State() == CreateFile(old(State()), name).value
      ensures !created ==> State() == old(State())
    {
      hide WriteGroup, GetGroup, InodeRecord;
      var available := AvailableInode();
      if available.None? {
        return false;
      }
      var idx := available.value;
      var at := GroupBlock(idx);
      var descriptor, blockBitmap, inodeBitmap := FindBlockGroup(at);
      ghost var d := storage.disk.bytes;
      ghost var g := Group(descriptor, blockBitmap[..], inodeBitmap[..]);
      inodeBitmap[IndexInGroup(idx)] := 1;
      assert inodeBitmap[..] == g.inodeBitmap[IndexInGroup(idx) := 1];
      PlaceEntry(idx, name);
      WriteBlockGroup(descriptor, blockBitmap, inodeBitmap, at, InodeRecord(), idx);
      return true;
    }
  }

  lemma WholeBlock(d: seq<Byte>, was: seq<Byte>, block: nat)
    requires |d| >= BLOCK * DISK_BLOCKS && |was| == BLOCK && block < DISK_BLOCKS
    ensures Splice(was, 0, Blocks(d, BLOCK, block, 1)) == Block(d, block)
  {
  }

  lemma SpliceTwice(d: seq<Byte>, at: nat, x: seq<Byte>, y: seq<Byte>)
    requires |x| == |y| && at + |x| <= |d|
    ensures Splice(Splice(d, at, x), at, y) == Splice(d, at, y)
  {
  }
}
