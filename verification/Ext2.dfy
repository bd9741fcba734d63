/** EXT2 from a path to file bytes: get_inode_in_dir over the bytes of a disk, the path
    parser on top of it, and read_file. */
module Ext2 {
  import opened Wrappers
  import opened Bits
  import opened Memory
  import opened FlatHeap
  import opened BlockRead
  import opened Ext2Path
  import opened Ext2Dir
  import opened Ext2Disk

  // The fields of an inode record that the driver reads.

  function Mode(inode: seq<byte>): nat
    requires |inode| == INODE_SIZE
  {
    Le(inode[0..2])
  }

  function FirstBlock(inode: seq<byte>): nat
    requires |inode| == INODE_SIZE
  {
    Le(inode[40..44])
  }

  /** From a record as it is written, they are i_mode and i_block[0]. */
  lemma WrittenInode(r: Inode)
    requires InodeOk(r)
    ensures Mode(WriteInode(r)) == r.i_mode && FirstBlock(WriteInode(r)) == r.i_block[0]
  {
    hide WriteInode;
    InodeLayout(r);
    assert Pow256(2) == 0x1_0000 && Pow256(4) == 0x1_0000_0000;
    LeToLe(r.i_mode, 2);
    LeToLe(r.i_block[0], 4);
  }

  /** Byte offset in the partition of the first block of a file or directory. */
  function DataAt(v: Volume, inode: seq<byte>): nat
    requires |inode| == INODE_SIZE
  {
    Times32(v.block_size, FirstBlock(inode))
  }

  predicate VolumeOk(v: Volume) {
    BlockSize(v.block_size) && v.inodes_per_group > 0
  }

  predicate InodeKnown(v: Volume, i: nat) {
    v.inodes_per_group > 0 && i > 0 && Group(v, i) < |v.tables|
  }

  // get_inode_in_dir on the heap.

  /** kalloc for the block, and the two kallocs of read. */
  ghost predicate BlockFits(h: Flat, v: Volume) {
    Fits(h, v.block_size) && ReadFits(NewBlock(h, v.block_size), v.block_size)
  }

  /** What read delivers as the directory's block. */
  function SeenBlock(h: Flat, disk: seq<byte>, v: Volume, dir: seq<byte>): (s: seq<byte>)
    requires BlockFits(h, v) && |dir| == INODE_SIZE
    ensures |s| == v.block_size
  {
    ReadBytes(NewBlock(h, v.block_size), disk, DataAt(v, dir), v.block_size)
  }

  /** The heap when the directory is searched. */
  function BlockHeap(h: Flat, disk: seq<byte>, v: Volume, dir: seq<byte>): (r: Flat)
    requires BlockFits(h, v) && |dir| == INODE_SIZE
    ensures h.at + 16 + v.block_size + 8 <= r.at <= |r.bytes|
  {
    hide Served, NewBlock, FlatKalloc, ReadBytes, DataAt, TempSize;
    var r := AfterRead(NewBlock(h, v.block_size), disk, DataAt(v, dir), v.block_size);
    Flat(SetBytes(r.bytes, h.at + 16, SeenBlock(h, disk, v, dir)), r.at)
  }

  /** What the search sees behind the block. */
  function SeenBehind(h: Flat, disk: seq<byte>, v: Volume, dir: seq<byte>): (s: seq<byte>)
    requires BlockFits(h, v) && |dir| == INODE_SIZE
    ensures |s| >= 8
  {
    hide BlockHeap;
    BlockHeap(h, disk, v, dir).bytes[h.at + 16 + v.block_size..]
  }

  /** Room for the block, and for the buffers and requests of both reads. */
  function LookupSize(v: Volume): nat {
    16 + v.block_size + (32 + TempSize(v.block_size) + REQUEST_SIZE) + (32 + TempSize(INODE_SIZE) + REQUEST_SIZE)
  }

  /** A lookup finds room on the heap, stays inside memory, and ends in a known group. */
  ghost predicate LookupOk(h: Flat, disk: seq<byte>, v: Volume, dir: seq<byte>, name: seq<byte>) {
    && VolumeOk(v) && |dir| == INODE_SIZE && BlockFits(h, v)
    && ReadFits(BlockHeap(h, disk, v, dir), INODE_SIZE)
    && (PassesDirCheck(Mode(dir)) ==>
          && WalkIn(SeenBlock(h, disk, v, dir) + SeenBehind(h, disk, v, dir), 0, LOOKUPS, name)
          && match Lookup10(SeenBlock(h, disk, v, dir), SeenBehind(h, disk, v, dir), name)
             case None => true
             case Some(i) => InodeKnown(v, i))
  }

  lemma LookupParts(h: Flat, disk: seq<byte>, v: Volume, dir: seq<byte>, name: seq<byte>)
    requires LookupOk(h, disk, v, dir, name)
    ensures |dir| == INODE_SIZE == 256 && BlockFits(h, v) && ReadFits(BlockHeap(h, disk, v, dir), INODE_SIZE)
    ensures PassesDirCheck(Mode(dir)) ==>
              && WalkIn(SeenBlock(h, disk, v, dir) + SeenBehind(h, disk, v, dir), 0, LOOKUPS, name)
              && (Lookup10(SeenBlock(h, disk, v, dir), SeenBehind(h, disk, v, dir), name).Some? ==>
                    var i := Lookup10(SeenBlock(h, disk, v, dir), SeenBehind(h, disk, v, dir), name).value;
                    v.inodes_per_group > 0 && i > 0 && Group(v, i) < |v.tables|)
  {
    hide SeenBlock, SeenBehind, BlockHeap, ReadBytes, WalkIn, FirstMatch, EntryIn, NewBlock, BlockSize, PassesDirCheck;
    hide Lookup10, Le, Mode, Fits, ReadFits, BlockFits, Group;
  }

  /** The record with which the lookup of a name overwrites the directory's. */
  function CodeLookup(h: Flat, disk: seq<byte>, v: Volume, dir: seq<byte>, name: seq<byte>): (r: Option<seq<byte>>)
    requires LookupOk(h, disk, v, dir, name)
    ensures r.Some? ==> |r.value| == INODE_SIZE
  {
    LookupParts(h, disk, v, dir, name);
    hide *;
    if !PassesDirCheck(Mode(dir)) then None
    else
      match Lookup10(SeenBlock(h, disk, v, dir), SeenBehind(h, disk, v, dir), name)
      case None => None
      case Some(i) => Some(ReadBytes(BlockHeap(h, disk, v, dir), disk, InodeAt(v, i), INODE_SIZE))
  }

  /** The search of the directory leaves everything allocated before it alone, and what lies
      behind the block begins with the heap header of read's temporary buffer. */
  lemma BlockHeapFacts(h: Flat, disk: seq<byte>, v: Volume, dir: seq<byte>)
    requires BlockFits(h, v) && |dir| == INODE_SIZE && h.at <= |h.bytes|
    ensures
      var r := BlockHeap(h, disk, v, dir);
      && FlatOk(r) && (forall i | 0 <= i < h.at :: r.bytes[i] == h.bytes[i])
      && r.bytes[h.at + 16..] == SeenBlock(h, disk, v, dir) + SeenBehind(h, disk, v, dir)
      && SeenBehind(h, disk, v, dir)[..8] == ToLe(TempSize(v.block_size), 8)
  {
    hide Served, NewBlock, FlatKalloc, ReadBytes, DataAt, TempSize, SetBytes, ToLe, Word, Fits, FlatOk;
    var bs := v.block_size;
    var h1, data := NewBlock(h, bs), h.at + 16;
    var a := NewBlock(h1, TempSize(bs));
    var r, r1 := AfterRead(h1, disk, DataAt(v, dir), bs), BlockHeap(h, disk, v, dir);
    ServedFacts(a, disk, FirstSector(DataAt(v, dir)), TempSize(bs), h1.at + 16);
    FlatOkRoom(h1);
    SamePrefix(h.bytes, h1.bytes, h.at);
    SamePrefix(h1.bytes, a.bytes, h1.at);
    WordBytes(a.bytes, h1.at);
    ServedKeepsFree(r1, r);
    assert r1.bytes[h1.at..h1.at + 8] == r.bytes[h1.at..h1.at + 8] == a.bytes[h1.at..h1.at + 8];
    JoinSlices(r1.bytes, data, bs, 8);
  }

  lemma FlatOkRoom(h: Flat)
    requires FlatOk(h)
    ensures h.at + 16 <= |h.bytes|
  {
  }

  lemma JoinSlices(b: seq<byte>, at: nat, n: nat, k: nat)
    requires at + n + k <= |b|
    ensures b[at..] == b[at..at + n] + b[at + n..] && b[at + n..][..k] == b[at + n..at + n + k]
  {
  }

  lemma RoomReads(h: Flat, disk: seq<byte>, offset: nat, length: nat, n: nat)
    requires Room(h, 32 + TempSize(length) + REQUEST_SIZE + n)
    ensures ReadFits(h, length) && Room(AfterRead(h, disk, offset, length), n)
  {
    hide NewBlock, Served, TempSize, FirstSector, Fits, FlatOk, ImageBehind, Word, OnDisk, Blocks;
    RoomFits(h, TempSize(length), 16 + REQUEST_SIZE + n);
    var a := NewBlock(h, TempSize(length));
    RoomFits(a, REQUEST_SIZE, n);
    ServedFacts(a, disk, FirstSector(offset), TempSize(length), h.at + 16);
  }

  lemma RoomLooksUp(h: Flat, disk: seq<byte>, v: Volume, dir: seq<byte>)
    requires Room(h, LookupSize(v)) && |dir| == INODE_SIZE
    ensures BlockFits(h, v) && ReadFits(BlockHeap(h, disk, v, dir), INODE_SIZE) && h.at <= |h.bytes|
  {
    hide NewBlock, Served, TempSize, AfterRead, Fits, FlatOk, DataAt, BlockHeap, ReadFits;
    var bs, rest := v.block_size, 32 + TempSize(INODE_SIZE) + REQUEST_SIZE;
    RoomFits(h, bs, 32 + TempSize(bs) + REQUEST_SIZE + rest);
    RoomReads(NewBlock(h, bs), disk, DataAt(v, dir), bs, rest);
    FlatOkRoom(h);
    assert BlockFits(h, v);
    BlockHeapFacts(h, disk, v, dir);
    BlockHeapAt(h, disk, v, dir);
    RoomReads(BlockHeap(h, disk, v, dir), disk, 0, INODE_SIZE, 0);
  }

  lemma BlockHeapAt(h: Flat, disk: seq<byte>, v: Volume, dir: seq<byte>)
    requires BlockFits(h, v) && |dir| == INODE_SIZE
    ensures BlockHeap(h, disk, v, dir).at ==
            AfterRead(NewBlock(h, v.block_size), disk, DataAt(v, dir), v.block_size).at
  {
  }

  /** The first part of get_inode_in_dir: the directory's block is read into a new heap block. */
  method ReadDirectory(d: Driver, disk: seq<byte>, v: Volume, inode: seq<byte>) returns (data: nat)
    requires BlockFits(d.h, v) && |inode| == INODE_SIZE
    modifies d
    ensures data == old(d.h).at + 16 && d.h == BlockHeap(old(d.h), disk, v, inode)
  {
    hide Served, NewBlock, FlatKalloc, ReadBytes, TempSize, SetBytes, Fits, FlatOk, AfterRead, ReadIsExact, Wanted;
    data := d.Kalloc(v.block_size);
    var _ := d.Read(disk, DataAt(v, inode), v.block_size, data);
  }

  /** get_inode_in_dir: the record at heap address `dir` is overwritten by the one of the
      inode found, or left alone. */
  method GetInodeInDir(d: Driver, disk: seq<byte>, v: Volume, dir: nat, name: seq<byte>) returns (res: int)
    requires dir + INODE_SIZE <= d.h.at <= |d.h.bytes|
    requires LookupOk(d.h, disk, v, d.h.bytes[dir..dir + INODE_SIZE], name)
    modifies d
    ensures FlatOk(d.h) && old(d.h).at <= d.h.at <= old(d.h).at + LookupSize(v) && d.h.at <= |d.h.bytes|
    ensures forall i | 0 <= i < old(d.h).at && !(dir <= i < dir + INODE_SIZE) :: d.h.bytes[i] == old(d.h).bytes[i]
    ensures
      var inode := old(d.h).bytes[dir..dir + INODE_SIZE];
      match CodeLookup(old(d.h), disk, v, inode, name)
      case None => res == -1 && d.h.bytes[dir..dir + INODE_SIZE] == inode
      case Some(record) => res == 0 && d.h.bytes[dir..dir + INODE_SIZE] == record
  {
    hide Served, NewBlock, FlatKalloc, ReadBytes, TempSize, SetBytes, WalkIn, FirstMatch, Fits, FlatOk, EntryInode;
    hide EntryIn, Readable, AfterRead, SeenBlock, SeenBehind, PassesDirCheck, ReadFits, InodeAt, ReadIsExact, Wanted;
    hide Mode, Le, RecLen, EntryName, BlockHeap, LookupOk, FindsWritten;
    ghost var h0 := d.h;
    var inode := d.h.bytes[dir..dir + INODE_SIZE];
    LookupParts(h0, disk, v, inode, name);
    FitsAt(h0, v.block_size);
    if !PassesDirCheck(Mode(inode)) {
      return -1;
    }
    var data := ReadDirectory(d, disk, v, inode);
    BlockHeapFacts(h0, disk, v, inode);
    BlockHeapAt(h0, disk, v, inode);
    var found := FindEntry(d.h.bytes[data..], name);
    match found {
      case None =>
        assert d.h.bytes[dir..dir + INODE_SIZE] == inode;
        return -1;
      case Some(i) =>
        res := d.Read(disk, InodeAt(v, i), INODE_SIZE, dir);
    }
  }

  // What a lookup means on the disk.

  /** A range that read delivers exactly. */
  predicate Readable(disk: seq<byte>, offset: nat, length: nat) {
    PARTITION + offset + length <= |disk| && ReadIsExact(|disk|, offset, length)
  }

  /** Inode i lies in a group of the volume, and its record can be read. */
  predicate InodeOn(disk: seq<byte>, v: Volume, i: nat) {
    InodeKnown(v, i) && Readable(disk, InodeAt(v, i), INODE_SIZE)
  }

  function InodeRecord(disk: seq<byte>, v: Volume, i: nat): (r: seq<byte>)
    requires InodeOn(disk, v, i)
    ensures |r| == INODE_SIZE
  {
    Wanted(disk, InodeAt(v, i), INODE_SIZE)
  }

  /** The block of a directory can be read. */
  predicate BlockOn(disk: seq<byte>, v: Volume, dir: seq<byte>)
    requires |dir| == INODE_SIZE
  {
    Readable(disk, DataAt(v, dir), v.block_size)
  }

  function DirBlock(disk: seq<byte>, v: Volume, dir: seq<byte>): (b: seq<byte>)
    requires |dir| == INODE_SIZE && BlockOn(disk, v, dir)
    ensures |b| == v.block_size
  {
    Wanted(disk, DataAt(v, dir), v.block_size)
  }

  /** A lookup that the disk alone decides. */
  predicate StepOk(disk: seq<byte>, v: Volume, dir: seq<byte>, name: seq<byte>) {
    && VolumeOk(v) && |dir| == INODE_SIZE
    && (PassesDirCheck(Mode(dir)) ==>
          && BlockOn(disk, v, dir)
          && WalkIn(DirBlock(disk, v, dir) + NextHeader(v.block_size), 0, LOOKUPS, name)
          && match Lookup10(DirBlock(disk, v, dir), NextHeader(v.block_size), name)
             case None => true
             case Some(i) => InodeOn(disk, v, i))
  }

  function DiskLookup(disk: seq<byte>, v: Volume, dir: seq<byte>, name: seq<byte>): (r: Option<seq<byte>>)
    requires StepOk(disk, v, dir, name)
    ensures r.Some? ==> |r.value| == INODE_SIZE
  {
    if !PassesDirCheck(Mode(dir)) then None
    else
      match Lookup10(DirBlock(disk, v, dir), NextHeader(v.block_size), name)
      case None => None
      case Some(i) => Some(InodeRecord(disk, v, i))
  }

  lemma BlockTempSize(v: Volume)
    requires VolumeOk(v)
    ensures TempSize(v.block_size) == v.block_size + SECTOR
  {
    BlockAligned(v.block_size, 0);
  }

  lemma ReadableExact(h: Flat, disk: seq<byte>, offset: nat, length: nat)
    requires ReadFits(h, length) && Readable(disk, offset, length)
    ensures ReadBytes(h, disk, offset, length) == Wanted(disk, offset, length)
  {
    ExactWhenFits(h, disk, offset, length);
  }

  /** Whatever the heap holds, get_inode_in_dir finds what the disk says. */
  lemma HeapDoesNotMatter(h: Flat, disk: seq<byte>, v: Volume, dir: seq<byte>, name: seq<byte>)
    requires StepOk(disk, v, dir, name) && Room(h, LookupSize(v))
    ensures LookupOk(h, disk, v, dir, name)
    ensures CodeLookup(h, disk, v, dir, name) == DiskLookup(disk, v, dir, name)
  {
    hide ReadBytes, Readable, WalkIn, FirstMatch, FlatOk, Fits, BlockHeap, SeenBehind, DataAt, NextHeader;
    hide ReadFits, NewBlock, EntryIn, EntryInode, BlockSize, TempSize, LookupSize, Lookup10, PassesDirCheck;
    RoomLooksUp(h, disk, v, dir);
    if PassesDirCheck(Mode(dir)) {
      SeenIsDisk(h, disk, v, dir);
      var header, behind := NextHeader(v.block_size), SeenBehind(h, disk, v, dir);
      LookupExtends(DirBlock(disk, v, dir), header, behind[8..], name);
      assert behind == header + behind[8..];
      var found := Lookup10(DirBlock(disk, v, dir), header, name);
      if found.Some? {
        ReadableExact(BlockHeap(h, disk, v, dir), disk, InodeAt(v, found.value), INODE_SIZE);
      }
    }
  }

  lemma SeenIsDisk(h: Flat, disk: seq<byte>, v: Volume, dir: seq<byte>)
    requires VolumeOk(v) && |dir| == INODE_SIZE && BlockOn(disk, v, dir) && BlockFits(h, v) && h.at <= |h.bytes|
    ensures SeenBlock(h, disk, v, dir) == DirBlock(disk, v, dir)
    ensures SeenBehind(h, disk, v, dir)[..8] == NextHeader(v.block_size)
  {
    hide ReadBytes, Readable, FlatOk, Fits, BlockHeap, SeenBehind, DataAt, NewBlock, BlockSize, TempSize, ToLe;
    BlockHeapFacts(h, disk, v, dir);
    BlockTempSize(v);
    ReadableExact(NewBlock(h, v.block_size), disk, DataAt(v, dir), v.block_size);
  }

  /** Directory record dir lists the name, among its first ten entries, as inode i. */
  ghost predicate Lists(disk: seq<byte>, v: Volume, dir: seq<byte>, name: seq<byte>, i: nat) {
    && |dir| == INODE_SIZE && PassesDirCheck(Mode(dir)) && BlockOn(disk, v, dir) && InodeOn(disk, v, i)
    && exists es: seq<Entry> ::
         Chain(DirBlock(disk, v, dir), 0, es, v.block_size) && Find(FirstTen(es), name) == Some(i)
  }

  lemma BlockBelowLimit(v: Volume)
    requires VolumeOk(v)
    ensures v.block_size + SECTOR < 0x1_0000_0000
  {
    var k: nat :| k <= 20 && v.block_size == 1024 * Pow2(k);
    Pow2Twenty();
    hide Pow2;
    PowerGrows(k, 20);
  }

  lemma Pow2Twenty()
    ensures Pow2(20) == 0x10_0000
  {
    assert Pow2(7) == 0x80;
    assert Pow2(14) == 0x4000;
  }

  lemma {:induction false} PowerGrows(k: nat, n: nat)
    requires k <= n
    ensures Pow2(k) <= Pow2(n)
    decreases n
  {
    if k < n { PowerGrows(k, n - 1); }
  }

  /** Where read is exact, it delivers what the disk holds from the partition's start at 1 MiB
      plus the offset on. */
  lemma ReachedBytes(disk: seq<byte>, offset: nat, n: nat)
    requires InReach(|disk|, 0x10_0000 + offset, n) && FitsSectors(offset, n)
    ensures Readable(disk, offset, n)
    ensures Wanted(disk, offset, n) == disk[0x10_0000 + offset..0x10_0000 + offset + n]
  {
    assert (offset + SECTOR * PARTITION_SECTOR) / SECTOR == (0x10_0000 + offset) / 512;
  }

  lemma RecordReached(disk: seq<byte>, v: Volume, g: nat, k: nat, i: nat)
    requires VolumeOk(v) && Numbered(v, g, k, i)
    requires InReach(|disk|, 0x10_0000 + v.block_size * v.tables[g] % 0x1_0000_0000 + 256 * k, 256)
    ensures InodeOn(disk, v, i)
    ensures
      var at := 0x10_0000 + v.block_size * v.tables[g] % 0x1_0000_0000 + 256 * k;
      InodeRecord(disk, v, i) == disk[at..at + 256]
  {
    hide BlockSize, FitsSectors, Readable, ReadIsExact, Wanted;
    InodePlace(v, g, k, i);
    Ext2ReadsFit(v.block_size, 0, v.tables[g], k, 0, 0);
    ReachedBytes(disk, v.block_size * v.tables[g] % 0x1_0000_0000 + 256 * k, 256);
  }

  /** The block that a record names, of any size. */
  lemma BlockReached(disk: seq<byte>, v: Volume, r: Inode, n: nat)
    requires VolumeOk(v) && InodeOk(r)
    requires InReach(|disk|, 0x10_0000 + v.block_size * r.i_block[0] % 0x1_0000_0000, n)
    ensures Readable(disk, DataAt(v, WriteInode(r)), n)
    ensures
      var at := 0x10_0000 + v.block_size * r.i_block[0] % 0x1_0000_0000;
      Wanted(disk, DataAt(v, WriteInode(r)), n) == disk[at..at + n]
  {
    hide BlockSize, FitsSectors, Readable, ReadIsExact, Wanted, WriteInode;
    WrittenInode(r);
    Ext2ReadsFit(v.block_size, 0, 0, 0, r.i_block[0], n);
    ReachedBytes(disk, v.block_size * r.i_block[0] % 0x1_0000_0000, n);
  }

  /** A listed name is looked up to its inode's record on the disk: for inode number k of
      group g the 256 bytes at record k of the group's table. */
  lemma ListedResolves(disk: seq<byte>, v: Volume, dir: seq<byte>, name: seq<byte>, i: nat)
    requires VolumeOk(v) && Lists(disk, v, dir, name, i)
    ensures StepOk(disk, v, dir, name)
    ensures DiskLookup(disk, v, dir, name) == Some(InodeRecord(disk, v, i))
    ensures forall g: nat, k: nat | Numbered(v, g, k, i) ::
              var at := 0x10_0000 + v.block_size * v.tables[g] % 0x1_0000_0000 + 256 * k;
              at + 256 <= |disk| && InodeRecord(disk, v, i) == disk[at..at + 256]
  {
    forall g: nat, k: nat | Numbered(v, g, k, i)
      ensures
        var at := 0x10_0000 + v.block_size * v.tables[g] % 0x1_0000_0000 + 256 * k;
        at + 256 <= |disk| && InodeRecord(disk, v, i) == disk[at..at + 256]
    {
      InodePlace(v, g, k, i);
    }
    hide Chain, WalkIn, Readable, BlockSize, PassesDirCheck, Lookup10, FirstTen, InodeAt, Wanted, NextHeader;
    var block := DirBlock(disk, v, dir);
    var es: seq<Entry> :| Chain(block, 0, es, v.block_size) && Find(FirstTen(es), name) == Some(i);
    BlockBelowLimit(v);
    LookupExactly(block, es, name);
  }

  /** The block of a directory is a chain of entries, and the inode it lists the name as, if
      any, can be read. */
  ghost predicate DirOk(disk: seq<byte>, v: Volume, dir: seq<byte>, name: seq<byte>) {
    && |dir| == INODE_SIZE && BlockOn(disk, v, dir)
    && exists es: seq<Entry> :: Chain(DirBlock(disk, v, dir), 0, es, v.block_size)
                          && match Find(FirstTen(es), name)
                             case None => true
                             case Some(i) => InodeOn(disk, v, i)
  }

  /** In a sound directory, or no directory at all, a name that is not empty is looked up to
      the inode that the directory lists it as, and fails when it lists none. */
  lemma LookupFollowsList(disk: seq<byte>, v: Volume, dir: seq<byte>, name: seq<byte>)
    requires VolumeOk(v) && |dir| == INODE_SIZE && name != []
    requires PassesDirCheck(Mode(dir)) ==> DirOk(disk, v, dir, name)
    ensures StepOk(disk, v, dir, name)
    ensures
      match DiskLookup(disk, v, dir, name)
      case None => forall i: nat :: !Lists(disk, v, dir, name, i)
      case Some(record) =>
        exists i: nat :: InodeOn(disk, v, i) && Lists(disk, v, dir, name, i) && record == InodeRecord(disk, v, i)
  {
    hide Chain, WalkIn, Readable, BlockSize, PassesDirCheck, Lookup10, FirstTen, InodeAt, Wanted, NextHeader, InodeOn;
    if PassesDirCheck(Mode(dir)) {
      var block := DirBlock(disk, v, dir);
      var es: seq<Entry> :| Chain(block, 0, es, v.block_size)
                            && match Find(FirstTen(es), name)
                               case None => true
                               case Some(i) => InodeOn(disk, v, i);
      BlockBelowLimit(v);
      LookupExactly(block, es, name);
      if Find(FirstTen(es), name).Some? {
        assert Lists(disk, v, dir, name, Find(FirstTen(es), name).value);
      } else {
        forall i: nat, fs: seq<Entry> |
          Chain(block, 0, fs, v.block_size) && Find(FirstTen(fs), name) == Some(i)
          ensures false
        {
          ChainUnique(block, 0, es, fs, v.block_size);
        }
      }
    }
  }

  // Paths.

  function Bytes(s: string): (b: seq<byte>)
    ensures |b| == |s|
  {
    seq(|s|, i requires 0 <= i < |s| => s[i] as int % 256)
  }

  /** One lookup by name. It is used where the disk decides the lookup. */
  function Step(disk: seq<byte>, v: Volume, dir: seq<byte>, name: string): (r: Option<seq<byte>>)
    ensures r.Some? ==> |r.value| == INODE_SIZE
  {
    if StepOk(disk, v, dir, Bytes(name)) then DiskLookup(disk, v, dir, Bytes(name)) else None
  }

  function Steps(disk: seq<byte>, v: Volume): (seq<byte>, string) -> Option<seq<byte>> {
    (dir, name) => Step(disk, v, dir, name)
  }

  /** The disk decides every lookup from record dir along the names. */
  predicate StepsOk(disk: seq<byte>, v: Volume, dir: seq<byte>, names: seq<string>)
    decreases |names|
  {
    names != [] ==>
      && StepOk(disk, v, dir, Bytes(names[0]))
      && match DiskLookup(disk, v, dir, Bytes(names[0]))
         case None => true
         case Some(next) => StepsOk(disk, v, next, names[1..])
  }

  /** The directories on the disk lead from record dir through the names to the inodes. */
  ghost predicate Leads(disk: seq<byte>, v: Volume, dir: seq<byte>, names: seq<string>, inodes: seq<nat>)
    decreases |names|
  {
    && |names| == |inodes|
    && (names != [] ==>
          && Lists(disk, v, dir, Bytes(names[0]), inodes[0])
          && Leads(disk, v, InodeRecord(disk, v, inodes[0]), names[1..], inodes[1..]))
  }

  /** The record behind the last of the inodes, or dir when there are none. */
  function LastRecord(disk: seq<byte>, v: Volume, dir: seq<byte>, inodes: seq<nat>): seq<byte>
    requires inodes != [] ==> InodeOn(disk, v, inodes[|inodes| - 1])
  {
    if inodes == [] then dir else InodeRecord(disk, v, inodes[|inodes| - 1])
  }

  /** The directories lead along the first names to the inodes, and no further. */
  ghost predicate LeadsUpTo(disk: seq<byte>, v: Volume, dir: seq<byte>, names: seq<string>, inodes: seq<nat>) {
    && |inodes| <= |names| && Leads(disk, v, dir, names[..|inodes|], inodes)
    && (inodes != [] ==> InodeOn(disk, v, inodes[|inodes| - 1]))
    && (|inodes| < |names| ==>
          forall i: nat :: !Lists(disk, v, LastRecord(disk, v, dir, inodes), Bytes(names[|inodes|]), i))
  }

  /** Every record reached from dir along the names is a sound directory, or none at all. */
  ghost predicate SoundAlong(disk: seq<byte>, v: Volume, dir: seq<byte>, names: seq<string>)
    decreases |names|
  {
    names != [] ==>
      && |dir| == INODE_SIZE
      && (PassesDirCheck(Mode(dir)) ==> DirOk(disk, v, dir, Bytes(names[0])))
      && match Step(disk, v, dir, names[0])
         case None => true
         case Some(next) => SoundAlong(disk, v, next, names[1..])
  }

  lemma {:induction false} FoldFollows(
    disk: seq<byte>, v: Volume, dir: seq<byte>, names: seq<string>, inodes: seq<nat>)
    requires VolumeOk(v) && Leads(disk, v, dir, names, inodes)
    ensures inodes != [] ==> InodeOn(disk, v, inodes[|inodes| - 1])
    ensures Fold(Steps(disk, v), dir, names) == (0, LastRecord(disk, v, dir, inodes))
    decreases |names|
  {
    hide InodeOn, StepOk, DiskLookup, BlockOn, VolumeOk, Chain, PassesDirCheck, DirBlock, InodeRecord;
    if names != [] {
      ListedResolves(disk, v, dir, Bytes(names[0]), inodes[0]);
      var next := InodeRecord(disk, v, inodes[0]);
      assert Step(disk, v, dir, names[0]) == Some(next);
      FoldFollows(disk, v, next, names[1..], inodes[1..]);
    }
  }

  /** From a record on, the disk decides every lookup, and the lookups go exactly as far as
      the directories lead: 0 and the last record when they lead through all names, -1 and
      the record of the directory that does not list the next name otherwise. */
  lemma {:induction false} FoldExactly(disk: seq<byte>, v: Volume, dir: seq<byte>, names: seq<string>)
    returns (inodes: seq<nat>)
    requires VolumeOk(v) && SoundAlong(disk, v, dir, names) && forall n | n in names :: n != ""
    ensures StepsOk(disk, v, dir, names)
    ensures LeadsUpTo(disk, v, dir, names, inodes)
    ensures Fold(Steps(disk, v), dir, names) ==
            (if |inodes| == |names| then 0 else -1, LastRecord(disk, v, dir, inodes))
    decreases |names|
  {
    hide StepOk, DiskLookup, BlockOn, VolumeOk, Chain, PassesDirCheck, DirBlock, InodeRecord, Lists, DirOk, InodeOn;
    hide Bytes;
    inodes := [];
    if names != [] {
      assert names[0] in names;
      LookupFollowsList(disk, v, dir, Bytes(names[0]));
      var r := Step(disk, v, dir, names[0]);
      if r.Some? {
        var j: nat :| InodeOn(disk, v, j) && Lists(disk, v, dir, Bytes(names[0]), j)
                      && r.value == InodeRecord(disk, v, j);
        assert forall n | n in names[1..] :: n in names;
        var rest := FoldExactly(disk, v, r.value, names[1..]);
        inodes := [j] + rest;
        LeadsOn(disk, v, dir, names, j, rest);
      }
    }
  }

  lemma LeadsOn(disk: seq<byte>, v: Volume, dir: seq<byte>, names: seq<string>, j: nat, rest: seq<nat>)
    requires names != [] && Lists(disk, v, dir, Bytes(names[0]), j) && InodeOn(disk, v, j)
    requires LeadsUpTo(disk, v, InodeRecord(disk, v, j), names[1..], rest)
    ensures LeadsUpTo(disk, v, dir, names, [j] + rest)
    ensures LastRecord(disk, v, dir, [j] + rest) == LastRecord(disk, v, InodeRecord(disk, v, j), rest)
  {
    hide Lists, InodeOn, InodeRecord, Bytes;
    var inodes := [j] + rest;
    assert inodes[1..] == rest;
    var front := names[..|inodes|];
    assert front[0] == names[0] && front[1..] == names[1..][..|rest|];
    assert Leads(disk, v, dir, front, inodes);
    assert inodes[|inodes| - 1] == if rest == [] then j else rest[|rest| - 1];
    var l := LastRecord(disk, v, dir, inodes);
    assert l == LastRecord(disk, v, InodeRecord(disk, v, j), rest);
    if |inodes| < |names| {
      assert names[|inodes|] == names[1..][|rest|];
      forall i: nat
        ensures !Lists(disk, v, l, Bytes(names[|inodes|]), i)
      {
      }
    }
  }

  function JoinedPath(names: seq<string>, leading: bool, trailing: bool): string
    requires names != []
  {
    (if leading then "/" else "") + Join(names) + (if trailing then "/" else "")
  }

  function Root(disk: seq<byte>, v: Volume): (r: seq<byte>)
    requires InodeOn(disk, v, 2)
    ensures |r| == INODE_SIZE
  {
    InodeRecord(disk, v, 2)
  }

  lemma ParserTokens(names: seq<string>, leading: bool, trailing: bool)
    requires names != [] && forall n | n in names :: IsName(n)
    ensures Tokens(JoinedPath(names, leading, trailing)) == names
    ensures forall n | n in names :: n != ""
  {
    ParserInvertsJoin(names, leading, trailing);
    forall n | n in names
      ensures n != ""
    {
      assert IsName(n);
    }
  }

  /** The directories on the disk lead from the root through all names. */
  ghost predicate Named(disk: seq<byte>, v: Volume, names: seq<string>)
    requires InodeOn(disk, v, 2)
  {
    exists inodes :: Leads(disk, v, Root(disk, v), names, inodes)
  }

  lemma LeadsAll(disk: seq<byte>, v: Volume, names: seq<string>, inodes: seq<nat>)
    requires InodeOn(disk, v, 2) && LeadsUpTo(disk, v, Root(disk, v), names, inodes)
    ensures |inodes| <= |names| && (|inodes| == |names| ==> Named(disk, v, names))
    ensures inodes != [] ==> InodeOn(disk, v, inodes[|inodes| - 1])
  {
    if |inodes| == |names| {
      assert names[..|inodes|] == names;
    }
  }

  lemma NamedSucceeds(disk: seq<byte>, v: Volume, names: seq<string>)
    requires VolumeOk(v) && InodeOn(disk, v, 2) && Named(disk, v, names)
    ensures Fold(Steps(disk, v), Root(disk, v), names).0 == 0
  {
    hide InodeOn, VolumeOk, Lists, Step;
    var inodes :| Leads(disk, v, Root(disk, v), names, inodes);
    FoldFollows(disk, v, Root(disk, v), names, inodes);
  }

  /** Where every directory along a path is sound, get_inode_from_dir goes exactly as far as
      the directories lead: it returns 0, with the record of the inode the path names, if and
      only if every name is listed in the directory before it; otherwise it returns -1, with
      the record of the last directory reached, which may be the root. */
  lemma PathExactly(disk: seq<byte>, v: Volume, names: seq<string>, leading: bool, trailing: bool)
    requires names != [] && (forall n | n in names :: IsName(n)) && VolumeOk(v) && InodeOn(disk, v, 2)
    requires SoundAlong(disk, v, Root(disk, v), names)
    ensures StepsOk(disk, v, Root(disk, v), Tokens(JoinedPath(names, leading, trailing)))
    ensures
      var (res, record) := Fold(Steps(disk, v), Root(disk, v), Tokens(JoinedPath(names, leading, trailing)));
      && (res == 0 <==> Named(disk, v, names))
      && exists inodes :: LeadsUpTo(disk, v, Root(disk, v), names, inodes)
                    && (inodes != [] ==> InodeOn(disk, v, inodes[|inodes| - 1]))
                    && record == LastRecord(disk, v, Root(disk, v), inodes)
                    && res == if |inodes| == |names| then 0 else -1
  {
    hide *;
    ParserTokens(names, leading, trailing);
    var inodes := FoldExactly(disk, v, Root(disk, v), names);
    LeadsAll(disk, v, names, inodes);
    if Named(disk, v, names) {
      NamedSucceeds(disk, v, names);
    }
    var (res, record) := Fold(Steps(disk, v), Root(disk, v), Tokens(JoinedPath(names, leading, trailing)));
    assert res == if |inodes| == |names| then 0 else -1;
    assert LeadsUpTo(disk, v, Root(disk, v), names, inodes) && record == LastRecord(disk, v, Root(disk, v), inodes);
  }

  // The path parser on the heap.

  /** The characters of a C string: none of them ends it. */
  predicate CString(s: string) {
    forall i | 0 <= i < |s| :: 0 < s[i] as int < 256
  }

  /** The C string at address p: the bytes up to the first zero. */
  function StringAt(b: seq<byte>, p: nat): seq<byte>
    decreases |b| - p
  {
    if p >= |b| || b[p] == 0 then [] else [b[p]] + StringAt(b, p + 1)
  }

  lemma {:induction false} StringEnds(b: seq<byte>, p: nat, n: nat)
    requires p + n < |b| && b[p + n] == 0 && forall i | p <= i < p + n :: b[i] != 0
    ensures StringAt(b, p) == b[p..p + n]
    decreases n
  {
    if n > 0 {
      StringEnds(b, p + 1, n - 1);
      assert b[p..p + n] == [b[p]] + b[p + 1..p + n];
    }
  }

  /** Heap bytes that the lookups of the names take: for each a copy of the name, and the
      blocks of get_inode_in_dir. */
  function PathRoom(v: Volume, names: seq<string>): nat
    decreases |names|
  {
    if names == [] then 0 else 17 + |names[0]| + LookupSize(v) + PathRoom(v, names[1..])
  }

  /** A copy of part of the path, as a C string in a new heap block. */
  method CopyName(d: Driver, path: string, from: nat, size: nat) returns (name: nat)
    requires from + size <= |path| && CString(path) && Fits(d.h, size + 1)
    modifies d
    ensures FlatOk(d.h) && d.h.at == old(d.h).at + 17 + size && old(d.h).at <= |old(d.h).bytes|
    ensures forall i | 0 <= i < old(d.h).at :: d.h.bytes[i] == old(d.h).bytes[i]
    ensures StringAt(d.h.bytes, name) == Bytes(path[from..from + size])
  {
    hide NewBlock, FlatOk, SetBytes, StringAt, Fits, Bytes;
    BlockKeeps(d.h, size + 1);
    ghost var r := NewBlock(d.h, size + 1);
    FlatOkRoom(r);
    name := d.Kalloc(size + 1);
    var i := 0;
    while i < size
      invariant i <= size && name + size < r.at && |d.h.bytes| == |r.bytes| && d.h.at == r.at
      invariant forall j | name <= j < name + i :: d.h.bytes[j] == path[from + (j - name)] as int
      invariant forall j | 0 <= j < name || r.at <= j < |r.bytes| :: d.h.bytes[j] == r.bytes[j]
    {
      d.Store(name + i, [path[from + i] as int]);
      assert d.h.bytes[name + i..name + i + 1][0] == d.h.bytes[name + i];
      i := i + 1;
    }
    d.Store(name + size, [0]);
    ServedKeepsFree(d.h, r);
    NameCopied(d.h.bytes, name, path, from, size);
  }

  lemma NameCopied(b: seq<byte>, name: nat, path: string, from: nat, size: nat)
    requires from + size <= |path| && CString(path) && name + size < |b| && b[name + size] == 0
    requires forall j | name <= j < name + size :: b[j] == path[from + (j - name)] as int
    ensures StringAt(b, name) == Bytes(path[from..from + size])
  {
    StringEnds(b, name, size);
    assert b[name..name + size] == Bytes(path[from..from + size]);
  }

  /** The heap after a lookup of n bytes: the record at dir is replaced, and nothing else that
      was allocated before. */
  ghost predicate LookedUp(h: Flat, h': Flat, dir: nat, n: nat) {
    && FlatOk(h') && h.at <= h'.at <= h.at + n && h.at <= |h.bytes| && h'.at <= |h'.bytes|
    && forall i | 0 <= i < h.at && !(dir <= i < dir + INODE_SIZE) :: h'.bytes[i] == h.bytes[i]
  }

  /** A name of the path is copied and looked up: the record at heap address dir becomes the
      one that the disk says, or stays when the lookup fails. */
  method LookupName(d: Driver, disk: seq<byte>, v: Volume, dir: nat, path: string, from: nat, size: nat)
    returns (res: int)
    requires from + size <= |path| && CString(path)
    requires dir + INODE_SIZE <= d.h.at <= |d.h.bytes| && Room(d.h, 17 + size + LookupSize(v))
    requires StepOk(disk, v, d.h.bytes[dir..dir + INODE_SIZE], Bytes(path[from..from + size]))
    modifies d
    ensures LookedUp(old(d.h), d.h, dir, 17 + size + LookupSize(v))
    ensures
      match Step(disk, v, old(d.h).bytes[dir..dir + INODE_SIZE], path[from..from + size])
      case None => res == -1 && d.h.bytes[dir..dir + INODE_SIZE] == old(d.h).bytes[dir..dir + INODE_SIZE]
      case Some(record) => res == 0 && d.h.bytes[dir..dir + INODE_SIZE] == record
  {
    hide StepOk, NewBlock, FlatOk, Fits, LookupSize, Bytes, StringAt, LookupOk, CodeLookup, DiskLookup;
    ghost var h0 := d.h;
    var inode := h0.bytes[dir..dir + INODE_SIZE];
    RoomFits(d.h, size + 1, LookupSize(v));
    var name := CopyName(d, path, from, size);
    FlatOkRoom(d.h);
    assert d.h.bytes[dir..dir + INODE_SIZE] == inode;
    HeapDoesNotMatter(d.h, disk, v, inode, Bytes(path[from..from + size]));
    res := GetInodeInDir(d, disk, v, dir, StringAt(d.h.bytes, name));
  }

  /** get_inode_from_dir: looks up exactly the names of Tokens(path), in order, up to the first
      failure, and leaves the last record found at heap address dir. */
  method GetInodeFromDir(d: Driver, disk: seq<byte>, v: Volume, dir: nat, path: string) returns (res: int)
    requires CString(path) && dir + INODE_SIZE <= d.h.at <= |d.h.bytes| && Room(d.h, PathRoom(v, Tokens(path)))
    requires StepsOk(disk, v, d.h.bytes[dir..dir + INODE_SIZE], Tokens(path))
    modifies d
    ensures LookedUp(old(d.h), d.h, dir, PathRoom(v, Tokens(path)))
    ensures (res, d.h.bytes[dir..dir + INODE_SIZE]) ==
            Fold(Steps(disk, v), old(d.h).bytes[dir..dir + INODE_SIZE], Tokens(path))
  {
    hide Rest, Tokens, RestAt, StepOk, DiskLookup, FlatOk, LookupSize, Bytes, CString;
    TokensStart(path);
    ghost var h0 := d.h;
    ghost var start := h0.bytes[dir..dir + INODE_SIZE];
    ghost var names := Tokens(path);
    var path_length := |path|;
    var current := 0;
    var size := 0;
    while current < |path|
      invariant size <= current <= |path|
      invariant if current == 0 then size == 0 && names == Tokens(path) else names == RestAt(path, current, size)
      invariant LookedUp(h0, d.h, dir, PathRoom(v, Tokens(path)))
      invariant d.h.at + PathRoom(v, names) <= h0.at + PathRoom(v, Tokens(path))
      invariant StepsOk(disk, v, d.h.bytes[dir..dir + INODE_SIZE], names)
      invariant Fold(Steps(disk, v), start, Tokens(path)) ==
                Fold(Steps(disk, v), d.h.bytes[dir..dir + INODE_SIZE], names)
      decreases |path| - current
    {
      if path[current] == '/' {
        if current == 0 {
          current := current + 1;
          continue;
        }
        RestSteps(path, current, size);
        current := current + 1;
        res := LookupName(d, disk, v, dir, path, current - size - 1, size);
        if res < 0 {
          return;
        }
        names := names[1..];
        size := 0;
        // the last slash: the folder itself is the result
        if path_length == current {
          return 0;
        }
      } else if current > 0 {
        RestSteps(path, current, size);
      }
      current := current + 1;
      size := size + 1;
    }
    LastName(path, current, size);
    res := LookupName(d, disk, v, dir, path, current - size, size);
  }

  // read_file.

  lemma {:induction false} FoldIsInode(disk: seq<byte>, v: Volume, dir: seq<byte>, names: seq<string>)
    requires |dir| == INODE_SIZE
    ensures |Fold(Steps(disk, v), dir, names).1| == INODE_SIZE
    decreases |names|
  {
    if names != [] && Step(disk, v, dir, names[0]).Some? {
      FoldIsInode(disk, v, Step(disk, v, dir, names[0]).value, names[1..]);
    }
  }

  /** The record of the inode that read_file ends up with; a failure is not looked at. */
  function FileInode(disk: seq<byte>, v: Volume, path: string): (r: seq<byte>)
    requires InodeOn(disk, v, 2)
    ensures |r| == INODE_SIZE
  {
    FoldIsInode(disk, v, Root(disk, v), Tokens(path));
    Fold(Steps(disk, v), Root(disk, v), Tokens(path)).1
  }

  /** What read_file takes of the heap: the inode's record, the root's read, the lookups and
      the read of the file. */
  function FileRoom(v: Volume, path: string, size: nat): nat {
    16 + INODE_SIZE + (32 + TempSize(INODE_SIZE) + REQUEST_SIZE) + PathRoom(v, Tokens(path))
    + (32 + TempSize(size) + REQUEST_SIZE)
  }

  /** The bytes are what the file consists of, if they can be read: when the record reached is
      the writing of r, the disk's bytes from block r.i_block[0] of the partition on. */
  ghost predicate IsFile(disk: seq<byte>, v: Volume, path: string, s: seq<byte>) {
    && InodeOn(disk, v, 2)
    && (Readable(disk, DataAt(v, FileInode(disk, v, path)), |s|) ==>
          s == Wanted(disk, DataAt(v, FileInode(disk, v, path)), |s|))
    && forall r: Inode | InodeOk(r) && WriteInode(r) == FileInode(disk, v, path) ::
         var at := 0x10_0000 + v.block_size * r.i_block[0] % 0x1_0000_0000;
         InReach(|disk|, at, |s|) ==> s == disk[at..at + |s|]
  }

  lemma FileIsThere(disk: seq<byte>, v: Volume, path: string, s: seq<byte>)
    requires VolumeOk(v) && InodeOn(disk, v, 2)
    requires Readable(disk, DataAt(v, FileInode(disk, v, path)), |s|) ==>
               s == Wanted(disk, DataAt(v, FileInode(disk, v, path)), |s|)
    ensures IsFile(disk, v, path, s)
  {
    hide FileInode, Readable, DataAt, Wanted, InodeOn, VolumeOk, WriteInode;
    forall r: Inode | InodeOk(r) && WriteInode(r) == FileInode(disk, v, path)
                      && InReach(|disk|, 0x10_0000 + v.block_size * r.i_block[0] % 0x1_0000_0000, |s|)
      ensures
        var at := 0x10_0000 + v.block_size * r.i_block[0] % 0x1_0000_0000;
        s == disk[at..at + |s|]
    {
      BlockReached(disk, v, r, |s|);
    }
  }

  /** read_file: the first `size` bytes of the first block on of the inode found, into a buffer
      in a block allocated before. */
  method ReadFile(d: Driver, disk: seq<byte>, v: Volume, path: string, size: nat, data: nat) returns (res: int)
    requires VolumeOk(v) && |v.tables| > 0 && v.inodes_per_group > 1 && InodeOn(disk, v, 2) && CString(path)
    requires StepsOk(disk, v, Root(disk, v), Tokens(path))
    requires Room(d.h, FileRoom(v, path, size)) && data + size <= d.h.at
    modifies d
    ensures res == 0 && data + size <= old(d.h).at <= d.h.at <= |d.h.bytes|
    ensures forall i | 0 <= i < old(d.h).at && !(data <= i < data + size) :: d.h.bytes[i] == old(d.h).bytes[i]
    ensures IsFile(disk, v, path, d.h.bytes[data..data + size])
  {
    hide ReadBytes, Step, Tokens, Fold, TempSize, SetBytes, NewBlock, Served, FlatOk, Fits, ReadFits, AfterRead;
    hide FlatKalloc, ReadIsExact, BlockSize, DataAt, StepsOk, LookupSize, IsFile;
    ghost var h0, rest := d.h, PathRoom(v, Tokens(path)) + (32 + TempSize(size) + REQUEST_SIZE);
    FlatOkRoom(h0);
    RoomFits(d.h, INODE_SIZE, 32 + TempSize(INODE_SIZE) + REQUEST_SIZE + rest);
    BlockKeeps(d.h, INODE_SIZE);
    var inode := d.Kalloc(INODE_SIZE);
    ghost var h1 := d.h;
    RoomReads(h1, disk, RootInodeAt(v), INODE_SIZE, rest);
    RootIsInodeTwo(v);
    var _ := d.Read(disk, RootInodeAt(v), INODE_SIZE, inode);
    assert d.h.bytes[inode..inode + INODE_SIZE] == Root(disk, v);
    FlatOkRoom(d.h);
    res := GetInodeFromDir(d, disk, v, inode, path);
    var found := d.h.bytes[inode..inode + INODE_SIZE];
    assert found == FileInode(disk, v, path);
    FlatOkRoom(d.h);
    RoomReads(d.h, disk, DataAt(v, found), size, 0);
    res := d.Read(disk, DataAt(v, found), size, data);
    FlatOkRoom(d.h);
    FileIsThere(disk, v, path, d.h.bytes[data..data + size]);
  }

  /** read_file delivers the inode that a path names if and only if every lookup along the path
      succeeds; otherwise it goes on with the record of the last directory reached. */
  lemma ReadFileExactly(disk: seq<byte>, v: Volume, names: seq<string>, leading: bool, trailing: bool)
    requires names != [] && (forall n | n in names :: IsName(n)) && VolumeOk(v) && InodeOn(disk, v, 2)
    requires SoundAlong(disk, v, Root(disk, v), names)
    ensures StepsOk(disk, v, Root(disk, v), Tokens(JoinedPath(names, leading, trailing)))
    ensures
      var path := JoinedPath(names, leading, trailing);
      var root, file := Root(disk, v), FileInode(disk, v, path);
      && (Fold(Steps(disk, v), root, Tokens(path)).0 == 0 <==>
            exists inodes :: LeadsUpTo(disk, v, root, names, inodes) && |inodes| == |names|
                       && file == LastRecord(disk, v, root, inodes))
      && (Fold(Steps(disk, v), root, Tokens(path)).0 != 0 ==>
            exists inodes :: LeadsUpTo(disk, v, root, names, inodes) && |inodes| < |names|
                       && file == LastRecord(disk, v, root, inodes))
  {
    hide *;
    var path, root := JoinedPath(names, leading, trailing), Root(disk, v);
    PathExactly(disk, v, names, leading, trailing);
    FileInodeIs(disk, v, path);
    var inodes :| LeadsUpTo(disk, v, root, names, inodes) && (inodes != [] ==> InodeOn(disk, v, inodes[|inodes| - 1]))
                  && FileInode(disk, v, path) == LastRecord(disk, v, root, inodes)
                  && Fold(Steps(disk, v), root, Tokens(path)).0 == if |inodes| == |names| then 0 else -1;
    LeadsAll(disk, v, names, inodes);
    var file, res := FileInode(disk, v, path), Fold(Steps(disk, v), root, Tokens(path)).0;
    forall others | LeadsUpTo(disk, v, root, names, others) && |others| == |names|
      ensures res == 0
    {
      LeadsAll(disk, v, names, others);
    }
    assert LeadsUpTo(disk, v, root, names, inodes) && file == LastRecord(disk, v, root, inodes);
    assert |inodes| == |names| <==> res == 0;
    assert |inodes| <= |names|;
  }

  lemma FileInodeIs(disk: seq<byte>, v: Volume, path: string)
    requires InodeOn(disk, v, 2)
    ensures FileInode(disk, v, path) == Fold(Steps(disk, v), Root(disk, v), Tokens(path)).1
  {
  }
}
