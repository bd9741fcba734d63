/** VirtIOBlockDevice::read: byte ranges of the partition out of whole sectors, through two
    blocks of the kernel's heap. */
module BlockRead {
  import opened Bits
  import opened Memory
  import opened FlatHeap

  const SECTOR: nat := 512
  const PARTITION_SECTOR: nat := 2048
  const PARTITION: nat := 0x10_0000 // 512 * 2048

  // A request: header of 16 bytes (type, reserved, sector), 512 data bytes, status, padding.

  const REQUEST_SIZE: nat := 536
  const STATUS_AT: nat := 528

  /** The sectors that read asks for. */
  function FirstSector(offset: nat): nat { (offset + SECTOR * PARTITION_SECTOR) / SECTOR }
  function TooMuchAtStart(offset: nat): nat { (offset + SECTOR * PARTITION_SECTOR) % SECTOR }
  function TempSize(length: nat): nat { SECTOR * (length / SECTOR + 1) }

  /** The sector number as the request carries it. */
  function Sector32(sector: nat): nat { sector % 0x1_0000_0000 }

  /** The device serves a request only when it lies on a disk of n bytes. */
  predicate OnDisk(n: nat, sector: nat, length: nat) {
    Sector32(sector) * SECTOR + length <= n
  }

  /** What the device delivers. */
  function Blocks(disk: seq<byte>, sector: nat, length: nat): (s: seq<byte>)
    requires OnDisk(|disk|, sector, length)
    ensures |s| == length
  {
    disk[Sector32(sector) * SECTOR..Sector32(sector) * SECTOR + length]
  }

  /** What the caller asked for. */
  function Wanted(disk: seq<byte>, offset: nat, length: nat): (s: seq<byte>)
    requires PARTITION + offset + length <= |disk|
    ensures |s| == length
  {
    disk[PARTITION + offset..PARTITION + offset + length]
  }

  // What read does to the flat heap.

  /** new VirtIOBlkRequest: a block with the type, the sector, and the status the device left. */
  function WithRequest(a: Flat, sector: nat, status: byte): (r: Flat)
    requires Fits(a, REQUEST_SIZE)
    ensures r.at == a.at + 16 + REQUEST_SIZE && r.at + 16 <= |r.bytes|
  {
    var r, p := NewBlock(a, REQUEST_SIZE), a.at + 16;
    var b1 := SetBytes(r.bytes, p, ToLe(0, 4));
    var b2 := SetBytes(b1, p + 8, ToLe(Sector32(sector), 8));
    Flat(SetBytes(b2, p + STATUS_AT, [status]), r.at)
  }

  /** The heap after read_blocks: a new request block behind the others, and the sectors in
      the buffer if the device could serve it; otherwise the buffer stays as it was. */
  function Served(a: Flat, disk: seq<byte>, sector: nat, length: nat, buffer: nat): (r: Flat)
    requires Fits(a, REQUEST_SIZE) && buffer + length <= a.at
    ensures r.at == a.at + 16 + REQUEST_SIZE && r.at + 16 <= |r.bytes|
  {
    if OnDisk(|disk|, sector, length) then
      var r := WithRequest(a, sector, 0);
      Flat(SetBytes(r.bytes, buffer, Blocks(disk, sector, length)), r.at)
    else WithRequest(a, sector, 1)
  }

  /** The first bytes of the request block: its heap header, then type and sector around the
      reserved word that nothing writes. */
  function RequestImage(sector: nat, reserved: seq<byte>, data: seq<byte>): seq<byte> {
    ToLe(536, 8) + ToLe(0xFEEB_DAED_DEAD_BEEF, 8) + ToLe(0, 4) + reserved + ToLe(sector % 0x1_0000_0000, 8) + data
  }

  /** The image of the request behind b, which holds the reserved word and the data bytes. */
  function ImageBehind(sector: nat, b: seq<byte>, at: nat): seq<byte>
    requires at + 16 + STATUS_AT <= |b|
  {
    RequestImage(sector, b[at + 20..at + 24], b[at + 32..at + 16 + STATUS_AT])
  }

  lemma WithRequestFacts(a: Flat, sector: nat, status: byte)
    requires Fits(a, REQUEST_SIZE)
    ensures
      var r, raw := WithRequest(a, sector, status), NewBlock(a, REQUEST_SIZE);
      && FlatOk(r) && a.at + 16 <= |a.bytes| && |raw.bytes| == |r.bytes|
      && (forall i | 0 <= i < a.at :: r.bytes[i] == a.bytes[i])
      && r.bytes[a.at..a.at + 544] == ImageBehind(sector, raw.bytes, a.at)
      && r.bytes[a.at + 544] == status && r.at == a.at + 552
  {
    hide SetBytes, ToLe, Word, FlatOk, NewBlock, BlockAdded, Fits, ImageBehind, Sector32;
    var r, raw := WithRequest(a, sector, status), NewBlock(a, REQUEST_SIZE);
    FreshHeader(a);
    SamePrefix(a.bytes, raw.bytes, a.at);
    RequestFields(raw.bytes, a.at, sector, status);
    ServedImage(r.bytes, raw.bytes, a.at, sector);
    ServedKeepsFree(r, raw);
  }

  lemma RequestFields(raw: seq<byte>, at: nat, sector: nat, status: byte)
    requires at + 32 + REQUEST_SIZE <= |raw|
    ensures
      var b1 := SetBytes(raw, at + 16, ToLe(0, 4));
      var b2 := SetBytes(b1, at + 24, ToLe(Sector32(sector), 8));
      var r := SetBytes(b2, at + 16 + STATUS_AT, [status]);
      && |r| == |raw|
      && (forall i | 0 <= i < at + 16 || at + 20 <= i < at + 24 || at + 32 <= i < at + 16 + STATUS_AT
                     || at + 16 + REQUEST_SIZE <= i < |raw| :: r[i] == raw[i])
      && r[at + 16..at + 20] == ToLe(0, 4) && r[at + 24..at + 32] == ToLe(Sector32(sector), 8)
      && r[at + 16 + STATUS_AT] == status
  {
    hide ToLe, Sector32;
    var b1 := SetBytes(raw, at + 16, ToLe(0, 4));
    var b2 := SetBytes(b1, at + 24, ToLe(Sector32(sector), 8));
    var r := SetBytes(b2, at + 16 + STATUS_AT, [status]);
    hide SetBytes;
    assert r[at + 16..at + 20] == b1[at + 16..at + 20];
    assert r[at + 24..at + 32] == b2[at + 24..at + 32];
    assert r[at + 16 + STATUS_AT..at + 16 + STATUS_AT + 1][0] == r[at + 16 + STATUS_AT];
  }

  lemma ServedFacts(a: Flat, disk: seq<byte>, sector: nat, length: nat, buffer: nat)
    requires Fits(a, REQUEST_SIZE) && buffer + length <= a.at
    ensures
      var r, raw := Served(a, disk, sector, length, buffer), NewBlock(a, REQUEST_SIZE);
      && FlatOk(r) && a.at + 16 <= |a.bytes| && |raw.bytes| == |r.bytes|
      && (forall i | 0 <= i < a.at && !(buffer <= i < buffer + length) :: r.bytes[i] == a.bytes[i])
      && r.bytes[a.at..a.at + 544] == ImageBehind(sector, raw.bytes, a.at) && r.at == a.at + 552
      && r.bytes[a.at + 544] == (if OnDisk(|disk|, sector, length) then 0 else 1)
      && (OnDisk(|disk|, sector, length) ==> r.bytes[buffer..buffer + length] == Blocks(disk, sector, length))
      && (!OnDisk(|disk|, sector, length) ==> forall i | 0 <= i < a.at :: r.bytes[i] == a.bytes[i])
  {
    hide SetBytes, Word, FlatOk, NewBlock, Fits, ImageBehind, OnDisk, Blocks, WithRequest;
    var status := if OnDisk(|disk|, sector, length) then 0 else 1;
    WithRequestFacts(a, sector, status);
    if OnDisk(|disk|, sector, length) {
      var r, r' := WithRequest(a, sector, 0), Served(a, disk, sector, length, buffer);
      assert r'.bytes[a.at..a.at + 16 + STATUS_AT] == r.bytes[a.at..a.at + 16 + STATUS_AT];
      ServedKeepsFree(r', r);
    }
  }

  lemma FreshHeader(a: Flat)
    requires Fits(a, REQUEST_SIZE)
    ensures
      var b := NewBlock(a, REQUEST_SIZE).bytes;
      && a.at + 16 <= |a.bytes| && a.at + 32 + REQUEST_SIZE <= |b|
      && b[a.at..a.at + 8] == ToLe(REQUEST_SIZE, 8) && b[a.at + 8..a.at + 16] == ToLe(MAGIC, 8)
      && b[..a.at] == a.bytes[..a.at]
  {
    hide NewBlock, FlatKalloc, ToLe, Le, Word, PagesNeeded, SetBytes;
    WordBytes(NewBlock(a, REQUEST_SIZE).bytes, a.at);
    WordBytes(NewBlock(a, REQUEST_SIZE).bytes, a.at + 8);
  }

  /** Slices of the request block, put together. */
  lemma ServedImage(r: seq<byte>, raw: seq<byte>, at: nat, sector: nat)
    requires |r| == |raw| && at + 16 + REQUEST_SIZE <= |r|
    requires raw[at..at + 8] == ToLe(REQUEST_SIZE, 8) && raw[at + 8..at + 16] == ToLe(MAGIC, 8)
    requires forall i | at <= i < at + 16 || at + 20 <= i < at + 24 || at + 32 <= i < at + 16 + STATUS_AT ::
               r[i] == raw[i]
    requires r[at + 16..at + 20] == ToLe(0, 4) && r[at + 24..at + 32] == ToLe(Sector32(sector), 8)
    ensures r[at..at + 16 + STATUS_AT] == ImageBehind(sector, raw, at)
  {
    hide ToLe;
    assert r[at..at + 8] == raw[at..at + 8];
    assert r[at + 8..at + 16] == raw[at + 8..at + 16];
    assert r[at + 20..at + 24] == raw[at + 20..at + 24];
    assert r[at + 32..at + 16 + STATUS_AT] == raw[at + 32..at + 16 + STATUS_AT];
    assert r[at..at + 16 + STATUS_AT] ==
           r[at..at + 8] + r[at + 8..at + 16] + r[at + 16..at + 20] + r[at + 20..at + 24]
           + r[at + 24..at + 32] + r[at + 32..at + 16 + STATUS_AT];
  }

  lemma ServedKeepsFree(r: Flat, raw: Flat)
    requires FlatOk(raw) && r.at == raw.at && |r.bytes| == |raw.bytes|
    requires forall i | raw.at <= i < |r.bytes| :: r.bytes[i] == raw.bytes[i]
    ensures FlatOk(r)
  {
    WordSame(raw.bytes, r.bytes, r.at);
  }

  /** read allocates its temporary buffer and then the request. */
  ghost predicate ReadFits(h: Flat, length: nat) {
    Fits(h, TempSize(length)) && Fits(NewBlock(h, TempSize(length)), REQUEST_SIZE)
  }

  /** The heap when the sectors have arrived in the temporary buffer. */
  function AfterRead(h: Flat, disk: seq<byte>, offset: nat, length: nat): (r: Flat)
    requires ReadFits(h, length)
    ensures r.at == h.at + 16 + TempSize(length) + 16 + REQUEST_SIZE && r.at + 16 <= |r.bytes|
  {
    Served(NewBlock(h, TempSize(length)), disk, FirstSector(offset), TempSize(length), h.at + 16)
  }

  lemma RangeInBlocks(offset: nat, length: nat)
    ensures TooMuchAtStart(offset) < SECTOR <= TempSize(length)
    ensures TooMuchAtStart(offset) + length <= TempSize(length) + 510
  {
    assert length == length / SECTOR * SECTOR + length % SECTOR;
  }

  /** The bytes read copies to its caller. */
  function ReadBytes(h: Flat, disk: seq<byte>, offset: nat, length: nat): (s: seq<byte>)
    requires ReadFits(h, length)
    ensures |s| == length
  {
    hide Served, NewBlock, FlatKalloc, TempSize, TooMuchAtStart, FirstSector;
    RangeInBlocks(offset, length);
    var from := h.at + 16 + TooMuchAtStart(offset);
    AfterRead(h, disk, offset, length).bytes[from..from + length]
  }

  // When read is exact.

  /** The range ends inside the sectors asked for. */
  predicate FitsSectors(offset: nat, length: nat) {
    offset % SECTOR + length % SECTOR <= SECTOR
  }

  /** read returns the bytes asked for: the range ends inside the sectors, the sector number
      fits its 32 bits, and all sectors asked for lie on the disk. There are length / 512 + 1
      of them, so that a range which ends with the last sector asks for one too many. */
  predicate ReadIsExact(n: nat, offset: nat, length: nat) {
    && FitsSectors(offset, length)
    && FirstSector(offset) < 0x1_0000_0000
    && FirstSector(offset) * SECTOR + TempSize(length) <= n
  }

  lemma StartIsOffset(offset: nat)
    ensures TooMuchAtStart(offset) == offset % SECTOR
    ensures FirstSector(offset) * SECTOR + TooMuchAtStart(offset) == PARTITION + offset
  {
    assert SECTOR * PARTITION_SECTOR == PARTITION;
  }

  /** The guard says that the range ends inside the sectors read. */
  lemma RangeFits(offset: nat, length: nat)
    ensures FitsSectors(offset, length) <==> offset % SECTOR + length <= TempSize(length)
  {
    assert length == length / SECTOR * SECTOR + length % SECTOR;
  }

  /** Byte k of what read returns, as long as it lies in the temporary buffer: a byte of the
      disk, or what the buffer held before. */
  lemma ReadByte(h: Flat, disk: seq<byte>, offset: nat, length: nat, k: nat)
    requires ReadFits(h, length) && k < length && TooMuchAtStart(offset) + k < TempSize(length)
    ensures OnDisk(|disk|, FirstSector(offset), TempSize(length)) ==>
              && Sector32(FirstSector(offset)) * SECTOR + TooMuchAtStart(offset) + k < |disk|
              && ReadBytes(h, disk, offset, length)[k] ==
                 disk[Sector32(FirstSector(offset)) * SECTOR + TooMuchAtStart(offset) + k]
    ensures !OnDisk(|disk|, FirstSector(offset), TempSize(length)) ==>
              && h.at + 16 + TooMuchAtStart(offset) + k < |NewBlock(h, TempSize(length)).bytes|
              && ReadBytes(h, disk, offset, length)[k] ==
                 NewBlock(h, TempSize(length)).bytes[h.at + 16 + TooMuchAtStart(offset) + k]
  {
    hide Served, NewBlock, Fits, FirstSector, Sector32, TempSize, TooMuchAtStart;
    RangeInBlocks(offset, length);
    ServedByte(NewBlock(h, TempSize(length)), disk, FirstSector(offset), TempSize(length), h.at + 16,
               TooMuchAtStart(offset) + k);
  }

  lemma ServedByte(a: Flat, disk: seq<byte>, sector: nat, length: nat, buffer: nat, j: nat)
    requires Fits(a, REQUEST_SIZE) && buffer + length <= a.at && j < length
    ensures OnDisk(|disk|, sector, length) ==>
              && Sector32(sector) * SECTOR + j < |disk|
              && Served(a, disk, sector, length, buffer).bytes[buffer + j] == disk[Sector32(sector) * SECTOR + j]
    ensures !OnDisk(|disk|, sector, length) ==>
              && buffer + j < |a.bytes|
              && Served(a, disk, sector, length, buffer).bytes[buffer + j] == a.bytes[buffer + j]
  {
    hide Served, NewBlock, Fits, Sector32, ImageBehind, FlatOk;
    ServedFacts(a, disk, sector, length, buffer);
    var r := Served(a, disk, sector, length, buffer).bytes;
    assert r[buffer..buffer + length][j] == r[buffer + j];
  }

  lemma ExactWhenFits(h: Flat, disk: seq<byte>, offset: nat, length: nat)
    requires ReadFits(h, length) && PARTITION + offset + length <= |disk|
    requires length == 0 || ReadIsExact(|disk|, offset, length)
    ensures ReadBytes(h, disk, offset, length) == Wanted(disk, offset, length)
  {
    hide ReadBytes, ReadFits, FirstSector, Sector32, TempSize, TooMuchAtStart, OnDisk, ReadIsExact, NewBlock;
    forall k | 0 <= k < length
      ensures ReadBytes(h, disk, offset, length)[k] == Wanted(disk, offset, length)[k]
    {
      ExactPlace(|disk|, offset, length);
      ReadByte(h, disk, offset, length, k);
    }
  }

  /** An exact read finds the range on the disk, and inside the temporary buffer. */
  lemma ExactPlace(n: nat, offset: nat, length: nat)
    requires ReadIsExact(n, offset, length)
    ensures OnDisk(n, FirstSector(offset), TempSize(length))
    ensures Sector32(FirstSector(offset)) * SECTOR + TooMuchAtStart(offset) == PARTITION + offset
    ensures TooMuchAtStart(offset) + length <= TempSize(length)
  {
    hide FirstSector, TooMuchAtStart, TempSize, FitsSectors;
    StartIsOffset(offset);
    RangeFits(offset, length);
  }

  /** What lies behind the temporary buffer when read copies. */
  function SpillImage(h: Flat, offset: nat, length: nat): (s: seq<byte>)
    requires ReadFits(h, length)
    ensures |s| == 16 + STATUS_AT
  {
    hide NewBlock, FlatKalloc, TempSize, FirstSector;
    var a := NewBlock(h, TempSize(length));
    FreshHeader(a);
    ImageBehind(FirstSector(offset), NewBlock(a, REQUEST_SIZE).bytes, a.at)
  }

  /** When the range spills over the temporary buffer, its last bytes are the beginning of
      the request block, with the size 536 first. */
  lemma SpillIsRequest(h: Flat, disk: seq<byte>, offset: nat, length: nat)
    requires ReadFits(h, length) && !FitsSectors(offset, length)
    ensures
      var k := TempSize(length) - TooMuchAtStart(offset);
      && 0 <= k < length <= k + 510
      && ReadBytes(h, disk, offset, length)[k..] == SpillImage(h, offset, length)[..length - k]
  {
    hide Served, NewBlock, Fits, FirstSector, ToLe, TempSize, TooMuchAtStart, ImageBehind, FitsSectors, FlatOk;
    hide Word, OnDisk, Blocks;
    StartIsOffset(offset);
    RangeFits(offset, length);
    RangeInBlocks(offset, length);
    var a := NewBlock(h, TempSize(length));
    ServedFacts(a, disk, FirstSector(offset), TempSize(length), h.at + 16);
    var r, k := AfterRead(h, disk, offset, length).bytes, TempSize(length) - TooMuchAtStart(offset);
    SliceOfSlice(r, h.at + 16 + TooMuchAtStart(offset), length, k);
    FrontOfSlice(r, a.at, 16 + STATUS_AT, length - k);
  }

  lemma SliceOfSlice(r: seq<byte>, from: nat, length: nat, k: nat)
    requires from + length <= |r| && k <= length
    ensures r[from..from + length][k..] == r[from + k..from + length]
  {
  }

  lemma FrontOfSlice(r: seq<byte>, from: nat, length: nat, k: nat)
    requires from + length <= |r| && k <= length
    ensures r[from..from + length][..k] == r[from..from + k]
  {
  }

  lemma ImageBegins(sector: nat, b: seq<byte>, at: nat)
    requires at + 16 + STATUS_AT <= |b|
    ensures |ImageBehind(sector, b, at)| == 16 + STATUS_AT && ImageBehind(sector, b, at)[0] == 24
  {
    assert ToLe(REQUEST_SIZE, 8)[0] == 24;
  }

  lemma FirstSpilledByte(h: Flat, disk: seq<byte>, offset: nat, length: nat)
    requires ReadFits(h, length) && !FitsSectors(offset, length)
    ensures
      var k := TempSize(length) - TooMuchAtStart(offset);
      0 <= k < length && ReadBytes(h, disk, offset, length)[k] == 24
  {
    hide ReadBytes, Fits, NewBlock, FirstSector, Sector32, TempSize, TooMuchAtStart, FitsSectors, ImageBehind;
    SpillIsRequest(h, disk, offset, length);
    var k := TempSize(length) - TooMuchAtStart(offset);
    var a := NewBlock(h, TempSize(length));
    ImageBegins(FirstSector(offset), NewBlock(a, REQUEST_SIZE).bytes, a.at);
    assert ReadBytes(h, disk, offset, length)[k..][0] == ReadBytes(h, disk, offset, length)[k];
  }

  /** On whatever heap, read returns the bytes asked for from every disk of n bytes exactly
      when nothing is asked for or the three conditions hold. */
  lemma ReadExactly(h: Flat, n: nat, offset: nat, length: nat)
    requires ReadFits(h, length) && PARTITION + offset + length <= n
    ensures length == 0 || ReadIsExact(n, offset, length) <==>
            forall disk: seq<byte> | |disk| == n ::
              ReadBytes(h, disk, offset, length) == Wanted(disk, offset, length)
  {
    hide ReadBytes, ReadFits, FirstSector, TooMuchAtStart, NewBlock;
    if length == 0 || ReadIsExact(n, offset, length) {
      forall disk: seq<byte> | |disk| == n
        ensures ReadBytes(h, disk, offset, length) == Wanted(disk, offset, length)
      {
        ExactWhenFits(h, disk, offset, length);
      }
    } else {
      var disk := InexactDisk(h, n, offset, length);
    }
  }

  /** A disk that shows it: unlike the stale buffer when the device cannot serve the request,
      marked at the place asked for when the sector number is cut, and zero when the range
      spills. */
  lemma InexactDisk(h: Flat, n: nat, offset: nat, length: nat) returns (disk: seq<byte>)
    requires ReadFits(h, length) && PARTITION + offset + length <= n
    requires length > 0 && !ReadIsExact(n, offset, length)
    ensures |disk| == n && ReadBytes(h, disk, offset, length) != Wanted(disk, offset, length)
  {
    hide ReadBytes, ReadFits, NewBlock, TempSize, TooMuchAtStart, FirstSector, Sector32, FitsSectors;
    RangeInBlocks(offset, length);
    StartIsOffset(offset);
    if !OnDisk(n, FirstSector(offset), TempSize(length)) {
      disk := StaleDisk(h, n, offset, length);
    } else if FirstSector(offset) >= 0x1_0000_0000 {
      disk := MarkedDisk(h, n, offset, length);
    } else {
      disk := seq(n, _ => 0);
      NotCut(FirstSector(offset));
      FirstSpilledByte(h, disk, offset, length);
      var k := TempSize(length) - TooMuchAtStart(offset);
      assert ReadBytes(h, disk, offset, length)[k] != Wanted(disk, offset, length)[k];
    }
  }

  lemma NotCut(sector: nat)
    ensures Sector32(sector) == sector <==> sector < 0x1_0000_0000
  {
  }

  lemma StaleDisk(h: Flat, n: nat, offset: nat, length: nat) returns (disk: seq<byte>)
    requires ReadFits(h, length) && PARTITION + offset + length <= n && length > 0
    requires !OnDisk(n, FirstSector(offset), TempSize(length))
    ensures |disk| == n && ReadBytes(h, disk, offset, length) != Wanted(disk, offset, length)
  {
    hide ReadBytes, ReadFits, NewBlock, TempSize, TooMuchAtStart, FirstSector, Sector32, OnDisk;
    RangeInBlocks(offset, length);
    disk := seq(n, _ => 0);
    ReadByte(h, disk, offset, length, 0);
    var stale := ReadBytes(h, disk, offset, length)[0];
    disk := seq(n, _ => if stale == 0 then 1 else 0);
    ReadByte(h, disk, offset, length, 0);
    assert ReadBytes(h, disk, offset, length)[0] != Wanted(disk, offset, length)[0];
  }

  lemma MarkedDisk(h: Flat, n: nat, offset: nat, length: nat) returns (disk: seq<byte>)
    requires ReadFits(h, length) && PARTITION + offset + length <= n && length > 0
    requires OnDisk(n, FirstSector(offset), TempSize(length)) && FirstSector(offset) >= 0x1_0000_0000
    ensures |disk| == n && ReadBytes(h, disk, offset, length) != Wanted(disk, offset, length)
  {
    hide ReadBytes, ReadFits, NewBlock, TempSize, TooMuchAtStart, FirstSector, Sector32;
    RangeInBlocks(offset, length);
    StartIsOffset(offset);
    NotCut(FirstSector(offset));
    var start := PARTITION + offset;
    disk := seq(n, i => if i == start then 1 else 0);
    ReadByte(h, disk, offset, length, 0);
    assert ReadBytes(h, disk, offset, length)[0] != Wanted(disk, offset, length)[0];
  }

  // The reads EXT2 issues.

  const INODE_SIZE: nat := 256

  /** 1024 << s_log_block_size in a 32-bit int. */
  predicate BlockSize(bs: nat) {
    exists k: nat :: k <= 20 && bs == 1024 * Pow2(k)
  }

  /** A 32-bit product of the block size keeps its alignment when it wraps. */
  function Times32(a: nat, b: nat): nat { a * b % 0x1_0000_0000 }

  lemma BlockAligned(bs: nat, n: nat)
    requires BlockSize(bs)
    ensures bs % SECTOR == 0 && Times32(bs, n) % SECTOR == 0
  {
    var k: nat :| k <= 20 && bs == 1024 * Pow2(k);
    hide Pow2;
    var c := 2 * Pow2(k);
    assert bs == c * 512;
    DivModUnique(bs, 512, c, 0);
    Assoc(c, 512, n);
    WrapAligned(c * n);
  }

  lemma WrapAligned(x: nat)
    ensures x * 512 % 0x1_0000_0000 % 512 == 0
  {
  }

  lemma Assoc(a: nat, b: nat, c: nat)
    ensures a * b * c == a * c * b
  {
  }

  /** Every range that EXT2 reads ends inside its sectors: the super block, a group descriptor,
      an inode of any group, a directory block, and file data of any size. */
  lemma Ext2ReadsFit(bs: nat, group: nat, table: nat, index: nat, block: nat, size: nat)
    requires BlockSize(bs)
    ensures FitsSectors(1024, 92)
    ensures FitsSectors(bs + group * 32, 32)
    ensures FitsSectors(bs * table % 0x1_0000_0000 + 256 * index, 256)
    ensures FitsSectors(bs * block % 0x1_0000_0000, bs)
    ensures FitsSectors(bs * block % 0x1_0000_0000, size)
  {
    BlockAligned(bs, table);
    BlockAligned(bs, block);
    assert Times32(bs, table) == bs * table % 0x1_0000_0000 && Times32(bs, block) == bs * block % 0x1_0000_0000;
    hide Times32, BlockSize;
    AlignedPlus(bs, group * 32);
    Multiple32(group);
    AlignedPlus(Times32(bs, table), INODE_SIZE * index);
    AlignedPlus(Times32(bs, table), INODE_SIZE);
    Multiple256(index);
  }

  lemma AlignedPlus(t: nat, r: nat)
    requires t % 512 == 0
    ensures (t + r) % 512 == r % 512
  {
    DivModUnique(t + r, 512, t / 512 + r / 512, r % 512);
  }

  lemma Multiple32(n: nat)
    ensures n * 32 % 512 <= 480
  {
    assert n * 32 == n / 16 * 512 + n % 16 * 32;
  }

  lemma Multiple256(n: nat)
    ensures n * 256 % 512 <= 256
  {
    assert n * 256 == n / 2 * 512 + n % 2 * 256;
  }

  // The code.

  /** The driver on the kernel's heap. Addresses are offsets from the start of the heap. */
  class Driver {
    var h: Flat

    constructor (heap: Flat)
      ensures h == heap
    {
      h := heap;
    }

    method Kalloc(size: nat) returns (p: nat)
      requires Fits(h, size)
      modifies this
      ensures h == NewBlock(old(h), size) && p == old(h).at + 16
    {
      FlatKallocOk(h, size);
      p := h.at + 16;
      h := FlatKalloc(h, size);
    }

    method Store(p: nat, s: seq<byte>)
      requires p + |s| <= |h.bytes|
      modifies this
      ensures h == Flat(SetBytes(old(h).bytes, p, s), old(h).at)
    {
      h := Flat(SetBytes(h.bytes, p, s), h.at);
    }

    method Memcpy(dest: nat, src: nat, len: nat)
      requires dest + len <= |h.bytes| && src + len <= |h.bytes|
      requires dest + len <= src || src + len <= dest
      modifies this
      ensures h == Flat(SetBytes(old(h).bytes, dest, old(h).bytes[src..src + len]), old(h).at)
    {
      hide SetBytes;
      ghost var b := h.bytes;
      var current := 0;
      while current < len
        invariant current <= len && h.at == old(h).at && |h.bytes| == |b|
        invariant h.bytes[dest..dest + current] == b[src..src + current]
        invariant forall i | 0 <= i < |b| && !(dest <= i < dest + current) :: h.bytes[i] == b[i]
      {
        ghost var before := h.bytes;
        h := Flat(h.bytes[dest + current := h.bytes[src + current]], h.at);
        CopyByte(before, b, dest, src, current);
        current := current + 1;
      }
      SetBytesIs(b, h.bytes, dest, b[src..src + len]);
    }

    /** read_blocks, with the request as basic_op builds it and the device leaves it. */
    method ReadBlocks(disk: seq<byte>, sector: nat, length: nat, buffer: nat) returns (res: int)
      requires Fits(h, REQUEST_SIZE) && buffer + length <= h.at
      modifies this
      ensures length % SECTOR != 0 ==> res == -1 && h == old(h)
      ensures length % SECTOR == 0 ==> res == 0 && h == Served(old(h), disk, sector, length, buffer)
    {
      hide SetBytes, ToLe, FlatOk, Word, FlatKalloc;
      if length % SECTOR != 0 {
        return -1;
      }
      var request := Kalloc(REQUEST_SIZE);
      Store(request, ToLe(0, 4));
      Store(request + 8, ToLe(Sector32(sector), 8));
      if OnDisk(|disk|, sector, length) {
        Store(request + STATUS_AT, [0]);
        Store(buffer, Blocks(disk, sector, length));
      } else {
        Store(request + STATUS_AT, [1]);
      }
      res := 0;
    }

    /** The read method, into a buffer in a block allocated before. */
    method Read(disk: seq<byte>, offset: nat, length: nat, buffer: nat) returns (res: int)
      requires ReadFits(h, length) && buffer + length <= h.at
      modifies this
      ensures res == 0
      ensures h == Flat(SetBytes(AfterRead(old(h), disk, offset, length).bytes, buffer,
                                 ReadBytes(old(h), disk, offset, length)),
                        AfterRead(old(h), disk, offset, length).at)
      ensures FlatOk(h) && forall i | 0 <= i < old(h).at && !(buffer <= i < buffer + length) ::
                h.bytes[i] == old(h).bytes[i]
      ensures PARTITION + offset + length <= |disk| && (length == 0 || ReadIsExact(|disk|, offset, length)) ==>
                h.bytes[buffer..buffer + length] == Wanted(disk, offset, length)
    {
      hide SetBytes, FlatOk, Word, FlatKalloc, Served, NewBlock, Fits, ReadIsExact, Wanted;
      ghost var h0 := h;
      var start := offset + SECTOR * PARTITION_SECTOR;
      var sector := start / SECTOR;
      var too_much_at_start := start % SECTOR;
      var amount := length / SECTOR;
      var temp := Kalloc(SECTOR * (amount + 1));
      res := ReadBlocks(disk, sector, (amount + 1) * SECTOR, temp);
      if res < 0 {
        return;
      }
      RangeInBlocks(offset, length);
      Memcpy(buffer, temp + too_much_at_start, length);
      ReadFrame(h0, disk, offset, length, buffer);
      if PARTITION + offset + length <= |disk| && (length == 0 || ReadIsExact(|disk|, offset, length)) {
        ExactWhenFits(h0, disk, offset, length);
      }
    }
  }

  /** read keeps what was allocated before it, but for the caller's buffer. */
  lemma ReadFrame(h: Flat, disk: seq<byte>, offset: nat, length: nat, buffer: nat)
    requires ReadFits(h, length) && buffer + length <= h.at
    ensures
      var a := AfterRead(h, disk, offset, length);
      var r := Flat(SetBytes(a.bytes, buffer, ReadBytes(h, disk, offset, length)), a.at);
      && FlatOk(r) && h.at <= |h.bytes|
      && (forall i | 0 <= i < h.at && !(buffer <= i < buffer + length) :: r.bytes[i] == h.bytes[i])
      && r.bytes[buffer..buffer + length] == ReadBytes(h, disk, offset, length)
  {
    hide Served, NewBlock, FlatOk, Word, SetBytes, ReadBytes, TempSize, FirstSector, ImageBehind, OnDisk, Blocks, Fits;
    var a := NewBlock(h, TempSize(length));
    ServedFacts(a, disk, FirstSector(offset), TempSize(length), h.at + 16);
    BlockKeeps(h, TempSize(length));
    var r := AfterRead(h, disk, offset, length);
    ServedKeepsFree(Flat(SetBytes(r.bytes, buffer, ReadBytes(h, disk, offset, length)), r.at), r);
  }

  lemma BlockKeeps(h: Flat, size: nat)
    requires Fits(h, size)
    ensures h.at <= |h.bytes| && NewBlock(h, size).at == h.at + 16 + size
    ensures forall i | 0 <= i < h.at :: NewBlock(h, size).bytes[i] == h.bytes[i]
  {
    hide NewBlock, FlatOk;
    FitsAt(h, size);
    SamePrefix(h.bytes, NewBlock(h, size).bytes, h.at);
  }

  lemma FitsAt(h: Flat, size: nat)
    requires Fits(h, size)
    ensures FlatOk(h) && h.at + 16 <= |h.bytes|
  {
  }

  /** One turn of the copying loop. */
  lemma CopyByte(d: seq<byte>, b: seq<byte>, dest: nat, src: nat, k: nat)
    requires |d| == |b| && dest + k < |b| && src + k < |b|
    requires d[dest..dest + k] == b[src..src + k]
    ensures d[dest + k := b[src + k]][dest..dest + k + 1] == b[src..src + k + 1]
  {
    var d1 := d[dest + k := b[src + k]];
    assert d1[dest..dest + k + 1] == d[dest..dest + k] + [b[src + k]];
    assert b[src..src + k + 1] == b[src..src + k] + [b[src + k]];
  }

  lemma SetBytesIs(b: seq<byte>, b1: seq<byte>, p: nat, s: seq<byte>)
    requires p + |s| <= |b| == |b1| && b1[p..p + |s|] == s
    requires forall i | 0 <= i < |b| && !(p <= i < p + |s|) :: b1[i] == b[i]
    ensures b1 == SetBytes(b, p, s)
  {
    var b2 := SetBytes(b, p, s);
    forall i | 0 <= i < |b|
      ensures b1[i] == b2[i]
    {
      if p <= i < p + |s| {
        assert b1[p..p + |s|][i - p] == b2[p..p + |s|][i - p];
      }
    }
  }
}
