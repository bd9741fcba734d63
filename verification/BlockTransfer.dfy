/** A read on the machine: the device finds the request and reaches the temporary buffer by
    physical addresses, each counting on from the translation of one virtual address. */
module BlockTransfer {
  import opened Wrappers
  import opened Bits
  import opened Memory
  import opened FrameAllocator
  import opened PageTree
  import opened PageMapping
  import opened PageRuns
  import opened FlatHeap
  import opened HeapMemory
  import opened HeapLayout
  import opened KernelHeap
  import opened BlockRead
  import S = Sv48
  import V = Virtqueue

  const PENDING: byte := 0x12 // the status basic_op waits on

  /** Heap bytes at which read's two blocks begin. */
  function BufferAt(h: Flat): nat { h.at + 16 }
  function RequestAt(h: Flat, length: nat): nat { h.at + 16 + TempSize(length) + 16 }

  // What the device reads.

  /** What a device reads that counts on for n bytes from the translation of heap byte i. */
  function DeviceBytes(m: Mem, fr: seq<nat>, i: nat, n: nat): (s: seq<byte>)
    requires i < |fr| * 4096 && PhysAt(fr, i) + n <= |m|
    ensures |s| == n
  {
    m[PhysAt(fr, i)..PhysAt(fr, i) + n]
  }

  type Header = s: seq<byte> | |s| == 16 witness seq(16, _ => 0)

  function SeenType(hdr: Header): nat { Le(hdr[..4]) }
  function SeenSector(hdr: Header): nat { Le(hdr[8..]) }

  /** The device serves a read of sectors that lie on its disk of n bytes. */
  predicate Serves(hdr: Header, n: nat, length: nat) {
    SeenType(hdr) == 0 && SeenSector(hdr) * SECTOR + length <= n
  }

  function Status(hdr: Header, n: nat, length: nat): byte {
    if Serves(hdr, n, length) then 0 else if SeenType(hdr) == 0 then 1 else 2
  }

  function Sectors(hdr: Header, disk: seq<byte>, length: nat): (s: seq<byte>)
    requires Serves(hdr, |disk|, length)
    ensures |s| == length
  {
    disk[SeenSector(hdr) * SECTOR..SeenSector(hdr) * SECTOR + length]
  }

  /** The device's accesses stay inside memory. */
  ghost predicate Placed(m: Mem, fr: seq<nat>, h: Flat, length: nat) {
    && RequestAt(h, length) + REQUEST_SIZE <= |fr| * 4096
    && PhysAt(fr, BufferAt(h)) + TempSize(length) <= |m|
    && PhysAt(fr, RequestAt(h, length)) + 16 <= |m|
    && PhysAt(fr, RequestAt(h, length) + STATUS_AT) + 1 <= |m|
  }

  ghost function HeaderSeen(m: Mem, fr: seq<nat>, h: Flat, length: nat): Header
    requires Placed(m, fr, h, length)
  {
    DeviceBytes(m, fr, RequestAt(h, length), 16)
  }

  /** What the device does to memory: it stores the sectors and then the status, each at
      consecutive physical addresses. */
  ghost function Transfer(m: Mem, fr: seq<nat>, h: Flat, disk: seq<byte>, length: nat): (m': Mem)
    requires Placed(m, fr, h, length)
    ensures |m'| == |m|
  {
    var hdr := HeaderSeen(m, fr, h, length);
    var m1 := if Serves(hdr, |disk|, TempSize(length))
              then DmaWrite(m, fr, BufferAt(h), Sectors(hdr, disk, TempSize(length))) else m;
    DmaWrite(m1, fr, RequestAt(h, length) + STATUS_AT, [Status(hdr, |disk|, TempSize(length))])
  }

  // The state in which it is asked.

  /** The heap holds the temporary buffer and behind it the pending request. */
  ghost predicate Asked(
    m: Mem, base: nat, root: nat, T: Tables, fr: seq<nat>, h: Flat, offset: nat, length: nat)
  {
    && HeapOk(m, base, root, T, fr) && FramesIn(m, fr) && ReadFits(h, length)
    && View(m, fr) == WithRequest(NewBlock(h, TempSize(length)), FirstSector(offset), 0x12).bytes
  }

  lemma AskedPlaced(
    m: Mem, base: nat, root: nat, T: Tables, fr: seq<nat>, h: Flat, offset: nat, length: nat)
    requires Asked(m, base, root, T, fr, h, offset, length)
    ensures HeapOk(m, base, root, T, fr) && FramesIn(m, fr) && ReadFits(h, length)
    ensures Placed(m, fr, h, length)
    ensures BufferAt(h) + TooMuchAtStart(offset) + length <= |fr| * 4096
  {
    hide NewBlock, TempSize, TooMuchAtStart, FirstSector, HeapOk, View, Fits;
    RangeInBlocks(offset, length);
    DmaInMemory(m, base, root, T, fr, BufferAt(h), TempSize(length));
    DmaInMemory(m, base, root, T, fr, RequestAt(h, length), 16);
    DmaInMemory(m, base, root, T, fr, RequestAt(h, length) + STATUS_AT, 1);
  }

  /** The bytes of the stores that basic_op makes into a new request. */
  function RequestStored(m: Mem, root: nat, p: nat, sector: nat): Mem {
    var m1 := StoreBytes(m, root, p, ToLe(0, 4));
    var m2 := StoreBytes(m1, root, p + 8, ToLe(Sector32(sector), 8));
    StoreBytes(m2, root, p + STATUS_AT, [PENDING])
  }

  /** The kernel gets there: two calls of kalloc and the stores into the request, all through
      the page tables. */
  lemma KernelAsks(
    s: HeapState, base: nat, root: nat, T: Tables, fr: seq<nat>, h: Flat, offset: nat, length: nat,
    s1: HeapState, p1: nat, s2: HeapState, p2: nat)
    returns (T': Tables, fr': seq<nat>)
    requires Represents(s, base, root, T, fr, h) && TempSize(length) + 32 < WORD
    requires Layout(s.m, base) && Kalloc(s, base, root, TempSize(length)) == Some((s1, p1))
    requires Layout(s1.m, base) && Kalloc(s1, base, root, REQUEST_SIZE) == Some((s2, p2))
    ensures p1 == HEAP_START + BufferAt(h) && p2 == HEAP_START + RequestAt(h, length) && fr <= fr'
    ensures Asked(RequestStored(s2.m, root, p2, FirstSector(offset)), base, root, T', fr', h, offset, length)
  {
    hide Represents, LayoutOk, Kalloc, NewBlock, TempSize, FirstSector, View, Fits, RequestStored, HeapOk, Layout;
    var size := TempSize(length);
    var T1, fr1 := KallocIsBlock(s, base, root, T, fr, h, size, s1, p1);
    var a := NewBlock(h, size);
    T', fr' := KallocIsBlock(s1, base, root, T1, fr1, a, REQUEST_SIZE, s2, p2);
    RequestInHeap(s2, base, root, T', fr', a, FirstSector(offset));
  }

  lemma KallocIsBlock(
    s: HeapState, base: nat, root: nat, T: Tables, fr: seq<nat>, h: Flat, size: nat, s1: HeapState, p1: nat)
    returns (T1: Tables, fr1: seq<nat>)
    requires Represents(s, base, root, T, fr, h) && size + 32 < WORD
    requires Layout(s.m, base) && Kalloc(s, base, root, size) == Some((s1, p1))
    ensures Fits(h, size) && NewBlock(h, size).at == h.at + 16 + size && p1 == HEAP_START + h.at + 16
    ensures fr <= fr1 && Represents(s1, base, root, T1, fr1, NewBlock(h, size))
  {
    hide Represents, LayoutOk, Kalloc, NewBlock, Fits, KeepsOthers, Word, GetSize, FlatOk;
    T1, fr1 := KallocRefines(s, base, root, T, fr, h, size, s1, p1);
    BlockIsKalloc(h, size);
  }

  lemma BlockIsKalloc(h: Flat, size: nat)
    requires Fits(h, size)
    ensures NewBlock(h, size) == FlatKalloc(h, size) && NewBlock(h, size).at == h.at + 16 + size
  {
    hide FlatKalloc, Fits;
  }

  lemma RequestInHeap(s: HeapState, base: nat, root: nat, T: Tables, fr: seq<nat>, a: Flat, sector: nat)
    requires Fits(a, REQUEST_SIZE) && Represents(s, base, root, T, fr, NewBlock(a, REQUEST_SIZE))
    ensures
      var m' := RequestStored(s.m, root, HEAP_START + a.at + 16, sector);
      && HeapOk(m', base, root, T, fr) && FramesIn(m', fr)
      && View(m', fr) == WithRequest(a, sector, PENDING).bytes
  {
    hide NewBlock, View, Fits, HeapOk, StoreBytes, SetBytes, ToLe, FreeSet, SameLookups, Sector32, FlatOk;
    var p := a.at + 16;
    FreshHeader(a);
    HeapStores(s.m, base, root, T, fr, p, ToLe(0, 4));
    var m1 := StoreBytes(s.m, root, HEAP_START + p, ToLe(0, 4));
    HeapStores(m1, base, root, T, fr, p + 8, ToLe(Sector32(sector), 8));
    var m2 := StoreBytes(m1, root, HEAP_START + p + 8, ToLe(Sector32(sector), 8));
    HeapStores(m2, base, root, T, fr, p + STATUS_AT, [PENDING]);
  }

  // What arrives.

  /** The device serves the request, if at all, into a contiguous buffer. */
  ghost predicate ServesSafely(m: Mem, fr: seq<nat>, h: Flat, n: nat, length: nat)
    requires Placed(m, fr, h, length)
  {
    Serves(HeaderSeen(m, fr, h, length), n, TempSize(length)) ==> Contiguous(fr, BufferAt(h), TempSize(length))
  }

  /** The heap's bytes after a safe transfer. */
  ghost function Transferred(b: seq<byte>, hdr: Header, h: Flat, disk: seq<byte>, length: nat): (b': seq<byte>)
    requires RequestAt(h, length) + REQUEST_SIZE <= |b|
    ensures |b'| == |b|
  {
    var b1 := if Serves(hdr, |disk|, TempSize(length))
              then SetBytes(b, BufferAt(h), Sectors(hdr, disk, TempSize(length))) else b;
    SetBytes(b1, RequestAt(h, length) + STATUS_AT, [Status(hdr, |disk|, TempSize(length))])
  }

  lemma SafeTransfer(
    m: Mem, base: nat, root: nat, T: Tables, fr: seq<nat>, h: Flat, disk: seq<byte>, offset: nat, length: nat)
    requires Asked(m, base, root, T, fr, h, offset, length) && Placed(m, fr, h, length)
    requires ServesSafely(m, fr, h, |disk|, length)
    ensures FramesIn(m, fr)
    ensures
      var m' := Transfer(m, fr, h, disk, length);
      && HeapOk(m', base, root, T, fr) && FramesIn(m', fr) && FreeSet(m', base) == FreeSet(m, base)
      && View(m', fr) == Transferred(View(m, fr), HeaderSeen(m, fr, h, length), h, disk, length)
      && ChangesOnly(m, m', HeapFrames(fr))
      && (forall t | t in T :: InMem(m, t) && WordsOf(m', t) == WordsOf(m, t))
  {
    hide NewBlock, TempSize, FirstSector, HeapOk, View, Fits, WithRequest, SetBytes, Contiguous, DmaWrite, Sectors;
    hide Serves, Status, HeaderSeen, FreeSet, HeapFrames;
    RangeInBlocks(offset, length);
    var hdr := HeaderSeen(m, fr, h, length);
    var at := RequestAt(h, length) + STATUS_AT;
    OneByteContiguous(fr, at);
    if Serves(hdr, |disk|, TempSize(length)) {
      var s := Sectors(hdr, disk, TempSize(length));
      DmaArrives(m, base, root, T, fr, BufferAt(h), s);
      DmaArrives(DmaWrite(m, fr, BufferAt(h), s), base, root, T, fr, at, [Status(hdr, |disk|, TempSize(length))]);
    } else {
      DmaArrives(m, base, root, T, fr, at, [Status(hdr, |disk|, TempSize(length))]);
    }
  }

  lemma OneByteContiguous(fr: seq<nat>, i: nat)
    requires i < |fr| * 4096
    ensures Contiguous(fr, i, 1)
  {
  }

  /** read finds the wanted bytes in the temporary buffer, and outside the heap's frames memory
      is as it was: tables, flags, free frames and frames of others. */
  ghost predicate Arrives(m: Mem, fr: seq<nat>, h: Flat, disk: seq<byte>, offset: nat, length: nat)
    requires Placed(m, fr, h, length)
  {
    var m', from := Transfer(m, fr, h, disk, length), BufferAt(h) + TooMuchAtStart(offset);
    && FramesIn(m', fr) && from + length <= |fr| * 4096 && PARTITION + offset + length <= |disk|
    && View(m', fr)[from..from + length] == Wanted(disk, offset, length)
    && ChangesOnly(m, m', HeapFrames(fr))
  }

  /** The device serves the sectors that were meant, and the range ends inside them. */
  predicate Finds(hdr: Header, n: nat, offset: nat, length: nat) {
    && Serves(hdr, n, TempSize(length)) && SeenSector(hdr) == FirstSector(offset)
    && FitsSectors(offset, length)
  }

  /** The same about the heap's bytes alone. */
  ghost predicate Holds(b: seq<byte>, hdr: Header, h: Flat, disk: seq<byte>, offset: nat, length: nat)
    requires RequestAt(h, length) + REQUEST_SIZE <= |b|
  {
    var from := BufferAt(h) + TooMuchAtStart(offset);
    && from + length <= |b| && PARTITION + offset + length <= |disk|
    && Transferred(b, hdr, h, disk, length)[from..from + length] == Wanted(disk, offset, length)
  }

  lemma SafeArrives(
    m: Mem, base: nat, root: nat, T: Tables, fr: seq<nat>, h: Flat, disk: seq<byte>, offset: nat, length: nat)
    requires Asked(m, base, root, T, fr, h, offset, length) && Placed(m, fr, h, length)
    requires ServesSafely(m, fr, h, |disk|, length)
    ensures FramesIn(m, fr) && RequestAt(h, length) + REQUEST_SIZE <= |View(m, fr)|
    ensures Arrives(m, fr, h, disk, offset, length) <==>
            Holds(View(m, fr), HeaderSeen(m, fr, h, length), h, disk, offset, length)
  {
    hide Asked, ServesSafely, HeaderSeen, HeapOk, View, Transfer, Transferred, Wanted, TempSize, TooMuchAtStart;
    hide ChangesOnly;
    AskedPlaced(m, base, root, T, fr, h, offset, length);
    SafeTransfer(m, base, root, T, fr, h, disk, offset, length);
  }

  /** On the machine, wherever the heap's frames lie, read delivers the bytes asked for from
      every disk of n bytes and leaves memory outside the heap alone exactly when the buffer,
      if the device serves it at all, is physically contiguous, and nothing is asked for or
      the device reads the sector that was meant out of the request, all its sectors lie on
      the disk and the range ends inside them. */
  lemma DeliversExactly(
    m: Mem, base: nat, root: nat, T: Tables, fr: seq<nat>, h: Flat, n: nat, offset: nat, length: nat)
    requires Asked(m, base, root, T, fr, h, offset, length) && PARTITION + offset + length <= n
    ensures Placed(m, fr, h, length)
    ensures
      && ServesSafely(m, fr, h, n, length)
      && (length == 0 || Finds(HeaderSeen(m, fr, h, length), n, offset, length))
      <==>
      forall disk: seq<byte> | |disk| == n :: Arrives(m, fr, h, disk, offset, length)
  {
    hide Asked, Finds, ServesSafely, Arrives, Placed, HeaderSeen, Holds, View, HeapOk, TempSize, TooMuchAtStart;
    AskedPlaced(m, base, root, T, fr, h, offset, length);
    if !ServesSafely(m, fr, h, n, length) {
      var disk := OutsideDisk(m, base, root, T, fr, h, n, offset, length);
    } else {
      var b, hdr := View(m, fr), HeaderSeen(m, fr, h, length);
      RequestBegins(m, base, root, T, fr, h, offset, length);
      forall disk: seq<byte> | |disk| == n
        ensures Arrives(m, fr, h, disk, offset, length) <==> Holds(b, hdr, h, disk, offset, length)
      {
        SafeArrives(m, base, root, T, fr, h, disk, offset, length);
      }
      HoldsExactly(b, hdr, h, n, offset, length);
    }
  }

  lemma HoldsExactly(b: seq<byte>, hdr: Header, h: Flat, n: nat, offset: nat, length: nat)
    requires RequestAt(h, length) + REQUEST_SIZE <= |b| && b[BufferAt(h) + TempSize(length)] == 24
    requires PARTITION + offset + length <= n
    ensures length == 0 || Finds(hdr, n, offset, length) <==>
            forall disk: seq<byte> | |disk| == n :: Holds(b, hdr, h, disk, offset, length)
  {
    hide Finds, Holds, TempSize;
    if length == 0 || Finds(hdr, n, offset, length) {
      forall disk: seq<byte> | |disk| == n
        ensures Holds(b, hdr, h, disk, offset, length)
      {
        FoundHolds(b, hdr, h, disk, offset, length);
      }
    } else {
      var disk := WrongDisk(b, hdr, h, n, offset, length);
    }
  }

  /** Byte k of what read finds, while it lies in the temporary buffer. */
  lemma TransferredByte(b: seq<byte>, hdr: Header, h: Flat, disk: seq<byte>, length: nat, j: nat)
    requires RequestAt(h, length) + REQUEST_SIZE <= |b| && j < TempSize(length)
    ensures
      var b' := Transferred(b, hdr, h, disk, length);
      if Serves(hdr, |disk|, TempSize(length)) then
        SeenSector(hdr) * SECTOR + j < |disk| && b'[BufferAt(h) + j] == disk[SeenSector(hdr) * SECTOR + j]
      else b'[BufferAt(h) + j] == b[BufferAt(h) + j]
  {
    hide TempSize, SeenSector, SeenType, Le;
    if Serves(hdr, |disk|, TempSize(length)) {
      var s := Sectors(hdr, disk, TempSize(length));
      var b1 := SetBytes(b, BufferAt(h), s);
      assert b1[BufferAt(h)..BufferAt(h) + |s|][j] == s[j];
    }
  }

  lemma ReadBounds(b: seq<byte>, h: Flat, offset: nat, length: nat)
    requires RequestAt(h, length) + REQUEST_SIZE <= |b|
    ensures BufferAt(h) + TooMuchAtStart(offset) + length <= |b|
    ensures TooMuchAtStart(offset) < TempSize(length)
    ensures FirstSector(offset) * SECTOR + TooMuchAtStart(offset) == PARTITION + offset
    ensures FitsSectors(offset, length) <==> TooMuchAtStart(offset) + length <= TempSize(length)
  {
    hide TempSize, TooMuchAtStart, FirstSector, FitsSectors;
    RangeInBlocks(offset, length);
    StartIsOffset(offset);
    RangeFits(offset, length);
  }

  lemma FoundHolds(b: seq<byte>, hdr: Header, h: Flat, disk: seq<byte>, offset: nat, length: nat)
    requires RequestAt(h, length) + REQUEST_SIZE <= |b| && PARTITION + offset + length <= |disk|
    requires length == 0 || Finds(hdr, |disk|, offset, length)
    ensures Holds(b, hdr, h, disk, offset, length)
  {
    hide Transferred, SeenSector, SeenType, FitsSectors, TooMuchAtStart, TempSize, FirstSector;
    ReadBounds(b, h, offset, length);
    var b', from := Transferred(b, hdr, h, disk, length), BufferAt(h) + TooMuchAtStart(offset);
    forall k | 0 <= k < length
      ensures b'[from..from + length][k] == Wanted(disk, offset, length)[k]
    {
      TransferredByte(b, hdr, h, disk, length, TooMuchAtStart(offset) + k);
    }
  }

  /** A disk that shows the other direction when the transfer is safe: unlike the stale buffer
      when the device serves nothing, and otherwise marked at the place asked for. */
  lemma WrongDisk(b: seq<byte>, hdr: Header, h: Flat, n: nat, offset: nat, length: nat) returns (disk: seq<byte>)
    requires RequestAt(h, length) + REQUEST_SIZE <= |b| && b[BufferAt(h) + TempSize(length)] == 24
    requires PARTITION + offset + length <= n && length > 0 && !Finds(hdr, n, offset, length)
    ensures |disk| == n && !Holds(b, hdr, h, disk, offset, length)
  {
    hide Transferred, SeenSector, SeenType, FitsSectors, TooMuchAtStart, TempSize, FirstSector, Holds;
    ReadBounds(b, h, offset, length);
    var start, from := PARTITION + offset, BufferAt(h) + TooMuchAtStart(offset);
    if !Serves(hdr, n, TempSize(length)) {
      disk := seq(n, _ => if b[from] == 0 then 1 else 0);
      TransferredByte(b, hdr, h, disk, length, TooMuchAtStart(offset));
      DiffersAt(b, hdr, h, disk, offset, length, 0);
    } else {
      disk := seq(n, i => if i == start then 1 else 0);
      if SeenSector(hdr) != FirstSector(offset) {
        TransferredByte(b, hdr, h, disk, length, TooMuchAtStart(offset));
        DiffersAt(b, hdr, h, disk, offset, length, 0);
      } else {
        var k := TempSize(length) - TooMuchAtStart(offset);
        BehindBuffer(b, hdr, h, disk, length);
        DiffersAt(b, hdr, h, disk, offset, length, k);
      }
    }
  }

  lemma DiffersAt(b: seq<byte>, hdr: Header, h: Flat, disk: seq<byte>, offset: nat, length: nat, k: nat)
    requires RequestAt(h, length) + REQUEST_SIZE <= |b| && PARTITION + offset + length <= |disk| && k < length
    requires BufferAt(h) + TooMuchAtStart(offset) + length <= |b|
    requires Transferred(b, hdr, h, disk, length)[BufferAt(h) + TooMuchAtStart(offset) + k] !=
             disk[PARTITION + offset + k]
    ensures !Holds(b, hdr, h, disk, offset, length)
  {
    hide Transferred, TooMuchAtStart, TempSize;
    var b', from := Transferred(b, hdr, h, disk, length), BufferAt(h) + TooMuchAtStart(offset);
    assert b'[from..from + length][k] == b'[from + k];
    assert Wanted(disk, offset, length)[k] == disk[PARTITION + offset + k];
  }

  /** Behind the temporary buffer lies the request block; the device leaves its first byte. */
  lemma BehindBuffer(b: seq<byte>, hdr: Header, h: Flat, disk: seq<byte>, length: nat)
    requires RequestAt(h, length) + REQUEST_SIZE <= |b|
    ensures Transferred(b, hdr, h, disk, length)[BufferAt(h) + TempSize(length)] == b[BufferAt(h) + TempSize(length)]
  {
    hide TempSize, Serves, Status, Sectors;
  }

  lemma RequestBegins(
    m: Mem, base: nat, root: nat, T: Tables, fr: seq<nat>, h: Flat, offset: nat, length: nat)
    requires Asked(m, base, root, T, fr, h, offset, length)
    ensures FramesIn(m, fr) && RequestAt(h, length) + REQUEST_SIZE <= |View(m, fr)|
    ensures View(m, fr)[BufferAt(h) + TempSize(length)] == 24
  {
    hide HeapOk, NewBlock, Fits, TempSize, FirstSector, WithRequest, ImageBehind, FlatOk, View;
    var a := NewBlock(h, TempSize(length));
    WithRequestFacts(a, FirstSector(offset), PENDING);
    ImageBegins(FirstSector(offset), NewBlock(a, REQUEST_SIZE).bytes, a.at);
    var r := WithRequest(a, FirstSector(offset), PENDING).bytes;
    assert r[a.at..a.at + 16 + STATUS_AT][0] == r[a.at];
  }

  /** When it is not safe: a disk whose bytes differ from the first byte of the frame hit. */
  lemma OutsideDisk(
    m: Mem, base: nat, root: nat, T: Tables, fr: seq<nat>, h: Flat, n: nat, offset: nat, length: nat)
    returns (disk: seq<byte>)
    requires Asked(m, base, root, T, fr, h, offset, length) && PARTITION + offset + length <= n
    requires Placed(m, fr, h, length) && !ServesSafely(m, fr, h, n, length)
    ensures |disk| == n && !Arrives(m, fr, h, disk, offset, length)
  {
    hide Asked, TempSize, FirstSector, TooMuchAtStart, HeapOk, View, Contiguous, SeenSector, SeenType, DmaWrite;
    hide HeaderSeen, Arrives, Transfer;
    AskedPlaced(m, base, root, T, fr, h, offset, length);
    RangeInBlocks(offset, length);
    var j, f, k := DmaMisses(m, base, root, T, fr, BufferAt(h), TempSize(length));
    disk := seq(n, _ => if m[f * 4096] == 0 then 1 else 0);
    ServedChangesFrame(m, fr, h, disk, length, j, f);
    FrameChanged(m, fr, h, disk, offset, length, f);
  }

  lemma ServedChangesFrame(m: Mem, fr: seq<nat>, h: Flat, disk: seq<byte>, length: nat, j: nat, f: nat)
    requires Placed(m, fr, h, length) && f !in fr && InMem(m, f)
    requires Serves(HeaderSeen(m, fr, h, length), |disk|, TempSize(length))
    requires BufferAt(h) <= j < BufferAt(h) + TempSize(length) && DeviceAddress(fr, BufferAt(h), j) == f * 4096
    requires forall i | 0 <= i < |disk| :: disk[i] != m[f * 4096]
    ensures Transfer(m, fr, h, disk, length)[f * 4096] != m[f * 4096]
  {
    hide TempSize, SeenSector, SeenType, HeaderSeen, Status, SetBytes, PhysAt;
    var hdr, i, a := HeaderSeen(m, fr, h, length), BufferAt(h), f * 4096;
    var s := Sectors(hdr, disk, TempSize(length));
    SetByteAt(m, PhysAt(fr, i), s, a);
    assert s[j - i] == disk[SeenSector(hdr) * SECTOR + (j - i)];
    InHeapFrame(fr, RequestAt(h, length) + STATUS_AT, f);
  }

  lemma SetByteAt(m: Mem, p: nat, s: seq<byte>, a: nat)
    requires p <= a < p + |s| <= |m|
    ensures SetBytes(m, p, s)[a] == s[a - p]
  {
    assert SetBytes(m, p, s)[p..p + |s|][a - p] == SetBytes(m, p, s)[a];
  }

  lemma InHeapFrame(fr: seq<nat>, at: nat, f: nat)
    requires at < |fr| * 4096 && f !in fr
    ensures PhysAt(fr, at) != f * 4096
  {
    assert PhysAt(fr, at) / 4096 == fr[at / 4096];
  }

  lemma FrameChanged(m: Mem, fr: seq<nat>, h: Flat, disk: seq<byte>, offset: nat, length: nat, f: nat)
    requires Placed(m, fr, h, length) && f !in fr && InMem(m, f)
    requires Transfer(m, fr, h, disk, length)[f * 4096] != m[f * 4096]
    ensures !Arrives(m, fr, h, disk, offset, length)
  {
    hide Transfer, View, Wanted, TempSize, TooMuchAtStart, Placed;
    assert f * 4096 / 4096 == f && f !in HeapFrames(fr);
  }

  // When the request's header is contiguous too.

  /** A contiguous header is read as the driver wrote it. */
  lemma HeaderInLine(
    m: Mem, base: nat, root: nat, T: Tables, fr: seq<nat>, h: Flat, offset: nat, length: nat)
    requires Asked(m, base, root, T, fr, h, offset, length) && Placed(m, fr, h, length)
    requires Contiguous(fr, RequestAt(h, length), 16)
    ensures SeenType(HeaderSeen(m, fr, h, length)) == 0
    ensures SeenSector(HeaderSeen(m, fr, h, length)) == Sector32(FirstSector(offset))
  {
    hide HeapOk, NewBlock, Fits, TempSize, FirstSector, WithRequest, FlatOk, Contiguous, ToLe, Le, Sector32, View;
    var r, hdr := RequestAt(h, length), HeaderSeen(m, fr, h, length);
    HeaderIsView(m, fr, r);
    var a := NewBlock(h, TempSize(length));
    var b := WithRequest(a, FirstSector(offset), PENDING).bytes;
    assert a.at + 16 == r;
    RequestHeader(a, FirstSector(offset), PENDING);
    assert hdr[..4] == b[r..r + 4];
    assert hdr[8..] == b[r + 8..r + 16];
    SmallLe(FirstSector(offset));
  }

  lemma RequestHeader(a: Flat, sector: nat, status: byte)
    requires Fits(a, REQUEST_SIZE)
    ensures
      var b, r := WithRequest(a, sector, status).bytes, a.at + 16;
      b[r..r + 4] == ToLe(0, 4) && b[r + 8..r + 16] == ToLe(Sector32(sector), 8)
  {
    hide NewBlock, Fits, FlatOk, SetBytes, ToLe, Sector32;
    FreshHeader(a);
    RequestFields(NewBlock(a, REQUEST_SIZE).bytes, a.at, sector, status);
  }

  lemma SmallLe(sector: nat)
    ensures Le(ToLe(0, 4)) == 0 && Le(ToLe(Sector32(sector), 8)) == Sector32(sector)
  {
    LeToLe(0, 4);
    LeToLe(Sector32(sector), 8);
  }

  lemma HeaderIsView(m: Mem, fr: seq<nat>, r: nat)
    requires FramesIn(m, fr) && r + 16 <= |fr| * 4096
    requires PhysAt(fr, r) + 16 <= |m| && Contiguous(fr, r, 16)
    ensures DeviceBytes(m, fr, r, 16) == View(m, fr)[r..r + 16]
  {
    forall k | 0 <= k < 16
      ensures DeviceBytes(m, fr, r, 16)[k] == View(m, fr)[r + k]
    {
      assert PhysAt(fr, r + k) == DeviceAddress(fr, r, r + k);
    }
  }

  /** Of any other header the device reads the last bytes out of a frame that is not the
      heap's. */
  lemma HeaderSplit(
    m: Mem, base: nat, root: nat, T: Tables, fr: seq<nat>, h: Flat, offset: nat, length: nat)
    returns (d: nat, f: nat)
    requires Asked(m, base, root, T, fr, h, offset, length) && Placed(m, fr, h, length)
    requires !Contiguous(fr, RequestAt(h, length), 16)
    ensures 0 < d < 16 && f !in fr && InMem(m, f)
    ensures HeaderSeen(m, fr, h, length)[d..] == m[f * 4096..f * 4096 + (16 - d)]
  {
    hide HeapOk, NewBlock, Fits, TempSize, FirstSector, WithRequest, Contiguous, View;
    var r, j, k := RequestAt(h, length), 0, 0;
    j, f, k := DmaMisses(m, base, root, T, fr, r, 16);
    d := j - r;
  }

  /** When the request's header is contiguous, the bytes arrive exactly when the temporary
      buffer is contiguous too, or the device cannot serve the request, and nothing is asked
      for or the three conditions of ReadIsExact hold. */
  lemma ReadOnMachine(
    m: Mem, base: nat, root: nat, T: Tables, fr: seq<nat>, h: Flat, n: nat, offset: nat, length: nat)
    requires Asked(m, base, root, T, fr, h, offset, length) && PARTITION + offset + length <= n
    requires Placed(m, fr, h, length) && Contiguous(fr, RequestAt(h, length), 16)
    ensures
      && (OnDisk(n, FirstSector(offset), TempSize(length)) ==> Contiguous(fr, BufferAt(h), TempSize(length)))
      && (length == 0 || ReadIsExact(n, offset, length))
      <==>
      forall disk: seq<byte> | |disk| == n :: Arrives(m, fr, h, disk, offset, length)
  {
    hide Asked, Arrives, HeaderSeen, TempSize, FirstSector, Contiguous, SeenSector, SeenType, FitsSectors;
    HeaderInLine(m, base, root, T, fr, h, offset, length);
    DeliversExactly(m, base, root, T, fr, h, n, offset, length);
    NotCut(FirstSector(offset));
  }

  // The same transfer along the chain of descriptors.

  /** The call of basic_op, with the physical addresses that the kernel's walk yields. */
  function Call(m: Mem, root: nat, h: Flat, offset: nat, length: nat): V.Request {
    var w := Words(m);
    V.Request(0, FirstSector(offset), TempSize(length),
              S.SwTranslate(w, root, HEAP_START + RequestAt(h, length)),
              S.SwTranslate(w, root, HEAP_START + BufferAt(h)),
              S.SwTranslate(w, root, HEAP_START + RequestAt(h, length) + STATUS_AT))
  }

  /** A device that holds three descriptors reads the bytes of the first as the header, writes
      the sectors to the second, and its status to the last byte of the third. */
  ghost predicate ChainInMemory(m: Mem, got: seq<V.Desc>) {
    && |got| == 3 && (forall d | d in got :: d.addr + d.len <= |m|)
    && got[0].len == 16 && got[2].len > 0
  }

  function ServeChain(m: Mem, got: seq<V.Desc>, disk: seq<byte>): (m': Mem)
    requires ChainInMemory(m, got)
    ensures |m'| == |m|
  {
    assert got[0] in got && got[1] in got && got[2] in got;
    var hdr := m[got[0].addr..got[0].addr + got[0].len];
    var m1 := if Serves(hdr, |disk|, got[1].len)
              then SetBytes(m, got[1].addr, Sectors(hdr, disk, got[1].len)) else m;
    SetBytes(m1, got[2].addr + got[2].len - 1, [Status(hdr, |disk|, got[1].len)])
  }

  /** Along the chain that basic_op publishes for the call this is Transfer: its lengths of 16
      and 1 are those of the header and the status. */
  lemma ChainTransfers(
    m: Mem, base: nat, root: nat, T: Tables, fr: seq<nat>, h: Flat, disk: seq<byte>, offset: nat, length: nat,
    got: seq<V.Desc>)
    requires Asked(m, base, root, T, fr, h, offset, length) && Placed(m, fr, h, length)
    requires V.ChainRead(got, Call(m, root, h, offset, length), 3)
    ensures V.RequestOk(Call(m, root, h, offset, length)) && ChainInMemory(m, got)
    ensures ServeChain(m, got, disk) == Transfer(m, fr, h, disk, length)
  {
    hide HeapOk, View, NewBlock, WithRequest, S.SwTranslate, Words, Fits, FirstSector, TempSize, Transfer, ServeChain;
    hide V.Chain, V.SameDesc;
    ChainPlaces(m, base, root, T, fr, h, offset, length, got);
    SameTransfer(m, fr, h, disk, length, got);
  }

  lemma WholeSectors(length: nat)
    ensures TempSize(length) % 512 == 0
  {
  }

  lemma ChainPlaces(
    m: Mem, base: nat, root: nat, T: Tables, fr: seq<nat>, h: Flat, offset: nat, length: nat, got: seq<V.Desc>)
    requires Asked(m, base, root, T, fr, h, offset, length) && Placed(m, fr, h, length)
    requires V.ChainRead(got, Call(m, root, h, offset, length), 3)
    ensures V.RequestOk(Call(m, root, h, offset, length)) && |got| == 3
    ensures got[0].addr == PhysAt(fr, RequestAt(h, length)) && got[0].len == 16
    ensures got[1].addr == PhysAt(fr, BufferAt(h)) && got[1].len == TempSize(length)
    ensures got[2].addr == PhysAt(fr, RequestAt(h, length) + STATUS_AT) && got[2].len == 1
  {
    hide Asked, Placed, PhysAt, TempSize, FirstSector, Call;
    WholeSectors(length);
    CallPlaces(m, base, root, T, fr, h, offset, length);
    ReadFields(got, Call(m, root, h, offset, length));
  }

  lemma ReadFields(got: seq<V.Desc>, r: V.Request)
    requires V.ChainRead(got, r, 3)
    ensures |got| == 3 && got[0].addr == r.header && got[0].len == 16
    ensures got[1].addr == r.buffer && got[1].len == r.length % 0x1_0000_0000
    ensures got[2].addr == r.status && got[2].len == 1
  {
    assert V.SameDesc(got[0], V.Chain(r)[0]) && V.SameDesc(got[1], V.Chain(r)[1]) && V.SameDesc(got[2], V.Chain(r)[2]);
  }

  lemma CallPlaces(
    m: Mem, base: nat, root: nat, T: Tables, fr: seq<nat>, h: Flat, offset: nat, length: nat)
    requires Asked(m, base, root, T, fr, h, offset, length) && Placed(m, fr, h, length)
    ensures TempSize(length) < 0x1_0000_0000
    ensures
      Call(m, root, h, offset, length) ==
      V.Request(0, FirstSector(offset), TempSize(length), PhysAt(fr, RequestAt(h, length)),
                PhysAt(fr, BufferAt(h)), PhysAt(fr, RequestAt(h, length) + STATUS_AT))
  {
    hide HeapOk, View, NewBlock, WithRequest, S.SwTranslate, Words, Fits, FirstSector, TempSize, PhysAt, FramesIn;
    HeapFramesIn(m, base, root, T, fr);
    HeapTranslate(m, base, root, T, fr, RequestAt(h, length));
    HeapTranslate(m, base, root, T, fr, BufferAt(h));
    HeapTranslate(m, base, root, T, fr, RequestAt(h, length) + STATUS_AT);
  }

  lemma SameTransfer(m: Mem, fr: seq<nat>, h: Flat, disk: seq<byte>, length: nat, got: seq<V.Desc>)
    requires Placed(m, fr, h, length) && |got| == 3
    requires got[0].addr == PhysAt(fr, RequestAt(h, length)) && got[0].len == 16
    requires got[1].addr == PhysAt(fr, BufferAt(h)) && got[1].len == TempSize(length)
    requires got[2].addr == PhysAt(fr, RequestAt(h, length) + STATUS_AT) && got[2].len == 1
    ensures ChainInMemory(m, got) && ServeChain(m, got, disk) == Transfer(m, fr, h, disk, length)
  {
    hide TempSize, SetBytes, SeenType, SeenSector, PhysAt, Serves, Status, Sectors;
    assert forall d | d in got :: d == got[0] || d == got[1] || d == got[2];
  }

  // Back to the flat heap.

  /** With contiguous header and buffer, memory holds the heap that AfterRead describes. */
  lemma TransferIsServed(
    m: Mem, base: nat, root: nat, T: Tables, fr: seq<nat>, h: Flat, disk: seq<byte>, offset: nat, length: nat)
    requires Asked(m, base, root, T, fr, h, offset, length) && Placed(m, fr, h, length)
    requires Contiguous(fr, RequestAt(h, length), 16)
    requires OnDisk(|disk|, FirstSector(offset), TempSize(length)) ==>
               Contiguous(fr, BufferAt(h), TempSize(length))
    ensures ReadFits(h, length)
    ensures
      var m' := Transfer(m, fr, h, disk, length);
      && HeapOk(m', base, root, T, fr) && FramesIn(m', fr)
      && View(m', fr) == AfterRead(h, disk, offset, length).bytes
  {
    hide NewBlock, TempSize, FirstSector, HeapOk, View, Fits, SetBytes, Contiguous, Transfer, HeaderSeen;
    hide SeenSector, SeenType, Sector32, FlatOk, ToLe, Transferred, Served;
    AskedPlaced(m, base, root, T, fr, h, offset, length);
    HeaderInLine(m, base, root, T, fr, h, offset, length);
    SafeTransfer(m, base, root, T, fr, h, disk, offset, length);
    TransferredIsServed(NewBlock(h, TempSize(length)), HeaderSeen(m, fr, h, length), h, disk, offset, length);
  }

  lemma TransferredIsServed(a: Flat, hdr: Header, h: Flat, disk: seq<byte>, offset: nat, length: nat)
    requires Fits(a, REQUEST_SIZE) && a.at == h.at + 16 + TempSize(length)
    requires SeenType(hdr) == 0 && SeenSector(hdr) == Sector32(FirstSector(offset))
    ensures Transferred(WithRequest(a, FirstSector(offset), PENDING).bytes, hdr, h, disk, length) ==
            Served(a, disk, FirstSector(offset), TempSize(length), BufferAt(h)).bytes
  {
    hide TempSize, FirstSector, Fits, SetBytes, SeenSector, SeenType, Sector32, FlatOk, WithRequest, Blocks, Sectors;
    var sector, size, at := FirstSector(offset), TempSize(length), RequestAt(h, length) + STATUS_AT;
    if OnDisk(|disk|, sector, size) {
      SeenBlocks(hdr, disk, sector, size);
      NewStatus(a, sector, PENDING, 0);
      SetSwap(WithRequest(a, sector, PENDING).bytes, BufferAt(h), Blocks(disk, sector, size), at, [0]);
    } else {
      NewStatus(a, sector, PENDING, 1);
    }
  }

  lemma SeenBlocks(hdr: Header, disk: seq<byte>, sector: nat, size: nat)
    requires SeenType(hdr) == 0 && SeenSector(hdr) == Sector32(sector) && OnDisk(|disk|, sector, size)
    ensures Serves(hdr, |disk|, size) && Sectors(hdr, disk, size) == Blocks(disk, sector, size)
  {
    hide SeenType, SeenSector, Sector32;
  }

  lemma NewStatus(a: Flat, sector: nat, status: byte, status2: byte)
    requires Fits(a, REQUEST_SIZE)
    ensures SetBytes(WithRequest(a, sector, status).bytes, a.at + 16 + STATUS_AT, [status2]) ==
            WithRequest(a, sector, status2).bytes
  {
    hide NewBlock, Fits, SetBytes, Sector32, FlatOk, ToLe;
    FreshHeader(a);
    var p := a.at + 16;
    var b1 := SetBytes(NewBlock(a, REQUEST_SIZE).bytes, p, ToLe(0, 4));
    var b2 := SetBytes(b1, p + 8, ToLe(Sector32(sector), 8));
    SetTwice(b2, p + STATUS_AT, [status], [status2]);
  }

  lemma SetTwice(b: seq<byte>, p: nat, s: seq<byte>, s2: seq<byte>)
    requires p + |s| <= |b| && |s2| == |s|
    ensures SetBytes(SetBytes(b, p, s), p, s2) == SetBytes(b, p, s2)
  {
  }

  lemma SetSwap(b: seq<byte>, p: nat, s: seq<byte>, q: nat, s2: seq<byte>)
    requires p + |s| <= q && q + |s2| <= |b|
    ensures SetBytes(SetBytes(b, p, s), q, s2) == SetBytes(SetBytes(b, q, s2), p, s)
  {
    hide SetBytes;
    var x, y := SetBytes(b, p, s), SetBytes(b, q, s2);
    var l, r := SetBytes(x, q, s2), SetBytes(y, p, s);
    forall i | 0 <= i < |b|
      ensures l[i] == r[i]
    {
      if p <= i < p + |s| {
        assert x[p..p + |s|][i - p] == x[i] == l[i] && r[p..p + |s|][i - p] == r[i];
      } else if q <= i < q + |s2| {
        assert l[q..q + |s2|][i - q] == l[i] && y[q..q + |s2|][i - q] == y[i] == r[i];
      }
    }
  }

  lemma FoundArrives(
    m: Mem, base: nat, root: nat, T: Tables, fr: seq<nat>, h: Flat, disk: seq<byte>, offset: nat, length: nat)
    requires Asked(m, base, root, T, fr, h, offset, length) && PARTITION + offset + length <= |disk|
    requires Placed(m, fr, h, length) && ServesSafely(m, fr, h, |disk|, length)
    requires Finds(HeaderSeen(m, fr, h, length), |disk|, offset, length)
    ensures Arrives(m, fr, h, disk, offset, length)
  {
    hide Asked, Finds, ServesSafely, Placed, HeaderSeen, HeapOk, View, Holds, TempSize, Arrives;
    AskedPlaced(m, base, root, T, fr, h, offset, length);
    SafeArrives(m, base, root, T, fr, h, disk, offset, length);
    FoundHolds(View(m, fr), HeaderSeen(m, fr, h, length), h, disk, offset, length);
  }

  /** So an exact read is what every later load through the page tables sees. */
  lemma ReadReachesHeap(
    m: Mem, base: nat, root: nat, T: Tables, fr: seq<nat>, h: Flat, disk: seq<byte>, offset: nat, length: nat)
    requires Asked(m, base, root, T, fr, h, offset, length) && PARTITION + offset + length <= |disk|
    requires Placed(m, fr, h, length) && ServesSafely(m, fr, h, |disk|, length)
    requires Finds(HeaderSeen(m, fr, h, length), |disk|, offset, length)
    ensures
      var m' := Transfer(m, fr, h, disk, length);
      && HeapOk(m', base, root, T, fr)
      && LoadBytes(m', root, HEAP_START + (BufferAt(h) + TooMuchAtStart(offset)), length) ==
         Wanted(disk, offset, length)
  {
    hide Asked, Finds, ServesSafely, Placed, HeaderSeen, Transfer, TooMuchAtStart, HeapOk, View, LoadBytes;
    hide Transferred, Wanted, TempSize, Arrives, FramesIn;
    SafeTransfer(m, base, root, T, fr, h, disk, offset, length);
    FoundArrives(m, base, root, T, fr, h, disk, offset, length);
    ArrivedBytes(m, fr, h, disk, offset, length);
    LoadsAre(Transfer(m, fr, h, disk, length), base, root, T, fr,
             BufferAt(h) + TooMuchAtStart(offset), Wanted(disk, offset, length));
  }

  lemma ArrivedBytes(m: Mem, fr: seq<nat>, h: Flat, disk: seq<byte>, offset: nat, length: nat)
    requires Placed(m, fr, h, length) && Arrives(m, fr, h, disk, offset, length)
    ensures
      var m', from := Transfer(m, fr, h, disk, length), BufferAt(h) + TooMuchAtStart(offset);
      && FramesIn(m', fr) && from + length <= |fr| * 4096 && PARTITION + offset + length <= |disk|
      && View(m', fr)[from..from + length] == Wanted(disk, offset, length)
  {
    hide Transfer, View, Wanted, TempSize, TooMuchAtStart, Placed, FramesIn;
  }

  lemma LoadsAre(m: Mem, base: nat, root: nat, T: Tables, fr: seq<nat>, from: nat, s: seq<byte>)
    requires HeapOk(m, base, root, T, fr) && FramesIn(m, fr) && from + |s| <= |fr| * 4096
    requires View(m, fr)[from..from + |s|] == s
    ensures LoadBytes(m, root, HEAP_START + from, |s|) == s
  {
    hide LoadBytes, View, HeapOk;
    HeapLoads(m, base, root, T, fr, from, |s|);
  }
}
