/** The boot order of the memory subsystem: physical allocator, paging, virtual allocator. */
module Boot {
  import opened Wrappers
  import opened Bits
  import opened Memory
  import opened Sv48
  import opened FrameAllocator
  import opened PageTree
  import opened PageMapping
  import opened PageRuns
  import opened FlatHeap
  import opened HeapMemory
  import opened HeapLayout
  import opened KernelHeap
  import opened HeapRuns

  const GIGABYTE: nat := 0x4000_0000

  /** physical_allocator_init: the flag byte of every frame is cleared. */
  function PhysicalAllocatorInit(m: Mem, base: nat): (m': Mem)
    requires Layout(m, base)
    ensures |m'| == |m|
  {
    SetBytes(m, FlagAddress(base, 0), Zeros(|m| / FRAME_SIZE - base))
  }

  /** map_page_for_setup with both tables given by their frames. */
  function MapPageForSetup(m: Mem, first: nat, second: nat, page: nat, frame: nat): (m': Mem)
    requires InMem(m, first) && InMem(m, second)
    ensures |m'| == |m|
  {
    var m1 := SetWord(m, EntryAddress(first, GetVpn3(page)), CreateValidPageTableEntry(second));
    SetWord(m1, EntryAddress(second, GetVpn2(page)), Or(CreateValidPageTableEntry(frame / FRAME_SIZE), 0xF))
  }

  /** The loop of paging_init from the g-th GiB on. */
  function SetupLoop(m: Mem, first: nat, second: nat, g: nat): (m': Mem)
    requires InMem(m, first) && InMem(m, second) && g <= 4
    ensures |m'| == |m|
    decreases 4 - g
  {
    if g == 4 then m
    else SetupLoop(MapPageForSetup(m, first, second, VIRTUAL_OFFSET + g * GIGABYTE, g * GIGABYTE), first, second, g + 1)
  }

  /** paging_init: the new memory and the root table's frame. */
  function PagingInit(m: Mem, base: nat): (r: Option<(Mem, nat)>)
    requires Layout(m, base)
    ensures r.Some? ==> |r.value.0| == |m|
  {
    match KallocFrame(m, base)
    case None => None
    case Some((m1, first)) =>
      match KallocFrame(m1, base)
      case None => None
      case Some((m2, second)) => Some((SetupLoop(m2, first, second, 0), first))
  }

  /** virtual_allocator_init: the first heap page is one free block marked last. */
  function VirtualAllocatorInit(m: Mem, base: nat, root: nat): (r: Option<HeapState>)
    requires Layout(m, base)
    ensures r.Some? ==> |r.value.m| == |m|
  {
    match MapNewPage(m, base, root, HEAP_START, RW)
    case None => None
    case Some((m1, _)) =>
      var m2 := StoreWord(m1, root, HEAP_START, SetSize(LoadWord(m1, root, HEAP_START), PAGE_SIZE));
      var m3 := StoreWord(m2, root, HEAP_START, SetLast(LoadWord(m2, root, HEAP_START)));
      Some(HeapState(m3, HEAP_START, HEAP_START + PAGE_SIZE))
  }

  // The direct map.

  lemma SetupSlots(g: nat)
    requires g < 4
    ensures GetVpn3(VIRTUAL_OFFSET + g * GIGABYTE) == 256 && GetVpn2(VIRTUAL_OFFSET + g * GIGABYTE) == g
  {
    hide GetVpn3, GetVpn2;
    DirectFields(g * GIGABYTE);
  }

  lemma SetupLeaf(g: nat)
    requires g < 4
    ensures Or(CreateValidPageTableEntry(g * GIGABYTE / FRAME_SIZE), 0xF) == DirectEntry(g)
  {
    assert g * GIGABYTE / FRAME_SIZE == g * 0x4_0000;
    LeafEntryFrame(g * 0x4_0000, 0xF);
    assert Or(1, 15) == 15;
    assert g * 0x4_0000 % 0x100_0000_0000 == g * 0x4_0000;
  }

  lemma SetupTable(second: nat)
    requires second < 0x10_0000
    ensures CreateValidPageTableEntry(second) == TableEntry(second)
  {
    hide Or, And;
    assert second % 0x100_0000_0000 == second;
  }

  lemma SetupStep(m: Mem, base: nat, first: nat, second: nat, g: nat)
    requires Layout(m, base) && base <= first && base <= second && first != second
    requires InMem(m, first) && InMem(m, second) && g < 4 && second < 0x10_0000
    ensures
      var m' := MapPageForSetup(m, first, second, VIRTUAL_OFFSET + g * GIGABYTE, g * GIGABYTE);
      && KeepsBytes(m, m', base, {first, second})
      && FreeSet(m', base) == FreeSet(m, base)
      && WordsOf(m', first) == WordsOf(m, first)[256 := TableEntry(second)]
      && WordsOf(m', second) == WordsOf(m, second)[g := DirectEntry(g)]
  {
    hide SetWord, SetBytes, Le, ToLe, Word, GetVpn3, GetVpn2, CreateValidPageTableEntry, Or, FreeSet;
    SetupSlots(g);
    SetupLeaf(g);
    SetupTable(second);
    var m1 := SetWord(m, EntryAddress(first, 256), TableEntry(second));
    var m2 := SetWord(m1, EntryAddress(second, g), DirectEntry(g));
    SetEntryBytes(m, base, first, 256, TableEntry(second));
    SetEntryBytes(m1, base, second, g, DirectEntry(g));
    WordsSetWord(m, first, 256, TableEntry(second));
    WordsSetWord(m1, second, g, DirectEntry(g));
    WordsSame(m, m1, second);
    WordsSame(m1, m2, first);
    KeepsBytesTrans(m, m1, m2, base, {first}, {second}, {first, second});
  }

  lemma {:induction false} SetupLoopDone(m: Mem, base: nat, first: nat, second: nat, g: nat)
    requires Layout(m, base) && base <= first && base <= second && first != second
    requires InMem(m, first) && InMem(m, second) && g <= 4 && second < 0x10_0000
    ensures
      var m' := SetupLoop(m, first, second, g);
      && KeepsBytes(m, m', base, {first, second})
      && FreeSet(m', base) == FreeSet(m, base)
      && (forall j | 0 <= j < 512 :: WordsOf(m', first)[j] ==
            if g < 4 && j == 256 then second * 1024 + 1 else WordsOf(m, first)[j])
      && (forall j | 0 <= j < 512 :: WordsOf(m', second)[j] ==
            if g <= j < 4 then j * 0x1000_0000 + 15 else WordsOf(m, second)[j])
    decreases 4 - g
  {
    hide MapPageForSetup, Word, FreeSet;
    if g < 4 {
      SetupStep(m, base, first, second, g);
      var m1 := MapPageForSetup(m, first, second, VIRTUAL_OFFSET + g * GIGABYTE, g * GIGABYTE);
      SetupLoopDone(m1, base, first, second, g + 1);
      KeepsBytesTrans(m, m1, SetupLoop(m, first, second, g), base, {first, second}, {first, second}, {first, second});
    }
  }

  ghost predicate FreshRam(m: Mem, base: nat) {
    forall a | base * FRAME_SIZE <= a < |m| :: m[a] == 0
  }

  lemma FlagsCleared(m: Mem, base: nat)
    requires Layout(m, base) && FreshRam(m, base)
    ensures FreshRam(PhysicalAllocatorInit(m, base), base)
    ensures FreeFrom(PhysicalAllocatorInit(m, base), base, 0)
  {
    var n := |m| / FRAME_SIZE - base;
    var m' := PhysicalAllocatorInit(m, base);
    var a := FlagAddress(base, 0);
    assert m'[a..a + n] == Zeros(n);
    forall b | base * FRAME_SIZE <= b < |m|
      ensures m'[b] == 0
    {
      if b < a + n { assert m'[a..a + n][b - a] == 0; }
    }
    forall f: nat | base <= f < base + Cap(m, base)
      ensures FreePage(m', base, f)
    {
      assert m'[a..a + n][f - base] == 0;
    }
  }

  ghost function BootTables(base: nat): Tables {
    map[base := Node(3, 0), base + 1 := Node(2, 256)]
  }

  /** After paging_init the root and the second-level table form a tree whose direct map is
      complete, and exactly two frames are taken. */
  lemma PagingInitMaps(m: Mem, base: nat)
    requires Layout(m, base) && FreshRam(m, base) && FreeFrom(m, base, 0) && Cap(m, base) >= 2
    ensures PagingInit(m, base).Some?
    ensures
      var (m', root) := PagingInit(m, base).value;
      root == base && Mapped(m', base, root, BootTables(base)) && FreeFrom(m', base, 2)
  {
    hide SetupLoop, KallocFrame, Word, FreeFrom, FreeSet;
    KallocTakesNext(m, base, 0);
    var (m1, first) := KallocFrame(m, base).value;
    AllocIsRemoval(m, base);
    SameCap(m, m1, base);
    KallocTakesNext(m1, base, 1);
    var (m2, second) := KallocFrame(m1, base).value;
    AllocIsRemoval(m1, base);
    KeepsBytesTrans(m, m1, m2, base, {}, {}, {});
    SameCap(m1, m2, base);
    SetupFrames(m2, base);
    var m' := SetupLoop(m2, first, second, 0);
    SetupLoopDone(m2, base, first, second, 0);
    FreeFromSame(m2, m', base, 2);
    ZeroAfter(m, m2, base);
    BootTree(m2, m', base);
  }

  lemma SetupFrames(m: Mem, base: nat)
    requires Layout(m, base) && Cap(m, base) >= 2
    ensures InMem(m, base) && InMem(m, base + 1) && base + 1 < 0x10_0000
  {
  }

  lemma FreeFromSame(m: Mem, m': Mem, base: nat, n: nat)
    requires Layout(m, base) && |m'| == |m| && FreeFrom(m, base, n) && FreeSet(m', base) == FreeSet(m, base)
    ensures FreeFrom(m', base, n)
  {
  }

  /** Untouched frames of fresh memory read as zero words. */
  lemma ZeroAfter(m: Mem, m2: Mem, base: nat)
    requires Layout(m, base) && FreshRam(m, base) && KeepsBytes(m, m2, base, {})
    ensures forall t: nat, i: nat | base <= t && InMem(m2, t) && i < 512 :: WordsOf(m2, t)[i] == 0
  {
    forall t: nat, i: nat | base <= t && InMem(m2, t) && i < 512
      ensures WordsOf(m2, t)[i] == 0
    {
      KeepsBytesFrame(m, m2, base, {}, t);
      assert ZeroFrame(m2, t);
      ZeroWords(m2, t);
    }
  }

  lemma BootTree(m2: Mem, m': Mem, base: nat)
    requires Layout(m2, base) && Cap(m2, base) >= 2 && KeepsBytes(m2, m', base, {base, base + 1})
    requires FreeFrom(m', base, 2) && InMem(m2, base) && InMem(m2, base + 1)
    requires forall t: nat, i: nat | base <= t && InMem(m2, t) && i < 512 :: WordsOf(m2, t)[i] == 0
    requires forall j | 0 <= j < 512 :: WordsOf(m', base)[j] == if j == 256 then TableEntry(base + 1) else 0
    requires forall j | 0 <= j < 512 :: WordsOf(m', base + 1)[j] == if 0 <= j < 4 then DirectEntry(j) else 0
    ensures Mapped(m', base, base, BootTables(base))
  {
    hide Word, FreeSet, DirectEntry, TableEntry;
    var s, T := PagesOf(m', base), BootTables(base);
    forall f | f in s.free
      ensures base + 2 <= f < s.limit <= |s.w| && forall i: nat | i < 512 :: s.w[f][i] == 0
    {
      KeepsBytesFrame(m2, m', base, {base, base + 1}, f);
    }
    TableEntryNames(base + 1);
    BootSlots(s, base);
    assert LinksTo(s, T, base, 256, base + 1);
    assert HasParent(s, T, base + 1);
  }

  lemma BootSlots(s: Pages, base: nat)
    requires s.base == base && base + 1 < |s.w|
    requires forall j | 0 <= j < 512 :: s.w[base][j] == if j == 256 then TableEntry(base + 1) else 0
    requires forall j | 0 <= j < 512 :: s.w[base + 1][j] == if 0 <= j < 4 then DirectEntry(j) else 0
    ensures SlotsOk(s, BootTables(base))
  {
    var T := BootTables(base);
    TableEntryNames(base + 1);
    forall t, i: nat | t in T && i < 512
      ensures SlotOk(s, T, T[t], i, s.w[t][i])
    {
    }
  }

  // The heap.

  lemma BootLayout(m: Mem, base: nat)
    requires Mapped(m, base, base, BootTables(base)) && FreeFrom(m, base, 2)
    ensures LayoutOk(m, base, base, BootTables(base), [])
  {
    hide Tree, FreeSet;
    var T := BootTables(base);
    assert T[base] == Node(3, 0) && T[base + 1] == Node(2, 256);
    assert T.Values == {Node(3, 0), Node(2, 256)};
    FreeSetSize(m, base);
  }

  lemma FreeSetSize(m: Mem, base: nat)
    requires Layout(m, base)
    ensures |FreeSet(m, base)| <= 32768
  {
    RangeSize(base, 32768);
    forall f | f in FreeSet(m, base)
      ensures f in RangeSet(base, 32768)
    {
      RangeMember(base, 32768, f);
    }
    SubsetSize(FreeSet(m, base), RangeSet(base, 32768));
  }

  ghost function RangeSet(base: nat, n: nat): set<nat> {
    if n == 0 then {} else RangeSet(base, n - 1) + {base + n - 1}
  }

  lemma {:induction false} RangeMember(base: nat, n: nat, f: nat)
    ensures f in RangeSet(base, n) <==> base <= f < base + n
  {
    if n > 0 { RangeMember(base, n - 1, f); }
  }

  lemma {:induction false} RangeSize(base: nat, n: nat)
    ensures |RangeSet(base, n)| == n
  {
    if n > 0 {
      RangeSize(base, n - 1);
      RangeMember(base, n - 1, base + n - 1);
    }
  }

  /** The heap holds no block yet, and every heap invariant holds. */
  ghost predicate HeapReady(s: HeapState, base: nat, root: nat, h: Flat) {
    HeapRunOk(s, base, root, h, [], {}) && LaidOut(s, base, root, h)
  }

  /** After virtual_allocator_init the heap is one page that is one free block, and every
      heap invariant holds. */
  lemma VirtualAllocatorInitOk(m: Mem, base: nat)
    requires Mapped(m, base, base, BootTables(base)) && FreeFrom(m, base, 2) && Layout(m, base)
    ensures VirtualAllocatorInit(m, base, base).Some? <==> FrameIndex(1) <= Cap(m, base)
    ensures VirtualAllocatorInit(m, base, base).Some? ==>
              exists h: Flat :: h.at == 0 && |h.bytes| == PAGE_SIZE
                          && HeapReady(VirtualAllocatorInit(m, base, base).value, base, base, h)
  {
    hide Tree, FreeSet, MapNewPage, StoreWord, LoadWord, FreeFrom, HeapIs, LayoutOk, FrameIndex, View, Le;
    hide SetWord, SetBytes, Word, KallocFrame, Cap, SetSize, SetLast, NewTables;
    BootLayout(m, base);
    HeapPageCount(m, base, base, BootTables(base), []);
    if MapNewPage(m, base, base, HEAP_START, RW).Some? {
      var (m1, f) := MapNewPage(m, base, base, HEAP_START, RW).value;
      FirstBlock(m, base, m1, f);
    }
  }

  lemma FirstPage(m: Mem, base: nat, m1: Mem, f: nat) returns (T1: Tables)
    requires Layout(m, base) && LayoutOk(m, base, base, BootTables(base), [])
    requires MapNewPage(m, base, base, HEAP_START, RW) == Some((m1, f))
    ensures LayoutOk(m1, base, base, T1, [f]) && HeapIs(m1, base, base, T1, [f], Zeros(PAGE_SIZE))
  {
    hide Tree, FreeSet, MapNewPage, FreeFrom, LayoutOk, View, HeapOk, HeapIs, KallocFrame, NewTables;
    var T := BootTables(base);
    LayoutHeap(m, base, base, T, []);
    HeapNewPage(m, base, base, T, [], m1, f);
    HeapPageKeepsLayout(m, base, base, T, [], m1, f);
    T1 := NewTables(m, base, base, HEAP_START, T);
    assert [] + [f] == [f];
    FirstView(m, m1, [f]);
    FirstHeapIs(m1, base, T1, f, Zeros(PAGE_SIZE));
  }

  lemma FirstStores(m1: Mem, base: nat, T1: Tables, f: nat) returns (b: seq<byte>)
    requires LayoutOk(m1, base, base, T1, [f]) && HeapIs(m1, base, base, T1, [f], Zeros(PAGE_SIZE))
    ensures
      var m2 := StoreWord(m1, base, HEAP_START, SetSize(LoadWord(m1, base, HEAP_START), PAGE_SIZE));
      var m3 := StoreWord(m2, base, HEAP_START, SetLast(LoadWord(m2, base, HEAP_START)));
      HeapIs(m3, base, base, T1, [f], b) && SameFree(m1, m3, base, base)
    ensures |b| == PAGE_SIZE && Word(b, 0) == PAGE_SIZE * 2 + 1
  {
    hide StoreWord, LoadWord, Le, ToLe, SetWord, SetBytes, Word, SetSize, SetLast, HeapIs, LayoutOk;
    var z := Zeros(PAGE_SIZE);
    FirstBlockStatus(z);
    WordAccess(m1, base, base, T1, [f], z, 0, SetSize(Word(z, 0), PAGE_SIZE));
    var m2 := StoreWord(m1, base, HEAP_START, SetSize(Word(z, 0), PAGE_SIZE));
    var z2 := SetWord(z, 0, SetSize(Word(z, 0), PAGE_SIZE));
    WordAccess(m2, base, base, T1, [f], z2, 0, SetLast(Word(z2, 0)));
    b := SetWord(z2, 0, SetLast(Word(z2, 0)));
  }

  lemma FirstBlock(m: Mem, base: nat, m1: Mem, f: nat)
    requires Layout(m, base) && LayoutOk(m, base, base, BootTables(base), [])
    requires MapNewPage(m, base, base, HEAP_START, RW) == Some((m1, f))
    ensures exists h: Flat :: h.at == 0 && |h.bytes| == PAGE_SIZE
                        && HeapReady(VirtualAllocatorInit(m, base, base).value, base, base, h)
  {
    hide MapNewPage, StoreWord, LoadWord, LayoutOk, SetSize, SetLast, HeapIs, Word, HeapReady;
    var T1 := FirstPage(m, base, m1, f);
    var b := FirstStores(m1, base, T1, f);
    FirstState(m1, VirtualAllocatorInit(m, base, base).value.m, base, T1, f, Flat(b, 0));
    var h := Flat(b, 0);
    assert h.at == 0 && |h.bytes| == PAGE_SIZE;
  }

  lemma LayoutHeap(m: Mem, base: nat, root: nat, T: Tables, fr: seq<nat>)
    requires LayoutOk(m, base, root, T, fr)
    ensures HeapOk(m, base, root, T, fr)
  {
  }

  lemma FirstView(m: Mem, m1: Mem, fr: seq<nat>)
    requires |fr| == 1 && FramesIn(m, []) && FramesIn(m1, fr) && View(m1, fr) == View(m, []) + Zeros(4096)
    ensures View(m1, fr) == Zeros(4096)
  {
  }

  lemma FirstHeapIs(m1: Mem, base: nat, T1: Tables, f: nat, z: seq<byte>)
    requires HeapOk(m1, base, base, T1, [f]) && FramesIn(m1, [f]) && View(m1, [f]) == z
    ensures HeapIs(m1, base, base, T1, [f], z)
  {
  }

  lemma FirstBlockStatus(z: seq<byte>)
    requires z == Zeros(PAGE_SIZE)
    ensures SetSize(Word(z, 0), PAGE_SIZE) == PAGE_SIZE * 2
    ensures SetLast(PAGE_SIZE * 2) == PAGE_SIZE * 2 + 1
    ensures SetSize(Word(z, 0), PAGE_SIZE) < WORD && SetLast(PAGE_SIZE * 2) < WORD
  {
    LeZero(z[0..8]);
    assert Word(z, 0) == 0;
    LowBit(0);
    OrBit(PAGE_SIZE, 0);
    OrBit(PAGE_SIZE, 1);
  }

  lemma FirstState(m1: Mem, m3: Mem, base: nat, T1: Tables, f: nat, h: Flat)
    requires LayoutOk(m1, base, base, T1, [f]) && HeapIs(m3, base, base, T1, [f], h.bytes) && h.at == 0
    requires SameFree(m1, m3, base, base)
    requires |h.bytes| == PAGE_SIZE && Word(h.bytes, 0) == PAGE_SIZE * 2 + 1
    ensures HeapReady(HeapState(m3, HEAP_START, HEAP_START + PAGE_SIZE), base, base, h)
  {
    hide HeapOk, View, Word;
    LayoutBound(m1, base, base, T1, [f]);
    SameFreeKeepsLayout(m1, m3, base, base, T1, [f]);
    assert Represents(HeapState(m3, HEAP_START, HEAP_START + PAGE_SIZE), base, base, T1, [f], h);
  }

  // From power-on.

  /** The three initialisations in the order of os_start. */
  function BootOrder(m: Mem, base: nat): (r: Option<HeapState>)
    requires Layout(m, base)
    ensures r.Some? ==> |r.value.m| == |m|
  {
    match PagingInit(PhysicalAllocatorInit(m, base), base)
    case None => None
    case Some((m1, root)) => VirtualAllocatorInit(m1, base, root)
  }

  /** On fresh memory with five frames to manage the boot order succeeds, and leaves the
      kernel in a state from which every run keeps the heap a flat array. */
  lemma BootReachesHeap(m: Mem, base: nat)
    requires Layout(m, base) && FreshRam(m, base)
    ensures BootOrder(m, base).Some? <==> Cap(m, base) >= 5
    ensures BootOrder(m, base).Some? ==>
              exists h: Flat :: h.at == 0 && |h.bytes| == PAGE_SIZE
                          && HeapReady(BootOrder(m, base).value, base, base, h)
  {
    hide Tree, FreeSet, FreeFrom, LayoutOk, HeapReady, Cap, FreshRam;
    hide PhysicalAllocatorInit, VirtualAllocatorInit, PagingInit;
    var m0 := PhysicalAllocatorInit(m, base);
    FlagsCleared(m, base);
    SameCap(m, m0, base);
    if Cap(m, base) >= 2 {
      PagingInitMaps(m0, base);
      var m1 := PagingInit(m0, base).value.0;
      SameCap(m0, m1, base);
      VirtualAllocatorInitOk(m1, base);
      assert FrameIndex(1) == 5;
    } else {
      BootNeedsTwo(m0, base);
    }
  }

  lemma BootNeedsTwo(m: Mem, base: nat)
    requires Layout(m, base) && FreeFrom(m, base, 0) && Cap(m, base) < 2
    ensures PagingInit(m, base).None?
  {
    hide SetupLoop, FreeFrom, KallocFrame;
    KallocTakesNext(m, base, 0);
    if Cap(m, base) == 1 {
      var m1 := KallocFrame(m, base).value.0;
      SameCap(m, m1, base);
      KallocTakesNext(m1, base, 1);
    }
  }
}
