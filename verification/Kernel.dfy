/** The memory subsystem as the kernel runs it: statics, loops and byte-wise stores through
    the active page table, over one array of physical memory. Every method is proved to
    compute its specification function. */
module Kernel {
  import opened Wrappers
  import opened Bits
  import opened Memory
  import opened Sv48
  import FA = FrameAllocator
  import opened PageTree
  import PM = PageMapping
  import PR = PageRuns
  import opened FlatHeap
  import opened HeapMemory
  import HL = HeapLayout
  import KH = KernelHeap
  import opened DirectAccess
  import Boot

  class Kernel {
    const phys: array<byte>
    var first_frame: nat
    var satp: Satp
    var first_level_table: nat
    var free_list: nat
    var virtual_alloc_end: nat

    constructor (memory: array<byte>)
      ensures phys == memory && satp == BootTable
    {
      phys := memory;
      first_frame, satp, first_level_table := 0, BootTable, 0;
      free_list, virtual_alloc_end := 0, 0;
    }

    // Accesses by the processor.

    method Load64(v: nat) returns (w: nat)
      requires LoadsOk(phys[..], satp, v, 8)
      ensures w == Le(Loaded(phys[..], satp, v, 8))
    {
      hide Translate, LoadsOk, Loaded;
      var s := [];
      var i := 0;
      ghost var m := phys[..];
      while i < 8
        invariant 0 <= i <= 8
        invariant LoadsOk(m, satp, v + i, 8 - i)
        invariant s + Loaded(m, satp, v + i, 8 - i) == Loaded(m, satp, v, 8)
      {
        LoadStep(m, satp, v + i, 8 - i, s);
        s := s + [phys[Translate(phys[..], satp, v + i).value]];
        i := i + 1;
      }
      LoadedNone(m, satp, v + i, s);
      w := Le(s);
    }

    method Store64(v: nat, w: nat)
      requires StoresOk(phys[..], satp, v, ToLe(w, 8))
      modifies phys
      ensures phys[..] == Stored(old(phys[..]), satp, v, ToLe(w, 8))
    {
      hide Translate, ToLe;
      var s := ToLe(w, 8);
      var i := 0;
      while i < 8
        invariant 0 <= i <= 8
        invariant StoresOk(phys[..], satp, v + i, s[i..])
        invariant Stored(phys[..], satp, v + i, s[i..]) == Stored(old(phys[..]), satp, v, s)
      {
        var a := Translate(phys[..], satp, v + i).value;
        ghost var before := phys[..];
        phys[a] := s[i];
        assert phys[..] == before[a := s[i]];
        i := i + 1;
      }
    }

    // The physical allocator.

    /** Bytes of memory reached through the direct map. */
    method LoadDirect8(a: nat) returns (x: byte)
      requires Direct(phys[..], satp) && a < phys.Length
      ensures x == phys[a]
    {
      hide Translate;
      assert DirectAt(phys[..], satp, a);
      x := phys[Translate(phys[..], satp, VIRTUAL_OFFSET + a).value];
    }

    method StoreDirect8(a: nat, x: byte)
      requires Direct(phys[..], satp) && a < phys.Length
      modifies phys
      ensures phys[..] == old(phys[..])[a := x]
    {
      hide Translate;
      assert DirectAt(phys[..], satp, a);
      phys[Translate(phys[..], satp, VIRTUAL_OFFSET + a).value] := x;
    }

    method PhysicalAllocatorInit(physical_heap_start: nat)
      requires satp == BootTable
      requires phys.Length % FRAME_SIZE == 0 && phys.Length <= 0x1_0000_0000
      requires physical_heap_start + 9 * FRAME_SIZE <= phys.Length
      modifies this`first_frame, phys
      ensures first_frame * FRAME_SIZE ==
              FA.AllignAddress(physical_heap_start + FA.FRAMES_FOR_MANAGING * FRAME_SIZE, FRAME_SIZE)
      ensures FA.Layout(phys[..], first_frame)
      ensures phys[..] == Boot.PhysicalAllocatorInit(old(phys[..]), first_frame)
    {
      hide FA.AllignAddress;
      FA.FrameRangeExact(physical_heap_start, phys.Length);
      var num_frames := (phys.Length - physical_heap_start) / FRAME_SIZE - FA.FRAMES_FOR_MANAGING;
      var managed_frames_address_start := FA.AllignAddress(physical_heap_start + VIRTUAL_OFFSET, FRAME_SIZE);
      first_frame :=
        FA.AllignAddress(physical_heap_start + FA.FRAMES_FOR_MANAGING * FRAME_SIZE, FRAME_SIZE) / FRAME_SIZE;
      ghost var base := first_frame;
      var at := managed_frames_address_start - VIRTUAL_OFFSET;
      ghost var m0 := phys[..];
      assert at == FA.FlagAddress(first_frame, 0) && num_frames == |m0| / FRAME_SIZE - first_frame;
      var i := 0;
      while i < num_frames
        invariant 0 <= i <= num_frames
        invariant first_frame == base && satp == BootTable
        invariant phys[..] == SetBytes(m0, at, Zeros(i))
      {
        StoreDirect8(at + i, 0);
        assert phys[..] == SetBytes(m0, at, Zeros(i + 1));
        i := i + 1;
      }
    }

    /** kalloc_frame: the search for a clear flag has no bound; it is required only that some
        byte of memory from the flags on is zero, for otherwise the code would fault. */
    method KallocFrame() returns (f: nat)
      requires FA.Layout(phys[..], first_frame) && Direct(phys[..], satp)
      requires FA.Search(phys[..], first_frame, 0).Some?
      modifies phys
      ensures FA.KallocFrameUncapped(old(phys[..]), first_frame) == Some((phys[..], f))
      ensures old(FA.KallocFrame(phys[..], first_frame)).Some? ==>
                FA.KallocFrame(old(phys[..]), first_frame) == Some((phys[..], f))
    {
      hide Direct, FA.KallocFrame, FA.FirstFree;
      ghost var m := phys[..];
      FA.SearchStaysInside(m, first_frame);
      var currentIndex := 0;
      var flags := LoadDirect8(FA.FlagAddress(first_frame, 0));
      while flags != 0
        invariant phys[..] == m
        invariant 0 <= currentIndex && FA.FlagAddress(first_frame, currentIndex) < |m|
        invariant flags == m[FA.FlagAddress(first_frame, currentIndex)]
        invariant FA.Search(m, first_frame, 0) == FA.Search(m, first_frame, currentIndex)
        decreases |m| - currentIndex
      {
        currentIndex := currentIndex + 1;
        flags := LoadDirect8(FA.FlagAddress(first_frame, currentIndex));
      }
      StoreDirect8(FA.FlagAddress(first_frame, currentIndex), 1);
      f := first_frame + currentIndex % 0x10_0000;
    }

    method KfreeFrame(frame: nat)
      requires FA.Layout(phys[..], first_frame) && Direct(phys[..], satp)
      requires FA.GetFrameNumber(frame, first_frame) < 32768
      modifies phys
      ensures phys[..] ==
              FA.KfreeFrame(old(phys[..]), first_frame, FA.GetFrameNumber(frame, first_frame))
    {
      StoreDirect8(FA.FlagAddress(first_frame, FA.GetFrameNumber(frame, first_frame)), 0);
    }

    // Paging.

    method GetEntry(t: nat, i: nat) returns (e: nat)
      requires Direct(phys[..], satp) && InMem(phys[..], t) && i < 512
      ensures e == Word(phys[..], EntryAddress(t, i))
    {
      hide Direct, Translate, LoadsOk, Loaded;
      LoadDirect(phys[..], satp, EntryAddress(t, i), 8);
      e := Load64(VIRTUAL_OFFSET + EntryAddress(t, i));
    }

    method SetEntry(t: nat, i: nat, e: nat)
      requires InMem(phys[..], t) && i < 512
      requires StoreIs(phys[..], satp, VIRTUAL_OFFSET + EntryAddress(t, i), ToLe(e, 8),
                       SetWord(phys[..], EntryAddress(t, i), e))
      modifies phys
      ensures phys[..] == SetWord(old(phys[..]), EntryAddress(t, i), e)
    {
      Store64(VIRTUAL_OFFSET + EntryAddress(t, i), e);
    }

    method MapPageForSetup(first: nat, second: nat, page: nat, frame: nat)
      requires satp == BootTable && InMem(phys[..], first) && InMem(phys[..], second)
      modifies phys
      ensures phys[..] == Boot.MapPageForSetup(old(phys[..]), first, second, page, frame)
    {
      hide StoreIs, SetWord, ToLe, GetVpn3, GetVpn2, CreateValidPageTableEntry;
      var vpn_3 := GetVpn3(page);
      var vpn_2 := GetVpn2(page);
      BootStore(phys[..], first, vpn_3, CreateValidPageTableEntry(second));
      SetEntry(first, vpn_3, CreateValidPageTableEntry(second));
      var e := Or(CreateValidPageTableEntry(frame / FRAME_SIZE), 0xF);
      BootStore(phys[..], second, vpn_2, e);
      SetEntry(second, vpn_2, e);
    }

    method PagingInit()
      requires satp == BootTable && FA.Layout(phys[..], first_frame)
      requires Boot.PagingInit(phys[..], first_frame).Some?
      modifies this`satp, this`first_level_table, phys
      ensures satp == RootTable(first_level_table)
      ensures Boot.PagingInit(old(phys[..]), first_frame) == Some((phys[..], first_level_table))
    {
      hide FA.KallocFrame, Boot.MapPageForSetup, FA.KallocFrameUncapped, FA.Search, Direct;
      BootDirect(phys[..]);
      FA.SearchStaysInside(phys[..], first_frame);
      var first := KallocFrame();
      BootDirect(phys[..]);
      FA.SearchStaysInside(phys[..], first_frame);
      var second := KallocFrame();
      first_level_table := first;
      ghost var m2 := phys[..];
      var kernel_page := VIRTUAL_OFFSET;
      var g := 0;
      while kernel_page < VIRTUAL_OFFSET + 4 * Boot.GIGABYTE
        invariant 0 <= g <= 4 && kernel_page == VIRTUAL_OFFSET + g * Boot.GIGABYTE
        invariant satp == BootTable && first_level_table == first
        invariant |m2| == |phys[..]| && InMem(m2, first) && InMem(m2, second)
        invariant Boot.SetupLoop(phys[..], first, second, g) == Boot.SetupLoop(m2, first, second, 0)
        decreases 4 - g
      {
        MapPageForSetup(first, second, kernel_page, kernel_page - VIRTUAL_OFFSET);
        kernel_page := kernel_page + Boot.GIGABYTE;
        g := g + 1;
      }
      satp := RootTable(first);
    }

    /** The repeated block of map_page: the table that slot i of table t leads to, allocated
        when the slot is empty. */
    method NextTable(t: nat, i: nat, ghost level: nat, ghost p: nat, ghost e: nat, ghost T: Tables)
      returns (child: nat, ghost T': Tables)
      requires satp == RootTable(first_level_table)
      requires PM.CanMap(phys[..], first_frame, first_level_table, T, t, level, p, e)
      requires level > 0 && i == Slot(p, level)
      modifies phys
      ensures PM.CanMap(phys[..], first_frame, first_level_table, T', child, level - 1, p, e)
      ensures PM.MapFrom(phys[..], first_frame, child, level - 1, p, e) ==
              old(PM.MapFrom(phys[..], first_frame, t, level, p, e))
    {
      hide PM.MapFrom, Tree, Direct, Word, SetWord, StoreIs, Slot, Prefix, FA.KallocFrame, CreateValidPageTableEntry;
      ghost var m := phys[..];
      PM.TableInMem(m, first_frame, first_level_table, T, t);
      TreeIsDirect(m, first_frame, first_level_table, T);
      T' := T;
      var entry := GetEntry(t, i);
      if !Valid(entry) {
        NextTableAllocates(m, first_frame, first_level_table, T, t, level, p, e);
        FA.SearchStaysInside(m, first_frame);
        var frame := KallocFrame();
        NextTableStores(m, phys[..], first_frame, first_level_table, T, t, level, p, e, frame);
        SetEntry(t, i, CreateValidPageTableEntry(frame));
        PM.CanMapNew(m, first_frame, first_level_table, T, t, level, p, e);
        T' := T[frame := Child(T[t], i)];
        PM.TableInMem(phys[..], first_frame, first_level_table, T', t);
        TreeIsDirect(phys[..], first_frame, first_level_table, T');
      } else {
        PM.CanMapExisting(m, first_frame, first_level_table, T, t, level, p, e);
      }
      entry := GetEntry(t, i);
      child := Ppn(entry);
    }

    method MapPage(page: nat, frame: nat, flag: nat, ghost T: Tables)
      requires satp == RootTable(first_level_table)
      requires PM.CanMap(phys[..], first_frame, first_level_table, T, first_level_table, 3, PageOf(page),
                         LeafEntry(frame / FRAME_SIZE, flag))
      modifies phys
      ensures FA.Layout(old(phys[..]), first_frame)
      ensures PM.MapPage(old(phys[..]), first_frame, first_level_table, page, frame, flag) == Some(phys[..])
    {
      hide PM.CanMap, PM.MapFrom, Tree, StoreIs, SetWord, ToLe;
      ghost var p := PageOf(page);
      ghost var e := LeafEntry(frame / FRAME_SIZE, flag);
      CanMapLayout(phys[..], first_frame, first_level_table, T, first_level_table, 3, p, e);
      var second_table, T2 := NextTable(first_level_table, GetVpn3(page), 3, p, e, T);
      var third_table, T1 := NextTable(second_table, GetVpn2(page), 2, p, e, T2);
      var fourth_table, T0 := NextTable(third_table, GetVpn1(page), 1, p, e, T1);
      LastTableStores(phys[..], first_frame, first_level_table, T0, fourth_table, p, e);
      SetEntry(fourth_table, GetVpn0(page), LeafEntry(frame / FRAME_SIZE, flag));
    }

    /** get_physical_address_of_virtual_address: 0 when some level is not valid. */
    method GetPhysicalAddress(v: nat, ghost T: Tables) returns (a: nat)
      requires satp == RootTable(first_level_table)
      requires PR.Mapped(phys[..], first_frame, first_level_table, T) && !DirectPage(PageOf(v))
      ensures a == SwTranslate(Words(phys[..]), first_level_table, v)
      ensures
        match Lookup(Words(phys[..]), first_level_table, 3, PageOf(v))
        case None => a == 0
        case Some(e) => Ppn(e) < 0x10_0000 ==> a == Ppn(e) * 4096 + v % 4096
    {
      hide Tree, Direct, Word, Slot, Prefix, PageOf, GetOffset, Or;
      ghost var m := phys[..];
      ghost var p := PageOf(v);
      PrefixStep(p, 3);
      PR.RootTable(m, first_frame, first_level_table, T);
      TreeIsDirect(m, first_frame, first_level_table, T);
      WalkLoad(m, first_frame, first_level_table, T, first_level_table, 3, p);
      var entry := GetEntry(first_level_table, GetVpn3(v));
      if !Valid(entry) { return 0; }
      var second_table := Ppn(entry);
      WalkLoad(m, first_frame, first_level_table, T, second_table, 2, p);
      entry := GetEntry(second_table, GetVpn2(v));
      if !Valid(entry) { return 0; }
      var third_table := Ppn(entry);
      WalkLoad(m, first_frame, first_level_table, T, third_table, 1, p);
      entry := GetEntry(third_table, GetVpn1(v));
      if !Valid(entry) { return 0; }
      var fourth_table := Ppn(entry);
      WalkLoad(m, first_frame, first_level_table, T, fourth_table, 0, p);
      entry := GetEntry(fourth_table, GetVpn0(v));
      if !Valid(entry) { return 0; }
      FrameOrOffset(Ppn(entry), v);
      a := Or(Ppn(entry) * FRAME_SIZE % WORD, GetOffset(v));
    }

    // The virtual allocator.

    /** A new frame mapped at a page: how the heap grows. */
    method MapNewPage(page: nat, ghost T: Tables) returns (frame: nat)
      requires satp == RootTable(first_level_table)
      requires PR.Mapped(phys[..], first_frame, first_level_table, T) && !DirectPage(PageOf(page))
      requires PR.MapNewPage(phys[..], first_frame, first_level_table, page, RW).Some?
      modifies phys
      ensures PR.MapNewPage(old(phys[..]), first_frame, first_level_table, page, RW) == Some((phys[..], frame))
    {
      hide Tree, Direct, FA.KallocFrame, PM.CanMap, PR.Mapped, PageOf, DirectPage;
      ghost var m := phys[..];
      MappedIsDirect(m, first_frame, first_level_table, T);
      MapNewSteps(m, first_frame, first_level_table, T, page);
      PR.NewPageCanMap(m, first_frame, first_level_table, T, page, RW);
      PR.NewFrameEntry(m, first_frame, RW);
      FA.SearchStaysInside(m, first_frame);
      frame := KallocFrame();
      MapPage(page, frame * FRAME_SIZE, RW, T);
    }

    method LoadHeap64(i: nat, ghost T: Tables, ghost fr: seq<nat>, ghost b: seq<byte>) returns (w: nat)
      requires satp == RootTable(first_level_table)
      requires KH.HeapIs(phys[..], first_frame, first_level_table, T, fr, b) && i + 8 <= |b|
      ensures w == LoadWord(phys[..], first_level_table, HEAP_START + i) == Word(b, i)
    {
      hide LoadsOk, Loaded, StoresOk, Stored, LoadWord, Word, KH.HeapIs;
      HeapAccess(phys[..], first_frame, first_level_table, T, fr, b, i, 0);
      w := Load64(HEAP_START + i);
    }

    method StoreHeap64(i: nat, w: nat, ghost T: Tables, ghost fr: seq<nat>, ghost b: seq<byte>)
      requires satp == RootTable(first_level_table)
      requires KH.HeapIs(phys[..], first_frame, first_level_table, T, fr, b) && i + 8 <= |b| && w < WORD
      modifies phys
      ensures phys[..] == StoreWord(old(phys[..]), first_level_table, HEAP_START + i, w)
      ensures KH.HeapIs(phys[..], first_frame, first_level_table, T, fr, SetWord(b, i, w))
    {
      hide LoadsOk, Loaded, StoresOk, Stored, LoadWord, StoreWord, SetWord, Word, KH.HeapIs, ToLe;
      HeapAccess(phys[..], first_frame, first_level_table, T, fr, b, i, w);
      Store64(HEAP_START + i, w);
    }

    method VirtualAllocatorInit()
      requires satp == RootTable(first_level_table) && first_level_table == first_frame
      requires PR.Mapped(phys[..], first_frame, first_frame, Boot.BootTables(first_frame))
      requires HL.FreeFrom(phys[..], first_frame, 2)
      requires Boot.VirtualAllocatorInit(phys[..], first_frame, first_frame).Some?
      modifies this`free_list, this`virtual_alloc_end, phys
      ensures Boot.VirtualAllocatorInit(old(phys[..]), first_frame, first_frame) ==
              Some(KH.HeapState(phys[..], free_list, virtual_alloc_end))
    {
      hide Tree, PR.MapNewPage, HL.FreeFrom, SetSize, SetLast, LoadWord, StoreWord, HeapOk, HL.LayoutOk, KH.HeapIs;
      hide PageOf, Word, SetWord;
      ghost var T := Boot.BootTables(first_frame);
      Boot.BootLayout(phys[..], first_frame);
      HeapAddress(0);
      ghost var m := phys[..];
      var frame := MapNewPage(HEAP_START, T);
      ghost var T1 := Boot.FirstPage(m, first_frame, phys[..], frame);
      ghost var z := Zeros(PAGE_SIZE);
      Boot.FirstBlockStatus(z);
      var status := LoadHeap64(0, T1, [frame], z);
      StoreHeap64(0, SetSize(status, PAGE_SIZE), T1, [frame], z);
      z := SetWord(z, 0, SetSize(status, PAGE_SIZE));
      status := LoadHeap64(0, T1, [frame], z);
      StoreHeap64(0, SetLast(status), T1, [frame], z);
      free_list := HEAP_START;
      virtual_alloc_end := HEAP_START + PAGE_SIZE;
    }

    /** The three initialisations in the order of os_start, on memory that is zero behind the
        kernel image and has thirteen whole frames there: eight for the flags and five to
        hand out. */
    method MemoryInit(physical_heap_start: nat)
      requires satp == BootTable
      requires phys.Length % FRAME_SIZE == 0 && phys.Length <= 0x1_0000_0000
      requires physical_heap_start + 13 * FRAME_SIZE <= phys.Length
      requires forall a | physical_heap_start <= a < phys.Length :: phys[a] == 0
      modifies this, phys
      ensures FA.Layout(old(phys[..]), first_frame) && Boot.FreshRam(old(phys[..]), first_frame)
      ensures satp == RootTable(first_level_table) && first_level_table == first_frame
      ensures Boot.BootOrder(old(phys[..]), first_frame) == Some(KH.HeapState(phys[..], free_list, virtual_alloc_end))
      ensures exists h: Flat :: h.at == 0 && |h.bytes| == PAGE_SIZE
                && Boot.HeapReady(KH.HeapState(phys[..], free_list, virtual_alloc_end), first_frame, first_frame, h)
    {
      hide PR.Mapped, HL.FreeFrom, Boot.HeapReady;
      hide Boot.PagingInit, Boot.VirtualAllocatorInit, Boot.PhysicalAllocatorInit;
      hide Boot.FreshRam, FA.AllignAddress, FA.Cap;
      ghost var m := phys[..];
      PhysicalAllocatorInit(physical_heap_start);
      FreshBehind(m, physical_heap_start, first_frame);
      Boot.BootReachesHeap(m, first_frame);
      InitSucceeds(m, first_frame);
      PagingInit();
      VirtualAllocatorInit();
    }

    /** The last part of kalloc: the block header and the new free item behind the block. */
    method SplitBlock(current: nat, size: nat, ghost T: Tables, ghost fr: seq<nat>, ghost h: Flat) returns (p: nat)
      requires satp == RootTable(first_level_table) && current == free_list == HEAP_START + h.at
      requires KH.HeapIs(phys[..], first_frame, first_level_table, T, fr, h.bytes)
      requires h.at + size + 32 <= |h.bytes| <= 0x800_0000
      modifies this`free_list, phys
      ensures KH.HeapState(phys[..], free_list, virtual_alloc_end) ==
              KH.SplitBlock(old(KH.HeapState(phys[..], free_list, virtual_alloc_end)), first_level_table, size)
      ensures p == current + 16
    {
      hide KH.HeapIs, LoadWord, StoreWord, Word, SetWord, SetSize, SetLast, Minus64, GetSize;
      var old_size := LoadHeap64(current - HEAP_START, T, fr, h.bytes);
      old_size := GetSize(old_size);
      StoreHeap64(current - HEAP_START, size, T, fr, h.bytes);
      ghost var b := SetWord(h.bytes, h.at, size);
      StoreHeap64(current + 8 - HEAP_START, MAGIC, T, fr, b);
      b := SetWord(b, h.at + 8, MAGIC);
      p := current + 16;
      var new_free_list := p + size;
      var status := LoadHeap64(new_free_list - HEAP_START, T, fr, b);
      StatusFits(status, old_size);
      StoreHeap64(new_free_list - HEAP_START, SetLast(status), T, fr, b);
      b := SetWord(b, h.at + 16 + size, SetLast(status));
      status := LoadHeap64(new_free_list - HEAP_START, T, fr, b);
      StatusFits(status, Minus64(old_size, size + 16));
      StoreHeap64(new_free_list - HEAP_START, SetSize(status, Minus64(old_size, size + 16)), T, fr, b);
      free_list := new_free_list;
    }

    /** kalloc. The free list is one item, marked last, so the search for a larger item ends
        where it starts. */
    method Kalloc(size: nat, ghost T: Tables, ghost fr: seq<nat>, ghost h: Flat) returns (p: nat)
      requires satp == RootTable(first_level_table) && size + 32 < WORD
      requires FA.Layout(phys[..], first_frame)
      requires KH.Represents(KH.HeapState(phys[..], free_list, virtual_alloc_end), first_frame, first_level_table,
                             T, fr, h)
      requires KH.Kalloc(KH.HeapState(phys[..], free_list, virtual_alloc_end), first_frame, first_level_table,
                         size).Some?
      modifies this`free_list, this`virtual_alloc_end, phys
      ensures KH.Kalloc(old(KH.HeapState(phys[..], free_list, virtual_alloc_end)), first_frame, first_level_table, size)
              == Some((KH.HeapState(phys[..], free_list, virtual_alloc_end), p))
    {
      hide KH.Represents, KH.HeapIs, PR.MapNewPage, LoadWord, StoreWord, Word, SetWord, FlatGrow, PagesNeeded;
      hide SetSize, SetLast, FlatOk, PR.Mapped, FA.Layout, KH.GrowPage, IsLast, KH.SplitBlock, GetSize;
      ghost var s := KH.HeapState(phys[..], free_list, virtual_alloc_end);
      ghost var root := first_level_table;
      GrowthStarts(s, first_frame, root, T, fr, h, size);
      ghost var k := PagesNeeded(|h.bytes| - h.at, size);
      var current := free_list;
      ghost var T1, fr1, h1 := T, fr, h;
      ghost var done := 0;
      var status := LoadHeap64(current - HEAP_START, T1, fr1, h1.bytes);
      if IsLast(status) && GetSize(status) < size + 32 {
        while GetSize(status) < size + 32
          invariant 0 <= done <= k && phys.Length == |s.m|
          invariant satp == RootTable(root) && first_level_table == root && free_list == current == HEAP_START + h.at
          invariant FA.Layout(phys[..], first_frame)
          invariant GrowthState(KH.HeapState(phys[..], free_list, virtual_alloc_end), first_frame, root, T1, fr1, h1)
          invariant h1.at == h.at && |h1.bytes| == |h.bytes| + done * PAGE_SIZE
          invariant status == Word(h1.bytes, h1.at) && GetSize(status) == |h1.bytes| - h1.at
          invariant KH.GrowPages(s, first_frame, root, k) ==
                    KH.GrowPages(KH.HeapState(phys[..], free_list, virtual_alloc_end), first_frame, root, k - done)
          invariant KH.GrowPages(s, first_frame, root, k).Some?
          decreases k - done
        {
          GrowthNeedsMore(|h.bytes| - h.at, size, done);
          ghost var before := KH.HeapState(phys[..], free_list, virtual_alloc_end);
          GrowthRound(before, first_frame, root, T1, fr1, h1, k - done);
          var frame := MapNewPage(virtual_alloc_end, T1);
          T1, fr1 := GrowthMapped(before, first_frame, root, T1, fr1, h1, phys[..], frame);
          ghost var grown := h1.bytes + Zeros(PAGE_SIZE);
          status := LoadHeap64(current - HEAP_START, T1, fr1, grown);
          StoreHeap64(current - HEAP_START, SetSize(status, GetSize(status) + PAGE_SIZE), T1, fr1, grown);
          virtual_alloc_end := virtual_alloc_end + PAGE_SIZE;
          h1 := FlatGrow(h1);
          GrowthFacts(KH.HeapState(phys[..], free_list, virtual_alloc_end), first_frame, root, T1, fr1, h1);
          status := LoadHeap64(current - HEAP_START, T1, fr1, h1.bytes);
          done := done + 1;
        }
      }
      GrowthEnds(|h.bytes| - h.at, size, done);
      p := SplitBlock(current, size, T1, fr1, h1);
      GrowthThenSplit(s, first_frame, root, T, fr, h, size);
    }
  }

  lemma FreshBehind(m: Mem, heapStart: nat, base: nat)
    requires FA.Layout(m, base) && heapStart + 13 * FRAME_SIZE <= |m|
    requires base * FRAME_SIZE == FA.AllignAddress(heapStart + FA.FRAMES_FOR_MANAGING * FRAME_SIZE, FRAME_SIZE)
    requires forall a | heapStart <= a < |m| :: m[a] == 0
    ensures Boot.FreshRam(m, base) && FA.Cap(m, base) >= 5
  {
    hide Pow2, FA.AllignAddress;
    Pow2Values();
    FA.AllignAddressLeast(heapStart + 8 * 4096, 12);
  }

  lemma InitSucceeds(m: Mem, base: nat)
    requires FA.Layout(m, base) && Boot.FreshRam(m, base) && FA.Cap(m, base) >= 5
    ensures
      var m0 := Boot.PhysicalAllocatorInit(m, base);
      && Boot.PagingInit(m0, base).Some?
      && var (m1, root) := Boot.PagingInit(m0, base).value;
      && root == base && PR.Mapped(m1, base, base, Boot.BootTables(base)) && HL.FreeFrom(m1, base, 2)
      && FA.Layout(m1, base) && Boot.BootOrder(m, base) == Boot.VirtualAllocatorInit(m1, base, base)
  {
    hide PR.Mapped, HL.FreeFrom, Boot.PagingInit, Boot.VirtualAllocatorInit, Boot.PhysicalAllocatorInit;
    hide Boot.FreshRam, FA.Cap;
    var m0 := Boot.PhysicalAllocatorInit(m, base);
    Boot.FlagsCleared(m, base);
    KH.SameCap(m, m0, base);
    Boot.PagingInitMaps(m0, base);
  }

  /** kalloc is the growth loop's pages followed by the split. */
  lemma GrowthThenSplit(s: KH.HeapState, base: nat, root: nat, T: Tables, fr: seq<nat>, h: Flat, size: nat)
    requires KH.Represents(s, base, root, T, fr, h) && FA.Layout(s.m, base) && h.at <= |h.bytes|
    requires KH.GrowPages(s, base, root, PagesNeeded(|h.bytes| - h.at, size)).Some?
    ensures
      var g := KH.GrowPages(s, base, root, PagesNeeded(|h.bytes| - h.at, size)).value;
      KH.Kalloc(s, base, root, size) == Some((KH.SplitBlock(g, root, size), g.free_list + 16))
  {
    hide KH.Represents, KH.GrowPages, KH.SplitBlock, LoadWord, Word, PagesNeeded, GetSize;
    GrowthFacts(s, base, root, T, fr, h);
  }

  ghost predicate GrowthState(s: KH.HeapState, base: nat, root: nat, T: Tables, fr: seq<nat>, h: Flat) {
    && KH.Represents(s, base, root, T, fr, h)
    && KH.HeapIs(s.m, base, root, T, fr, h.bytes)
    && h.at + 16 <= |h.bytes| <= 0x800_0000
  }

  lemma GrowthFacts(s: KH.HeapState, base: nat, root: nat, T: Tables, fr: seq<nat>, h: Flat)
    requires KH.Represents(s, base, root, T, fr, h)
    ensures GrowthState(s, base, root, T, fr, h)
    ensures FA.Layout(s.m, base) && PR.Mapped(s.m, base, root, T)
    ensures s.free_list == HEAP_START + h.at && s.alloc_end == HEAP_START + |fr| * 4096 && |h.bytes| == |fr| * 4096
    ensures LoadWord(s.m, root, s.free_list) == Word(h.bytes, h.at)
    ensures IsLast(Word(h.bytes, h.at)) && GetSize(Word(h.bytes, h.at)) == |h.bytes| - h.at
  {
    hide HeapOk, Word, LoadWord;
    KH.RepresentsFacts(s, base, root, T, fr, h);
  }

  lemma GrowthStarts(s: KH.HeapState, base: nat, root: nat, T: Tables, fr: seq<nat>, h: Flat, size: nat)
    requires KH.Represents(s, base, root, T, fr, h) && FA.Layout(s.m, base)
    requires KH.Kalloc(s, base, root, size).Some?
    ensures GrowthState(s, base, root, T, fr, h)
    ensures s.free_list == HEAP_START + h.at
    ensures IsLast(Word(h.bytes, h.at)) && GetSize(Word(h.bytes, h.at)) == |h.bytes| - h.at
    ensures LoadWord(s.m, root, s.free_list) == Word(h.bytes, h.at)
    ensures KH.GrowPages(s, base, root, PagesNeeded(|h.bytes| - h.at, size)).Some?
  {
    hide KH.Represents, KH.GrowPages, KH.SplitBlock, LoadWord, Word, PagesNeeded, GetSize;
    GrowthFacts(s, base, root, T, fr, h);
  }

  lemma GrowthNeedsMore(have: nat, size: nat, done: nat)
    requires have < 0x800_0001 && size + 32 < WORD && done <= PagesNeeded(have, size)
    requires have + done * PAGE_SIZE < size + 32
    ensures done < PagesNeeded(have, size)
  {
    GrowthSuffices(have, size);
  }

  /** When the loop stops it has made exactly the specified number of rounds. */
  lemma GrowthEnds(have: nat, size: nat, done: nat)
    requires have < 0x800_0001 && size + 32 < WORD && done <= PagesNeeded(have, size)
    requires have + done * PAGE_SIZE >= size + 32
    ensures done == PagesNeeded(have, size)
  {
    GrowthSuffices(have, size);
  }

  lemma StatusFits(status: nat, size: nat)
    requires status < WORD
    ensures SetLast(status) < WORD && SetSize(status, size) < WORD
  {
    FreeSpaceFields(status, size);
  }

  /** The next round of the specified growth starts with a new page. */
  lemma GrowthRound(s: KH.HeapState, base: nat, root: nat, T: Tables, fr: seq<nat>, h: Flat, k: nat)
    requires KH.Represents(s, base, root, T, fr, h) && FA.Layout(s.m, base)
    requires k > 0 && KH.GrowPages(s, base, root, k).Some?
    ensures PR.Mapped(s.m, base, root, T) && !DirectPage(PageOf(s.alloc_end))
    ensures PR.MapNewPage(s.m, base, root, s.alloc_end, RW).Some?
  {
    hide KH.Represents, PR.MapNewPage, PageOf, StoreWord, LoadWord, PR.Mapped, DirectPage, Word, IsLast;
    GrowthFacts(s, base, root, T, fr, h);
    HeapAddress(|fr| * 4096);
  }

  lemma GrowthMapped(s: KH.HeapState, base: nat, root: nat, T: Tables, fr: seq<nat>, h: Flat, m1: Mem, f: nat)
    returns (T1: Tables, fr1: seq<nat>)
    requires KH.Represents(s, base, root, T, fr, h) && FA.Layout(s.m, base)
    requires PR.MapNewPage(s.m, base, root, s.alloc_end, RW) == Some((m1, f))
    ensures KH.HeapIs(m1, base, root, T1, fr1, h.bytes + Zeros(PAGE_SIZE))
    ensures h.at + 16 <= |h.bytes| && Word(h.bytes + Zeros(PAGE_SIZE), h.at) == Word(h.bytes, h.at)
    ensures SetSize(Word(h.bytes, h.at), GetSize(Word(h.bytes, h.at)) + PAGE_SIZE) < WORD
    ensures KH.GrowPage(s, base, root).Some?
    ensures
      var status := Word(h.bytes, h.at);
      KH.GrowPage(s, base, root).value ==
      KH.HeapState(StoreWord(m1, root, s.free_list, SetSize(status, GetSize(status) + PAGE_SIZE)),
                   s.free_list, s.alloc_end + PAGE_SIZE)
    ensures KH.Represents(KH.GrowPage(s, base, root).value, base, root, T1, fr1, FlatGrow(h))
    ensures |FlatGrow(h).bytes| == |h.bytes| + PAGE_SIZE && FlatGrow(h).at == h.at
  {
    hide PR.MapNewPage, StoreWord, LoadWord, SetWord, SetSize, Word, HeapOk, FA.KallocFrame, PR.NewTables, View;
    GrowthFacts(s, base, root, T, fr, h);
    KH.GrowPageRefines(s, base, root, T, fr, h, m1, f);
    HeapNewPage(s.m, base, root, T, fr, m1, f);
    T1, fr1 := PR.NewTables(s.m, base, root, s.alloc_end, T), fr + [f];
    var grown := h.bytes + Zeros(PAGE_SIZE);
    assert grown[..|h.bytes|] == h.bytes[..|h.bytes|];
    WordPrefix(h.bytes, grown, h.at, |h.bytes|);
    KH.GrownStatus(h);
    KH.WordAccess(m1, base, root, T1, fr1, grown, h.at, 0);
  }

  /** One turn of a byte-wise load. */
  lemma LoadStep(m: Mem, satp: Satp, v: nat, n: nat, s: seq<byte>)
    requires LoadsOk(m, satp, v, n) && n > 0
    ensures Translate(m, satp, v).Some? && Translate(m, satp, v).value < |m|
    ensures LoadsOk(m, satp, v + 1, n - 1)
    ensures s + Loaded(m, satp, v, n) ==
            s + [m[Translate(m, satp, v).value]] + Loaded(m, satp, v + 1, n - 1)
  {
    hide Translate;
  }

  lemma LoadedNone(m: Mem, satp: Satp, v: nat, s: seq<byte>)
    requires LoadsOk(m, satp, v, 0)
    ensures s + Loaded(m, satp, v, 0) == s
  {
  }

  lemma BootDirect(m: Mem)
    ensures Direct(m, BootTable)
  {
  }

  lemma BootStore(m: Mem, t: nat, i: nat, e: nat)
    requires InMem(m, t) && i < 512
    ensures StoreIs(m, BootTable, VIRTUAL_OFFSET + EntryAddress(t, i), ToLe(e, 8), SetWord(m, EntryAddress(t, i), e))
  {
    hide ToLe, StoreIs;
    StoreThroughBootTable(m, EntryAddress(t, i), ToLe(e, 8));
    if e < WORD { LeToLe(e, 8); }
  }

  lemma CanMapLayout(m: Mem, base: nat, root: nat, T: Tables, t: nat, level: nat, p: nat, e: nat)
    requires PM.CanMap(m, base, root, T, t, level, p, e)
    ensures FA.Layout(m, base) && PR.Mapped(m, base, root, T) && t in T
    ensures PM.AtTable(m, base, root, T, t, level, p)
  {
    hide Tree;
  }

  lemma NextTableAllocates(m: Mem, base: nat, root: nat, T: Tables, t: nat, level: nat, p: nat, e: nat)
    requires PM.CanMap(m, base, root, T, t, level, p, e) && level > 0
    requires InMem(m, t) && !Valid(Word(m, EntryAddress(t, Slot(p, level))))
    ensures FA.Layout(m, base) && FA.KallocFrame(m, base).Some?
  {
  }

  /** After the frame is taken the parent's slot can be written through the direct map, and
      the write completes the specified step. */
  lemma NextTableStores(
    m: Mem, m1: Mem, base: nat, root: nat, T: Tables, t: nat, level: nat, p: nat, e: nat, f: nat)
    requires PM.CanMap(m, base, root, T, t, level, p, e) && level > 0
    requires InMem(m, t) && !Valid(Word(m, EntryAddress(t, Slot(p, level))))
    requires FA.KallocFrame(m, base) == Some((m1, f))
    ensures
      var i := Slot(p, level);
      var a := EntryAddress(t, i);
      && PM.AddTable(m, base, t, i) == Some((SetWord(m1, a, CreateValidPageTableEntry(f)), f))
      && InMem(m1, t)
      && Word(SetWord(m1, a, CreateValidPageTableEntry(f)), a) == CreateValidPageTableEntry(f)
      && Ppn(CreateValidPageTableEntry(f)) == f
      && StoreIs(m1, RootTable(root), VIRTUAL_OFFSET + a, ToLe(CreateValidPageTableEntry(f), 8),
                 SetWord(m1, a, CreateValidPageTableEntry(f)))
  {
    hide FA.KallocFrame, StoreIs, ToLe, PM.MapFrom, Word, SetWord, PM.CanMap, PR.Mapped, FA.Layout;
    hide CreateValidPageTableEntry, PM.AtTable, EmptySlot;
    CanMapLayout(m, base, root, T, t, level, p, e);
    var i := Slot(p, level);
    PM.SlotIsEmpty(m, base, root, T, t, level, p);
    PM.AllocInRange(m, base);
    TableEntryNames(f);
    PR.AllocKeepsTree(m, base, root, T);
    PM.WalkAvoidsDirect(m, base, root, T, t, level, p);
    EditEntry(m1, base, root, T, t, i, CreateValidPageTableEntry(f));
  }

  lemma LastTableStores(m: Mem, base: nat, root: nat, T: Tables, t: nat, p: nat, e: nat)
    requires PM.CanMap(m, base, root, T, t, 0, p, e)
    ensures InMem(m, t)
    ensures StoreIs(m, RootTable(root), VIRTUAL_OFFSET + EntryAddress(t, Slot(p, 0)), ToLe(e, 8),
                    SetWord(m, EntryAddress(t, Slot(p, 0)), e))
    ensures PM.MapFrom(m, base, t, 0, p, e) == Some(SetWord(m, EntryAddress(t, Slot(p, 0)), e))
  {
    hide StoreIs, ToLe, Prefix, SetWord;
    PR.RootTable(m, base, root, T);
    EditEntry(m, base, root, T, t, Slot(p, 0), e);
  }

  /** One level of the kernel's walk, as a load from the table the walk has reached. */
  lemma WalkLoad(m: Mem, base: nat, root: nat, T: Tables, t: nat, level: nat, p: nat)
    requires PM.AtTable(m, base, root, T, t, level, p)
    ensures InMem(m, t)
    ensures
      var e := Word(m, EntryAddress(t, Slot(p, level)));
      && Lookup(Words(m), t, level, p) ==
         (if !Valid(e) then None else if level == 0 then Some(e) else Lookup(Words(m), Ppn(e), level - 1, p))
      && (Valid(e) && level > 0 ==> PM.AtTable(m, base, root, T, Ppn(e), level - 1, p))
  {
    hide Word;
    PM.TableInMem(m, base, root, T, t);
    if level > 0 && Valid(Word(m, EntryAddress(t, Slot(p, level)))) {
      PM.DescendExisting(m, base, root, T, t, level, p);
    }
  }

  lemma MappedIsDirect(m: Mem, base: nat, root: nat, T: Tables)
    requires PR.Mapped(m, base, root, T)
    ensures FA.Layout(m, base) && Direct(m, RootTable(root))
  {
    TreeIsDirect(m, base, root, T);
  }

  lemma MapNewSteps(m: Mem, base: nat, root: nat, T: Tables, page: nat)
    requires PR.Mapped(m, base, root, T) && PR.MapNewPage(m, base, root, page, RW).Some?
    ensures FA.KallocFrame(m, base).Some?
    ensures
      var (m1, f) := FA.KallocFrame(m, base).value;
      PR.MapNewPage(m, base, root, page, RW) ==
      match PM.MapPage(m1, base, root, page, f * FRAME_SIZE, RW)
      case None => None
      case Some(m2) => Some((m2, f))
  {
  }

  /** A word of the heap is loaded and stored as the specification says. */
  lemma HeapAccess(m: Mem, base: nat, root: nat, T: Tables, fr: seq<nat>, b: seq<byte>, i: nat, w: nat)
    requires KH.HeapIs(m, base, root, T, fr, b) && i + 8 <= |b| && w < WORD
    ensures LoadsOk(m, RootTable(root), HEAP_START + i, 8)
    ensures Le(Loaded(m, RootTable(root), HEAP_START + i, 8)) == LoadWord(m, root, HEAP_START + i) == Word(b, i)
    ensures StoresOk(m, RootTable(root), HEAP_START + i, ToLe(w, 8))
    ensures Stored(m, RootTable(root), HEAP_START + i, ToLe(w, 8)) == StoreWord(m, root, HEAP_START + i, w)
    ensures KH.HeapIs(StoreWord(m, root, HEAP_START + i, w), base, root, T, fr, SetWord(b, i, w))
  {
    hide Word, SetWord, HeapOk, View;
    HeapLoadsOk(m, base, root, T, fr, i, 8);
    HeapStoresOk(m, base, root, T, fr, i, ToLe(w, 8));
    KH.WordAccess(m, base, root, T, fr, b, i, w);
  }
}
