/** kalloc on the machine: every load and store goes through the page tables. It refines
    the flat heap. */
module KernelHeap {
  import opened Wrappers
  import opened Bits
  import opened Memory
  import opened Sv48
  import opened FrameAllocator
  import opened PageTree
  import opened PageMapping
  import opened PageRuns
  import opened FlatHeap
  import opened HeapMemory
  import opened HeapLayout

  /** Memory and the two statics of the virtual allocator. */
  datatype HeapState = HeapState(m: Mem, free_list: nat, alloc_end: nat)

  /** One round of the growth loop: a frame, its mapping, the new size. */
  function GrowPage(s: HeapState, base: nat, root: nat): (r: Option<HeapState>)
    requires Layout(s.m, base)
    ensures r.Some? ==> |r.value.m| == |s.m|
  {
    match MapNewPage(s.m, base, root, s.alloc_end, RW)
    case None => None
    case Some((m1, _)) =>
      var status := LoadWord(m1, root, s.free_list);
      var m2 := StoreWord(m1, root, s.free_list, SetSize(status, GetSize(status) + PAGE_SIZE));
      Some(HeapState(m2, s.free_list, s.alloc_end + PAGE_SIZE))
  }

  function GrowPages(s: HeapState, base: nat, root: nat, k: nat): (r: Option<HeapState>)
    requires Layout(s.m, base)
    ensures r.Some? ==> |r.value.m| == |s.m|
    decreases k
  {
    if k == 0 then Some(s)
    else
      match GrowPage(s, base, root)
      case None => None
      case Some(s1) => GrowPages(s1, base, root, k - 1)
  }

  /** The block header and the new free block. */
  function SplitBlock(s: HeapState, root: nat, size: nat): (r: HeapState)
    ensures |r.m| == |s.m|
  {
    var old_size := GetSize(LoadWord(s.m, root, s.free_list));
    var m1 := StoreWord(s.m, root, s.free_list, size);
    var m2 := StoreWord(m1, root, s.free_list + 8, MAGIC);
    var next := s.free_list + 16 + size;
    var m3 := StoreWord(m2, root, next, SetLast(LoadWord(m2, root, next)));
    var m4 := StoreWord(m3, root, next, SetSize(LoadWord(m3, root, next), Minus64(old_size, size + 16)));
    HeapState(m4, next, s.alloc_end)
  }

  /** kalloc(size): the new state and the payload's address; None when frames run out. */
  function Kalloc(s: HeapState, base: nat, root: nat, size: nat): (r: Option<(HeapState, nat)>)
    requires Layout(s.m, base)
    ensures r.Some? ==> |r.value.0.m| == |s.m|
  {
    var k := PagesNeeded(GetSize(LoadWord(s.m, root, s.free_list)), size);
    match GrowPages(s, base, root, k)
    case None => None
    case Some(g) => Some((SplitBlock(g, root, size), g.free_list + 16))
  }

  /** The machine state s represents the flat heap h. */
  ghost predicate Represents(s: HeapState, base: nat, root: nat, T: Tables, fr: seq<nat>, h: Flat) {
    && HeapOk(s.m, base, root, T, fr)
    && FramesIn(s.m, fr) && View(s.m, fr) == h.bytes
    && FlatOk(h)
    && s.free_list == HEAP_START + h.at
    && s.alloc_end == HEAP_START + |fr| * 4096
  }

  lemma RepresentsFacts(s: HeapState, base: nat, root: nat, T: Tables, fr: seq<nat>, h: Flat)
    requires Represents(s, base, root, T, fr, h)
    ensures Layout(s.m, base) && Mapped(s.m, base, root, T)
    ensures |h.bytes| == |fr| * 4096 <= 0x800_0000
    ensures LoadWord(s.m, root, s.free_list) == Word(h.bytes, h.at) == (|h.bytes| - h.at) * 2 + 1
    ensures IsLast(LoadWord(s.m, root, s.free_list))
    ensures GetSize(LoadWord(s.m, root, s.free_list)) == |h.bytes| - h.at
  {
    hide StoreWord, StoreBytes, LoadBytes, SetWord, SetBytes, Le, ToLe, Tree, Lookup, View;
    HeapFramesIn(s.m, base, root, T, fr);
    HeapMapped(s.m, base, root, T, fr);
    HeapWords(s.m, base, root, T, fr, h.at, 0);
    OddStatus(|h.bytes| - h.at);
  }

  // Growth.

  /** One round of the growth loop on the machine is one round on the flat heap. */
  lemma GrowPageRefines(s: HeapState, base: nat, root: nat, T: Tables, fr: seq<nat>, h: Flat, m1: Mem, f: nat)
    requires Represents(s, base, root, T, fr, h)
    requires MapNewPage(s.m, base, root, s.alloc_end, RW) == Some((m1, f))
    ensures KallocFrame(s.m, base).Some?
    ensures GrowPage(s, base, root).Some?
    ensures Represents(GrowPage(s, base, root).value, base, root,
                       NewTables(s.m, base, root, s.alloc_end, T), fr + [f], FlatGrow(h))
    ensures LayoutOk(s.m, base, root, T, fr) ==>
              LayoutOk(GrowPage(s, base, root).value.m, base, root,
                       NewTables(s.m, base, root, s.alloc_end, T), fr + [f])
    ensures KeepsOthers(s.m, GrowPage(s, base, root).value.m, base, root,
                        T, NewTables(s.m, base, root, s.alloc_end, T), fr, fr + [f], {})
  {
    hide SameLookups, KeepsOthers;
    hide MapNewPage, KallocFrame, StoreWord, LoadWord, SetWord, SetBytes, Le, ToLe, Word, Tree, HeapOk, View;
    hide SetSize, GetSize, Layout, NewTables, IsLast, FramesIn, LayoutOk;
    RepresentsFacts(s, base, root, T, fr, h);
    HeapNewPage(s.m, base, root, T, fr, m1, f);
    var T2, fr2 := NewTables(s.m, base, root, s.alloc_end, T), fr + [f];
    HeapMapped(m1, base, root, T2, fr2);
    HeapFramesIn(m1, base, root, T2, fr2);
    var grown := h.bytes + Zeros(4096);
    var status := Word(h.bytes, h.at);
    assert grown[..|h.bytes|] == h.bytes[..|h.bytes|];
    WordPrefix(h.bytes, grown, h.at, |h.bytes|);
    var w := SetSize(status, GetSize(status) + PAGE_SIZE);
    GrownStatus(h);
    HeapWords(m1, base, root, T2, fr2, h.at, w);
    FlatGrowOk(h);
    GrowthOthers(s, base, root, T, fr, h, m1, f, StoreWord(m1, root, s.free_list, w));
    if LayoutOk(s.m, base, root, T, fr) {
      HeapPageKeepsLayout(s.m, base, root, T, fr, m1, f);
      SameFreeKeepsLayout(m1, StoreWord(m1, root, s.free_list, w), base, root, T2, fr2);
    }
  }

  lemma GrowthOthers(
    s: HeapState, base: nat, root: nat, T: Tables, fr: seq<nat>, h: Flat, m1: Mem, f: nat, m2: Mem)
    requires Represents(s, base, root, T, fr, h) && KallocFrame(s.m, base).Some?
    requires MapNewPage(s.m, base, root, s.alloc_end, RW) == Some((m1, f))
    requires |m2| == |m1| && Layout(m1, base) && FreeSet(m2, base) == FreeSet(m1, base) && SameLookups(m1, m2, root)
    ensures KeepsOthers(s.m, m2, base, root, T, NewTables(s.m, base, root, s.alloc_end, T), fr, fr + [f], {})
  {
    hide MapNewPage, KallocFrame, HeapOk, View, FramesIn, FlatOk, NewTables, KeepsOthers, SameLookups, FreeSet;
    var T2 := NewTables(s.m, base, root, s.alloc_end, T);
    HeapPageOthers(s.m, base, root, T, fr, m1, f);
    SameOthers(m1, m2, base, root, T2, fr + [f]);
    OthersTrans(s.m, m1, m2, base, root, T, T2, T2, fr, fr + [f], fr + [f], {});
  }

  /** Writes into the heap do not change its layout. */
  lemma SameFreeKeepsLayout(m: Mem, m': Mem, base: nat, root: nat, T: Tables, fr: seq<nat>)
    requires LayoutOk(m, base, root, T, fr) && HeapOk(m', base, root, T, fr)
    requires |m'| == |m| && FreeSet(m', base) == FreeSet(m, base)
    ensures LayoutOk(m', base, root, T, fr)
  {
  }

  lemma GrownStatus(h: Flat)
    requires FlatOk(h)
    ensures
      var status := Word(h.bytes, h.at);
      SetSize(status, GetSize(status) + PAGE_SIZE) < WORD
  {
    var n := |h.bytes| - h.at;
    OddStatus(n);
    LastStatus(n * 2 + 1, n + PAGE_SIZE);
  }

  lemma {:induction false} GrowPagesRefines(
    s: HeapState, base: nat, root: nat, T: Tables, fr: seq<nat>, h: Flat, k: nat)
    returns (T': Tables, fr': seq<nat>)
    requires Represents(s, base, root, T, fr, h)
    requires Layout(s.m, base) && GrowPages(s, base, root, k).Some?
    ensures |fr'| == |fr| + k && fr <= fr'
    ensures Represents(GrowPages(s, base, root, k).value, base, root, T', fr', FlatGrowN(h, k))
    ensures LayoutOk(s.m, base, root, T, fr) ==> LayoutOk(GrowPages(s, base, root, k).value.m, base, root, T', fr')
    ensures KeepsOthers(s.m, GrowPages(s, base, root, k).value.m, base, root, T, T', fr, fr', {})
    decreases k
  {
    hide LayoutOk, KeepsOthers;
    hide MapNewPage, KallocFrame, StoreWord, LoadWord, SetWord, SetBytes, Le, ToLe, Word, Tree, HeapOk, View;
    hide FlatGrow, Represents;
    RepresentsFacts(s, base, root, T, fr, h);
    FreeBlockFits(s, base, root, T, fr, h);
    if k == 0 {
      T', fr' := T, fr;
      SameOthers(s.m, s.m, base, root, T, fr);
    } else {
      var (m1, f) := MapNewPage(s.m, base, root, s.alloc_end, RW).value;
      GrowPageRefines(s, base, root, T, fr, h, m1, f);
      var T1 := NewTables(s.m, base, root, s.alloc_end, T);
      var s1 := GrowPage(s, base, root).value;
      T', fr' := GrowPagesRefines(s1, base, root, T1, fr + [f], FlatGrow(h), k - 1);
      OthersTrans(s.m, s1.m, GrowPages(s, base, root, k).value.m, base, root, T, T1, T', fr, fr + [f], fr', {});
    }
  }

  lemma FreeBlockFits(s: HeapState, base: nat, root: nat, T: Tables, fr: seq<nat>, h: Flat)
    requires Represents(s, base, root, T, fr, h)
    ensures h.at + 16 <= |h.bytes|
  {
  }

  // The split.

  /** The heap's bytes are b. */
  ghost predicate HeapIs(m: Mem, base: nat, root: nat, T: Tables, fr: seq<nat>, b: seq<byte>) {
    HeapOk(m, base, root, T, fr) && FramesIn(m, fr) && View(m, fr) == b
  }

  ghost predicate SameFree(m: Mem, m': Mem, base: nat, root: nat) {
    && |m'| == |m| && SameLookups(m, m', root)
    && (Layout(m, base) ==> Layout(m', base) && FreeSet(m', base) == FreeSet(m, base))
  }

  lemma SameFreeTrans(m: Mem, m1: Mem, m2: Mem, base: nat, root: nat)
    requires SameFree(m, m1, base, root) && SameFree(m1, m2, base, root)
    ensures SameFree(m, m2, base, root)
  {
    hide Lookup, Words, DirectPage, FreeSet, Layout;
  }

  lemma WordAccess(m: Mem, base: nat, root: nat, T: Tables, fr: seq<nat>, b: seq<byte>, i: nat, w: nat)
    requires HeapIs(m, base, root, T, fr, b) && i + 8 <= |b| && w < WORD
    ensures LoadWord(m, root, HEAP_START + i) == Word(b, i)
    ensures HeapIs(StoreWord(m, root, HEAP_START + i, w), base, root, T, fr, SetWord(b, i, w))
    ensures SameFree(m, StoreWord(m, root, HEAP_START + i, w), base, root)
  {
    hide StoreWord, LoadWord, SetWord, SetBytes, Le, ToLe, Word, Tree, HeapOk, View;
    HeapWords(m, base, root, T, fr, i, w);
  }

  lemma HeaderRefines(m: Mem, base: nat, root: nat, T: Tables, fr: seq<nat>, b: seq<byte>, at: nat, size: nat)
    requires HeapIs(m, base, root, T, fr, b) && at + 16 <= |b| && size < WORD
    ensures
      var m1 := StoreWord(m, root, HEAP_START + at, size);
      var m2 := StoreWord(m1, root, HEAP_START + at + 8, MAGIC);
      HeapIs(m2, base, root, T, fr, WriteHeader(b, at, size)) && SameFree(m, m2, base, root)
  {
    hide StoreWord, LoadWord, SetWord, SetBytes, Le, ToLe, Word, HeapIs;
    WordAccess(m, base, root, T, fr, b, at, size);
    var m1 := StoreWord(m, root, HEAP_START + at, size);
    WordAccess(m1, base, root, T, fr, SetWord(b, at, size), at + 8, MAGIC);
  }

  lemma FreeRefines(m: Mem, base: nat, root: nat, T: Tables, fr: seq<nat>, b: seq<byte>, at: nat, size: nat)
    requires HeapIs(m, base, root, T, fr, b) && at + 8 <= |b|
    ensures
      var v := HEAP_START + at;
      var m3 := StoreWord(m, root, v, SetLast(LoadWord(m, root, v)));
      var m4 := StoreWord(m3, root, v, SetSize(LoadWord(m3, root, v), size));
      HeapIs(m4, base, root, T, fr, WriteFree(b, at, size)) && SameFree(m, m4, base, root)
  {
    hide StoreWord, LoadWord, SetWord, SetBytes, Le, ToLe, Word, HeapIs, SetLast, SetSize;
    var status := Word(b, at);
    FreeSpaceFields(status, size);
    FreeSpaceFields(SetLast(status), size);
    WordAccess(m, base, root, T, fr, b, at, SetLast(status));
    var m3 := StoreWord(m, root, HEAP_START + at, SetLast(status));
    WordAccess(m3, base, root, T, fr, SetWord(b, at, SetLast(status)), at, SetSize(SetLast(status), size));
  }

  lemma SplitRefines(s: HeapState, base: nat, root: nat, T: Tables, fr: seq<nat>, h: Flat, size: nat)
    requires Represents(s, base, root, T, fr, h) && h.at + 32 + size <= |h.bytes|
    ensures Represents(SplitBlock(s, root, size), base, root, T, fr, FlatSplit(h, size))
    ensures SameFree(s.m, SplitBlock(s, root, size).m, base, root)
  {
    hide StoreWord, LoadWord, SetWord, SetBytes, Le, ToLe, Word, SetLast, SetSize, View, HeapOk, Minus64, GetSize;
    hide WriteHeader, WriteFree, SameFree;
    RepresentsFacts(s, base, root, T, fr, h);
    HeaderRefines(s.m, base, root, T, fr, h.bytes, h.at, size);
    var m1 := StoreWord(s.m, root, HEAP_START + h.at, size);
    var m2 := StoreWord(m1, root, HEAP_START + h.at + 8, MAGIC);
    var rest := Minus64(GetSize(Word(h.bytes, h.at)), size + 16);
    FreeRefines(m2, base, root, T, fr, WriteHeader(h.bytes, h.at, size), h.at + 16 + size, rest);
    SameFreeTrans(s.m, m2, SplitBlock(s, root, size).m, base, root);
    FlatSplitOk(h, size);
  }

  /** kalloc through the page tables is kalloc on the flat heap: same bytes, same free
      block, and the payload handed out starts behind its header. */
  lemma KallocRefines(
    s: HeapState, base: nat, root: nat, T: Tables, fr: seq<nat>, h: Flat, size: nat, s': HeapState, p: nat)
    returns (T': Tables, fr': seq<nat>)
    requires Represents(s, base, root, T, fr, h) && size + 32 < WORD
    requires Layout(s.m, base) && Kalloc(s, base, root, size) == Some((s', p))
    ensures Fits(h, size) && FlatOk(h) && GetSize(Word(h.bytes, h.at)) == |h.bytes| - h.at
    ensures fr <= fr' && |fr'| == |fr| + PagesNeeded(|h.bytes| - h.at, size)
    ensures Represents(s', base, root, T', fr', FlatKalloc(h, size))
    ensures p == HEAP_START + h.at + 16
    ensures LayoutOk(s.m, base, root, T, fr) ==> LayoutOk(s'.m, base, root, T', fr')
    ensures KeepsOthers(s.m, s'.m, base, root, T, T', fr, fr', {})
  {
    hide KeepsOthers, LayoutOk, Represents, Kalloc, GrowPages, GetSize, Word, FlatOk, SplitBlock;
    hide PagesNeeded, FlatSplit, FlatGrowN, FlatKalloc, Fits, SameFree;
    KallocIs(s, base, root, T, fr, h, size, s', p);
    var k := PagesNeeded(|h.bytes| - h.at, size);
    T', fr' := GrowPagesRefines(s, base, root, T, fr, h, k);
    var g := GrowPages(s, base, root, k).value;
    SplitIsKalloc(g, base, root, T', fr', h, size);
    SplitOthers(s.m, g.m, s'.m, base, root, T, T', fr, fr');
    if LayoutOk(s.m, base, root, T, fr) {
      SplitKeepsLayout(g, s', base, root, T', fr', h, size);
    }
  }

  lemma KallocIs(
    s: HeapState, base: nat, root: nat, T: Tables, fr: seq<nat>, h: Flat, size: nat, s': HeapState, p: nat)
    requires Represents(s, base, root, T, fr, h) && size + 32 < WORD
    requires Layout(s.m, base) && Kalloc(s, base, root, size) == Some((s', p))
    ensures h.at + 16 <= |h.bytes| <= 0x800_0000 && FlatOk(h) && GetSize(Word(h.bytes, h.at)) == |h.bytes| - h.at
    ensures
      var g := GrowPages(s, base, root, PagesNeeded(|h.bytes| - h.at, size));
      g.Some? && s' == SplitBlock(g.value, root, size) && p == g.value.free_list + 16
  {
    hide HeapOk, View, LoadWord, Word, GrowPages, SplitBlock, PagesNeeded, GetSize;
    RepresentsFacts(s, base, root, T, fr, h);
  }

  lemma SplitIsKalloc(g: HeapState, base: nat, root: nat, T: Tables, fr: seq<nat>, h: Flat, size: nat)
    requires FlatOk(h) && size + 32 < WORD && GetSize(Word(h.bytes, h.at)) == |h.bytes| - h.at
    requires Represents(g, base, root, T, fr, FlatGrowN(h, PagesNeeded(|h.bytes| - h.at, size)))
    ensures Fits(h, size) && g.free_list == HEAP_START + h.at
    ensures Represents(SplitBlock(g, root, size), base, root, T, fr, FlatKalloc(h, size))
    ensures SameFree(g.m, SplitBlock(g, root, size).m, base, root) && Layout(g.m, base)
  {
    hide HeapOk, View, LoadWord, Word, SplitBlock, PagesNeeded, GetSize, FlatSplit, FlatGrowN, SameFree, Layout;
    RepresentsFacts(g, base, root, T, fr, FlatGrowN(h, PagesNeeded(|h.bytes| - h.at, size)));
    assert Fits(h, size);
    FitsGrows(h, size);
    SplitRefines(g, base, root, T, fr, FlatGrowN(h, PagesNeeded(|h.bytes| - h.at, size)), size);
  }

  lemma SplitOthers(
    m: Mem, g: Mem, m': Mem, base: nat, root: nat, T: Tables, T': Tables, fr: seq<nat>, fr': seq<nat>)
    requires KeepsOthers(m, g, base, root, T, T', fr, fr', {}) && Layout(g, base) && SameFree(g, m', base, root)
    ensures KeepsOthers(m, m', base, root, T, T', fr, fr', {})
  {
    hide KeepsOthers, SameLookups, FreeSet, Layout;
    SameOthers(g, m', base, root, T', fr');
    OthersTrans(m, g, m', base, root, T, T', T', fr, fr', fr', {});
  }

  lemma SplitKeepsLayout(
    g: HeapState, s: HeapState, base: nat, root: nat, T: Tables, fr: seq<nat>, h: Flat, size: nat)
    requires LayoutOk(g.m, base, root, T, fr) && Fits(h, size)
    requires h.at + 16 <= |h.bytes| && GetSize(Word(h.bytes, h.at)) == |h.bytes| - h.at < 0x8000_0000_0000_0000
    requires Represents(s, base, root, T, fr, FlatKalloc(h, size))
    requires Layout(g.m, base) && SameFree(g.m, s.m, base, root)
    ensures LayoutOk(s.m, base, root, T, fr)
  {
    hide LayoutOk, HeapOk, FreeSet, View, FlatOk, SameLookups, Layout, FlatKalloc, Word, GetSize, Fits;
    SameFreeKeepsLayout(g.m, s.m, base, root, T, fr);
  }

  lemma {:induction false} FrameIndexGrows(k: nat, n: nat)
    ensures FrameIndex(k) + n <= FrameIndex(k + n)
    decreases n
  {
    if n > 0 {
      FrameIndexGrows(k, n - 1);
      NeighbourFrames(k + n - 1);
    }
  }

  lemma GrowPageCount(s: HeapState, base: nat, root: nat, T: Tables, fr: seq<nat>, h: Flat)
    returns (T': Tables, fr': seq<nat>)
    requires Represents(s, base, root, T, fr, h) && LayoutOk(s.m, base, root, T, fr) && Layout(s.m, base)
    ensures GrowPage(s, base, root).Some? <==> FrameIndex(|fr| + 1) <= Cap(s.m, base)
    ensures h.at + 16 <= |h.bytes|
    ensures GrowPage(s, base, root).Some? ==>
              && |fr'| == |fr| + 1
              && Represents(GrowPage(s, base, root).value, base, root, T', fr', FlatGrow(h))
              && LayoutOk(GrowPage(s, base, root).value.m, base, root, T', fr')
  {
    hide MapNewPage, KallocFrame, StoreWord, LoadWord, FlatGrow, Represents, LayoutOk, FrameIndex, Cap, SetSize;
    RepresentsFacts(s, base, root, T, fr, h);
    RepresentsEnd(s, base, root, T, fr, h);
    FreeBlockFits(s, base, root, T, fr, h);
    HeapPageCount(s.m, base, root, T, fr);
    T', fr' := T, fr;
    if MapNewPage(s.m, base, root, s.alloc_end, RW).Some? {
      var (m1, f) := MapNewPage(s.m, base, root, s.alloc_end, RW).value;
      GrowPageRefines(s, base, root, T, fr, h, m1, f);
      T', fr' := NewTables(s.m, base, root, s.alloc_end, T), fr + [f];
    }
  }

  /** The growth loop finds its k pages exactly while the closed form stays within the
      frames. */
  lemma {:induction false} GrowPagesCount(s: HeapState, base: nat, root: nat, T: Tables, fr: seq<nat>, h: Flat, k: nat)
    requires Represents(s, base, root, T, fr, h) && LayoutOk(s.m, base, root, T, fr) && Layout(s.m, base)
    ensures GrowPages(s, base, root, k).Some? <==> FrameIndex(|fr| + k) <= Cap(s.m, base)
    decreases k
  {
    hide GrowPage, FlatGrow, Represents, LayoutOk, FrameIndex, Cap;
    if k == 0 {
      LayoutBound(s.m, base, root, T, fr);
    } else {
      var T', fr' := GrowPageCount(s, base, root, T, fr, h);
      if GrowPage(s, base, root).Some? {
        SameCap(s.m, GrowPage(s, base, root).value.m, base);
        GrowPagesCount(GrowPage(s, base, root).value, base, root, T', fr', FlatGrow(h), k - 1);
      } else {
        FrameIndexGrows(|fr| + 1, k - 1);
      }
    }
  }

  /** kalloc succeeds exactly while the closed form stays within the frames. */
  lemma KallocSucceeds(s: HeapState, base: nat, root: nat, T: Tables, fr: seq<nat>, h: Flat, size: nat)
    requires Represents(s, base, root, T, fr, h) && LayoutOk(s.m, base, root, T, fr) && Layout(s.m, base)
    ensures Kalloc(s, base, root, size).Some? <==>
            FrameIndex(|fr| + PagesNeeded(GetSize(LoadWord(s.m, root, s.free_list)), size)) <= Cap(s.m, base)
  {
    hide GrowPages, Represents, LayoutOk, FrameIndex, Cap, PagesNeeded, LoadWord, SplitBlock;
    GrowPagesCount(s, base, root, T, fr, h, PagesNeeded(GetSize(LoadWord(s.m, root, s.free_list)), size));
  }

  lemma RepresentsEnd(s: HeapState, base: nat, root: nat, T: Tables, fr: seq<nat>, h: Flat)
    requires Represents(s, base, root, T, fr, h)
    ensures s.alloc_end == HEAP_START + |fr| * 4096
  {
  }

  lemma SameCap(m: Mem, m': Mem, base: nat)
    requires |m'| == |m| && Layout(m, base)
    ensures Layout(m', base) && Cap(m', base) == Cap(m, base)
  {
  }

  lemma LayoutBound(m: Mem, base: nat, root: nat, T: Tables, fr: seq<nat>)
    requires LayoutOk(m, base, root, T, fr)
    ensures Layout(m, base) && FrameIndex(|fr|) <= Cap(m, base)
  {
  }

  /** A byte stored below the free block changes that byte of the flat heap. */
  lemma WriteRefines(s: HeapState, base: nat, root: nat, T: Tables, fr: seq<nat>, h: Flat, i: nat, x: byte)
    requires Represents(s, base, root, T, fr, h) && i < h.at
    ensures FlatOk(h)
    ensures Represents(s.(m := StoreByte(s.m, root, HEAP_START + i, x)), base, root, T, fr, Flat(h.bytes[i := x], h.at))
    ensures KeepsOthers(s.m, StoreByte(s.m, root, HEAP_START + i, x), base, root, T, T, fr, fr, {})
    ensures LayoutOk(s.m, base, root, T, fr) ==> LayoutOk(StoreByte(s.m, root, HEAP_START + i, x), base, root, T, fr)
  {
    hide StoreByte, SetWord, SetBytes, Le, ToLe, View, HeapOk, Word;
    HeapMapped(s.m, base, root, T, fr);
    HeapStore(s.m, base, root, T, fr, i, x);
    SameOthers(s.m, StoreByte(s.m, root, HEAP_START + i, x), base, root, T, fr);
    WordSame(h.bytes, h.bytes[i := x], h.at);
  }
}
