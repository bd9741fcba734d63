/** Where heap pages lie in physical memory after boot, in closed form, and what that
    means for a device that reads or writes a heap buffer by its physical address. */
module HeapLayout {
  import opened Wrappers
  import opened Bits
  import opened Memory
  import opened Sv48
  import opened FrameAllocator
  import opened PageTree
  import opened PageMapping
  import opened PageRuns
  import opened FlatHeap
  import opened HeapMemory

  /** Exactly the frame numbers from n on are free. */
  ghost predicate FreeFrom(m: Mem, base: nat, n: nat)
    requires Layout(m, base)
  {
    n <= Cap(m, base) && forall f: nat :: f in FreeSet(m, base) <==> base + n <= f < base + Cap(m, base)
  }

  lemma KallocTakesNext(m: Mem, base: nat, n: nat)
    requires Layout(m, base) && FreeFrom(m, base, n)
    ensures KallocFrame(m, base).Some? <==> n < Cap(m, base)
    ensures n < Cap(m, base) ==>
              KallocFrame(m, base).value.1 == base + n && FreeFrom(KallocFrame(m, base).value.0, base, n + 1)
  {
    if n < Cap(m, base) {
      assert base + n in FreeSet(m, base);
      assert IsFree(m, base, n);
    }
    if KallocFrame(m, base).Some? {
      AllocIsRemoval(m, base);
    }
  }

  /** How many tables below a level are missing on the path to page p. */
  ghost function Missing(p: nat, level: nat, nodes: set<Node>): nat {
    if level == 0 then 0
    else Missing(p, level - 1, nodes) + if Node(level - 1, Prefix(p, level - 1)) in nodes then 0 else 1
  }

  lemma {:induction false} MissingBelow(p: nat, level: nat, nodes: set<Node>, n: Node)
    requires n.level >= level
    ensures Missing(p, level, nodes + {n}) == Missing(p, level, nodes)
    decreases level
  {
    if level > 0 { MissingBelow(p, level - 1, nodes, n); }
  }

  /** How many of the tables on a path, or on several, did not exist before. */
  ghost function Absent(nodes: set<Node>, path: set<Node>): nat {
    |path - nodes|
  }

  lemma {:induction false} MissingCounts(p: nat, level: nat, nodes: set<Node>)
    ensures Missing(p, level, nodes) == Absent(nodes, PathNodes(p, level))
    ensures forall n | n in PathNodes(p, level) :: n.level < level
    decreases level
  {
    if level > 0 {
      MissingCounts(p, level - 1, nodes);
      var n := Node(level - 1, Prefix(p, level - 1));
      var below := PathNodes(p, level - 1) - nodes;
      assert n !in below;
      assert PathNodes(p, level) - nodes == if n in nodes then below else below + {n};
    }
  }

  ghost predicate ReadyToMap(m: Mem, base: nat, root: nat, T: Tables, t: nat, level: nat, p: nat, e: nat) {
    && AtTable(m, base, root, T, t, level, p)
    && LeafOk(PagesOf(m, base), T, e) && e < WORD
  }

  lemma ReadyExisting(m: Mem, base: nat, root: nat, T: Tables, t: nat, level: nat, p: nat, e: nat)
    requires ReadyToMap(m, base, root, T, t, level, p, e) && level > 0
    requires InMem(m, t) && Valid(Word(m, EntryAddress(t, Slot(p, level))))
    ensures
      var c := Ppn(Word(m, EntryAddress(t, Slot(p, level))));
      && ReadyToMap(m, base, root, T, c, level - 1, p, e)
      && Missing(p, level, T.Values) == Missing(p, level - 1, T.Values)
  {
    hide Tree, Word, Slot, Prefix, LeafOk;
    DescendExisting(m, base, root, T, t, level, p);
    var c := Ppn(Word(m, EntryAddress(t, Slot(p, level))));
    assert T[c] in T.Values;
  }

  lemma ReadyNew(m: Mem, base: nat, root: nat, T: Tables, t: nat, level: nat, p: nat, e: nat, m2: Mem, f: nat)
    requires ReadyToMap(m, base, root, T, t, level, p, e) && level > 0
    requires InMem(m, t) && !Valid(Word(m, EntryAddress(t, Slot(p, level))))
    requires AddTable(m, base, t, Slot(p, level)) == Some((m2, f))
    ensures
      var T2 := T[f := Child(T[t], Slot(p, level))];
      && ReadyToMap(m2, base, root, T2, f, level - 1, p, e)
      && Missing(p, level, T.Values) == Missing(p, level - 1, T2.Values) + 1
  {
    hide Tree, Word, Slot, Prefix, AddTable;
    var i := Slot(p, level);
    DescendNew(m, base, root, T, t, level, p);
    SlotIsEmpty(m, base, root, T, t, level, p);
    MissingNode(m, base, root, T, t, level, p);
    WithNewKey(T, f, Child(T[t], i));
    MissingBelow(p, level - 1, T.Values, Child(T[t], i));
    assert Ppn(e) != f;
  }

  lemma MissingNode(m: Mem, base: nat, root: nat, T: Tables, t: nat, level: nat, p: nat)
    requires AtTable(m, base, root, T, t, level, p) && level > 0
    requires InMem(m, t) && !Valid(Word(m, EntryAddress(t, Slot(p, level))))
    ensures Node(level - 1, Prefix(p, level - 1)) !in T.Values
  {
    SlotIsEmpty(m, base, root, T, t, level, p);
    SlotInUse(PagesOf(m, base), root, T, t, Slot(p, level));
  }

  lemma AddTableTakesNext(m: Mem, base: nat, t: nat, i: nat, n: nat)
    requires Layout(m, base) && InMem(m, t) && base <= t && i < 512 && FreeFrom(m, base, n)
    ensures AddTable(m, base, t, i).Some? <==> n < Cap(m, base)
    ensures n < Cap(m, base) ==>
              AddTable(m, base, t, i).value.1 == base + n && FreeFrom(AddTable(m, base, t, i).value.0, base, n + 1)
  {
    KallocTakesNext(m, base, n);
    if n < Cap(m, base) { AddTableBytes(m, base, t, i); }
  }

  /** From a prefix of taken frames, map_page succeeds exactly when the frames last, and
      takes one more frame for each missing table. */
  lemma {:induction false} MapFromCount(
    m: Mem, base: nat, root: nat, T: Tables, t: nat, level: nat, p: nat, e: nat, n: nat)
    requires ReadyToMap(m, base, root, T, t, level, p, e) && FreeFrom(m, base, n)
    ensures MapFrom(m, base, t, level, p, e).Some? <==> n + Missing(p, level, T.Values) <= Cap(m, base)
    ensures MapFrom(m, base, t, level, p, e).Some? ==>
              FreeFrom(MapFrom(m, base, t, level, p, e).value, base, n + Missing(p, level, T.Values))
    decreases level
  {
    hide Tree, Word, Slot, Prefix, AddTable, FreeFrom, SetWord, LeafOk;
    TableInMem(m, base, root, T, t);
    FreeFromBound(m, base, n);
    var i := Slot(p, level);
    if level == 0 {
      SetLeafKeepsFree(m, base, t, i, e, n);
    } else if Valid(Word(m, EntryAddress(t, i))) {
      ReadyExisting(m, base, root, T, t, level, p, e);
      MapFromCount(m, base, root, T, Ppn(Word(m, EntryAddress(t, i))), level - 1, p, e, n);
    } else {
      AddTableTakesNext(m, base, t, i, n);
      MissingNode(m, base, root, T, t, level, p);
      if n < Cap(m, base) {
        var (m2, f) := AddTable(m, base, t, i).value;
        ReadyNew(m, base, root, T, t, level, p, e, m2, f);
        MapFromCount(m2, base, root, T[f := Child(T[t], i)], f, level - 1, p, e, n + 1);
      }
    }
  }

  lemma FreeFromBound(m: Mem, base: nat, n: nat)
    requires Layout(m, base) && FreeFrom(m, base, n)
    ensures n <= Cap(m, base)
  {
  }

  lemma SetLeafKeepsFree(m: Mem, base: nat, t: nat, i: nat, e: nat, n: nat)
    requires Layout(m, base) && InMem(m, t) && base <= t && i < 512 && FreeFrom(m, base, n)
    ensures FreeFrom(SetWord(m, EntryAddress(t, i), e), base, n)
  {
    SetEntryBytes(m, base, t, i, e);
  }

  // The heap's pages.

  /** Frames used, counting from the first managed frame, when the heap has k pages: two by
      paging_init, the pages themselves, a last-level table for every 512 pages and a
      third-level table for every 2^18. */
  function FrameIndex(k: nat): nat {
    2 + k + (k + 511) / 512 + (k + 0x3_FFFF) / 0x4_0000
  }

  /** The tables that exist when the heap has k pages. */
  predicate HeapNode(k: nat, n: Node) {
    || n == Node(3, 0)
    || n == Node(2, 256)
    || (k > 0 && n == Node(1, 256 * 512 + 4))
    || (n.level == 0 && HEAP_PAGE / 512 <= n.prefix < HEAP_PAGE / 512 + (k + 511) / 512)
  }

  ghost predicate LayoutOk(m: Mem, base: nat, root: nat, T: Tables, fr: seq<nat>) {
    && HeapOk(m, base, root, T, fr)
    && FreeFrom(m, base, FrameIndex(|fr|))
    && (forall n :: n in T.Values <==> HeapNode(|fr|, n))
    && (forall k | 0 <= k < |fr| :: fr[k] == base + FrameIndex(k))
    && (forall k | 0 <= k < |fr| && k % 512 == 0 :: fr[k] + 1 in T)
  }

  lemma HeapPrefixes(k: nat)
    requires k <= 32768
    ensures
      var p := HEAP_PAGE + k;
      && Prefix(p, 0) == HEAP_PAGE / 512 + k / 512
      && Prefix(p, 1) == 256 * 512 + 4
      && Prefix(p, 2) == 256
      && Prefix(p, 3) == 0
  {
  }

  /** Page k needs a last-level table when it is the first of 512, and a third-level table
      when it is the first of all. */
  lemma HeapMissing(k: nat, nodes: set<Node>)
    requires k <= 32768 && forall n :: n in nodes <==> HeapNode(k, n)
    ensures Missing(HEAP_PAGE + k, 3, nodes) == (if k % 512 == 0 then 1 else 0) + (if k == 0 then 1 else 0)
    ensures FrameIndex(k) + 1 + Missing(HEAP_PAGE + k, 3, nodes) == FrameIndex(k + 1)
  {
    HeapPrefixes(k);
    var p := HEAP_PAGE + k;
    assert Missing(p, 3, nodes) == Missing(p, 2, nodes);
    assert Missing(p, 2, nodes) == Missing(p, 1, nodes) + if k > 0 then 0 else 1;
    assert (k + 511) / 512 == k / 512 + if k % 512 == 0 then 0 else 1;
    assert Missing(p, 1, nodes) == Missing(p, 0, nodes) + if Node(0, Prefix(p, 0)) in nodes then 0 else 1;
  }

  lemma HeapNodesGrow(k: nat, n: Node)
    requires k <= 32768
    ensures HeapNode(k + 1, n) <==> HeapNode(k, n) || n in PathNodes(HEAP_PAGE + k, 3)
  {
    HeapPrefixes(k);
    PathNodesAre(HEAP_PAGE + k, n);
    assert (k + 512) / 512 == k / 512 + 1;
    assert (k + 511) / 512 == k / 512 + if k % 512 == 0 then 0 else 1;
  }

  lemma PathNodesAre(p: nat, n: Node)
    ensures n in PathNodes(p, 3) <==> n in {Node(0, Prefix(p, 0)), Node(1, Prefix(p, 1)), Node(2, Prefix(p, 2))}
  {
    assert PathNodes(p, 3) == PathNodes(p, 2) + {Node(2, Prefix(p, 2))};
    assert PathNodes(p, 2) == PathNodes(p, 1) + {Node(1, Prefix(p, 1))};
    assert PathNodes(p, 1) == PathNodes(p, 0) + {Node(0, Prefix(p, 0))};
  }

  /** From a prefix of taken frames a page is mapped to the next frame, and as many more are
      taken as there are tables missing. */
  lemma NewPageTakes(m: Mem, base: nat, root: nat, T: Tables, page: nat, flag: nat, n: nat)
    requires Mapped(m, base, root, T) && flag < 1024 && !DirectPage(PageOf(page)) && FreeFrom(m, base, n)
    ensures MapNewPage(m, base, root, page, flag).Some? <==>
            n + 1 + Absent(T.Values, PathNodes(PageOf(page), 3)) <= Cap(m, base)
    ensures MapNewPage(m, base, root, page, flag).Some? ==>
              var (m2, f) := MapNewPage(m, base, root, page, flag).value;
              f == base + n && FreeFrom(m2, base, n + 1 + Absent(T.Values, PathNodes(PageOf(page), 3)))
  {
    hide Tree, Lookup, FreeFrom, MapFrom, Words, FreeSet, Missing, NewEntry, PageOf, Prefix, LeafOk, PathNodes;
    hide Absent;
    var p := PageOf(page);
    KallocTakesNext(m, base, n);
    MissingCounts(p, 3, T.Values);
    if KallocFrame(m, base).Some? {
      var (m1, f) := KallocFrame(m, base).value;
      NewFrameEntry(m, base, flag);
      NewFrameOk(m, base, root, T, flag);
      PrefixStep(p, 3);
      RootTable(m1, base, root, T);
      assert ReadyToMap(m1, base, root, T, root, 3, p, NewEntry(f, flag));
      MapFromCount(m1, base, root, T, root, 3, p, NewEntry(f, flag), n + 1);
    }
  }

  /** A heap page can be added exactly while the closed form stays within the frames. */
  lemma HeapPageCount(m: Mem, base: nat, root: nat, T: Tables, fr: seq<nat>)
    requires LayoutOk(m, base, root, T, fr)
    ensures MapNewPage(m, base, root, HEAP_START + |fr| * 4096, RW).Some? <==> FrameIndex(|fr| + 1) <= Cap(m, base)
    ensures MapNewPage(m, base, root, HEAP_START + |fr| * 4096, RW).Some? ==>
              var (m2, f) := MapNewPage(m, base, root, HEAP_START + |fr| * 4096, RW).value;
              f == base + FrameIndex(|fr|) && FreeFrom(m2, base, FrameIndex(|fr| + 1))
  {
    hide Tree, FreeFrom, MapNewPage, Missing, PageOf, FrameIndex, HeapNode, PathNodes, HeapOk, FreeSet, Absent;
    var k := |fr|;
    HeapMapped(m, base, root, T, fr);
    HeapFramesIn(m, base, root, T, fr);
    HeapAddress(k * 4096);
    HeapMissing(k, T.Values);
    MissingCounts(HEAP_PAGE + k, 3, T.Values);
    NewPageTakes(m, base, root, T, HEAP_START + k * 4096, RW, FrameIndex(k));
  }

  /** Growing the heap by a page keeps the closed-form layout. */
  lemma HeapPageKeepsLayout(m: Mem, base: nat, root: nat, T: Tables, fr: seq<nat>, m2: Mem, f: nat)
    requires LayoutOk(m, base, root, T, fr)
    requires MapNewPage(m, base, root, HEAP_START + |fr| * 4096, RW) == Some((m2, f))
    ensures KallocFrame(m, base).Some?
    ensures LayoutOk(m2, base, root, NewTables(m, base, root, HEAP_START + |fr| * 4096, T), fr + [f])
  {
    hide Tree, Lookup, HeapLookup, FreeFrom, MapNewPage, Words, FreeSet, NewEntry, PageOf, HeapOk, NewTables;
    hide HeapNode, PathNodes, View, KallocFrame;
    var k := |fr|;
    var page := HEAP_START + k * 4096;
    HeapMapped(m, base, root, T, fr);
    HeapFramesIn(m, base, root, T, fr);
    HeapPageCount(m, base, root, T, fr);
    MapNewTakesFrame(m, base, root, page, RW);
    HeapNewPage(m, base, root, T, fr, m2, f);
    HeapAddress(k * 4096);
    NewPageFrames(m, base, root, T, page, RW);
    var T2 := NewTables(m, base, root, page, T);
    forall n
      ensures n in T2.Values <==> HeapNode(k + 1, n)
    {
      HeapNodesGrow(k, n);
    }
    NextFrameIsTable(m, m2, base, T, T2, f, k);
    assert T.Keys <= T2.Keys;
    forall j | 0 <= j < |fr + [f]| && j % 512 == 0
      ensures (fr + [f])[j] + 1 in T2
    {
      if j < k { assert fr[j] + 1 in T.Keys; } else { assert f + 1 in T2.Keys; }
    }
  }

  /** The frame after the first page of each 512 is a table. */
  lemma NextFrameIsTable(m: Mem, m2: Mem, base: nat, T: Tables, T2: Tables, f: nat, k: nat)
    requires Layout(m, base) && |m2| == |m| && k <= 32768
    requires FreeFrom(m, base, FrameIndex(k)) && FreeFrom(m2, base, FrameIndex(k + 1)) && f == base + FrameIndex(k)
    requires TookFrames(FreeSet(m, base) - {f}, FreeSet(m2, base), T.Keys, T2.Keys)
    ensures k % 512 == 0 ==> f + 1 in T2.Keys
  {
    hide FrameIndex, FreeSet;
    if k % 512 == 0 {
      NeighbourFrames(k);
      assert f + 1 in FreeSet(m, base) && f + 1 !in FreeSet(m2, base);
    }
  }

  // Contiguity.

  /** One more table unit is begun exactly at a multiple of the unit. */
  lemma UnitBegins(k: nat, unit: nat)
    requires unit in {512, 0x4_0000}
    ensures (k + 1 + unit - 1) / unit == (k + unit - 1) / unit + if k % unit == 0 then 1 else 0
  {
    assert (k + unit) / unit == k / unit + 1;
    if k % unit == 0 {
      DivModUnique(k + unit - 1, unit, k / unit, unit - 1);
    } else {
      DivModUnique(k + unit - 1, unit, k / unit + 1, k % unit - 1);
    }
  }

  /** Two neighbouring heap pages are neighbouring frames exactly when the first is not the
      first of its 512. */
  lemma NeighbourFrames(k: nat)
    ensures FrameIndex(k + 1) == FrameIndex(k) + 1 <==> k % 512 != 0
    ensures FrameIndex(k + 1) >= FrameIndex(k) + if k % 512 == 0 then 2 else 1
  {
    UnitBegins(k, 512);
    UnitBegins(k, 0x4_0000);
    LargeUnit(k);
    assert FrameIndex(k + 1) == 3 + k + (k + 1 + 512 - 1) / 512 + (k + 1 + 0x4_0000 - 1) / 0x4_0000;
  }

  lemma LargeUnit(k: nat)
    ensures k % 0x4_0000 == 0 ==> k % 512 == 0
  {
    if k % 0x4_0000 == 0 {
      DivModUnique(k, 512, k / 0x4_0000 * 512, 0);
    }
  }

  /** The physical address at which a device accesses heap byte j of a buffer that starts
      at heap byte i: it counts on from the translation of i. */
  function DeviceAddress(fr: seq<nat>, i: nat, j: nat): nat
    requires i < |fr| * 4096 && i <= j
  {
    PhysAt(fr, i) + (j - i)
  }

  /** The heap bytes [i, i + len) are consecutive in physical memory. */
  ghost predicate Contiguous(fr: seq<nat>, i: nat, len: nat)
    requires 0 < len && i + len <= |fr| * 4096
  {
    forall j: nat | i <= j < i + len :: PhysAt(fr, j) == DeviceAddress(fr, i, j)
  }

  /** Page k is the first of its 512. */
  predicate IsBorder(k: nat) { k % 512 == 0 }

  /** No page of [i, i + len) but the last is the first of its 512. */
  ghost predicate AvoidsBorders(i: nat, len: nat) {
    forall k: nat | i / 4096 <= k && (k + 1) * 4096 < i + len :: !IsBorder(k)
  }

  /** Neighbouring pages of [i, i + len) lie in neighbouring frames. */
  ghost predicate InLine(fr: seq<nat>, i: nat, len: nat)
    requires 0 < len && i + len <= |fr| * 4096
  {
    forall k: nat | i / 4096 <= k && (k + 1) * 4096 < i + len :: fr[k + 1] == fr[k] + 1
  }

  lemma {:induction false} LineGoesOn(fr: seq<nat>, k: nat, l: nat)
    requires k <= l < |fr| && forall j: nat | k <= j < l :: fr[j + 1] == fr[j] + 1
    ensures fr[l] == fr[k] + (l - k)
    decreases l
  {
    if k < l {
      LineGoesOn(fr, k, l - 1);
      assert fr[l - 1 + 1] == fr[l - 1] + 1;
    }
  }

  lemma ContiguousInLine(fr: seq<nat>, i: nat, len: nat)
    requires 0 < len && i + len <= |fr| * 4096
    ensures Contiguous(fr, i, len) <==> InLine(fr, i, len)
  {
    if InLine(fr, i, len) {
      forall j: nat | i <= j < i + len
        ensures PhysAt(fr, j) == DeviceAddress(fr, i, j)
      {
        LineGoesOn(fr, i / 4096, j / 4096);
      }
    } else {
      var k: nat :| i / 4096 <= k && (k + 1) * 4096 < i + len && fr[k + 1] != fr[k] + 1;
      assert PhysAt(fr, (k + 1) * 4096) == fr[k + 1] * 4096;
      assert PhysAt(fr, k * 4096 + 4095) == fr[k] * 4096 + 4095;
    }
  }

  /** A heap buffer is physically contiguous exactly when none of its pages except the
      last has an index divisible by 512. */
  lemma ContiguousExactly(m: Mem, base: nat, root: nat, T: Tables, fr: seq<nat>, i: nat, len: nat)
    requires LayoutOk(m, base, root, T, fr) && 0 < len && i + len <= |fr| * 4096
    ensures Contiguous(fr, i, len) <==> AvoidsBorders(i, len)
  {
    hide HeapOk, FreeFrom, HeapNode, FrameIndex, Contiguous;
    ContiguousInLine(fr, i, len);
    forall k: nat | i / 4096 <= k && (k + 1) * 4096 < i + len
      ensures fr[k + 1] == fr[k] + 1 <==> !IsBorder(k)
    {
      NeighbourFrames(k);
    }
    if InLine(fr, i, len) {
      forall k: nat | i / 4096 <= k && (k + 1) * 4096 < i + len
        ensures !IsBorder(k)
      {
        assert fr[k + 1] == fr[k] + 1;
      }
    }
  }

  // A device that writes by physical address, wherever the heap's frames lie.

  /** A device stores s at consecutive physical addresses from the translation of heap
      address i on. */
  function DmaWrite(m: Mem, fr: seq<nat>, i: nat, s: seq<byte>): (m': Mem)
    requires i < |fr| * 4096 && PhysAt(fr, i) + |s| <= |m|
    ensures |m'| == |m|
  {
    SetBytes(m, PhysAt(fr, i), s)
  }

  lemma {:induction false} FramesSpread(fr: seq<nat>, k: nat, l: nat)
    requires k <= l < |fr| && forall a, b | 0 <= a < b < |fr| :: fr[a] < fr[b]
    ensures fr[k] + (l - k) <= fr[l]
    decreases l
  {
    if k < l { FramesSpread(fr, k, l - 1); }
  }

  /** A device write to any heap buffer stays inside memory. */
  lemma DmaInMemory(m: Mem, base: nat, root: nat, T: Tables, fr: seq<nat>, i: nat, len: nat)
    requires HeapOk(m, base, root, T, fr) && 0 < len && i + len <= |fr| * 4096
    ensures FramesIn(m, fr) && PhysAt(fr, i) + len <= |m|
  {
    hide Tree, HeapLookup;
    HeapFramesIn(m, base, root, T, fr);
    var last := i + (len - 1);
    FramesSpread(fr, i / 4096, last / 4096);
    assert InMem(m, fr[last / 4096]);
  }

  function HeapFrames(fr: seq<nat>): set<nat> { set f | f in fr }

  /** Into a contiguous buffer the bytes arrive in the buffer, and nowhere else: no other heap
      byte, no table, no free frame and no frame of others changes, so that later loads
      through the tables read the new bytes. */
  lemma DmaArrives(m: Mem, base: nat, root: nat, T: Tables, fr: seq<nat>, i: nat, s: seq<byte>)
    requires HeapOk(m, base, root, T, fr) && s != [] && i + |s| <= |fr| * 4096 && Contiguous(fr, i, |s|)
    ensures FramesIn(m, fr) && PhysAt(fr, i) + |s| <= |m|
    ensures
      var m' := DmaWrite(m, fr, i, s);
      && HeapOk(m', base, root, T, fr) && FramesIn(m', fr) && FreeSet(m', base) == FreeSet(m, base)
      && View(m', fr) == SetBytes(View(m, fr), i, s)
      && ChangesOnly(m, m', HeapFrames(fr))
      && (forall t | t in T :: InMem(m, t) && WordsOf(m', t) == WordsOf(m, t))
  {
    hide Tree, HeapLookup, PageOk, SameLookups, FreeSet, Contiguous;
    HeapFramesIn(m, base, root, T, fr);
    DmaInMemory(m, base, root, T, fr, i, |s|);
    var m' := DmaWrite(m, fr, i, s);
    DmaInFrames(m, fr, i, s);
    assert forall f | f in HeapFrames(fr) :: PageOk(m, base, T, f);
    FramesWriteKeeps(m, m', base, root, T, fr, HeapFrames(fr));
    forall j | 0 <= j < |fr| * 4096
      ensures View(m', fr)[j] == SetBytes(View(m, fr), i, s)[j]
    {
      DmaByte(m, fr, i, s, j);
    }
  }

  lemma DmaInFrames(m: Mem, fr: seq<nat>, i: nat, s: seq<byte>)
    requires s != [] && i + |s| <= |fr| * 4096 && Contiguous(fr, i, |s|) && PhysAt(fr, i) + |s| <= |m|
    ensures ChangesOnly(m, DmaWrite(m, fr, i, s), HeapFrames(fr))
  {
    var a := PhysAt(fr, i);
    forall b | a <= b < a + |s|
      ensures b / 4096 in HeapFrames(fr)
    {
      var j := i + (b - a);
      assert PhysAt(fr, j) == DeviceAddress(fr, i, j) == b;
      assert fr[j / 4096] in fr;
    }
  }

  lemma DmaByte(m: Mem, fr: seq<nat>, i: nat, s: seq<byte>, j: nat)
    requires FramesIn(m, fr) && s != [] && i + |s| <= |fr| * 4096 && j < |fr| * 4096
    requires Contiguous(fr, i, |s|) && PhysAt(fr, i) + |s| <= |m|
    requires forall a, b | 0 <= a < b < |fr| :: fr[a] < fr[b]
    ensures FramesIn(DmaWrite(m, fr, i, s), fr)
    ensures View(DmaWrite(m, fr, i, s), fr)[j] == SetBytes(View(m, fr), i, s)[j]
  {
    var a, b := PhysAt(fr, i), PhysAt(fr, j);
    assert InMem(m, fr[j / 4096]);
    var m' := DmaWrite(m, fr, i, s);
    if i <= j < i + |s| {
      assert b == DeviceAddress(fr, i, j);
      assert m'[a..a + |s|][j - i] == s[j - i];
      assert SetBytes(View(m, fr), i, s)[i..i + |s|][j - i] == s[j - i];
    } else if a <= b < a + |s| {
      assert PhysAt(fr, i + (b - a)) == DeviceAddress(fr, i, i + (b - a));
      PhysAtInjective(fr, j, i + (b - a));
      assert false;
    }
  }

  /** Of any other buffer some byte goes to a frame outside the heap: the first one behind the
      first page whose successor lies elsewhere. */
  lemma DmaMisses(m: Mem, base: nat, root: nat, T: Tables, fr: seq<nat>, i: nat, len: nat)
    returns (j: nat, f: nat, k: nat)
    requires HeapOk(m, base, root, T, fr) && 0 < len && i + len <= |fr| * 4096 && !Contiguous(fr, i, len)
    ensures i <= j < i + len && InMem(m, f) && f !in fr && DeviceAddress(fr, i, j) == f * 4096
    ensures i / 4096 <= k && j == (k + 1) * 4096 && fr[k] + 1 == f < fr[k + 1]
  {
    hide Tree, HeapLookup, FreeSet, PageOk, Contiguous;
    ContiguousInLine(fr, i, len);
    k := FirstBreak(fr, i, len);
    LineGoesOn(fr, i / 4096, k);
    assert fr[k] < fr[k + 1];
    j, f := (k + 1) * 4096, fr[k] + 1;
    HeapFramesIn(m, base, root, T, fr);
    assert InMem(m, fr[k + 1]);
    forall l | 0 <= l < |fr|
      ensures fr[l] != f
    {
      assert l < k ==> fr[l] < fr[k];
      assert l > k + 1 ==> fr[k + 1] < fr[l];
    }
  }

  lemma FirstBreak(fr: seq<nat>, i: nat, len: nat) returns (k: nat)
    requires 0 < len && i + len <= |fr| * 4096 && !InLine(fr, i, len)
    ensures i / 4096 <= k && (k + 1) * 4096 < i + len && fr[k + 1] != fr[k] + 1
    ensures forall j: nat | i / 4096 <= j < k :: fr[j + 1] == fr[j] + 1
  {
    k := i / 4096;
    var l: nat :| i / 4096 <= l && (l + 1) * 4096 < i + len && fr[l + 1] != fr[l] + 1;
    while fr[k + 1] == fr[k] + 1
      invariant i / 4096 <= k <= l
      invariant forall j: nat | i / 4096 <= j < k :: fr[j + 1] == fr[j] + 1
      decreases l - k
    {
      k := k + 1;
    }
  }

  /** In the closed form that frame is a page table. */
  lemma DmaHitsTable(m: Mem, base: nat, root: nat, T: Tables, fr: seq<nat>, i: nat, len: nat)
    returns (j: nat, t: nat)
    requires LayoutOk(m, base, root, T, fr) && 0 < len && i + len <= |fr| * 4096 && !AvoidsBorders(i, len)
    ensures i <= j < i + len && t in T && DeviceAddress(fr, i, j) == t * 4096
  {
    hide HeapOk, FreeFrom, HeapNode, FrameIndex, Contiguous, AvoidsBorders;
    ContiguousExactly(m, base, root, T, fr, i, len);
    var k;
    j, t, k := DmaMisses(m, base, root, T, fr, i, len);
    NeighbourFrames(k);
    assert k % 512 == 0;
  }

  // Other frames between the heap's.

  /** The tables on the paths to the pages mapped in a run. */
  ghost function RunNodes(ops: seq<PageOp>): set<Node>
    decreases |ops|
  {
    if ops == [] then {} else OpNodes(ops[0]) + RunNodes(ops[1..])
  }

  ghost function OpNodes(op: PageOp): set<Node> {
    match op
    case Take => {}
    case Map(page, _, _) => PathNodes(PageOf(page), 3)
  }

  function Takes(ops: seq<PageOp>): nat
    decreases |ops|
  {
    if ops == [] then 0 else (if ops[0].Take? then 1 else 0) + Takes(ops[1..])
  }

  /** The frames a run uses: one for each frame handed out, and one for each table that is on
      the path to a mapped page and did not exist before. */
  ghost function FramesUsed(nodes: set<Node>, ops: seq<PageOp>): nat {
    Takes(ops) + Absent(nodes, RunNodes(ops))
  }

  ghost function OpFrames(nodes: set<Node>, op: PageOp): nat {
    (if op.Take? then 1 else 0) + Absent(nodes, OpNodes(op))
  }

  lemma AbsentUnion(a: set<Node>, b: set<Node>, nodes: set<Node>)
    ensures Absent(nodes, a + b) == Absent(nodes, a) + Absent(nodes + a, b)
  {
    var x, y := a - nodes, b - (nodes + a);
    assert a + b - nodes == x + y && x * y == {};
  }

  lemma FramesUsedCons(nodes: set<Node>, ops: seq<PageOp>)
    requires ops != []
    ensures FramesUsed(nodes, ops) == OpFrames(nodes, ops[0]) + FramesUsed(nodes + OpNodes(ops[0]), ops[1..])
  {
    hide OpNodes, Absent;
    AbsentUnion(OpNodes(ops[0]), RunNodes(ops[1..]), nodes);
  }

  /** One operation from a prefix of taken frames. */
  lemma StepTakesPrefix(m: Mem, base: nat, root: nat, T: Tables, op: PageOp, n: nat)
    requires Mapped(m, base, root, T) && (op.Map? ==> MapOk(m, base, T, op)) && FreeFrom(m, base, n)
    ensures Step(m, base, root, op).Some? <==> n + OpFrames(T.Values, op) <= Cap(m, base)
    ensures Step(m, base, root, op).Some? ==>
              && FreeFrom(Step(m, base, root, op).value.0, base, n + OpFrames(T.Values, op))
              && StepTables(m, base, root, T, op).Values == T.Values + OpNodes(op)
  {
    hide Tree, MapFrom, LeafOk, FreeSet, KallocFrame, LeafEntry, FreeFrom, Prefix, Words, PageOf, GrowTables, Missing;
    hide PathNodes;
    FreeFromBound(m, base, n);
    match op
    case Take =>
      KallocTakesNext(m, base, n);
      assert {} - T.Values == {} && T.Values + {} == T.Values;
    case Map(page, frame, flag) =>
      var p := PageOf(page);
      MissingCounts(p, 3, T.Values);
      EntryFits(frame / FRAME_SIZE, flag);
      PrefixStep(p, 3);
      RootTable(m, base, root, T);
      MapFromCount(m, base, root, T, root, 3, p, Entry(op), n);
      if Step(m, base, root, op).Some? {
        MapCanMap(m, base, root, T, op);
        MapFromNodes(m, base, root, T, root, 3, p, Entry(op));
      }
  }

  /** Without frees the taken frames always form a prefix. A run of allocations and mappings
      succeeds exactly when the frames it uses are left, and takes exactly the next ones. */
  lemma {:induction false} RunTakesPrefix(m: Mem, base: nat, root: nat, T: Tables, ops: seq<PageOp>, n: nat)
    requires Mapped(m, base, root, T) && RunOk(m, base, root, T, ops) && FreeFrom(m, base, n)
    ensures RunPages(m, base, root, ops).Some? <==> n + FramesUsed(T.Values, ops) <= Cap(m, base)
    ensures RunPages(m, base, root, ops).Some? ==>
              FreeFrom(RunPages(m, base, root, ops).value.0, base, n + FramesUsed(T.Values, ops))
    decreases |ops|
  {
    hide Tree, Step, FreeFrom, FramesUsed, OpNodes, OpFrames, MapOk, StepTables;
    FreeFromBound(m, base, n);
    if ops == [] {
      NothingUsed(T.Values);
    } else {
      var op := ops[0];
      FramesUsedCons(T.Values, ops);
      StepTakesPrefix(m, base, root, T, op, n);
      if Step(m, base, root, op).Some? {
        var m1, T1 := Step(m, base, root, op).value.0, StepTables(m, base, root, T, op);
        StepKeepsTree(m, base, root, T, op);
        RunTakesPrefix(m1, base, root, T1, ops[1..], n + OpFrames(T.Values, op));
      }
    }
  }

  lemma NothingUsed(nodes: set<Node>)
    ensures FramesUsed(nodes, []) == 0
  {
    assert RunNodes([]) - nodes == {};
  }

  lemma PageThenRun(
    m: Mem, base: nat, root: nat, T: Tables, page: nat, flag: nat, ops: seq<PageOp>, n: nat, m1: Mem, f: nat, m2: Mem)
    requires Mapped(m, base, root, T) && flag < 1024 && !DirectPage(PageOf(page)) && FreeFrom(m, base, n)
    requires MapNewPage(m, base, root, page, flag) == Some((m1, f)) && KallocFrame(m, base).Some?
    requires Layout(m1, base) && RunOk(m1, base, root, NewTables(m, base, root, page, T), ops)
    requires RunPages(m1, base, root, ops).Some? && RunPages(m1, base, root, ops).value.0 == m2
    ensures f == base + n && Layout(m2, base)
    ensures FreeFrom(m2, base, n + 1 + Takes(ops) + Absent(T.Values, PathNodes(PageOf(page), 3) + RunNodes(ops)))
  {
    hide Tree, MapNewPage, FreeSet, KallocFrame, FreeFrom, Words, PageOf, NewTables, PathNodes, RunPages, RunOk;
    hide TookFrames, KeepsBytes, RunNodes, Takes, Absent;
    var T1, nodes := NewTables(m, base, root, page, T), PathNodes(PageOf(page), 3);
    NewPageTakes(m, base, root, T, page, flag, n);
    NewPageKeepsTree(m, base, root, T, page, flag);
    NewPageFrames(m, base, root, T, page, flag);
    RunTakesPrefix(m1, base, root, T1, ops, n + 1 + Absent(T.Values, nodes));
    AbsentUnion(nodes, RunNodes(ops), T.Values);
  }

  /** Two pages mapped one after the other, with any run in between, get neighbouring frames
      exactly when the first needed no table and the run used no frame. */
  lemma NeighboursExactly(
    m: Mem, base: nat, root: nat, T: Tables, page: nat, page2: nat, flag: nat, ops: seq<PageOp>, n: nat,
    m1: Mem, f: nat, m2: Mem, f2: nat)
    requires Mapped(m, base, root, T) && flag < 1024 && !DirectPage(PageOf(page)) && FreeFrom(m, base, n)
    requires MapNewPage(m, base, root, page, flag) == Some((m1, f)) && KallocFrame(m, base).Some?
    requires Layout(m1, base) && RunOk(m1, base, root, NewTables(m, base, root, page, T), ops)
    requires RunPages(m1, base, root, ops).Some? && RunPages(m1, base, root, ops).value.0 == m2
    requires Layout(m2, base) && MapNewPage(m2, base, root, page2, flag).Some?
    requires MapNewPage(m2, base, root, page2, flag).value.1 == f2
    ensures f == base + n
    ensures f2 == f + 1 + Takes(ops) + Absent(T.Values, PathNodes(PageOf(page), 3) + RunNodes(ops))
    ensures f2 == f + 1 <==> Takes(ops) == 0 && PathNodes(PageOf(page), 3) + RunNodes(ops) <= T.Values
  {
    hide Mapped, MapNewPage, FreeSet, KallocFrame, FreeFrom, PageOf, NewTables, PathNodes, RunPages, RunOk;
    hide RunNodes, Takes, DirectPage, Layout, Absent;
    PageThenRun(m, base, root, T, page, flag, ops, n, m1, f, m2);
    var nodes := PathNodes(PageOf(page), 3) + RunNodes(ops);
    KallocTakesNext(m2, base, n + 1 + Takes(ops) + Absent(T.Values, nodes));
    MapNewTakesFrame(m2, base, root, page2, flag);
    NothingAbsent(T.Values, nodes);
  }

  lemma NothingAbsent(nodes: set<Node>, path: set<Node>)
    ensures Absent(nodes, path) == 0 <==> path <= nodes
  {
    if Absent(nodes, path) == 0 {
      forall n | n in path
        ensures n in nodes
      {
        assert n !in path - nodes;
      }
    } else {
      assert path <= nodes ==> path - nodes == {};
    }
  }
}
