/** Heap memory seen through the page tables: loads, stores and new pages behave as on a
    private flat byte array. */
module HeapMemory {
  import opened Wrappers
  import opened Bits
  import opened Memory
  import opened Sv48
  import opened FrameAllocator
  import opened PageTree
  import opened PageMapping
  import opened PageRuns
  import opened FlatHeap

  // The processor's accesses; an address that does not translate reads 0 and takes no
  // store, which never happens below.

  function LoadByte(m: Mem, root: nat, v: nat): byte {
    match HwTranslate(Words(m), root, v)
    case Some(a) => if a < |m| then m[a] else 0
    case None => 0
  }

  function StoreByte(m: Mem, root: nat, v: nat, x: byte): (m': Mem)
    ensures |m'| == |m|
  {
    match HwTranslate(Words(m), root, v)
    case Some(a) => if a < |m| then m[a := x] else m
    case None => m
  }

  function StoreBytes(m: Mem, root: nat, v: nat, s: seq<byte>): (m': Mem)
    ensures |m'| == |m|
    decreases |s|
  {
    if s == [] then m else StoreBytes(StoreByte(m, root, v, s[0]), root, v + 1, s[1..])
  }

  function LoadBytes(m: Mem, root: nat, v: nat, n: nat): (s: seq<byte>)
    ensures |s| == n
    decreases n
  {
    if n == 0 then [] else [LoadByte(m, root, v)] + LoadBytes(m, root, v + 1, n - 1)
  }

  function LoadWord(m: Mem, root: nat, v: nat): nat {
    Le(LoadBytes(m, root, v, 8))
  }

  function StoreWord(m: Mem, root: nat, v: nat, w: nat): (m': Mem)
    ensures |m'| == |m|
  {
    StoreBytes(m, root, v, ToLe(w, 8))
  }

  // The heap region: it starts where the direct map ends.

  const HEAP_START: nat := 0xFFFF_8001_0000_0000
  const HEAP_PAGE: nat := 0x8_0010_0000

  lemma HeapAddress(i: nat)
    requires i < 0x1000_0000
    ensures
      var v := HEAP_START + i;
      && Canonical(v)
      && PageOf(v) == HEAP_PAGE + i / 4096 < PAGES
      && v % 4096 == i % 4096
      && !DirectPage(PageOf(v))
  {
    var v := HEAP_START + i;
    assert HEAP_START == 0xF_FFF8_0010_0000 * 4096;
    assert v / 4096 == 0xF_FFF8_0010_0000 + i / 4096;
    assert 0xF_FFF8_0010_0000 == 0xFFFF * PAGES + HEAP_PAGE;
  }

  const RW: nat := 0xF // the flags of every heap page

  lemma HeapEntry(f: nat)
    requires f < 0x10_0000
    ensures NewEntry(f, RW) == f * 1024 + 15
    ensures HwLeaf(NewEntry(f, RW)) && Ppn(NewEntry(f, RW)) == f
  {
    var e := f * 1024 + 15;
    assert Or(1, 15) == 15;
    assert e == 2 * (f * 512 + 7) + 1 && e / 2 == f * 512 + 7 == 2 * (f * 256 + 3) + 1;
  }

  /** Heap pages are readable, writable and executable. */
  lemma HeapRights(f: nat)
    requires f < 0x10_0000
    ensures Readable(NewEntry(f, RW)) && Writable(NewEntry(f, RW)) && Executable(NewEntry(f, RW))
  {
    HeapEntry(f);
    EntryRights(f);
  }

  lemma EntryRights(f: nat)
    ensures Readable(f * 1024 + 15) && Writable(f * 1024 + 15) && Executable(f * 1024 + 15)
  {
    var e := f * 1024 + 15;
    DivModUnique(e, 2, f * 512 + 7, 1);
    DivModUnique(e, 4, f * 256 + 3, 3);
    DivModUnique(e, 8, f * 128 + 1, 7);
    DivModUnique(f * 512 + 7, 2, f * 256 + 3, 1);
    DivModUnique(f * 256 + 3, 2, f * 128 + 1, 1);
    DivModUnique(f * 128 + 1, 2, f * 64, 1);
  }

  // Heap pages and their frames.

  predicate PageOk(m: Mem, base: nat, T: Tables, f: nat)
    requires Layout(m, base)
  {
    base <= f && InMem(m, f) && f !in T && !FreePage(m, base, f)
  }

  /** The kernel's lookup of heap page k. */
  function HeapLookup(w: Frames, root: nat, k: nat): Option<nat> {
    Lookup(w, root, 3, HEAP_PAGE + k)
  }

  /** Frames in the order in which first fit hands them out while none is freed. */
  ghost predicate InOrder(fr: seq<nat>, free: set<nat>) {
    && (forall j, k | 0 <= j < k < |fr| :: fr[j] < fr[k])
    && (forall k, g | 0 <= k < |fr| && g in free :: fr[k] < g)
  }

  /** Page k of the heap is frame fr[k]; the frames are private to the heap, and in order. */
  ghost predicate HeapOk(m: Mem, base: nat, root: nat, T: Tables, fr: seq<nat>) {
    && Mapped(m, base, root, T)
    && |fr| + |FreeSet(m, base)| <= 32768
    && (forall k | 0 <= k < |fr| :: PageOk(m, base, T, fr[k]))
    && (forall k | 0 <= k < |fr| :: HeapLookup(Words(m), root, k) == Some(NewEntry(fr[k], RW)))
    && InOrder(fr, FreeSet(m, base))
  }

  function PhysAt(fr: seq<nat>, i: nat): nat
    requires i < |fr| * 4096
  {
    fr[i / 4096] * 4096 + i % 4096
  }

  ghost predicate FramesIn(m: Mem, fr: seq<nat>) {
    forall k | 0 <= k < |fr| :: InMem(m, fr[k])
  }

  /** The heap's bytes in virtual address order. */
  ghost function View(m: Mem, fr: seq<nat>): (s: seq<byte>)
    requires FramesIn(m, fr)
    ensures |s| == |fr| * 4096
    ensures forall i | 0 <= i < |s| :: s[i] == m[PhysAt(fr, i)]
  {
    seq(|fr| * 4096, i requires 0 <= i < |fr| * 4096 => m[PhysAt(fr, i)])
  }

  /** Both walkers send heap address i to its frame. */
  lemma HeapTranslate(m: Mem, base: nat, root: nat, T: Tables, fr: seq<nat>, i: nat)
    requires HeapOk(m, base, root, T, fr) && i < |fr| * 4096
    ensures PhysAt(fr, i) < |m|
    ensures HwTranslate(Words(m), root, HEAP_START + i) == Some(PhysAt(fr, i))
    ensures SwTranslate(Words(m), root, HEAP_START + i) == PhysAt(fr, i)
  {
    hide Tree, Lookup, HwWalk, PageOf, HwLeaf, NewEntry, Canonical, DirectPage;
    var k := i / 4096;
    HeapAddress(i);
    assert PageOk(m, base, T, fr[k]);
    assert fr[k] < 0x10_0000;
    HeapEntry(fr[k]);
    assert HeapLookup(Words(m), root, k) == Some(NewEntry(fr[k], RW));
    EntryTranslates(m, base, root, T, HEAP_START + i, NewEntry(fr[k], RW));
  }

  lemma PhysAtInjective(fr: seq<nat>, i: nat, j: nat)
    requires i < |fr| * 4096 && j < |fr| * 4096 && i != j
    requires forall a, b | 0 <= a < b < |fr| :: fr[a] < fr[b]
    ensures PhysAt(fr, i) != PhysAt(fr, j)
  {
    if i / 4096 != j / 4096 {
      assert fr[i / 4096] != fr[j / 4096];
    }
  }

  /** Off the direct map every page keeps its last-level entry, or none. */
  ghost predicate SameLookups(m: Mem, m': Mem, root: nat) {
    forall q: nat | q < PAGES && !DirectPage(q) ::
      Lookup(Words(m'), root, 3, q) == Lookup(Words(m), root, 3, q)
  }

  /** Memory differs in the given frames only. */
  ghost predicate ChangesOnly(m: Mem, m': Mem, frames: set<nat>) {
    |m'| == |m| && forall a | 0 <= a < |m| && a / 4096 !in frames :: m'[a] == m[a]
  }

  /** Any change confined to frames that are neither tables nor free keeps the tables, every
      translation and the free frames. */
  lemma FramesWriteKeeps(m: Mem, m': Mem, base: nat, root: nat, T: Tables, fr: seq<nat>, frames: set<nat>)
    requires HeapOk(m, base, root, T, fr) && forall f | f in frames :: PageOk(m, base, T, f)
    requires ChangesOnly(m, m', frames)
    ensures HeapOk(m', base, root, T, fr) && FreeSet(m', base) == FreeSet(m, base) && SameLookups(m, m', root)
    ensures forall t | t in T :: InMem(m, t) && WordsOf(m', t) == WordsOf(m, t)
  {
    hide Tree, HeapLookup, Le, Word, HwWalk, PageOf, Words, Lookup;
    var s, s2 := PagesOf(m, base), PagesOf(m', base);
    assert forall f | f in frames :: base <= f;
    WriteKeepsFree(m, m', base, frames);
    WriteKeepsTables(m, m', base, root, T, frames);
    SameTablesKeepsTree(s, s2, root, T);
    LookupsKept(m, m', base, root, T);
    forall k | 0 <= k < |fr|
      ensures HeapLookup(Words(m'), root, k) == HeapLookup(Words(m), root, k)
    {
      HeapAddress(k * 4096);
      HeapLookupIs(m, root, k);
      HeapLookupIs(m', root, k);
    }
    forall k | 0 <= k < |fr|
      ensures PageOk(m', base, T, fr[k])
    {
      assert PageOk(m, base, T, fr[k]);
    }
  }

  lemma HeapLookupIs(m: Mem, root: nat, k: nat)
    ensures HeapLookup(Words(m), root, k) == Lookup(Words(m), root, 3, HEAP_PAGE + k)
  {
  }

  lemma LookupsKept(m: Mem, m': Mem, base: nat, root: nat, T: Tables)
    requires Mapped(m, base, root, T) && |m'| == |m| && SameTables(PagesOf(m, base), PagesOf(m', base), T)
    ensures SameLookups(m, m', root)
  {
    RootTable(m, base, root, T);
    hide Tree, Words, Lookup, SameTables;
    forall q: nat | q < PAGES && !DirectPage(q)
      ensures Lookup(Words(m'), root, 3, q) == Lookup(Words(m), root, 3, q)
    {
      PrefixStep(q, 3);
      SameTablesKeepsLookup(PagesOf(m, base), PagesOf(m', base), root, T, root, 3, q);
    }
  }

  lemma WriteKeepsFree(m: Mem, m': Mem, base: nat, frames: set<nat>)
    requires Layout(m, base) && ChangesOnly(m, m', frames) && forall f | f in frames :: base <= f
    ensures FreeSet(m', base) == FreeSet(m, base)
    ensures forall g: nat :: FreePage(m', base, g) == FreePage(m, base, g)
  {
  }

  lemma WriteKeepsTables(m: Mem, m': Mem, base: nat, root: nat, T: Tables, frames: set<nat>)
    requires Mapped(m, base, root, T) && forall f | f in frames :: PageOk(m, base, T, f)
    requires ChangesOnly(m, m', frames) && FreeSet(m', base) == FreeSet(m, base)
    ensures SameTables(PagesOf(m, base), PagesOf(m', base), T)
    ensures FreeZero(PagesOf(m', base))
    ensures forall t | t in T :: InMem(m, t) && WordsOf(m', t) == WordsOf(m, t)
  {
    assert KeepsBytes(m, m', base, frames);
    forall t | t in T
      ensures InMem(m, t) && WordsOf(m', t) == WordsOf(m, t)
    {
      TableInMem(m, base, root, T, t);
      KeepsBytesFrame(m, m', base, frames, t);
    }
    forall g | g in FreeSet(m, base)
      ensures WordsOf(m', g) == WordsOf(m, g)
    {
      KeepsBytesFrame(m, m', base, frames, g);
    }
  }

  /** A store to heap address i changes byte i of the heap and nothing else: no other
      heap byte, no table. */
  lemma HeapStore(m: Mem, base: nat, root: nat, T: Tables, fr: seq<nat>, i: nat, x: byte)
    requires HeapOk(m, base, root, T, fr) && i < |fr| * 4096
    ensures
      var m' := StoreByte(m, root, HEAP_START + i, x);
      && HeapOk(m', base, root, T, fr)
      && FramesIn(m, fr) && FramesIn(m', fr)
      && View(m', fr) == View(m, fr)[i := x]
      && FreeSet(m', base) == FreeSet(m, base) && SameLookups(m, m', root)
      && (forall t | t in T :: InMem(m, t) && WordsOf(m', t) == WordsOf(m, t))
  {
    hide HwTranslate, Tree, Lookup, Le, Word, SameLookups;
    HeapTranslate(m, base, root, T, fr, i);
    var a := PhysAt(fr, i);
    var m' := m[a := x];
    var f := fr[i / 4096];
    assert PageOk(m, base, T, f);
    assert a / 4096 == f;
    FramesWriteKeeps(m, m', base, root, T, fr, {f});
    HeapFramesIn(m, base, root, T, fr);
    HeapFramesIn(m', base, root, T, fr);
    forall j | 0 <= j < |fr| * 4096
      ensures View(m', fr)[j] == View(m, fr)[i := x][j]
    {
      if j != i { PhysAtInjective(fr, i, j); }
    }
  }

  lemma HeapFramesIn(m: Mem, base: nat, root: nat, T: Tables, fr: seq<nat>)
    requires HeapOk(m, base, root, T, fr)
    ensures FramesIn(m, fr) && |fr| <= 32768
  {
    forall k | 0 <= k < |fr|
      ensures InMem(m, fr[k])
    {
      assert PageOk(m, base, T, fr[k]);
    }
  }

  lemma {:induction false} HeapStores(m: Mem, base: nat, root: nat, T: Tables, fr: seq<nat>, i: nat, s: seq<byte>)
    requires HeapOk(m, base, root, T, fr) && i + |s| <= |fr| * 4096
    ensures
      var m' := StoreBytes(m, root, HEAP_START + i, s);
      && HeapOk(m', base, root, T, fr)
      && FramesIn(m, fr) && FramesIn(m', fr)
      && View(m', fr) == SetBytes(View(m, fr), i, s)
      && FreeSet(m', base) == FreeSet(m, base) && SameLookups(m, m', root)
    decreases |s|
  {
    hide HeapOk, StoreByte, Le, Word, Lookup, Words, DirectPage;
    HeapFramesIn(m, base, root, T, fr);
    if s != [] {
      HeapStore(m, base, root, T, fr, i, s[0]);
      var m1 := StoreByte(m, root, HEAP_START + i, s[0]);
      HeapStores(m1, base, root, T, fr, i + 1, s[1..]);
      SetBytesCons(View(m, fr), i, s);
    } else {
      assert SetBytes(View(m, fr), i, s) == View(m, fr);
    }
  }

  lemma SetBytesCons(b: seq<byte>, i: nat, s: seq<byte>)
    requires s != [] && i + |s| <= |b|
    ensures SetBytes(b, i, s) == SetBytes(b[i := s[0]], i + 1, s[1..])
  {
  }

  lemma {:induction false} HeapLoads(m: Mem, base: nat, root: nat, T: Tables, fr: seq<nat>, i: nat, n: nat)
    requires HeapOk(m, base, root, T, fr) && i + n <= |fr| * 4096
    ensures FramesIn(m, fr)
    ensures LoadBytes(m, root, HEAP_START + i, n) == View(m, fr)[i..i + n]
    decreases n
  {
    hide HeapOk, HwTranslate, Words, Le, Word, StoreByte;
    HeapFramesIn(m, base, root, T, fr);
    if n > 0 {
      HeapTranslate(m, base, root, T, fr, i);
      HeapLoads(m, base, root, T, fr, i + 1, n - 1);
      var b := View(m, fr);
      assert LoadByte(m, root, HEAP_START + i) == b[i];
      assert b[i..i + n] == [b[i]] + b[i + 1..i + n];
    }
  }

  /** Words, at any alignment and across page borders. */
  lemma HeapWords(m: Mem, base: nat, root: nat, T: Tables, fr: seq<nat>, i: nat, w: nat)
    requires HeapOk(m, base, root, T, fr) && i + 8 <= |fr| * 4096 && w < WORD
    ensures FramesIn(m, fr)
    ensures LoadWord(m, root, HEAP_START + i) == Word(View(m, fr), i)
    ensures
      var m' := StoreWord(m, root, HEAP_START + i, w);
      && HeapOk(m', base, root, T, fr)
      && FramesIn(m', fr)
      && View(m', fr) == SetWord(View(m, fr), i, w)
      && FreeSet(m', base) == FreeSet(m, base) && SameLookups(m, m', root)
  {
    hide HeapOk, StoreBytes, LoadBytes, ToLe, Le, View, FreeSet, FramesIn, SameLookups;
    HeapLoads(m, base, root, T, fr, i, 8);
    HeapStores(m, base, root, T, fr, i, ToLe(w, 8));
  }

  // One more page.

  /** The heap grows by a zero page whose frame was free; nothing else in the heap moves. */
  lemma HeapNewPage(m: Mem, base: nat, root: nat, T: Tables, fr: seq<nat>, m2: Mem, f: nat)
    requires HeapOk(m, base, root, T, fr)
    requires MapNewPage(m, base, root, HEAP_START + |fr| * 4096, RW) == Some((m2, f))
    ensures KallocFrame(m, base).Some?
    ensures HeapOk(m2, base, root, NewTables(m, base, root, HEAP_START + |fr| * 4096, T), fr + [f])
    ensures FramesIn(m, fr) && FramesIn(m2, fr + [f])
    ensures View(m2, fr + [f]) == View(m, fr) + Zeros(4096)
  {
    hide MapNewPage, NewTables, Tree, PageOf, View, PathNodes, Words, FreeSet, HeapOk, HeapLookup, NewEntry;
    hide KallocFrame, Layout, TookFrames, KeepsBytes, FramesIn, Or;
    var page := HEAP_START + |fr| * 4096;
    HeapMapped(m, base, root, T, fr);
    MapNewTakesFrame(m, base, root, page, RW);
    var T2 := NewTables(m, base, root, page, T);
    HeapFramesIn(m, base, root, T, fr);
    HeapAddress(|fr| * 4096);
    NewPageKeepsTree(m, base, root, T, page, RW);
    NewPageFrames(m, base, root, T, page, RW);
    forall k | 0 <= k < |fr + [f]|
      ensures HeapLookup(Words(m2), root, k) == Some(NewEntry((fr + [f])[k], RW))
    {
      HeapNewLookup(m, base, root, T, fr, k, m2, f);
    }
    HeapGrows(m, m2, base, root, T, T2, fr, f);
  }

  lemma MapNewTakesFrame(m: Mem, base: nat, root: nat, page: nat, flag: nat)
    requires Layout(m, base) && MapNewPage(m, base, root, page, flag).Some?
    ensures KallocFrame(m, base).Some? && KallocFrame(m, base).value.1 == MapNewPage(m, base, root, page, flag).value.1
  {
  }

  lemma HeapMapped(m: Mem, base: nat, root: nat, T: Tables, fr: seq<nat>)
    requires HeapOk(m, base, root, T, fr)
    ensures Mapped(m, base, root, T)
  {
  }

  lemma HeapGrows(m: Mem, m2: Mem, base: nat, root: nat, T: Tables, T2: Tables, fr: seq<nat>, f: nat)
    requires HeapOk(m, base, root, T, fr) && Mapped(m2, base, root, T2) && |m2| == |m|
    requires f in FreeSet(m, base) && f !in T2.Keys && KeepsBytes(m, m2, base, T2.Keys)
    requires forall g | g in FreeSet(m, base) :: f <= g
    requires TookFrames(FreeSet(m, base) - {f}, FreeSet(m2, base), T.Keys, T2.Keys)
    requires forall k | 0 <= k < |fr + [f]| :: HeapLookup(Words(m2), root, k) == Some(NewEntry((fr + [f])[k], RW))
    ensures HeapOk(m2, base, root, T2, fr + [f])
    ensures FramesIn(m, fr) && FramesIn(m2, fr + [f])
    ensures View(m2, fr + [f]) == View(m, fr) + Zeros(4096)
  {
    hide Tree, View, Words, FreeSet, HeapLookup, NewEntry;
    NewPageCount(FreeSet(m, base), FreeSet(m2, base), f, T.Keys, T2.Keys);
    forall k | 0 <= k < |fr + [f]|
      ensures PageOk(m2, base, T2, (fr + [f])[k])
    {
      HeapPageKept(m, m2, base, root, T, T2, fr, f, k);
    }
    NextInOrder(fr, FreeSet(m, base), f, FreeSet(m2, base));
    HeapFramesIn(m, base, root, T, fr);
    HeapFramesIn(m2, base, root, T2, fr + [f]);
    NewPageView(m, m2, base, root, T, T2, fr, f);
  }

  lemma HeapNewLookup(m: Mem, base: nat, root: nat, T: Tables, fr: seq<nat>, k: nat, m2: Mem, f: nat)
    requires HeapOk(m, base, root, T, fr) && k <= |fr|
    requires MapNewPage(m, base, root, HEAP_START + |fr| * 4096, RW) == Some((m2, f))
    ensures HeapLookup(Words(m2), root, k) == Some(NewEntry((fr + [f])[k], RW))
  {
    hide MapNewPage, Tree, Lookup, PageOf, NewEntry, Words;
    HeapFramesIn(m, base, root, T, fr);
    HeapAddress(|fr| * 4096);
    HeapAddress(k * 4096);
    NewPageLookup(m, base, root, T, HEAP_START + |fr| * 4096, RW, HEAP_PAGE + k);
    if k < |fr| {
      assert HeapLookup(Words(m), root, k) == Some(NewEntry(fr[k], RW));
    }
  }

  lemma NextInOrder(fr: seq<nat>, free: set<nat>, f: nat, free': set<nat>)
    requires InOrder(fr, free) && f in free && (forall g | g in free :: f <= g) && free' <= free - {f}
    ensures InOrder(fr + [f], free')
  {
  }

  lemma NewPageCount(free: set<nat>, free': set<nat>, f: nat, keys: set<nat>, keys': set<nat>)
    requires f in free && TookFrames(free - {f}, free', keys, keys')
    ensures |free'| + 1 <= |free|
  {
    SubsetSize(free', free - {f});
  }

  lemma {:induction false} SubsetSize(a: set<nat>, b: set<nat>)
    requires a <= b
    ensures |a| <= |b|
  {
    if a != {} {
      var x :| x in a;
      SubsetSize(a - {x}, b - {x});
    }
  }

  lemma FreeMember(m: Mem, base: nat, f: nat)
    requires Layout(m, base)
    ensures f in FreeSet(m, base) <==> FreePage(m, base, f)
    ensures FreePage(m, base, f) ==> base <= f && InMem(m, f)
  {
  }

  lemma HeapPageKept(m: Mem, m2: Mem, base: nat, root: nat, T: Tables, T2: Tables, fr: seq<nat>, f: nat, k: nat)
    requires HeapOk(m, base, root, T, fr) && k <= |fr|
    requires |m2| == |m| && f in FreeSet(m, base) && f !in T2.Keys
    requires TookFrames(FreeSet(m, base) - {f}, FreeSet(m2, base), T.Keys, T2.Keys)
    ensures PageOk(m2, base, T2, (fr + [f])[k])
  {
    hide Tree, HeapLookup, FreePage, FreeSet, Words;
    var g := (fr + [f])[k];
    FreeMember(m, base, g);
    FreeMember(m2, base, g);
    if k < |fr| {
      assert PageOk(m, base, T, g);
      assert g !in FreeSet(m, base);
      assert g !in T2.Keys - T.Keys;
    }
  }

  lemma FreeFrameIsZero(m: Mem, base: nat, root: nat, T: Tables, f: nat)
    requires Mapped(m, base, root, T) && f in FreeSet(m, base)
    ensures InMem(m, f) && base <= f && ZeroFrame(m, f)
  {
    assert forall i: nat | i < 512 :: Words(m)[f][i] == 0;
    ZeroWords(m, f);
  }

  lemma NewPageView(m: Mem, m2: Mem, base: nat, root: nat, T: Tables, T2: Tables, fr: seq<nat>, f: nat)
    requires HeapOk(m, base, root, T, fr) && HeapOk(m2, base, root, T2, fr + [f])
    requires f in FreeSet(m, base) && KeepsBytes(m, m2, base, T2.Keys)
    requires FramesIn(m, fr) && FramesIn(m2, fr + [f])
    ensures View(m2, fr + [f]) == View(m, fr) + Zeros(4096)
  {
    hide Tree, HeapLookup, FreePage, FreeSet, Words, NewEntry, ZeroFrame, FramesIn;
    FreeFrameIsZero(m, base, root, T, f);
    forall i | 0 <= i < (|fr| + 1) * 4096
      ensures View(m2, fr + [f])[i] == (View(m, fr) + Zeros(4096))[i]
    {
      assert PageOk(m2, base, T2, (fr + [f])[i / 4096]);
      NewPageByte(m, m2, base, T2, fr, f, i);
    }
  }

  lemma NewPageByte(m: Mem, m2: Mem, base: nat, T2: Tables, fr: seq<nat>, f: nat, i: nat)
    requires i < (|fr| + 1) * 4096 && Layout(m, base) && |m2| == |m|
    requires PageOk(m2, base, T2, (fr + [f])[i / 4096])
    requires KeepsBytes(m, m2, base, T2.Keys) && InMem(m, f) && ZeroFrame(m, f)
    requires FramesIn(m, fr) && FramesIn(m2, fr + [f])
    ensures View(m2, fr + [f])[i] == (View(m, fr) + Zeros(4096))[i]
  {
    var g := (fr + [f])[i / 4096];
    var a := PhysAt(fr + [f], i);
    assert a / 4096 == g;
    assert m2[a] == m[a];
    if i < |fr| * 4096 {
      assert View(m, fr)[i] == m[PhysAt(fr, i)];
    }
  }

  // Frames taken and pages mapped for others.

  predicate HeapRange(q: nat) { HEAP_PAGE <= q < HEAP_PAGE + 32768 }

  /** Between two states only free frames became tables or heap pages, and off the heap every
      page but those in `but` keeps its entry. */
  ghost predicate KeepsOthers(
    m: Mem, m': Mem, base: nat, root: nat, T: Tables, T': Tables, fr: seq<nat>, fr': seq<nat>, but: set<nat>)
  {
    && |m'| == |m| && Layout(m, base) && Layout(m', base)
    && FreeSet(m', base) <= FreeSet(m, base) && T'.Keys - T.Keys <= FreeSet(m, base)
    && fr <= fr' && (forall k | |fr| <= k < |fr'| :: fr'[k] in FreeSet(m, base))
    && forall q: nat | q < PAGES && !DirectPage(q) && !HeapRange(q) && q !in but ::
         Lookup(Words(m'), root, 3, q) == Lookup(Words(m), root, 3, q)
  }

  /** A change that takes only free frames and keeps the heap's translations keeps the heap. */
  lemma HeapKept(m: Mem, m2: Mem, base: nat, root: nat, T: Tables, T2: Tables, fr: seq<nat>)
    requires HeapOk(m, base, root, T, fr) && Mapped(m2, base, root, T2) && |m2| == |m|
    requires FreeSet(m2, base) <= FreeSet(m, base) && T2.Keys - T.Keys <= FreeSet(m, base)
    requires KeepsBytes(m, m2, base, T2.Keys)
    requires forall k | 0 <= k < |fr| :: HeapLookup(Words(m2), root, k) == HeapLookup(Words(m), root, k)
    ensures HeapOk(m2, base, root, T2, fr)
    ensures FramesIn(m, fr) && FramesIn(m2, fr) && View(m2, fr) == View(m, fr)
  {
    hide Tree, View, Words, FreeSet, HeapLookup, NewEntry, FreePage;
    SubsetSize(FreeSet(m2, base), FreeSet(m, base));
    forall k | 0 <= k < |fr|
      ensures PageOk(m2, base, T2, fr[k]) && InMem(m, fr[k])
    {
      assert PageOk(m, base, T, fr[k]);
      FreeMember(m, base, fr[k]);
      FreeMember(m2, base, fr[k]);
      assert fr[k] !in T2.Keys - T.Keys;
    }
    forall i | 0 <= i < |fr| * 4096
      ensures View(m2, fr)[i] == View(m, fr)[i]
    {
      assert PageOk(m2, base, T2, fr[i / 4096]);
      KeptByte(m, m2, base, T2, fr, i);
    }
  }

  lemma KeptByte(m: Mem, m2: Mem, base: nat, T2: Tables, fr: seq<nat>, i: nat)
    requires i < |fr| * 4096 && Layout(m, base) && |m2| == |m|
    requires PageOk(m2, base, T2, fr[i / 4096]) && KeepsBytes(m, m2, base, T2.Keys)
    requires FramesIn(m, fr) && FramesIn(m2, fr)
    ensures View(m2, fr)[i] == View(m, fr)[i]
  {
    var a := PhysAt(fr, i);
    assert a / 4096 == fr[i / 4096];
    assert m2[a] == m[a];
  }

  /** Taking a frame leaves the heap alone. */
  lemma HeapTakesFrame(m: Mem, base: nat, root: nat, T: Tables, fr: seq<nat>)
    requires HeapOk(m, base, root, T, fr) && Layout(m, base) && KallocFrame(m, base).Some?
    ensures
      var m1 := KallocFrame(m, base).value.0;
      HeapOk(m1, base, root, T, fr) && FramesIn(m, fr) && FramesIn(m1, fr) && View(m1, fr) == View(m, fr)
  {
    var m1 := KallocFrame(m, base).value.0;
    AllocIsRemoval(m, base);
    AllocKeepsTree(m, base, root, T);
    HeapFramesIn(m, base, root, T, fr);
    KeepsBytesTrans(m, m, m1, base, {}, {}, T.Keys);
    hide KallocFrame, Tree, View, FreeSet, KeepsBytes, Words, Lookup, PageOf;
    forall k | 0 <= k < |fr|
      ensures HeapLookup(Words(m1), root, k) == HeapLookup(Words(m), root, k)
    {
      HeapAddress(k * 4096);
    }
    HeapKept(m, m1, base, root, T, T, fr);
  }

  /** Mapping a fresh frame at a page off the heap leaves the heap alone. */
  lemma HeapMapsOther(
    m: Mem, base: nat, root: nat, T: Tables, fr: seq<nat>, page: nat, flag: nat, m2: Mem, f: nat)
    requires HeapOk(m, base, root, T, fr) && flag < 1024 && !DirectPage(PageOf(page))
    requires !HeapRange(PageOf(page))
    requires MapNewPage(m, base, root, page, flag) == Some((m2, f)) && KallocFrame(m, base).Some?
    ensures HeapOk(m2, base, root, NewTables(m, base, root, page, T), fr)
    ensures FramesIn(m, fr) && FramesIn(m2, fr) && View(m2, fr) == View(m, fr)
  {
    hide MapNewPage, NewTables, Tree, PageOf, View, PathNodes, Words, FreeSet, KallocFrame, Lookup, KeepsBytes;
    HeapMapped(m, base, root, T, fr);
    HeapFramesIn(m, base, root, T, fr);
    NewPageKeepsTree(m, base, root, T, page, flag);
    NewPageFrames(m, base, root, T, page, flag);
    forall k | 0 <= k < |fr|
      ensures HeapLookup(Words(m2), root, k) == HeapLookup(Words(m), root, k)
    {
      HeapAddress(k * 4096);
      NewPageLookup(m, base, root, T, page, flag, HEAP_PAGE + k);
    }
    HeapKept(m, m2, base, root, T, NewTables(m, base, root, page, T), fr);
  }

  lemma OthersTrans(
    m: Mem, m1: Mem, m2: Mem, base: nat, root: nat, T: Tables, T1: Tables, T2: Tables,
    fr: seq<nat>, fr1: seq<nat>, fr2: seq<nat>, but: set<nat>)
    requires KeepsOthers(m, m1, base, root, T, T1, fr, fr1, but)
    requires KeepsOthers(m1, m2, base, root, T1, T2, fr1, fr2, but)
    ensures KeepsOthers(m, m2, base, root, T, T2, fr, fr2, but)
  {
    hide FreeSet, Lookup, Words, DirectPage, Layout, HeapRange;
  }

  lemma SameOthers(m: Mem, m': Mem, base: nat, root: nat, T: Tables, fr: seq<nat>)
    requires Layout(m, base) && |m'| == |m| && FreeSet(m', base) == FreeSet(m, base) && SameLookups(m, m', root)
    ensures KeepsOthers(m, m', base, root, T, T, fr, fr, {})
  {
    hide FreeSet, Lookup, Words, DirectPage, HeapRange;
  }

  lemma TakeOthers(m: Mem, base: nat, root: nat, T: Tables, fr: seq<nat>)
    requires Mapped(m, base, root, T) && KallocFrame(m, base).Some?
    ensures KeepsOthers(m, KallocFrame(m, base).value.0, base, root, T, T, fr, fr, {})
  {
    AllocIsRemoval(m, base);
    AllocKeepsTree(m, base, root, T);
    hide KallocFrame, FreeSet, Lookup, Words, Tree;
  }

  /** Mapping a fresh frame at a page changes nothing for the other pages. */
  lemma MapOthers(m: Mem, base: nat, root: nat, T: Tables, fr: seq<nat>, page: nat, flag: nat, m2: Mem, f: nat)
    requires Mapped(m, base, root, T) && flag < 1024 && !DirectPage(PageOf(page))
    requires MapNewPage(m, base, root, page, flag) == Some((m2, f)) && KallocFrame(m, base).Some?
    ensures KeepsOthers(m, m2, base, root, T, NewTables(m, base, root, page, T), fr, fr, {PageOf(page)})
    ensures f in FreeSet(m, base) && f !in FreeSet(m2, base) && f !in NewTables(m, base, root, page, T)
  {
    hide MapNewPage, NewTables, Tree, PageOf, Words, FreeSet, KallocFrame, Lookup, KeepsBytes, PathNodes, NewEntry;
    NewPageKeepsTree(m, base, root, T, page, flag);
    NewPageFrames(m, base, root, T, page, flag);
    assert f !in NewTables(m, base, root, page, T).Keys;
    forall q: nat | q < PAGES && !DirectPage(q) && !HeapRange(q) && q !in {PageOf(page)}
      ensures Lookup(Words(m2), root, 3, q) == Lookup(Words(m), root, 3, q)
    {
      NewPageLookup(m, base, root, T, page, flag, q);
    }
  }

  lemma HeapPageOthers(m: Mem, base: nat, root: nat, T: Tables, fr: seq<nat>, m2: Mem, f: nat)
    requires HeapOk(m, base, root, T, fr)
    requires MapNewPage(m, base, root, HEAP_START + |fr| * 4096, RW) == Some((m2, f))
    requires KallocFrame(m, base).Some?
    ensures KeepsOthers(m, m2, base, root, T, NewTables(m, base, root, HEAP_START + |fr| * 4096, T), fr, fr + [f], {})
  {
    hide MapNewPage, NewTables, PageOf, KallocFrame, FreeSet, Lookup, Words, Tree, HeapOk;
    HeapMapped(m, base, root, T, fr);
    HeapFramesIn(m, base, root, T, fr);
    HeapBelow(m, base, root, T, fr);
    HeapAddress(|fr| * 4096);
    MapOthers(m, base, root, T, fr, HEAP_START + |fr| * 4096, RW, m2, f);
  }

  /** While a frame is free the heap has not reached the end of its range. */
  lemma HeapBelow(m: Mem, base: nat, root: nat, T: Tables, fr: seq<nat>)
    requires HeapOk(m, base, root, T, fr) && KallocFrame(m, base).Some?
    ensures |fr| < 32768
  {
    AllocIsRemoval(m, base);
    assert FreeSet(m, base) != {};
  }

  // Pages of others.

  /** Page q is mapped to a frame that belongs neither to the tables nor to the heap. */
  ghost predicate OtherPage(m: Mem, base: nat, root: nat, T: Tables, fr: seq<nat>, q: nat)
    requires Layout(m, base)
  {
    && q < PAGES && !DirectPage(q) && !HeapRange(q)
    && match Lookup(Words(m), root, 3, q)
       case None => false
       case Some(e) => PageOk(m, base, T, Ppn(e)) && Ppn(e) !in fr
  }

  /** A page mapped to a fresh frame belongs to others. */
  lemma NewOther(m: Mem, base: nat, root: nat, T: Tables, fr: seq<nat>, page: nat, flag: nat, m2: Mem, f: nat)
    requires HeapOk(m, base, root, T, fr) && flag < 1024 && !DirectPage(PageOf(page)) && !HeapRange(PageOf(page))
    requires MapNewPage(m, base, root, page, flag) == Some((m2, f)) && KallocFrame(m, base).Some?
    ensures Layout(m2, base) && OtherPage(m2, base, root, NewTables(m, base, root, page, T), fr, PageOf(page))
  {
    hide MapNewPage, NewTables, Tree, PageOf, Words, FreeSet, KallocFrame, Lookup, FreePage, NewEntry, HeapLookup;
    MapOthers(m, base, root, T, fr, page, flag, m2, f);
    NewPageLookup(m, base, root, T, page, flag, PageOf(page));
    FreeMember(m, base, f);
    FreeMember(m2, base, f);
    MapNewTakesFrame(m, base, root, page, flag);
    NewFrameEntry(m, base, flag);
    forall k | 0 <= k < |fr|
      ensures fr[k] != f
    {
      assert PageOk(m, base, T, fr[k]);
    }
  }

  lemma OtherPageKept(
    m: Mem, m': Mem, base: nat, root: nat, T: Tables, T': Tables, fr: seq<nat>, fr': seq<nat>, but: set<nat>, q: nat)
    requires KeepsOthers(m, m', base, root, T, T', fr, fr', but) && q !in but
    requires OtherPage(m, base, root, T, fr, q)
    ensures OtherPage(m', base, root, T', fr', q)
  {
    hide FreeSet, FreePage, Lookup, Words;
    var f := Ppn(Lookup(Words(m), root, 3, q).value);
    FreeMember(m, base, f);
    FreeMember(m', base, f);
    assert f !in T'.Keys - T.Keys;
  }

  /** A store through a page of others changes no heap byte, no table and no free frame. */
  lemma OtherStore(m: Mem, base: nat, root: nat, T: Tables, fr: seq<nat>, v: nat, x: byte)
    requires HeapOk(m, base, root, T, fr) && Layout(m, base) && OtherPage(m, base, root, T, fr, PageOf(v))
    ensures
      var m' := StoreByte(m, root, v, x);
      && HeapOk(m', base, root, T, fr)
      && FramesIn(m, fr) && FramesIn(m', fr) && View(m', fr) == View(m, fr)
      && FreeSet(m', base) == FreeSet(m, base) && SameLookups(m, m', root)
      && (forall t | t in T :: InMem(m, t) && WordsOf(m', t) == WordsOf(m, t))
      && (forall f | f in FreeSet(m, base) :: InMem(m, f) && WordsOf(m', f) == WordsOf(m, f))
  {
    hide HwWalk, Tree, Lookup, Le, Word, SameLookups, PageOf, HwLeaf, HeapLookup, Words, SwTranslate;
    var m' := StoreByte(m, root, v, x);
    var e := Lookup(Words(m), root, 3, PageOf(v)).value;
    if Canonical(v) {
      EntryTranslates(m, base, root, T, v, e);
      assert (Ppn(e) * FRAME_SIZE + v % FRAME_SIZE) / 4096 == Ppn(e);
    }
    assert ChangesOnly(m, m', {Ppn(e)});
    FramesWriteKeeps(m, m', base, root, T, fr, {Ppn(e)});
    HeapFramesIn(m, base, root, T, fr);
    HeapFramesIn(m', base, root, T, fr);
    forall i | 0 <= i < |fr| * 4096
      ensures View(m', fr)[i] == View(m, fr)[i]
    {
      assert fr[i / 4096] in fr && PhysAt(fr, i) / 4096 == fr[i / 4096];
    }
    forall f | f in FreeSet(m, base)
      ensures InMem(m, f) && WordsOf(m', f) == WordsOf(m, f)
    {
      FreeMember(m, base, f);
      assert SameFrame(m, m', f);
      WordsSame(m, m', f);
    }
  }
}
