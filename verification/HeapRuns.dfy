/** Whole runs of the heap: allocations, writes inside allocated payloads, and in between
    frames taken, pages mapped for others and stores through those pages. Heap memory read
    through the page tables stays a flat array. */
module HeapRuns {
  import opened Wrappers
  import opened Bits
  import opened Memory
  import opened Sv48
  import opened FrameAllocator
  import opened PageTree
  import opened PageMapping
  import opened PageRuns
  import opened FlatHeap
  import opened HeapMemory
  import opened HeapLayout
  import opened KernelHeap

  /** Besides kalloc and payload writes a run may take frames, map them at pages off the heap,
      as the scheduler does for a process, and store to any address of such a page. */
  datatype HeapOp =
    | Request(size: nat)
    | Write(i: nat, x: byte)
    | TakeFrame
    | MapNew(page: nat, flag: nat)
    | Poke(v: nat, x: byte)

  predicate OffHeap(page: nat) {
    !DirectPage(PageOf(page)) && !HeapRange(PageOf(page))
  }

  /** Writes stay inside the payloads allocated before them, and stores of others inside the
      pages mapped before them; sizes are such that size + 32 does not wrap. */
  predicate OpsOk(sizes: seq<nat>, pages: set<nat>, ops: seq<HeapOp>)
    decreases |ops|
  {
    if ops == [] then true
    else
      match ops[0]
      case Request(size) => size + 32 < WORD && OpsOk(sizes + [size], pages, ops[1..])
      case Write(i, _) => InPayload(0, sizes, i) && OpsOk(sizes, pages, ops[1..])
      case TakeFrame => OpsOk(sizes, pages, ops[1..])
      case MapNew(page, flag) => OffHeap(page) && flag < 1024 && OpsOk(sizes, pages + {PageOf(page)}, ops[1..])
      case Poke(v, _) => PageOf(v) in pages && OpsOk(sizes, pages, ops[1..])
  }

  function History(ops: seq<HeapOp>): seq<nat>
    decreases |ops|
  {
    if ops == [] then []
    else if ops[0].Request? then [ops[0].size] + History(ops[1..])
    else History(ops[1..])
  }

  /** The pages mapped by a run. */
  function MappedPages(ops: seq<HeapOp>): set<nat>
    decreases |ops|
  {
    if ops == [] then {}
    else if ops[0].MapNew? then {PageOf(ops[0].page)} + MappedPages(ops[1..])
    else MappedPages(ops[1..])
  }

  function WithMemory(s: HeapState, m: Mem): HeapState { s.(m := m) }

  /** One operation on the machine; None when frames run out. */
  function HeapStep(s: HeapState, base: nat, root: nat, op: HeapOp): (r: Option<HeapState>)
    requires Layout(s.m, base)
    ensures r.Some? ==> |r.value.m| == |s.m|
  {
    match op
    case Request(size) =>
      (match Kalloc(s, base, root, size)
       case None => None
       case Some((s1, _)) => Some(s1))
    case Write(i, x) => Some(WithMemory(s, StoreByte(s.m, root, HEAP_START + i, x)))
    case TakeFrame =>
      (match KallocFrame(s.m, base)
       case None => None
       case Some((m1, _)) => Some(WithMemory(s, m1)))
    case MapNew(page, flag) =>
      (match MapNewPage(s.m, base, root, page, flag)
       case None => None
       case Some((m1, _)) => Some(WithMemory(s, m1)))
    case Poke(v, x) => Some(WithMemory(s, StoreByte(s.m, root, v, x)))
  }

  function RunHeap(s: HeapState, base: nat, root: nat, ops: seq<HeapOp>): (r: Option<HeapState>)
    requires Layout(s.m, base)
    ensures r.Some? ==> |r.value.m| == |s.m|
    decreases |ops|
  {
    if ops == [] then Some(s)
    else
      match HeapStep(s, base, root, ops[0])
      case None => None
      case Some(s1) => RunHeap(s1, base, root, ops[1..])
  }

  // The same run on the flat heap.

  ghost predicate FlatStepOk(h: Flat, op: HeapOp) {
    match op
    case Request(size) => Fits(h, size) && GetSize(Word(h.bytes, h.at)) == |h.bytes| - h.at
    case Write(i, _) => i < h.at <= |h.bytes|
    case _ => true
  }

  ghost function FlatStep(h: Flat, op: HeapOp): Flat
    requires FlatStepOk(h, op)
  {
    match op
    case Request(size) => FlatKalloc(h, size)
    case Write(i, x) => Flat(h.bytes[i := x], h.at)
    case _ => h
  }

  ghost predicate FlatRunOk(h: Flat, ops: seq<HeapOp>)
    decreases |ops|
  {
    ops == [] || (FlatStepOk(h, ops[0]) && FlatRunOk(FlatStep(h, ops[0]), ops[1..]))
  }

  ghost function FlatRun(h: Flat, ops: seq<HeapOp>): Flat
    requires FlatRunOk(h, ops)
    decreases |ops|
  {
    if ops == [] then h else FlatRun(FlatStep(h, ops[0]), ops[1..])
  }

  /** Some write of the run goes to offset i. */
  predicate Touches(ops: seq<HeapOp>, i: nat) {
    exists k :: 0 <= k < |ops| && ops[k].Write? && ops[k].i == i
  }

  /** Last byte written to offset i, or what it was before. */
  function LastWritten(ops: seq<HeapOp>, i: nat, before: byte): byte
    decreases |ops|
  {
    if ops == [] then before
    else if ops[0].Write? && ops[0].i == i then LastWritten(ops[1..], i, ops[0].x)
    else LastWritten(ops[1..], i, before)
  }

  lemma TouchesTail(ops: seq<HeapOp>, i: nat)
    requires Touches(ops, i)
    ensures (ops[0].Write? && ops[0].i == i) || Touches(ops[1..], i)
  {
    var k :| 0 <= k < |ops| && ops[k].Write? && ops[k].i == i;
    if k > 0 { assert ops[1..][k - 1] == ops[k]; }
  }

  /** A byte written in the run does not depend on what was there before. */
  lemma {:induction false} TouchedForgets(ops: seq<HeapOp>, i: nat, x: byte, y: byte)
    requires Touches(ops, i)
    ensures LastWritten(ops, i, x) == LastWritten(ops, i, y)
    decreases |ops|
  {
    TouchesTail(ops, i);
    if !(ops[0].Write? && ops[0].i == i) {
      TouchedForgets(ops[1..], i, x, y);
    }
  }

  lemma AllocKeepsTiling(h: Flat, sizes: seq<nat>, size: nat)
    requires Fits(h, size) && Tiled(h.bytes, 0, sizes, h.at)
    ensures GetSize(Word(h.bytes, h.at)) == |h.bytes| - h.at
    ensures Tiled(FlatKalloc(h, size).bytes, 0, sizes + [size], FlatKalloc(h, size).at)
    ensures FlatKalloc(h, size).bytes[..h.at] == h.bytes[..h.at]
  {
    hide SetWord, SetBytes, Le, ToLe, Word, FlatKalloc;
    FlatKallocOk(h, size);
    var r := FlatKalloc(h, size);
    TiledExtend(h.bytes, r.bytes, 0, sizes, h.at, size);
  }

  /** One operation on the flat heap keeps the tiling by the request history. */
  lemma FlatStepTiles(h: Flat, sizes: seq<nat>, pages: set<nat>, ops: seq<HeapOp>)
    requires ops != [] && OpsOk(sizes, pages, ops) && Tiled(h.bytes, 0, sizes, h.at) && h.at <= |h.bytes|
    requires FlatStepOk(h, ops[0])
    ensures
      var h1 := FlatStep(h, ops[0]);
      var sizes1 := sizes + History([ops[0]]);
      && Tiled(h1.bytes, 0, sizes1, h1.at) && h.at <= h1.at <= |h1.bytes|
      && OpsOk(sizes1, pages + MappedPages([ops[0]]), ops[1..])
      && (forall i | 0 <= i < h.at ::
            h1.bytes[i] == if ops[0].Write? && ops[0].i == i then ops[0].x else h.bytes[i])
  {
    hide FlatKalloc, Word, FlatOk, Tiled, PagesNeeded;
    assert sizes + [] == sizes && pages + {} == pages;
    match ops[0]
    case Request(size) =>
      AllocKeepsTiling(h, sizes, size);
      FlatKallocOk(h, size);
      assert History([ops[0]]) == [size];
      SamePrefix(h.bytes, FlatStep(h, ops[0]).bytes, h.at);
    case Write(i, x) => PayloadWriteKeepsTiling(h.bytes, 0, sizes, h.at, i, x);
    case MapNew(page, _) => assert MappedPages([ops[0]]) == {PageOf(page)};
    case _ =>
  }

  lemma OneOp(op: HeapOp)
    ensures History([op]) == if op.Request? then [op.size] else []
    ensures MappedPages([op]) == if op.MapNew? then {PageOf(op.page)} else {}
  {
    assert [op][1..] == [];
  }

  lemma HistoryTail(sizes: seq<nat>, pages: set<nat>, ops: seq<HeapOp>)
    requires ops != []
    ensures pages + MappedPages([ops[0]]) + MappedPages(ops[1..]) == pages + MappedPages(ops)
    ensures sizes + History([ops[0]]) + History(ops[1..]) == sizes + History(ops)
  {
    hide History, MappedPages, PageOf;
    OneOp(ops[0]);
    FirstOp(ops);
    Regroup(sizes, History([ops[0]]), History(ops[1..]));
  }

  lemma Regroup(a: seq<nat>, b: seq<nat>, c: seq<nat>)
    ensures a + b + c == a + (b + c)
  {
  }

  lemma FirstOp(ops: seq<HeapOp>)
    requires ops != []
    ensures MappedPages(ops) ==
            (if ops[0].MapNew? then {PageOf(ops[0].page)} else {}) + MappedPages(ops[1..])
    ensures History(ops) == (if ops[0].Request? then [ops[0].size] else []) + History(ops[1..])
  {
    hide PageOf;
  }

  /** Over every run the flat heap is tiled by all requests, and each byte that was allocated
      at the start or written during the run holds what was last written to it. */
  lemma {:induction false} FlatRunBytes(h: Flat, sizes: seq<nat>, pages: set<nat>, ops: seq<HeapOp>)
    requires OpsOk(sizes, pages, ops) && Tiled(h.bytes, 0, sizes, h.at) && h.at <= |h.bytes| && FlatRunOk(h, ops)
    ensures
      var h' := FlatRun(h, ops);
      && Tiled(h'.bytes, 0, sizes + History(ops), h'.at) && h.at <= h'.at <= |h'.bytes|
      && (forall i | 0 <= i < h.at :: h'.bytes[i] == LastWritten(ops, i, h.bytes[i]))
      && (forall i: nat, x: byte {:trigger LastWritten(ops, i, x)} | Touches(ops, i) ::
            i < h'.at && h'.bytes[i] == LastWritten(ops, i, x))
    decreases |ops|
  {
    hide FlatStep, FlatStepOk, Tiled;
    if ops == [] {
      assert sizes + [] == sizes;
    } else {
      FlatStepTiles(h, sizes, pages, ops);
      var h1, sizes1 := FlatStep(h, ops[0]), sizes + History([ops[0]]);
      FlatRunBytes(h1, sizes1, pages + MappedPages([ops[0]]), ops[1..]);
      HistoryTail(sizes, pages, ops);
      var h' := FlatRun(h, ops);
      forall i: nat, x: byte | Touches(ops, i)
        ensures i < h'.at && h'.bytes[i] == LastWritten(ops, i, x)
      {
        TouchesTail(ops, i);
        if Touches(ops[1..], i) {
          TouchedForgets(ops[1..], i, x, if ops[0].Write? then ops[0].x else x);
          assert h'.bytes[i] == LastWritten(ops[1..], i, x);
        } else {
          WriteInBounds(h, sizes, ops);
        }
      }
    }
  }

  lemma WriteInBounds(h: Flat, sizes: seq<nat>, ops: seq<HeapOp>)
    requires ops != [] && ops[0].Write? && FlatStepOk(h, ops[0])
    ensures ops[0].i < h.at
  {
  }

  // The machine refines the flat heap.

  /** The given pages are mapped to frames that are neither tables nor heap nor free. */
  ghost predicate PagesOk(m: Mem, base: nat, root: nat, T: Tables, fr: seq<nat>, pages: set<nat>) {
    Layout(m, base) && forall q | q in pages :: OtherPage(m, base, root, T, fr, q)
  }

  /** A state that represents a flat heap tiled by the given requests, with the given pages of
      others beside it. */
  ghost predicate HeapRunOk(s: HeapState, base: nat, root: nat, h: Flat, sizes: seq<nat>, pages: set<nat>) {
    && (exists T: Tables, fr: seq<nat> ::
          Represents(s, base, root, T, fr, h) && PagesOk(s.m, base, root, T, fr, pages))
    && Tiled(h.bytes, 0, sizes, h.at)
  }

  /** A state whose frames lie where the closed form puts them. */
  ghost predicate LaidOut(s: HeapState, base: nat, root: nat, h: Flat) {
    exists T: Tables, fr: seq<nat> :: Represents(s, base, root, T, fr, h) && LayoutOk(s.m, base, root, T, fr)
  }

  /** Steps that keep the closed form of the frames. */
  predicate KeepsForm(op: HeapOp) { op.Request? || op.Write? || op.Poke? }

  /** One operation on the machine is one on the flat heap. */
  lemma StepRefines(
    s: HeapState, base: nat, root: nat, T: Tables, fr: seq<nat>, h: Flat, sizes: seq<nat>, pages: set<nat>,
    ops: seq<HeapOp>)
    returns (T': Tables, fr': seq<nat>)
    requires Represents(s, base, root, T, fr, h) && Tiled(h.bytes, 0, sizes, h.at)
    requires PagesOk(s.m, base, root, T, fr, pages)
    requires ops != [] && OpsOk(sizes, pages, ops)
    requires Layout(s.m, base) && HeapStep(s, base, root, ops[0]).Some?
    ensures FlatStepOk(h, ops[0])
    ensures Represents(HeapStep(s, base, root, ops[0]).value, base, root, T', fr', FlatStep(h, ops[0]))
    ensures PagesOk(HeapStep(s, base, root, ops[0]).value.m, base, root, T', fr', pages + MappedPages([ops[0]]))
    ensures LayoutOk(s.m, base, root, T, fr) && KeepsForm(ops[0]) ==>
              LayoutOk(HeapStep(s, base, root, ops[0]).value.m, base, root, T', fr')
  {
    hide Represents, LayoutOk, Kalloc, FlatKalloc, StoreByte, KallocFrame, MapNewPage, Fits, Tiled, Word, PageOf;
    hide GetSize, LoadWord, IsLast, KeepsOthers, PagesOk;
    FreeBlockFits(s, base, root, T, fr, h);
    T', fr' := T, fr;
    assert pages + {} == pages;
    match ops[0]
    case Request(size) =>
      T', fr' := AllocRefines(s, base, root, T, fr, h, size);
      PagesKept(s.m, HeapStep(s, base, root, ops[0]).value.m, base, root, T, T', fr, fr', {}, pages);
    case Write(i, x) =>
      PayloadBound(h.bytes, 0, sizes, h.at, i);
      WriteRefines(s, base, root, T, fr, h, i, x);
      PagesKept(s.m, StoreByte(s.m, root, HEAP_START + i, x), base, root, T, T', fr, fr', {}, pages);
    case TakeFrame =>
      TakeKeepsHeap(s, base, root, T, fr, h, KallocFrame(s.m, base).value.0);
      PagesKept(s.m, KallocFrame(s.m, base).value.0, base, root, T, T', fr, fr', {}, pages);
    case MapNew(page, flag) =>
      var (m1, f) := MapNewPage(s.m, base, root, page, flag).value;
      T' := MapKeepsHeap(s, base, root, T, fr, h, page, flag, m1, f, pages);
      assert MappedPages([ops[0]]) == {PageOf(page)};
    case Poke(v, x) => PokeRefines(s, base, root, T, fr, h, pages, v, x);
  }

  lemma PagesKept(
    m: Mem, m': Mem, base: nat, root: nat, T: Tables, T': Tables, fr: seq<nat>, fr': seq<nat>, but: set<nat>,
    pages: set<nat>)
    requires KeepsOthers(m, m', base, root, T, T', fr, fr', but) && PagesOk(m, base, root, T, fr, pages)
    ensures PagesOk(m', base, root, T', fr', pages - but)
    ensures but == {} ==> PagesOk(m', base, root, T', fr', pages)
  {
    hide FreeSet, Lookup, Words, DirectPage, HeapRange, OtherPage;
    forall q | q in pages && q !in but
      ensures OtherPage(m', base, root, T', fr', q)
    {
      OtherPageKept(m, m', base, root, T, T', fr, fr', but, q);
    }
  }

  lemma AllocRefines(s: HeapState, base: nat, root: nat, T: Tables, fr: seq<nat>, h: Flat, size: nat)
    returns (T': Tables, fr': seq<nat>)
    requires Represents(s, base, root, T, fr, h) && size + 32 < WORD
    requires Layout(s.m, base) && HeapStep(s, base, root, Request(size)).Some?
    ensures FlatStepOk(h, Request(size))
    ensures Represents(HeapStep(s, base, root, Request(size)).value, base, root, T', fr', FlatStep(h, Request(size)))
    ensures LayoutOk(s.m, base, root, T, fr) ==>
              LayoutOk(HeapStep(s, base, root, Request(size)).value.m, base, root, T', fr')
    ensures KeepsOthers(s.m, HeapStep(s, base, root, Request(size)).value.m, base, root, T, T', fr, fr', {})
  {
    hide Represents, LayoutOk, Kalloc, FlatKalloc, Fits, Word, GetSize, KeepsOthers;
    var (s1, p) := Kalloc(s, base, root, size).value;
    T', fr' := KallocRefines(s, base, root, T, fr, h, size, s1, p);
  }

  lemma TakeKeepsHeap(s: HeapState, base: nat, root: nat, T: Tables, fr: seq<nat>, h: Flat, m1: Mem)
    requires Represents(s, base, root, T, fr, h)
    requires KallocFrame(s.m, base).Some? && KallocFrame(s.m, base).value.0 == m1
    ensures Represents(WithMemory(s, m1), base, root, T, fr, h)
    ensures KeepsOthers(s.m, m1, base, root, T, T, fr, fr, {})
  {
    hide HeapOk, View, FramesIn, FlatOk, KallocFrame, KeepsOthers;
    HeapMapped(s.m, base, root, T, fr);
    HeapTakesFrame(s.m, base, root, T, fr);
    TakeOthers(s.m, base, root, T, fr);
  }

  lemma MapKeepsHeap(
    s: HeapState, base: nat, root: nat, T: Tables, fr: seq<nat>, h: Flat, page: nat, flag: nat, m1: Mem, f: nat,
    pages: set<nat>)
    returns (T': Tables)
    requires Represents(s, base, root, T, fr, h) && OffHeap(page) && flag < 1024
    requires PagesOk(s.m, base, root, T, fr, pages)
    requires Layout(s.m, base) && MapNewPage(s.m, base, root, page, flag) == Some((m1, f))
    ensures Represents(WithMemory(s, m1), base, root, T', fr, h)
    ensures PagesOk(m1, base, root, T', fr, pages + {PageOf(page)})
  {
    hide HeapOk, View, FramesIn, FlatOk, MapNewPage, NewTables, PageOf, KeepsOthers, OtherPage;
    HeapFramesIn(s.m, base, root, T, fr);
    HeapMapped(s.m, base, root, T, fr);
    MapNewTakesFrame(s.m, base, root, page, flag);
    T' := NewTables(s.m, base, root, page, T);
    HeapMapsOther(s.m, base, root, T, fr, page, flag, m1, f);
    MapOthers(s.m, base, root, T, fr, page, flag, m1, f);
    PagesKept(s.m, m1, base, root, T, T', fr, fr, {PageOf(page)}, pages);
    NewOther(s.m, base, root, T, fr, page, flag, m1, f);
  }

  /** A store through a page mapped for others is no step of the heap: no heap byte, no table
      and no free frame changes. */
  lemma PokeRefines(
    s: HeapState, base: nat, root: nat, T: Tables, fr: seq<nat>, h: Flat, pages: set<nat>, v: nat, x: byte)
    requires Represents(s, base, root, T, fr, h) && PagesOk(s.m, base, root, T, fr, pages) && PageOf(v) in pages
    ensures Represents(WithMemory(s, StoreByte(s.m, root, v, x)), base, root, T, fr, h)
    ensures PagesOk(StoreByte(s.m, root, v, x), base, root, T, fr, pages)
    ensures LayoutOk(s.m, base, root, T, fr) ==> LayoutOk(StoreByte(s.m, root, v, x), base, root, T, fr)
  {
    hide HeapOk, View, FramesIn, FlatOk, PageOf, KeepsOthers, OtherPage, StoreByte, SameLookups, LayoutOk;
    OtherStore(s.m, base, root, T, fr, v, x);
    var m' := StoreByte(s.m, root, v, x);
    SameOthers(s.m, m', base, root, T, fr);
    PagesKept(s.m, m', base, root, T, T, fr, fr, {}, pages);
    if LayoutOk(s.m, base, root, T, fr) {
      SameFreeKeepsLayout(s.m, m', base, root, T, fr);
    }
  }

  /** Every run on the machine is the same run on the flat heap. */
  lemma {:induction false} RunRefines(
    s: HeapState, base: nat, root: nat, T: Tables, fr: seq<nat>, h: Flat, sizes: seq<nat>, pages: set<nat>,
    ops: seq<HeapOp>)
    returns (T': Tables, fr': seq<nat>)
    requires Represents(s, base, root, T, fr, h) && Tiled(h.bytes, 0, sizes, h.at) && OpsOk(sizes, pages, ops)
    requires PagesOk(s.m, base, root, T, fr, pages)
    requires Layout(s.m, base) && RunHeap(s, base, root, ops).Some?
    ensures FlatRunOk(h, ops)
    ensures Represents(RunHeap(s, base, root, ops).value, base, root, T', fr', FlatRun(h, ops))
    ensures PagesOk(RunHeap(s, base, root, ops).value.m, base, root, T', fr', pages + MappedPages(ops))
    ensures LayoutOk(s.m, base, root, T, fr) && (forall op | op in ops :: KeepsForm(op)) ==>
              LayoutOk(RunHeap(s, base, root, ops).value.m, base, root, T', fr')
    decreases |ops|
  {
    hide Represents, LayoutOk, HeapStep, FlatStep, FlatStepOk, Tiled, PagesOk, Layout, KeepsForm;
    if ops == [] {
      T', fr' := T, fr;
      assert pages + {} == pages;
    } else {
      FreeBlockFits(s, base, root, T, fr, h);
      var T1, fr1 := StepRefines(s, base, root, T, fr, h, sizes, pages, ops);
      FlatStepTiles(h, sizes, pages, ops);
      var s1 := HeapStep(s, base, root, ops[0]).value;
      RepresentsFacts(s1, base, root, T1, fr1, FlatStep(h, ops[0]));
      T', fr' := RunRefines(s1, base, root, T1, fr1, FlatStep(h, ops[0]), sizes + History([ops[0]]),
                            pages + MappedPages([ops[0]]), ops[1..]);
      HistoryTail(sizes, pages, ops);
    }
  }

  /** Every run keeps the invariant. */
  lemma RunTiles(s: HeapState, base: nat, root: nat, h: Flat, sizes: seq<nat>, pages: set<nat>, ops: seq<HeapOp>)
    requires HeapRunOk(s, base, root, h, sizes, pages) && OpsOk(sizes, pages, ops)
    requires Layout(s.m, base) && RunHeap(s, base, root, ops).Some?
    ensures FlatRunOk(h, ops)
    ensures HeapRunOk(RunHeap(s, base, root, ops).value, base, root, FlatRun(h, ops),
                      sizes + History(ops), pages + MappedPages(ops))
  {
    hide Represents, RunHeap, FlatRun, FlatRunOk, Tiled, PagesOk;
    var T: Tables, fr: seq<nat> :| Represents(s, base, root, T, fr, h) && PagesOk(s.m, base, root, T, fr, pages);
    FreeBlockFits(s, base, root, T, fr, h);
    var T', fr' := RunRefines(s, base, root, T, fr, h, sizes, pages, ops);
    FlatRunBytes(h, sizes, pages, ops);
  }

  /** Runs that take no frames of their own keep the closed form of the heap's frames. */
  lemma RunKeepsLayout(s: HeapState, base: nat, root: nat, h: Flat, sizes: seq<nat>, ops: seq<HeapOp>)
    requires LaidOut(s, base, root, h) && Tiled(h.bytes, 0, sizes, h.at) && OpsOk(sizes, {}, ops)
    requires forall op | op in ops :: op.Request? || op.Write?
    requires Layout(s.m, base) && RunHeap(s, base, root, ops).Some?
    ensures FlatRunOk(h, ops) && LaidOut(RunHeap(s, base, root, ops).value, base, root, FlatRun(h, ops))
  {
    hide Represents, LayoutOk, RunHeap, FlatRun, FlatRunOk, Tiled;
    var T: Tables, fr: seq<nat> :| Represents(s, base, root, T, fr, h) && LayoutOk(s.m, base, root, T, fr);
    var T', fr' := RunRefines(s, base, root, T, fr, h, sizes, {}, ops);
  }

  // What the processor reads.

  /** Reading block sizes from the headers, through the page tables. */
  function HeaderWalk(m: Mem, root: nat, v: nat, free_list: nat): seq<nat>
    decreases free_list - v
  {
    if v + 16 > free_list then []
    else [LoadWord(m, root, v)] + HeaderWalk(m, root, v + 16 + LoadWord(m, root, v), free_list)
  }

  lemma {:induction false} HeaderWalkIs(
    m: Mem, base: nat, root: nat, T: Tables, fr: seq<nat>, b: seq<byte>, from: nat, at: nat)
    requires HeapIs(m, base, root, T, fr, b) && at <= |b|
    ensures HeaderWalk(m, root, HEAP_START + from, HEAP_START + at) == WalkHeaders(b, from, at)
    decreases at - from
  {
    hide LoadWord, StoreWord, SetWord, HeapIs, Word;
    if from + 16 <= at {
      WordAccess(m, base, root, T, fr, b, from, 0);
      assert LoadWord(m, root, HEAP_START + from) == Word(b, from);
      HeaderWalkIs(m, base, root, T, fr, b, from + 16 + Word(b, from), at);
    }
  }

  /** Byte i of the heap as the processor reads it. */
  function HeapByte(m: Mem, root: nat, i: nat): byte {
    LoadByte(m, root, HEAP_START + i)
  }

  lemma HeapReads(s: HeapState, base: nat, root: nat, h: Flat, sizes: seq<nat>, pages: set<nat>)
    requires HeapRunOk(s, base, root, h, sizes, pages)
    ensures s.alloc_end == HEAP_START + |h.bytes| && s.free_list == HEAP_START + h.at && h.at <= |h.bytes|
    ensures forall i: nat | i < |h.bytes| :: HeapByte(s.m, root, i) == h.bytes[i]
  {
    hide HeapOk, Tiled, Word, HwTranslate;
    var T: Tables, fr: seq<nat> :| Represents(s, base, root, T, fr, h);
    forall i: nat | i < |h.bytes|
      ensures HeapByte(s.m, root, i) == h.bytes[i]
    {
      HeapTranslate(s.m, base, root, T, fr, i);
    }
  }

  lemma HeaderWalkRecovers(s: HeapState, base: nat, root: nat, h: Flat, sizes: seq<nat>, pages: set<nat>)
    requires HeapRunOk(s, base, root, h, sizes, pages)
    ensures HeaderWalk(s.m, root, HEAP_START, s.free_list) == sizes
  {
    hide HeapOk, Tiled, Word, HeaderWalk, WalkHeaders;
    var T: Tables, fr: seq<nat> :| Represents(s, base, root, T, fr, h);
    HeaderWalkIs(s.m, base, root, T, fr, h.bytes, 0, h.at);
    WalkRecoversHistory(h.bytes, 0, sizes, h.at);
  }

  /** Over every run, stores of others through their own pages included, heap memory read
      through the page tables is a flat array: the machine reads exactly the bytes of the same
      run on the array; each byte that was allocated before the run or is written in it, in
      blocks old or new, holds what was last written to it; and walking the headers from the
      start of the heap gives back the whole history of requests. */
  lemma HeapIsFlatArray(
    s: HeapState, base: nat, root: nat, h: Flat, sizes: seq<nat>, pages: set<nat>, ops: seq<HeapOp>)
    requires HeapRunOk(s, base, root, h, sizes, pages) && OpsOk(sizes, pages, ops)
    requires Layout(s.m, base) && RunHeap(s, base, root, ops).Some?
    ensures FlatRunOk(h, ops)
    ensures
      var s', h' := RunHeap(s, base, root, ops).value, FlatRun(h, ops);
      && s'.alloc_end == HEAP_START + |h'.bytes|
      && (forall i: nat | i < |h'.bytes| :: HeapByte(s'.m, root, i) == h'.bytes[i])
      && (forall i: nat | i < h.at || Touches(ops, i) ::
            HeapByte(s'.m, root, i) == LastWritten(ops, i, HeapByte(s.m, root, i)))
      && HeaderWalk(s'.m, root, HEAP_START, s'.free_list) == sizes + History(ops)
      && s'.free_list == s.free_list + Sum(History(ops)) + 16 * |History(ops)|
  {
    hide HeapRunOk, HeapByte, RunHeap, HeaderWalk, LastWritten, FlatRun, FlatRunOk, Touches, Tiled;
    var s' := RunHeap(s, base, root, ops).value;
    RunTiles(s, base, root, h, sizes, pages, ops);
    var h' := FlatRun(h, ops);
    HeapReads(s, base, root, h, sizes, pages);
    HeapReads(s', base, root, h', sizes + History(ops), pages + MappedPages(ops));
    RunIsTiled(s, base, root, h, sizes, pages);
    FlatRunBytes(h, sizes, pages, ops);
    HeaderWalkRecovers(s', base, root, h', sizes + History(ops), pages + MappedPages(ops));
    forall i: nat | i < h.at || Touches(ops, i)
      ensures HeapByte(s'.m, root, i) == LastWritten(ops, i, HeapByte(s.m, root, i))
    {
    }
    HistorySum(s, base, root, h, sizes, pages);
    HistorySum(s', base, root, h', sizes + History(ops), pages + MappedPages(ops));
    SumAppend(sizes, History(ops));
  }

  lemma RunIsTiled(s: HeapState, base: nat, root: nat, h: Flat, sizes: seq<nat>, pages: set<nat>)
    requires HeapRunOk(s, base, root, h, sizes, pages)
    ensures Tiled(h.bytes, 0, sizes, h.at)
  {
  }

  lemma HistorySum(s: HeapState, base: nat, root: nat, h: Flat, sizes: seq<nat>, pages: set<nat>)
    requires HeapRunOk(s, base, root, h, sizes, pages)
    ensures s.free_list == HEAP_START + h.at == HEAP_START + Sum(sizes) + 16 * |sizes|
  {
    hide HeapOk, Tiled, Word;
    TilingConserves(h.bytes, 0, sizes, h.at);
  }

  lemma {:induction false} SumAppend(a: seq<nat>, b: seq<nat>)
    ensures Sum(a + b) == Sum(a) + Sum(b)
  {
    if a == [] {
      assert a + b == b;
    } else {
      assert (a + b)[1..] == a[1..] + b;
      SumAppend(a[1..], b);
    }
  }
}
