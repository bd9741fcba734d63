/** Runs of frame allocations and page mappings: the tables refine a flat map in which the
    last write to a page wins. */
module PageRuns {
  import opened Wrappers
  import opened Bits
  import opened Memory
  import opened Sv48
  import opened FrameAllocator
  import opened PageTree
  import opened PageMapping

  /** kalloc_frame, then map_page of that frame; None when frames run out. */
  function MapNewPage(m: Mem, base: nat, root: nat, page: nat, flag: nat): (r: Option<(Mem, nat)>)
    requires Layout(m, base)
    ensures r.Some? ==> |r.value.0| == |m|
  {
    match KallocFrame(m, base)
    case None => None
    case Some((m1, f)) =>
      match MapPage(m1, base, root, page, f * FRAME_SIZE, flag)
      case None => None
      case Some(m2) => Some((m2, f))
  }

  ghost predicate Mapped(m: Mem, base: nat, root: nat, T: Tables) {
    Layout(m, base) && Tree(PagesOf(m, base), root, T)
  }

  /** Taking a frame for data keeps the tree and every translation. */
  lemma AllocKeepsTree(m: Mem, base: nat, root: nat, T: Tables)
    requires Mapped(m, base, root, T) && KallocFrame(m, base).Some?
    ensures Mapped(KallocFrame(m, base).value.0, base, root, T)
    ensures forall q: nat | q < PAGES && !DirectPage(q) ::
              Lookup(Words(KallocFrame(m, base).value.0), root, 3, q) == Lookup(Words(m), root, 3, q)
  {
    var (m1, f) := KallocFrame(m, base).value;
    AllocIsRemoval(m, base);
    var s, s2 := PagesOf(m, base), PagesOf(m1, base);
    AllocKeepsWords(m, m1, base);
    assert SameTables(s, s2, T);
    SameTablesKeepsTree(s, s2, root, T);
    forall q: nat | q < PAGES && !DirectPage(q)
      ensures Lookup(Words(m1), root, 3, q) == Lookup(Words(m), root, 3, q)
    {
      PrefixStep(q, 3);
      SameTablesKeepsLookup(s, s2, root, T, root, 3, q);
    }
  }

  lemma AllocKeepsWords(m: Mem, m1: Mem, base: nat)
    requires Layout(m, base) && KeepsBytes(m, m1, base, {})
    ensures forall u: nat | base <= u < |Words(m)| :: Words(m1)[u] == Words(m)[u]
  {
    forall u: nat | base <= u < |Words(m)|
      ensures Words(m1)[u] == Words(m)[u]
    {
      KeepsBytesFrame(m, m1, base, {}, u);
    }
  }

  function NewEntry(f: nat, flag: nat): nat {
    f * 1024 + Or(1, flag)
  }

  /** The tables after MapNewPage. */
  ghost function NewTables(m: Mem, base: nat, root: nat, page: nat, T: Tables): Tables
    requires Layout(m, base) && KallocFrame(m, base).Some?
  {
    GrowTables(KallocFrame(m, base).value.0, base, root, 3, PageOf(page), T)
  }

  lemma NewFrameEntry(m: Mem, base: nat, flag: nat)
    requires Layout(m, base) && KallocFrame(m, base).Some? && flag < 1024
    ensures
      var f := KallocFrame(m, base).value.1;
      && f * FRAME_SIZE / 4096 == f
      && LeafEntry(f, flag) == NewEntry(f, flag) < WORD
      && Ppn(NewEntry(f, flag)) == f && Valid(NewEntry(f, flag))
  {
    var f := KallocFrame(m, base).value.1;
    AllocInRange(m, base);
    LeafEntryFrame(f, flag);
  }

  lemma NewFrameOk(m: Mem, base: nat, root: nat, T: Tables, flag: nat)
    requires Mapped(m, base, root, T) && KallocFrame(m, base).Some? && flag < 1024
    ensures
      var (m1, f) := KallocFrame(m, base).value;
      Mapped(m1, base, root, T) && LeafOk(PagesOf(m1, base), T, NewEntry(f, flag))
  {
    var (m1, f) := KallocFrame(m, base).value;
    NewFrameEntry(m, base, flag);
    AllocKeepsTree(m, base, root, T);
    AllocIsRemoval(m, base);
    TablesNotFree(m, base, root, T);
    hide KallocFrame, LeafEntry, NewEntry;
    assert f !in T.Keys;
  }

  lemma NewPageCanMap(m: Mem, base: nat, root: nat, T: Tables, page: nat, flag: nat)
    requires Mapped(m, base, root, T) && !DirectPage(PageOf(page)) && flag < 1024
    requires MapNewPage(m, base, root, page, flag).Some?
    ensures KallocFrame(m, base).Some?
    ensures
      var (m1, f) := KallocFrame(m, base).value;
      && Mapped(m1, base, root, T)
      && CanMap(m1, base, root, T, root, 3, PageOf(page), NewEntry(f, flag))
      && MapNewPage(m, base, root, page, flag) ==
         Some((MapFrom(m1, base, root, 3, PageOf(page), NewEntry(f, flag)).value, f))
  {
    hide MapFrom, KallocFrame, LeafEntry, NewEntry, Tree, LeafOk;
    NewFrameEntry(m, base, flag);
    NewFrameOk(m, base, root, T, flag);
    PrefixStep(PageOf(page), 3);
    RootTable(m, base, root, T);
  }

  lemma RootTable(m: Mem, base: nat, root: nat, T: Tables)
    requires Mapped(m, base, root, T)
    ensures root in T && T[root] == Node(3, 0)
  {
  }

  /** The tree after a fresh frame is mapped. */
  lemma NewPageKeepsTree(m: Mem, base: nat, root: nat, T: Tables, page: nat, flag: nat)
    requires Mapped(m, base, root, T) && !DirectPage(PageOf(page)) && flag < 1024
    requires MapNewPage(m, base, root, page, flag).Some?
    ensures Mapped(MapNewPage(m, base, root, page, flag).value.0, base, root, NewTables(m, base, root, page, T))
  {
    NewPageCanMap(m, base, root, T, page, flag);
    var (m1, f) := KallocFrame(m, base).value;
    MapFromKeepsTree(m1, base, root, T, root, 3, PageOf(page), NewEntry(f, flag));
  }

  /** The page mapped gets its entry; every other page keeps its own, or none. */
  lemma NewPageLookup(m: Mem, base: nat, root: nat, T: Tables, page: nat, flag: nat, q: nat)
    requires Mapped(m, base, root, T) && !DirectPage(PageOf(page)) && flag < 1024
    requires MapNewPage(m, base, root, page, flag).Some?
    requires q < PAGES && !DirectPage(q)
    ensures
      var (m2, f) := MapNewPage(m, base, root, page, flag).value;
      Lookup(Words(m2), root, 3, q) ==
      if q == PageOf(page) then Some(NewEntry(f, flag)) else Lookup(Words(m), root, 3, q)
  {
    NewPageCanMap(m, base, root, T, page, flag);
    AllocKeepsTree(m, base, root, T);
    var (m1, f) := KallocFrame(m, base).value;
    if q == PageOf(page) {
      MapFromMaps(m1, base, root, T, root, 3, q, NewEntry(f, flag));
    } else {
      MapFromKeepsOthers(m1, base, root, T, root, 3, PageOf(page), NewEntry(f, flag), q);
    }
  }

  /** The frame mapped and the new tables were free; nothing else is touched. */
  lemma NewPageFrames(m: Mem, base: nat, root: nat, T: Tables, page: nat, flag: nat)
    requires Mapped(m, base, root, T) && !DirectPage(PageOf(page)) && flag < 1024
    requires MapNewPage(m, base, root, page, flag).Some?
    ensures
      var (m2, f) := MapNewPage(m, base, root, page, flag).value;
      var T2 := NewTables(m, base, root, page, T);
      && f in FreeSet(m, base) && f !in T2.Keys && (forall g | g in FreeSet(m, base) :: f <= g)
      && TookFrames(FreeSet(m, base) - {f}, FreeSet(m2, base), T.Keys, T2.Keys)
      && KeepsBytes(m, m2, base, T2.Keys)
      && T2.Values == T.Values + PathNodes(PageOf(page), 3)
  {
    NewPageCanMap(m, base, root, T, page, flag);
    AllocIsRemoval(m, base);
    TablesNotFree(m, base, root, T);
    var (m1, f) := KallocFrame(m, base).value;
    var (m2, _) := MapNewPage(m, base, root, page, flag).value;
    var p, e := PageOf(page), NewEntry(f, flag);
    MapFromFrames(m1, base, root, T, root, 3, p, e);
    MapFromKeepsBytes(m1, base, root, T, root, 3, p, e);
    MapFromNodes(m1, base, root, T, root, 3, p, e);
    var keys := NewTables(m, base, root, page, T).Keys;
    KeepsBytesTrans(m, m1, m2, base, {}, keys, keys);
  }

  /** Off the direct map both walkers follow the flat entry of the page. */
  lemma EntryTranslates(m: Mem, base: nat, root: nat, T: Tables, v: nat, e: nat)
    requires Mapped(m, base, root, T) && Canonical(v) && !DirectPage(PageOf(v))
    requires Lookup(Words(m), root, 3, PageOf(v)) == Some(e) && Ppn(e) < 0x10_0000
    ensures SwTranslate(Words(m), root, v) == Ppn(e) * FRAME_SIZE + v % FRAME_SIZE
    ensures HwTranslate(Words(m), root, v) ==
            if HwLeaf(e) then Some(Ppn(e) * FRAME_SIZE + v % FRAME_SIZE) else None
  {
    hide HwLeaf, Lookup, HwWalk, PageOf, Tree, GetOffset, Or;
    FrameOrOffset(Ppn(e), v);
    PrefixStep(PageOf(v), 3);
    RootTable(m, base, root, T);
    WalkersAgree(PagesOf(m, base), root, T, root, 3, v);
  }

  /** Both walkers send every offset of the page to that offset of the frame. */
  lemma NewPageTranslates(m: Mem, base: nat, root: nat, T: Tables, page: nat, flag: nat, v: nat)
    requires Mapped(m, base, root, T) && !DirectPage(PageOf(page)) && flag < 1024
    requires MapNewPage(m, base, root, page, flag).Some?
    requires PageOf(v) == PageOf(page) && Canonical(v)
    ensures
      var (m2, f) := MapNewPage(m, base, root, page, flag).value;
      && SwTranslate(Words(m2), root, v) == f * FRAME_SIZE + v % FRAME_SIZE
      && HwTranslate(Words(m2), root, v) ==
         (if HwLeaf(NewEntry(f, flag)) then Some(f * FRAME_SIZE + v % FRAME_SIZE) else None)
  {
    var (m2, f) := MapNewPage(m, base, root, page, flag).value;
    NewPageLookup(m, base, root, T, page, flag, PageOf(v));
    NewPageKeepsTree(m, base, root, T, page, flag);
    AllocInRange(m, base);
    NewFrameEntry(m, base, flag);
    EntryTranslates(m2, base, root, NewTables(m, base, root, page, T), v, NewEntry(f, flag));
  }

  // Runs.

  /** kalloc_frame, or map_page of any frame with any 16-bit flag. */
  datatype PageOp = Take | Map(page: nat, frame: nat, flag: nat)

  /** The entry a mapping writes. */
  function Entry(op: PageOp): nat
    requires op.Map?
  {
    LeafEntry(op.frame / FRAME_SIZE, op.flag)
  }

  /** A mapping stays off the direct map, and does not name a table or a frame that could
      become one. */
  ghost predicate MapOk(m: Mem, base: nat, T: Tables, op: PageOp)
    requires Layout(m, base) && op.Map?
  {
    !DirectPage(PageOf(op.page)) && op.flag < 0x1_0000 && LeafOk(PagesOf(m, base), T, Entry(op))
  }

  /** One operation: the new memory and the frames it hands out. */
  function Step(m: Mem, base: nat, root: nat, op: PageOp): (r: Option<(Mem, seq<nat>)>)
    requires Layout(m, base)
    ensures r.Some? ==> |r.value.0| == |m|
  {
    match op
    case Take =>
      (match KallocFrame(m, base)
       case None => None
       case Some((m1, f)) => Some((m1, [f])))
    case Map(page, frame, flag) =>
      match MapPage(m, base, root, page, frame, flag)
      case None => None
      case Some(m1) => Some((m1, []))
  }

  ghost function StepTables(m: Mem, base: nat, root: nat, T: Tables, op: PageOp): Tables
    requires Layout(m, base)
  {
    match op
    case Take => T
    case Map(page, _, _) => GrowTables(m, base, root, 3, PageOf(page), T)
  }

  /** Every mapping of the run is allowed at the moment it happens. */
  ghost predicate RunOk(m: Mem, base: nat, root: nat, T: Tables, ops: seq<PageOp>)
    requires Layout(m, base)
    decreases |ops|
  {
    ops == [] ||
    (&& (ops[0].Map? ==> MapOk(m, base, T, ops[0]))
     && (Step(m, base, root, ops[0]).Some? ==>
           RunOk(Step(m, base, root, ops[0]).value.0, base, root, StepTables(m, base, root, T, ops[0]), ops[1..])))
  }

  /** The memory after a run and the frames handed out in it; None when frames run out. */
  function RunPages(m: Mem, base: nat, root: nat, ops: seq<PageOp>): (r: Option<(Mem, seq<nat>)>)
    requires Layout(m, base)
    ensures r.Some? ==> |r.value.0| == |m|
    decreases |ops|
  {
    if ops == [] then Some((m, []))
    else
      match Step(m, base, root, ops[0])
      case None => None
      case Some((m1, f)) =>
        match RunPages(m1, base, root, ops[1..])
        case None => None
        case Some((m2, fs)) => Some((m2, f + fs))
  }

  /** What the tables mean: a finite map from page numbers to last-level entries. */
  ghost function FlatMap(m: Mem, root: nat): map<nat, nat> {
    map q: nat | q < PAGES && !DirectPage(q) && Lookup(Words(m), root, 3, q).Some? ::
      Lookup(Words(m), root, 3, q).value
  }

  function FlatStep(flat: map<nat, nat>, op: PageOp): map<nat, nat> {
    match op
    case Take => flat
    case Map(page, _, _) => flat[PageOf(page) := Entry(op)]
  }

  /** The same run on a flat map. */
  function FlatRun(flat: map<nat, nat>, ops: seq<PageOp>): map<nat, nat>
    decreases |ops|
  {
    if ops == [] then flat else FlatRun(FlatStep(flat, ops[0]), ops[1..])
  }

  lemma EntryFits(ppn: nat, flag: nat)
    requires flag < 0x1_0000
    ensures LeafEntry(ppn, flag) < WORD
  {
    Pow2Values();
    LeafEntryFields(ppn, flag);
    OrSplit(0, 0, 40, ppn % 0x100_0000_0000, flag / 1024);
  }

  lemma MapCanMap(m: Mem, base: nat, root: nat, T: Tables, op: PageOp)
    requires Mapped(m, base, root, T) && op.Map? && MapOk(m, base, T, op)
    requires Step(m, base, root, op).Some?
    ensures CanMap(m, base, root, T, root, 3, PageOf(op.page), Entry(op))
    ensures Step(m, base, root, op) == Some((MapFrom(m, base, root, 3, PageOf(op.page), Entry(op)).value, []))
  {
    hide MapFrom, LeafEntry, Tree, LeafOk;
    EntryFits(op.frame / FRAME_SIZE, op.flag);
    PrefixStep(PageOf(op.page), 3);
    RootTable(m, base, root, T);
  }

  /** One operation keeps the tree. */
  lemma StepKeepsTree(m: Mem, base: nat, root: nat, T: Tables, op: PageOp)
    requires Mapped(m, base, root, T) && (op.Map? ==> MapOk(m, base, T, op))
    requires Step(m, base, root, op).Some?
    ensures Mapped(Step(m, base, root, op).value.0, base, root, StepTables(m, base, root, T, op))
  {
    if op.Take? {
      AllocKeepsTree(m, base, root, T);
    } else {
      MapCanMap(m, base, root, T, op);
      MapFromKeepsTree(m, base, root, T, root, 3, PageOf(op.page), Entry(op));
    }
  }

  lemma StepLookup(m: Mem, base: nat, root: nat, T: Tables, op: PageOp, q: nat)
    requires Mapped(m, base, root, T) && (op.Map? ==> MapOk(m, base, T, op))
    requires Step(m, base, root, op).Some? && q < PAGES && !DirectPage(q)
    ensures Lookup(Words(Step(m, base, root, op).value.0), root, 3, q) ==
            if op.Map? && q == PageOf(op.page) then Some(Entry(op)) else Lookup(Words(m), root, 3, q)
  {
    if op.Take? {
      AllocKeepsTree(m, base, root, T);
    } else {
      MapCanMap(m, base, root, T, op);
      hide MapFrom, MapPage;
      if q == PageOf(op.page) {
        MapFromMaps(m, base, root, T, root, 3, q, Entry(op));
      } else {
        MapFromKeepsOthers(m, base, root, T, root, 3, PageOf(op.page), Entry(op), q);
      }
    }
  }

  /** One operation on the tables is one on the flat map. */
  lemma StepFlat(m: Mem, base: nat, root: nat, T: Tables, op: PageOp)
    requires Mapped(m, base, root, T) && (op.Map? ==> MapOk(m, base, T, op))
    requires Step(m, base, root, op).Some?
    ensures FlatMap(Step(m, base, root, op).value.0, root) == FlatStep(FlatMap(m, root), op)
  {
    hide Step, Tree, Entry, MapOk, Words, Lookup;
    forall q: nat | q < PAGES && !DirectPage(q)
      ensures Lookup(Words(Step(m, base, root, op).value.0), root, 3, q) ==
              if op.Map? && q == PageOf(op.page) then Some(Entry(op)) else Lookup(Words(m), root, 3, q)
    {
      StepLookup(m, base, root, T, op, q);
    }
    if op.Map? { MapStaysOff(m, base, T, op); }
  }

  lemma MapStaysOff(m: Mem, base: nat, T: Tables, op: PageOp)
    requires Layout(m, base) && op.Map? && MapOk(m, base, T, op)
    ensures !DirectPage(PageOf(op.page))
  {
  }

  /** Over every run of allocations and mappings the four-level tables equal the flat map in
      which the last write to a page wins, and the direct map never moves. */
  lemma {:induction false} RunRefinesFlatMap(m: Mem, base: nat, root: nat, T: Tables, ops: seq<PageOp>)
    requires Mapped(m, base, root, T) && RunOk(m, base, root, T, ops)
    requires RunPages(m, base, root, ops).Some?
    ensures
      var (m', _) := RunPages(m, base, root, ops).value;
      && FlatMap(m', root) == FlatRun(FlatMap(m, root), ops)
      && (exists T' :: Mapped(m', base, root, T'))
      && (forall a: nat | a < 0x1_0000_0000 :: HwTranslate(Words(m'), root, VIRTUAL_OFFSET + a) == Some(a))
    decreases |ops|
  {
    hide FlatMap, FlatStep, Tree, Words, StepTables, HwTranslate, Step, MapOk;
    if ops == [] {
      forall a: nat | a < 0x1_0000_0000
        ensures HwTranslate(Words(m), root, VIRTUAL_OFFSET + a) == Some(a)
      {
        DirectMapHolds(PagesOf(m, base), root, T, a);
      }
    } else {
      StepKeepsTree(m, base, root, T, ops[0]);
      StepFlat(m, base, root, T, ops[0]);
      RunRefinesFlatMap(
        Step(m, base, root, ops[0]).value.0, base, root, StepTables(m, base, root, T, ops[0]), ops[1..]);
    }
  }

  // The frames of a run.

  /** Frames handed out were free, are not free any more, and are pairwise distinct. */
  ghost predicate FreshFrames(free: set<nat>, free': set<nat>, frames: seq<nat>) {
    && free' <= free
    && (forall k | 0 <= k < |frames| :: frames[k] in free && frames[k] !in free')
    && (forall j, k | 0 <= j < k < |frames| :: frames[j] != frames[k])
  }

  lemma FreshFramesCons(free: set<nat>, free1: set<nat>, free': set<nat>, f: nat, frames: seq<nat>)
    requires f in free && f !in free1 && free1 <= free && FreshFrames(free1, free', frames)
    ensures FreshFrames(free, free', [f] + frames)
  {
  }

  lemma FreshFramesSkip(free: set<nat>, free1: set<nat>, free': set<nat>, frames: seq<nat>)
    requires free1 <= free && FreshFrames(free1, free', frames)
    ensures FreshFrames(free, free', [] + frames)
  {
    assert [] + frames == frames;
  }

  /** A frame that is neither free nor a table stays so, and one handed out becomes so. */
  lemma StepFrames(m: Mem, base: nat, root: nat, T: Tables, op: PageOp)
    requires Mapped(m, base, root, T) && (op.Map? ==> MapOk(m, base, T, op))
    requires Step(m, base, root, op).Some?
    ensures
      var (m1, f) := Step(m, base, root, op).value;
      var T1 := StepTables(m, base, root, T, op);
      && FreeSet(m1, base) <= FreeSet(m, base)
      && T1.Keys - T.Keys <= FreeSet(m, base)
      && (op.Take? ==> |f| == 1 && f[0] in FreeSet(m, base) && f[0] !in FreeSet(m1, base) && f[0] !in T1)
      && (op.Map? ==> f == [])
  {
    if op.Take? {
      AllocIsRemoval(m, base);
      TablesNotFree(m, base, root, T);
      var f := KallocFrame(m, base).value.1;
      assert f !in T.Keys;
    } else {
      MapCanMap(m, base, root, T, op);
      MapFromFrames(m, base, root, T, root, 3, PageOf(op.page), Entry(op));
    }
  }

  /** Frame f belongs to nobody but the caller it was handed to. */
  ghost predicate Private(m: Mem, base: nat, T: Tables, f: nat)
    requires Layout(m, base)
  {
    f !in FreeSet(m, base) && f !in T.Keys
  }

  /** Over every run the frames handed out are pairwise distinct and were free before it;
      none of them is free or a table after it, so each may be mapped at any time. */
  lemma {:induction false} RunFramesDistinct(m: Mem, base: nat, root: nat, T: Tables, ops: seq<PageOp>)
    returns (T': Tables)
    requires Mapped(m, base, root, T) && RunOk(m, base, root, T, ops)
    requires RunPages(m, base, root, ops).Some?
    ensures
      var (m', frames) := RunPages(m, base, root, ops).value;
      && Mapped(m', base, root, T') && FreshFrames(FreeSet(m, base), FreeSet(m', base), frames)
      && (forall k | 0 <= k < |frames| :: Private(m', base, T', frames[k]))
      && (forall f: nat | Private(m, base, T, f) :: Private(m', base, T', f))
    decreases |ops|
  {
    hide Step, FreeSet, Tree, StepTables, MapOk, PagesOf;
    if ops == [] {
      T' := T;
    } else {
      StepKeepsTree(m, base, root, T, ops[0]);
      StepFrames(m, base, root, T, ops[0]);
      var (m1, f) := Step(m, base, root, ops[0]).value;
      T' := RunFramesDistinct(m1, base, root, StepTables(m, base, root, T, ops[0]), ops[1..]);
      var (m', rest) := RunPages(m1, base, root, ops[1..]).value;
      if ops[0].Take? {
        assert f == [f[0]];
        FreshFramesCons(FreeSet(m, base), FreeSet(m1, base), FreeSet(m', base), f[0], rest);
        assert Private(m1, base, StepTables(m, base, root, T, ops[0]), f[0]);
      } else {
        FreshFramesSkip(FreeSet(m, base), FreeSet(m1, base), FreeSet(m', base), rest);
      }
    }
  }

  /** A frame handed out may be mapped with any ten-bit flag. */
  lemma PrivateMayBeMapped(m: Mem, base: nat, T: Tables, f: nat, page: nat, flag: nat)
    requires Layout(m, base) && Private(m, base, T, f) && f < 0x100_0000_0000
    requires flag < 1024 && !DirectPage(PageOf(page))
    ensures MapOk(m, base, T, Map(page, f * FRAME_SIZE, flag))
  {
    hide LeafEntry, Tree;
    LeafEntryFrame(f, flag);
    assert f * FRAME_SIZE / FRAME_SIZE == f;
  }
}
