/** map_page on physical memory: it keeps the table tree, refines a flat map from page
    numbers to entries, and takes exactly the frames its missing tables need. */
module PageMapping {
  import opened Wrappers
  import opened Bits
  import opened Memory
  import opened Sv48
  import opened FrameAllocator
  import opened PageTree

  predicate FreePage(m: Mem, base: nat, f: nat)
    requires Layout(m, base)
  {
    base <= f < base + Cap(m, base) && IsFree(m, base, f - base)
  }

  ghost function FreeSet(m: Mem, base: nat): set<nat>
    requires Layout(m, base)
  {
    set f: nat | f < base + Cap(m, base) && FreePage(m, base, f)
  }

  ghost function PagesOf(m: Mem, base: nat): Pages
    requires Layout(m, base)
  {
    Pages(Words(m), FreeSet(m, base), base, base + Cap(m, base))
  }

  /** Memory after slot i of table t gets a new table; None when frames run out. */
  function AddTable(m: Mem, base: nat, t: nat, i: nat): (r: Option<(Mem, nat)>)
    requires Layout(m, base) && InMem(m, t) && i < 512
    ensures r.Some? ==> |r.value.0| == |m|
  {
    match KallocFrame(m, base)
    case None => None
    case Some((m1, f)) => Some((SetWord(m1, EntryAddress(t, i), CreateValidPageTableEntry(f)), f))
  }

  /** map_page from a table of the given level on; None when frames run out. */
  function MapFrom(m: Mem, base: nat, t: nat, level: nat, p: nat, e: nat): (r: Option<Mem>)
    requires Layout(m, base)
    ensures r.Some? ==> |r.value| == |m|
    decreases level
  {
    if !InMem(m, t) then None
    else
      var i := Slot(p, level);
      if level == 0 then Some(SetWord(m, EntryAddress(t, i), e))
      else if Valid(Word(m, EntryAddress(t, i))) then
        MapFrom(m, base, Ppn(Word(m, EntryAddress(t, i))), level - 1, p, e)
      else
        match AddTable(m, base, t, i)
        case None => None
        case Some((m2, f)) => MapFrom(m2, base, f, level - 1, p, e)
  }

  /** map_page(virtual_page, physical_frame, flag) */
  function MapPage(m: Mem, base: nat, root: nat, page: nat, frame: nat, flag: nat): (r: Option<Mem>)
    requires Layout(m, base)
    ensures r.Some? ==> |r.value| == |m|
  {
    MapFrom(m, base, root, 3, PageOf(page), LeafEntry(frame / 4096, flag))
  }

  /** The tables after MapFrom. */
  ghost function GrowTables(m: Mem, base: nat, t: nat, level: nat, p: nat, T: Tables): Tables
    requires Layout(m, base)
    decreases level
  {
    if !InMem(m, t) || level == 0 || t !in T || T[t].level != level then T
    else
      var i := Slot(p, level);
      if Valid(Word(m, EntryAddress(t, i))) then
        GrowTables(m, base, Ppn(Word(m, EntryAddress(t, i))), level - 1, p, T)
      else
        match AddTable(m, base, t, i)
        case None => T
        case Some((m2, f)) => GrowTables(m2, base, f, level - 1, p, T[f := Child(T[t], i)])
  }

  // The two steps on bytes are the two steps on pages.

  predicate InFlags(base: nat, a: nat) {
    base * FRAME_SIZE <= a + FRAMES_FOR_MANAGING * FRAME_SIZE && a < base * FRAME_SIZE
  }

  /** Outside the flag bytes and the given frames nothing changed. */
  ghost predicate KeepsBytes(m: Mem, m': Mem, base: nat, frames: set<nat>) {
    && |m'| == |m|
    && forall a | 0 <= a < |m| && !InFlags(base, a) && a / FRAME_SIZE !in frames :: m'[a] == m[a]
  }

  lemma KeepsBytesFrame(m: Mem, m': Mem, base: nat, frames: set<nat>, t: nat)
    requires KeepsBytes(m, m', base, frames) && InMem(m, t) && base <= t && t !in frames
    ensures SameFrame(m, m', t) && WordsOf(m', t) == WordsOf(m, t)
  {
    forall a | t * FRAME_SIZE <= a < (t + 1) * FRAME_SIZE
      ensures m'[a] == m[a]
    {
      assert a / FRAME_SIZE == t;
    }
    WordsSame(m, m', t);
  }

  lemma AllocIsRemoval(m: Mem, base: nat)
    requires Layout(m, base) && KallocFrame(m, base).Some?
    ensures
      var (m1, f) := KallocFrame(m, base).value;
      && f in FreeSet(m, base)
      && FreeSet(m1, base) == FreeSet(m, base) - {f}
      && (forall g | g in FreeSet(m, base) :: f <= g)
      && KeepsBytes(m, m1, base, {})
  {
    var (m1, f) := KallocFrame(m, base).value;
    assert forall g: nat :: FreePage(m1, base, g) <==> FreePage(m, base, g) && g != f;
    assert FreePage(m, base, f);
    forall g | g in FreeSet(m, base)
      ensures f <= g
    {
      assert FreePage(m, base, g);
    }
  }

  lemma SetEntryBytes(m: Mem, base: nat, t: nat, i: nat, w: nat)
    requires Layout(m, base) && InMem(m, t) && base <= t && i < 512
    ensures
      var m2 := SetWord(m, EntryAddress(t, i), w);
      && KeepsBytes(m, m2, base, {t})
      && FreeSet(m2, base) == FreeSet(m, base)
  {
    var m2 := SetWord(m, EntryAddress(t, i), w);
    assert forall g: nat :: FreePage(m2, base, g) == FreePage(m, base, g);
  }

  lemma SetLeafIsLeafSet(m: Mem, base: nat, t: nat, i: nat, e: nat)
    requires Layout(m, base) && InMem(m, t) && base <= t && i < 512 && e < WORD
    ensures LeafSet(PagesOf(m, base), PagesOf(SetWord(m, EntryAddress(t, i), e), base), t, i, e)
  {
    var m2 := SetWord(m, EntryAddress(t, i), e);
    SetEntryBytes(m, base, t, i, e);
    WordsSetWord(m, t, i, e);
    forall u: nat | u < |Words(m)| && u != t
      ensures Words(m2)[u] == Words(m)[u]
    {
      WordsSame(m, m2, u);
    }
  }

  lemma KeepsBytesWords(m: Mem, m': Mem, base: nat, t: nat)
    requires Layout(m, base) && KeepsBytes(m, m', base, {t})
    ensures forall u: nat | base <= u < |Words(m)| && u != t :: Words(m')[u] == Words(m)[u]
  {
    forall u: nat | base <= u < |Words(m)| && u != t
      ensures Words(m')[u] == Words(m)[u]
    {
      KeepsBytesFrame(m, m', base, {t}, u);
    }
  }

  lemma AllocInRange(m: Mem, base: nat)
    requires Layout(m, base) && KallocFrame(m, base).Some?
    ensures KallocFrame(m, base).value.1 < 0x10_0000
    ensures CreateValidPageTableEntry(KallocFrame(m, base).value.1) == TableEntry(KallocFrame(m, base).value.1)
  {
    var f := KallocFrame(m, base).value.1;
    assert (f + 1) * FRAME_SIZE <= |m|;
  }

  lemma AddTableBytes(m: Mem, base: nat, t: nat, i: nat)
    requires Layout(m, base) && InMem(m, t) && base <= t && i < 512 && AddTable(m, base, t, i).Some?
    ensures
      var (m2, f) := AddTable(m, base, t, i).value;
      && f == KallocFrame(m, base).value.1 && f < 0x10_0000
      && f in FreeSet(m, base)
      && FreeSet(m2, base) == FreeSet(m, base) - {f}
      && KeepsBytes(m, m2, base, {t})
      && WordsOf(m2, t) == WordsOf(m, t)[i := TableEntry(f)]
  {
    var (m1, f) := KallocFrame(m, base).value;
    AllocIsRemoval(m, base);
    AllocInRange(m, base);
    KeepsBytesFrame(m, m1, base, {}, t);
    AddTableWrite(m, m1, base, t, i, TableEntry(f));
  }

  lemma AddTableWrite(m: Mem, m1: Mem, base: nat, t: nat, i: nat, e: nat)
    requires Layout(m, base) && InMem(m, t) && base <= t && i < 512 && e < WORD
    requires KeepsBytes(m, m1, base, {}) && WordsOf(m1, t) == WordsOf(m, t)
    ensures
      var m2 := SetWord(m1, EntryAddress(t, i), e);
      && KeepsBytes(m, m2, base, {t})
      && FreeSet(m2, base) == FreeSet(m1, base)
      && WordsOf(m2, t) == WordsOf(m, t)[i := e]
  {
    SetEntryBytes(m1, base, t, i, e);
    WordsSetWord(m1, t, i, e);
    KeepsBytesTrans(m, m1, SetWord(m1, EntryAddress(t, i), e), base, {}, {t}, {t});
  }

  lemma KeepsBytesTrans(m: Mem, m1: Mem, m2: Mem, base: nat, a: set<nat>, b: set<nat>, c: set<nat>)
    requires KeepsBytes(m, m1, base, a) && KeepsBytes(m1, m2, base, b) && a <= c && b <= c
    ensures KeepsBytes(m, m2, base, c)
  {
  }

  lemma AddTableIsAdded(m: Mem, base: nat, t: nat, i: nat)
    requires Layout(m, base) && InMem(m, t) && base <= t && i < 512 && AddTable(m, base, t, i).Some?
    ensures
      var (m2, f) := AddTable(m, base, t, i).value;
      && f == KallocFrame(m, base).value.1
      && TableAdded(PagesOf(m, base), PagesOf(m2, base), t, i, f)
      && KeepsBytes(m, m2, base, {t})
  {
    AddTableBytes(m, base, t, i);
    KeepsBytesWords(m, AddTable(m, base, t, i).value.0, base, t);
  }

  // One level of map_page.

  /** map_page for page p has reached table t of the given level. */
  ghost predicate AtTable(m: Mem, base: nat, root: nat, T: Tables, t: nat, level: nat, p: nat) {
    && Layout(m, base)
    && Tree(PagesOf(m, base), root, T)
    && t in T && p < PAGES && !DirectPage(p)
    && T[t] == Node(level, Prefix(p, level))
  }

  lemma TableInMem(m: Mem, base: nat, root: nat, T: Tables, t: nat)
    requires Layout(m, base) && Tree(PagesOf(m, base), root, T) && t in T
    ensures InMem(m, t) && base <= t < 0x10_0000 && Words(m)[t] == WordsOf(m, t)
  {
  }

  lemma DescendExisting(m: Mem, base: nat, root: nat, T: Tables, t: nat, level: nat, p: nat)
    requires AtTable(m, base, root, T, t, level, p) && level > 0
    requires InMem(m, t) && Valid(Word(m, EntryAddress(t, Slot(p, level))))
    ensures AtTable(m, base, root, T, Ppn(Word(m, EntryAddress(t, Slot(p, level)))), level - 1, p)
  {
    WalkStep(PagesOf(m, base), root, T, t, level, p);
    assert Words(m)[t][Slot(p, level)] == Word(m, EntryAddress(t, Slot(p, level)));
  }

  lemma SlotIsEmpty(m: Mem, base: nat, root: nat, T: Tables, t: nat, level: nat, p: nat)
    requires AtTable(m, base, root, T, t, level, p) && level > 0
    requires InMem(m, t) && !Valid(Word(m, EntryAddress(t, Slot(p, level))))
    ensures EmptySlot(PagesOf(m, base), root, T, t, Slot(p, level))
    ensures Child(T[t], Slot(p, level)) == Node(level - 1, Prefix(p, level - 1))
  {
    WalkStep(PagesOf(m, base), root, T, t, level, p);
    PrefixStep(p, level);
    assert Words(m)[t][Slot(p, level)] == Word(m, EntryAddress(t, Slot(p, level)));
  }

  /** Off the direct map a walk never meets the direct map's own entries. */
  lemma WalkAvoidsDirect(m: Mem, base: nat, root: nat, T: Tables, t: nat, level: nat, p: nat)
    requires AtTable(m, base, root, T, t, level, p) && level > 0
    requires InMem(m, t) && !Valid(Word(m, EntryAddress(t, Slot(p, level))))
    ensures !DirectSlot(T[t], Slot(p, level)) && !(t == root && Slot(p, level) == 256)
  {
    SlotIsEmpty(m, base, root, T, t, level, p);
  }

  lemma DescendNew(m: Mem, base: nat, root: nat, T: Tables, t: nat, level: nat, p: nat)
    requires AtTable(m, base, root, T, t, level, p) && level > 0
    requires InMem(m, t) && !Valid(Word(m, EntryAddress(t, Slot(p, level))))
    requires AddTable(m, base, t, Slot(p, level)).Some?
    ensures
      var i := Slot(p, level);
      var (m2, f) := AddTable(m, base, t, i).value;
      && f !in T && f in FreeSet(m, base)
      && Child(T[t], i) == Node(level - 1, Prefix(p, level - 1))
      && TableAdded(PagesOf(m, base), PagesOf(m2, base), t, i, f)
      && AtTable(m2, base, root, T[f := Child(T[t], i)], f, level - 1, p)
  {
    var i := Slot(p, level);
    var (m2, f) := AddTable(m, base, t, i).value;
    SlotIsEmpty(m, base, root, T, t, level, p);
    AddTableIsAdded(m, base, t, i);
    AddedTaken(PagesOf(m, base), PagesOf(m2, base), root, T, t, i, f);
    AddedKeepsTree(PagesOf(m, base), PagesOf(m2, base), root, T, t, i, f);
  }

  ghost predicate CanMap(m: Mem, base: nat, root: nat, T: Tables, t: nat, level: nat, p: nat, e: nat) {
    && AtTable(m, base, root, T, t, level, p)
    && LeafOk(PagesOf(m, base), T, e) && e < WORD
    && MapFrom(m, base, t, level, p, e).Some?
  }

  lemma CanMapNew(m: Mem, base: nat, root: nat, T: Tables, t: nat, level: nat, p: nat, e: nat)
    requires CanMap(m, base, root, T, t, level, p, e) && level > 0
    requires InMem(m, t) && !Valid(Word(m, EntryAddress(t, Slot(p, level))))
    ensures AddTable(m, base, t, Slot(p, level)).Some?
    ensures
      var i := Slot(p, level);
      var (m2, f) := AddTable(m, base, t, i).value;
      && CanMap(m2, base, root, T[f := Child(T[t], i)], f, level - 1, p, e)
      && MapFrom(m, base, t, level, p, e) == MapFrom(m2, base, f, level - 1, p, e)
      && GrowTables(m, base, t, level, p, T) == GrowTables(m2, base, f, level - 1, p, T[f := Child(T[t], i)])
  {
    DescendNew(m, base, root, T, t, level, p);
  }

  lemma CanMapExisting(m: Mem, base: nat, root: nat, T: Tables, t: nat, level: nat, p: nat, e: nat)
    requires CanMap(m, base, root, T, t, level, p, e) && level > 0
    requires InMem(m, t) && Valid(Word(m, EntryAddress(t, Slot(p, level))))
    ensures
      var c := Ppn(Word(m, EntryAddress(t, Slot(p, level))));
      && CanMap(m, base, root, T, c, level - 1, p, e)
      && MapFrom(m, base, t, level, p, e) == MapFrom(m, base, c, level - 1, p, e)
      && GrowTables(m, base, t, level, p, T) == GrowTables(m, base, c, level - 1, p, T)
  {
    DescendExisting(m, base, root, T, t, level, p);
  }

  // What map_page keeps.

  /** map_page keeps the table tree while it allocates up to three tables of its own. */
  lemma {:induction false} MapFromKeepsTree(
    m: Mem, base: nat, root: nat, T: Tables, t: nat, level: nat, p: nat, e: nat)
    requires CanMap(m, base, root, T, t, level, p, e)
    ensures Tree(PagesOf(MapFrom(m, base, t, level, p, e).value, base), root, GrowTables(m, base, t, level, p, T))
    decreases level
  {
    TableInMem(m, base, root, T, t);
    var i := Slot(p, level);
    if level == 0 {
      SetLeafIsLeafSet(m, base, t, i, e);
      LeafSetKeepsTree(PagesOf(m, base), PagesOf(SetWord(m, EntryAddress(t, i), e), base), root, T, t, i, e);
    } else if Valid(Word(m, EntryAddress(t, i))) {
      CanMapExisting(m, base, root, T, t, level, p, e);
      MapFromKeepsTree(m, base, root, T, Ppn(Word(m, EntryAddress(t, i))), level - 1, p, e);
    } else {
      CanMapNew(m, base, root, T, t, level, p, e);
      var (m2, f) := AddTable(m, base, t, i).value;
      MapFromKeepsTree(m2, base, root, T[f := Child(T[t], i)], f, level - 1, p, e);
    }
  }

  /** Every page but the one mapped keeps its translation, or stays unmapped. */
  lemma {:induction false} MapFromKeepsOthers(
    m: Mem, base: nat, root: nat, T: Tables, t: nat, level: nat, p: nat, e: nat, q: nat)
    requires CanMap(m, base, root, T, t, level, p, e)
    requires q < PAGES && !DirectPage(q) && q != p
    ensures Lookup(Words(MapFrom(m, base, t, level, p, e).value), root, 3, q) == Lookup(Words(m), root, 3, q)
    decreases level
  {
    hide Word, SetWord, AddTable, FreeSet;
    TableInMem(m, base, root, T, t);
    PrefixStep(q, 3);
    PrefixStep(p, level);
    var i := Slot(p, level);
    if level == 0 {
      SetLeafIsLeafSet(m, base, t, i, e);
      var m2 := SetWord(m, EntryAddress(t, i), e);
      LeafSetLookup(PagesOf(m, base), PagesOf(m2, base), root, T, t, i, e, root, 3, q);
    } else if Valid(Word(m, EntryAddress(t, i))) {
      CanMapExisting(m, base, root, T, t, level, p, e);
      MapFromKeepsOthers(m, base, root, T, Ppn(Word(m, EntryAddress(t, i))), level - 1, p, e, q);
    } else {
      CanMapNew(m, base, root, T, t, level, p, e);
      DescendNew(m, base, root, T, t, level, p);
      SlotIsEmpty(m, base, root, T, t, level, p);
      var (m2, f) := AddTable(m, base, t, i).value;
      MapFromKeepsOthers(m2, base, root, T[f := Child(T[t], i)], f, level - 1, p, e, q);
      AddedKeepsLookup(PagesOf(m, base), PagesOf(m2, base), root, T, t, i, f, root, 3, q);
    }
  }

  /** The page mapped translates to its new entry. */
  lemma {:induction false} MapFromMaps(
    m: Mem, base: nat, root: nat, T: Tables, t: nat, level: nat, p: nat, e: nat)
    requires CanMap(m, base, root, T, t, level, p, e)
    ensures Lookup(Words(MapFrom(m, base, t, level, p, e).value), root, 3, p) == Some(e)
    decreases level
  {
    TableInMem(m, base, root, T, t);
    var i := Slot(p, level);
    if level == 0 {
      SetLeafIsLeafSet(m, base, t, i, e);
      var m2 := SetWord(m, EntryAddress(t, i), e);
      PrefixStep(p, 3);
      LeafSetHit(PagesOf(m, base), PagesOf(m2, base), root, T, t, p, e, root, 3);
    } else if Valid(Word(m, EntryAddress(t, i))) {
      CanMapExisting(m, base, root, T, t, level, p, e);
      MapFromMaps(m, base, root, T, Ppn(Word(m, EntryAddress(t, i))), level - 1, p, e);
    } else {
      CanMapNew(m, base, root, T, t, level, p, e);
      var (m2, f) := AddTable(m, base, t, i).value;
      MapFromMaps(m2, base, root, T[f := Child(T[t], i)], f, level - 1, p, e);
    }
  }

  /** Only flag bytes and table frames change. */
  lemma {:induction false} MapFromKeepsBytes(
    m: Mem, base: nat, root: nat, T: Tables, t: nat, level: nat, p: nat, e: nat)
    requires CanMap(m, base, root, T, t, level, p, e)
    ensures KeepsBytes(m, MapFrom(m, base, t, level, p, e).value, base, GrowTables(m, base, t, level, p, T).Keys)
    decreases level
  {
    hide Tree, Word, SetWord, LeafOk, AddTable, FreeSet;
    TableInMem(m, base, root, T, t);
    GrowTablesKeeps(m, base, t, level, p, T);
    var i := Slot(p, level);
    var m', ks := MapFrom(m, base, t, level, p, e).value, GrowTables(m, base, t, level, p, T).Keys;
    if level == 0 {
      SetEntryBytes(m, base, t, i, e);
    } else if Valid(Word(m, EntryAddress(t, i))) {
      CanMapExisting(m, base, root, T, t, level, p, e);
      MapFromKeepsBytes(m, base, root, T, Ppn(Word(m, EntryAddress(t, i))), level - 1, p, e);
    } else {
      CanMapNew(m, base, root, T, t, level, p, e);
      AddTableIsAdded(m, base, t, i);
      var (m2, f) := AddTable(m, base, t, i).value;
      MapFromKeepsBytes(m2, base, root, T[f := Child(T[t], i)], f, level - 1, p, e);
      KeepsBytesTrans(m, m2, m', base, {t}, ks, ks);
    }
  }

  /** The frames taken between two states are the keys the tables gained. */
  ghost predicate TookFrames(free: set<nat>, free': set<nat>, keys: set<nat>, keys': set<nat>) {
    keys <= keys' && keys' - keys <= free && free' == free - keys'
  }

  lemma TookFramesTrans(free: set<nat>, f: nat, free': set<nat>, keys: set<nat>, keys': set<nat>)
    requires f in free && free !! keys && TookFrames(free - {f}, free', keys + {f}, keys')
    ensures TookFrames(free, free', keys, keys')
  {
    forall x | x in keys' - keys
      ensures x in free
    {
      assert x == f || x in keys' - (keys + {f});
    }
  }

  lemma TablesNotFree(m: Mem, base: nat, root: nat, T: Tables)
    requires Layout(m, base) && Tree(PagesOf(m, base), root, T)
    ensures FreeSet(m, base) !! T.Keys
  {
    forall f | f in T.Keys
      ensures f !in FreeSet(m, base)
    {
      assert f !in PagesOf(m, base).free;
    }
  }

  /** The frames map_page takes are exactly its new tables. */
  lemma {:induction false} MapFromFrames(
    m: Mem, base: nat, root: nat, T: Tables, t: nat, level: nat, p: nat, e: nat)
    requires CanMap(m, base, root, T, t, level, p, e)
    ensures TookFrames(FreeSet(m, base), FreeSet(MapFrom(m, base, t, level, p, e).value, base),
                       T.Keys, GrowTables(m, base, t, level, p, T).Keys)
    decreases level
  {
    hide Tree, Word, SetWord, LeafOk, AddTable, FreeSet;
    TableInMem(m, base, root, T, t);
    TablesNotFree(m, base, root, T);
    var i := Slot(p, level);
    if level == 0 {
      SetEntryBytes(m, base, t, i, e);
    } else if Valid(Word(m, EntryAddress(t, i))) {
      CanMapExisting(m, base, root, T, t, level, p, e);
      MapFromFrames(m, base, root, T, Ppn(Word(m, EntryAddress(t, i))), level - 1, p, e);
    } else {
      CanMapNew(m, base, root, T, t, level, p, e);
      AddTableBytes(m, base, t, i);
      var (m2, f) := AddTable(m, base, t, i).value;
      var T2 := T[f := Child(T[t], i)];
      assert T2.Keys == T.Keys + {f};
      MapFromFrames(m2, base, root, T2, f, level - 1, p, e);
      TookFramesTrans(FreeSet(m, base), f, FreeSet(MapFrom(m, base, t, level, p, e).value, base),
                      T.Keys, GrowTables(m, base, t, level, p, T).Keys);
    }
  }

  lemma {:induction false} GrowTablesKeeps(m: Mem, base: nat, t: nat, level: nat, p: nat, T: Tables)
    requires Layout(m, base)
    ensures T.Keys <= GrowTables(m, base, t, level, p, T).Keys
    decreases level
  {
    if !InMem(m, t) || level == 0 || t !in T || T[t].level != level {
    } else {
      var i := Slot(p, level);
      if Valid(Word(m, EntryAddress(t, i))) {
        GrowTablesKeeps(m, base, Ppn(Word(m, EntryAddress(t, i))), level - 1, p, T);
      } else if AddTable(m, base, t, i).Some? {
        var (m2, f) := AddTable(m, base, t, i).value;
        GrowTablesKeeps(m2, base, f, level - 1, p, T[f := Child(T[t], i)]);
      }
    }
  }

  /** The tables below a level on the path to page p. */
  ghost function PathNodes(p: nat, level: nat): set<Node> {
    if level == 0 then {} else PathNodes(p, level - 1) + {Node(level - 1, Prefix(p, level - 1))}
  }

  lemma WithNewKey(T: Tables, f: nat, n: Node)
    requires f !in T
    ensures T[f := n].Values == T.Values + {n}
  {
    var T2 := T[f := n];
    assert f in T2;
    forall v | v in T.Values
      ensures v in T2.Values
    {
      var u :| u in T && T[u] == v;
      assert T2[u] == v;
    }
  }

  /** The new tables are the ones missing on the path, and no others. */
  lemma {:induction false} MapFromNodes(
    m: Mem, base: nat, root: nat, T: Tables, t: nat, level: nat, p: nat, e: nat)
    requires CanMap(m, base, root, T, t, level, p, e)
    ensures GrowTables(m, base, t, level, p, T).Values == T.Values + PathNodes(p, level)
    decreases level
  {
    hide Tree, Word, SetWord, LeafOk, AddTable;
    TableInMem(m, base, root, T, t);
    var i := Slot(p, level);
    if level == 0 {
    } else if Valid(Word(m, EntryAddress(t, i))) {
      var c := Ppn(Word(m, EntryAddress(t, i)));
      CanMapExisting(m, base, root, T, t, level, p, e);
      assert T[c] == Node(level - 1, Prefix(p, level - 1)) && T[c] in T.Values;
      MapFromNodes(m, base, root, T, c, level - 1, p, e);
    } else {
      CanMapNew(m, base, root, T, t, level, p, e);
      DescendNew(m, base, root, T, t, level, p);
      var (m2, f) := AddTable(m, base, t, i).value;
      WithNewKey(T, f, Child(T[t], i));
      MapFromNodes(m2, base, root, T[f := Child(T[t], i)], f, level - 1, p, e);
    }
  }
}
