/** The tree of page tables: its invariant, and the two steps by which map_page changes it. */
module PageTree {
  import opened Wrappers
  import opened Bits
  import opened Memory
  import opened Sv48

  /** Memory as page mapping sees it: words in frames, and the managed frames
      base..limit of which some are free. */
  datatype Pages = Pages(w: Frames, free: set<nat>, base: nat, limit: nat)

  /** What a table frame is for: its level and the path from the root that leads to it. */
  datatype Node = Node(level: nat, prefix: nat)
  type Tables = map<nat, Node>

  function Child(n: Node, i: nat): Node
    requires n.level > 0
  {
    Node(n.level - 1, n.prefix * 512 + i)
  }

  /** The second-level slots that paging_init fills with 1 GiB leaves. */
  predicate DirectSlot(n: Node, i: nat) {
    n == Node(2, 256) && i < 4
  }

  /** Pages inside the four direct-mapped GiB. */
  predicate DirectPage(p: nat) {
    256 * 512 <= p / 0x4_0000 < 256 * 512 + 4
  }

  /** They are the pages of the addresses from VIRTUAL_OFFSET to 4 GiB behind it. */
  lemma DirectPages(v: nat)
    requires Canonical(v)
    ensures DirectPage(PageOf(v)) <==> 0xFFFF_8000_0000_0000 <= v < 0xFFFF_8001_0000_0000
  {
    var p := PageOf(v);
    if v >= VIRTUAL_OFFSET {
      DivModUnique(v / 4096, PAGES, 0xFFFF, v / 4096 - 0xFFFF * PAGES);
      assert p == v / 4096 - 0xFFFF * PAGES;
    } else {
      assert p == v / 4096 < 0x8_0000_0000;
    }
  }

  /** A readable, writable, executable leaf for the i-th GiB. */
  function DirectEntry(i: nat): nat {
    i * 0x4_0000 * 1024 + 15
  }

  /** An entry with no flag but V. */
  function TableEntry(f: nat): nat {
    f * 1024 + 1
  }

  lemma TableEntryNames(f: nat)
    ensures Valid(TableEntry(f)) && Ppn(TableEntry(f)) == f
  {
    DivModUnique(TableEntry(f), 1024, f, 1);
    DivModUnique(TableEntry(f), 2, f * 512, 1);
  }

  lemma ChildInjective(n: Node, n': Node, i: nat, i': nat)
    requires n.level > 0 && n'.level > 0 && i < 512 && i' < 512
    requires Child(n, i) == Child(n', i')
    ensures n == n' && i == i'
  {
  }

  /** A last-level entry must not name a table, nor a frame that could become one. */
  predicate LeafOk(s: Pages, T: Tables, e: nat) {
    Valid(e) && Ppn(e) !in T && Ppn(e) !in s.free
  }

  predicate SlotOk(s: Pages, T: Tables, n: Node, i: nat, e: nat) {
    if DirectSlot(n, i) then e == DirectEntry(i)
    else if !Valid(e) then e == 0
    else if n.level == 0 then LeafOk(s, T, e)
    else e == TableEntry(Ppn(e)) && Ppn(e) in T && T[Ppn(e)] == Child(n, i)
  }

  /** Slot i of table p points to table t. */
  predicate LinksTo(s: Pages, T: Tables, p: nat, i: nat, t: nat) {
    && p in T && i < 512 && p < |s.w|
    && T[p].level > 0 && !DirectSlot(T[p], i)
    && Valid(s.w[p][i]) && Ppn(s.w[p][i]) == t
  }

  ghost predicate HasParent(s: Pages, T: Tables, t: nat) {
    exists p: nat, i: nat :: LinksTo(s, T, p, i, t)
  }

  ghost predicate TablesTaken(s: Pages, root: nat, T: Tables) {
    && s.limit <= |s.w| && s.limit <= 0x10_0000
    && root in T && T[root] == Node(3, 0)
    && forall t | t in T ::
         && s.base <= t < s.limit && t !in s.free
         && T[t].level <= 3 && (T[t].level == 3 ==> t == root)
  }

  ghost predicate SlotsOk(s: Pages, T: Tables)
    requires forall t | t in T :: t < |s.w|
  {
    forall t, i: nat | t in T && i < 512 :: SlotOk(s, T, T[t], i, s.w[t][i])
  }

  ghost predicate FreeZero(s: Pages) {
    forall f | f in s.free :: s.base <= f < s.limit <= |s.w| && forall i: nat | i < 512 :: s.w[f][i] == 0
  }

  /** The invariant: every table is an allocated frame with one purpose, reached through
      its parent; every slot is empty or leads where its position says; free frames are
      zero; the second-level table of the direct map is present. */
  ghost predicate Tree(s: Pages, root: nat, T: Tables) {
    && TablesTaken(s, root, T)
    && SlotsOk(s, T)
    && Valid(s.w[root][256])
    && (forall t {:trigger HasParent(s, T, t)} | t in T && t != root :: HasParent(s, T, t))
    && FreeZero(s)
  }

  /** One step of a walk off the direct map: the slot is empty, or a mapping, or leads to
      the table of the next level for the same page. */
  lemma WalkStep(s: Pages, root: nat, T: Tables, u: nat, level: nat, p: nat)
    requires Tree(s, root, T)
    requires u in T && p < PAGES && !DirectPage(p) && T[u] == Node(level, Prefix(p, level))
    ensures !DirectSlot(T[u], Slot(p, level))
    ensures
      var e := s.w[u][Slot(p, level)];
      if !Valid(e) then e == 0
      else if level == 0 then LeafOk(s, T, e)
      else e == TableEntry(Ppn(e)) && Ppn(e) in T && T[Ppn(e)] == Node(level - 1, Prefix(p, level - 1))
  {
    PrefixStep(p, level);
    assert SlotOk(s, T, T[u], Slot(p, level), s.w[u][Slot(p, level)]);
  }

  // Step one: a free frame becomes a table in an empty slot.

  ghost predicate TableAdded(s: Pages, s2: Pages, t: nat, i: nat, f: nat) {
    && f in s.free && t < |s.w| && i < 512
    && s2.base == s.base && s2.limit == s.limit && |s2.w| == |s.w|
    && s2.free == s.free - {f}
    && (forall u: nat | s.base <= u < |s.w| && u != t :: s2.w[u] == s.w[u])
    && s2.w[t] == s.w[t][i := TableEntry(f)]
  }

  ghost predicate EmptySlot(s: Pages, root: nat, T: Tables, t: nat, i: nat) {
    && Tree(s, root, T)
    && t in T && T[t].level > 0 && i < 512 && !DirectSlot(T[t], i)
    && !Valid(s.w[t][i])
  }

  lemma AddedTaken(s: Pages, s2: Pages, root: nat, T: Tables, t: nat, i: nat, f: nat)
    requires EmptySlot(s, root, T, t, i) && TableAdded(s, s2, t, i, f)
    ensures f !in T
    ensures Child(T[t], i) != Node(2, 256)
    ensures TablesTaken(s2, root, T[f := Child(T[t], i)])
  {
    assert f !in T;
  }

  lemma AddedSlot(s: Pages, s2: Pages, root: nat, T: Tables, t: nat, i: nat, f: nat, u: nat, j: nat)
    requires EmptySlot(s, root, T, t, i) && TableAdded(s, s2, t, i, f)
    requires u in T && j < 512 && f !in T
    ensures SlotOk(s2, T[f := Child(T[t], i)], T[u], j, s2.w[u][j])
  {
    assert SlotOk(s, T, T[u], j, s.w[u][j]);
    if u == t && j == i {
      assert s2.w[u][j] == TableEntry(f);
      TableEntryNames(f);
    } else {
      assert s2.w[u][j] == s.w[u][j];
    }
  }

  lemma AddedSlots(s: Pages, s2: Pages, root: nat, T: Tables, t: nat, i: nat, f: nat, T2: Tables)
    requires EmptySlot(s, root, T, t, i) && TableAdded(s, s2, t, i, f)
    requires T2 == T[f := Child(T[t], i)]
    ensures TablesTaken(s2, root, T2)
    ensures SlotsOk(s2, T2)
  {
    AddedTaken(s, s2, root, T, t, i, f);
    forall u, j: nat | u in T2 && j < 512
      ensures SlotOk(s2, T2, T2[u], j, s2.w[u][j])
    {
      if u == f {
        assert s2.w[f][j] == 0;
      } else {
        AddedSlot(s, s2, root, T, t, i, f, u, j);
      }
    }
  }

  lemma AddedKeepsLink(s: Pages, s2: Pages, T: Tables, t: nat, i: nat, f: nat, p: nat, k: nat, u: nat)
    requires TableAdded(s, s2, t, i, f) && t in T && T[t].level > 0 && !Valid(s.w[t][i]) && f !in T
    requires LinksTo(s, T, p, k, u) && p >= s.base
    ensures LinksTo(s2, T[f := Child(T[t], i)], p, k, u)
  {
    assert s2.w[p][k] == s.w[p][k];
  }

  lemma AddedParent(s: Pages, s2: Pages, root: nat, T: Tables, t: nat, i: nat, f: nat, u: nat)
    requires EmptySlot(s, root, T, t, i) && TableAdded(s, s2, t, i, f)
    requires u in T && u != root
    ensures HasParent(s2, T[f := Child(T[t], i)], u)
  {
    assert HasParent(s, T, u);
    var p: nat, k: nat :| LinksTo(s, T, p, k, u);
    AddedKeepsLink(s, s2, T, t, i, f, p, k, u);
  }

  lemma NewLink(s: Pages, s2: Pages, T: Tables, t: nat, i: nat, f: nat)
    requires TableAdded(s, s2, t, i, f) && t in T && T[t].level > 0 && !DirectSlot(T[t], i) && f !in T
    ensures HasParent(s2, T[f := Child(T[t], i)], f)
  {
    assert s2.w[t][i] == TableEntry(f);
    TableEntryNames(f);
    assert LinksTo(s2, T[f := Child(T[t], i)], t, i, f);
  }

  lemma AddedParents(s: Pages, s2: Pages, root: nat, T: Tables, t: nat, i: nat, f: nat, T2: Tables)
    requires EmptySlot(s, root, T, t, i) && TableAdded(s, s2, t, i, f)
    requires T2 == T[f := Child(T[t], i)]
    ensures forall u {:trigger HasParent(s2, T2, u)} | u in T2 && u != root :: HasParent(s2, T2, u)
  {
    forall u {:trigger HasParent(s2, T2, u)} | u in T2 && u != root
      ensures HasParent(s2, T2, u)
    {
      if u == f {
        AddedTaken(s, s2, root, T, t, i, f);
        NewLink(s, s2, T, t, i, f);
      } else {
        AddedParent(s, s2, root, T, t, i, f, u);
      }
    }
  }

  /** Hanging a new zero frame into an empty slot keeps the invariant. */
  lemma AddedKeepsTree(s: Pages, s2: Pages, root: nat, T: Tables, t: nat, i: nat, f: nat)
    requires EmptySlot(s, root, T, t, i) && TableAdded(s, s2, t, i, f)
    ensures Tree(s2, root, T[f := Child(T[t], i)])
  {
    AddedSlots(s, s2, root, T, t, i, f, T[f := Child(T[t], i)]);
    AddedParents(s, s2, root, T, t, i, f, T[f := Child(T[t], i)]);
  }

  /** A page keeps its last-level entry, or stays unmapped, when a table is added. */
  lemma {:induction false} AddedKeepsLookup(
    s: Pages, s2: Pages, root: nat, T: Tables, t: nat, i: nat, f: nat, u: nat, level: nat, p: nat)
    requires EmptySlot(s, root, T, t, i) && TableAdded(s, s2, t, i, f)
    requires u in T && p < PAGES && !DirectPage(p) && T[u] == Node(level, Prefix(p, level))
    ensures Lookup(s2.w, u, level, p) == Lookup(s.w, u, level, p)
    decreases level
  {
    WalkStep(s, root, T, u, level, p);
    var j := Slot(p, level);
    var e := s.w[u][j];
    if u == t && j == i {
      assert s2.w[f][Slot(p, level - 1)] == 0;
      assert Lookup(s2.w, f, level - 1, p) == None;
    } else {
      assert s2.w[u][j] == e;
      if Valid(e) && level > 0 {
        AddedKeepsLookup(s, s2, root, T, t, i, f, Ppn(e), level - 1, p);
      }
    }
  }

  // Step two: a last-level entry is written.

  ghost predicate LeafSet(s: Pages, s2: Pages, t: nat, i: nat, e: nat) {
    && t < |s.w| && i < 512 && |s2.w| == |s.w|
    && s2.base == s.base && s2.limit == s.limit && s2.free == s.free
    && (forall u: nat | u < |s.w| && u != t :: s2.w[u] == s.w[u])
    && s2.w[t] == s.w[t][i := e]
  }

  lemma LeafSetKeepsTree(s: Pages, s2: Pages, root: nat, T: Tables, t: nat, i: nat, e: nat)
    requires Tree(s, root, T) && LeafSet(s, s2, t, i, e)
    requires t in T && T[t].level == 0 && LeafOk(s, T, e)
    ensures Tree(s2, root, T)
  {
    forall u, j: nat | u in T && j < 512
      ensures SlotOk(s2, T, T[u], j, s2.w[u][j])
    {
      assert SlotOk(s, T, T[u], j, s.w[u][j]);
    }
    forall u {:trigger HasParent(s2, T, u)} | u in T && u != root
      ensures HasParent(s2, T, u)
    {
      assert HasParent(s, T, u);
      var p: nat, k: nat :| LinksTo(s, T, p, k, u);
      assert LinksTo(s2, T, p, k, u);
    }
  }

  /** Writing the entry of one page changes the lookup of that page and of no other. */
  lemma {:induction false} LeafSetLookup(
    s: Pages, s2: Pages, root: nat, T: Tables, t: nat, i: nat, e: nat, u: nat, level: nat, p: nat)
    requires Tree(s, root, T) && LeafSet(s, s2, t, i, e)
    requires t in T && T[t].level == 0 && Valid(e)
    requires u in T && p < PAGES && !DirectPage(p) && T[u] == Node(level, Prefix(p, level))
    requires p != T[t].prefix * 512 + i
    ensures Lookup(s2.w, u, level, p) == Lookup(s.w, u, level, p)
    decreases level
  {
    WalkStep(s, root, T, u, level, p);
    PrefixStep(p, level);
    var j := Slot(p, level);
    assert s2.w[u][j] == s.w[u][j];
    if Valid(s.w[u][j]) && level > 0 {
      LeafSetLookup(s, s2, root, T, t, i, e, Ppn(s.w[u][j]), level - 1, p);
    }
  }

  // What the invariant says.

  /** Two different tables never serve the same path. */
  lemma {:induction false} NodesDistinct(s: Pages, root: nat, T: Tables, t: nat, u: nat)
    requires Tree(s, root, T) && t in T && u in T && T[t] == T[u]
    ensures t == u
    decreases 3 - T[t].level
  {
    if t != root {
      assert u != root;
      assert HasParent(s, T, t) && HasParent(s, T, u);
      var p: nat, i: nat :| LinksTo(s, T, p, i, t);
      var q: nat, j: nat :| LinksTo(s, T, q, j, u);
      assert SlotOk(s, T, T[p], i, s.w[p][i]) && SlotOk(s, T, T[q], j, s.w[q][j]);
      ChildInjective(T[p], T[q], i, j);
      NodesDistinct(s, root, T, p, q);
    } else {
      assert T[u].level == 3;
    }
  }

  /** Every table but the root is referenced by exactly one slot, and the root by none. */
  lemma OneParentSlot(s: Pages, root: nat, T: Tables, t: nat)
    requires Tree(s, root, T) && t in T
    ensures t == root ==> forall p: nat, i: nat :: !LinksTo(s, T, p, i, t)
    ensures t != root ==> HasParent(s, T, t)
    ensures forall p: nat, i: nat, q: nat, j: nat ::
              LinksTo(s, T, p, i, t) && LinksTo(s, T, q, j, t) ==> p == q && i == j
  {
    forall p: nat, i: nat | LinksTo(s, T, p, i, t)
      ensures t != root && T[t] == Child(T[p], i)
    {
      assert SlotOk(s, T, T[p], i, s.w[p][i]);
    }
    forall p: nat, i: nat, q: nat, j: nat | LinksTo(s, T, p, i, t) && LinksTo(s, T, q, j, t)
      ensures p == q && i == j
    {
      assert T[t] == Child(T[p], i) == Child(T[q], j);
      ChildInjective(T[p], T[q], i, j);
      NodesDistinct(s, root, T, p, q);
    }
    if t != root { assert HasParent(s, T, t); }
  }

  /** A slot is in use exactly when the table it would lead to exists. */
  lemma SlotInUse(s: Pages, root: nat, T: Tables, t: nat, i: nat)
    requires Tree(s, root, T) && t in T && T[t].level > 0 && i < 512 && !DirectSlot(T[t], i)
    ensures Valid(s.w[t][i]) <==> Child(T[t], i) in T.Values
  {
    assert SlotOk(s, T, T[t], i, s.w[t][i]);
    if Child(T[t], i) in T.Values {
      var u :| u in T && T[u] == Child(T[t], i);
      assert HasParent(s, T, u);
      var p: nat, k: nat :| LinksTo(s, T, p, k, u);
      assert SlotOk(s, T, T[p], k, s.w[p][k]);
      ChildInjective(T[p], T[t], k, i);
      NodesDistinct(s, root, T, p, t);
    }
  }

  /** When the last table on the path to page p exists, so do all above it. */
  lemma {:induction false} AncestorsExist(s: Pages, root: nat, T: Tables, p: nat, level: nat)
    requires Tree(s, root, T) && p < PAGES && level <= 3
    requires Node(0, Prefix(p, 0)) in T.Values
    ensures Node(level, Prefix(p, level)) in T.Values
    decreases level
  {
    if level > 0 {
      AncestorsExist(s, root, T, p, level - 1);
      PrefixStep(p, level);
      var u :| u in T && T[u] == Node(level - 1, Prefix(p, level - 1));
      assert HasParent(s, T, u);
      var q: nat, k: nat :| LinksTo(s, T, q, k, u);
      assert SlotOk(s, T, T[q], k, s.w[q][k]);
      ChildInjective(T[q], Node(level, Prefix(p, level)), k, Slot(p, level));
      assert T[q] == Node(level, Prefix(p, level));
    }
  }

  /** After the last-level entry of page p is written, the kernel's walk for p finds it. */
  lemma {:induction false} LeafSetHit(
    s: Pages, s2: Pages, root: nat, T: Tables, t: nat, p: nat, e: nat, u: nat, level: nat)
    requires Tree(s, root, T) && LeafSet(s, s2, t, Slot(p, 0), e) && Valid(e)
    requires p < PAGES && !DirectPage(p) && t in T && T[t] == Node(0, Prefix(p, 0))
    requires u in T && level <= 3 && T[u] == Node(level, Prefix(p, level))
    ensures Lookup(s2.w, u, level, p) == Some(e)
    decreases level
  {
    WalkStep(s, root, T, u, level, p);
    var j := Slot(p, level);
    if level == 0 {
      NodesDistinct(s, root, T, t, u);
    } else {
      AncestorsExist(s, root, T, p, level - 1);
      PrefixStep(p, level);
      SlotInUse(s, root, T, u, j);
      assert s2.w[u][j] == s.w[u][j];
      LeafSetHit(s, s2, root, T, t, p, e, Ppn(s.w[u][j]), level - 1);
    }
  }

  // Changes outside the tables.

  ghost predicate SameTables(s: Pages, s2: Pages, T: Tables) {
    && |s2.w| == |s.w| && s2.base == s.base && s2.limit == s.limit
    && s2.free <= s.free
    && forall t | t in T :: t < |s.w| && s2.w[t] == s.w[t]
  }

  /** Taking frames and writing outside the tables keeps the tree. */
  lemma SameTablesKeepsTree(s: Pages, s2: Pages, root: nat, T: Tables)
    requires Tree(s, root, T) && SameTables(s, s2, T) && FreeZero(s2)
    ensures Tree(s2, root, T)
  {
    forall u, j: nat | u in T && j < 512
      ensures SlotOk(s2, T, T[u], j, s2.w[u][j])
    {
      assert SlotOk(s, T, T[u], j, s.w[u][j]);
    }
    forall u {:trigger HasParent(s2, T, u)} | u in T && u != root
      ensures HasParent(s2, T, u)
    {
      assert HasParent(s, T, u);
      var p: nat, k: nat :| LinksTo(s, T, p, k, u);
      assert LinksTo(s2, T, p, k, u);
    }
  }

  lemma {:induction false} SameTablesKeepsLookup(
    s: Pages, s2: Pages, root: nat, T: Tables, u: nat, level: nat, p: nat)
    requires Tree(s, root, T) && SameTables(s, s2, T)
    requires u in T && p < PAGES && !DirectPage(p) && T[u] == Node(level, Prefix(p, level))
    ensures Lookup(s2.w, u, level, p) == Lookup(s.w, u, level, p)
    decreases level
  {
    WalkStep(s, root, T, u, level, p);
    var e := s.w[u][Slot(p, level)];
    assert s2.w[u][Slot(p, level)] == e;
    if Valid(e) && level > 0 {
      SameTablesKeepsLookup(s, s2, root, T, Ppn(e), level - 1, p);
    }
  }

  // The hardware walker.

  /** A last-level entry the hardware accepts as a leaf. */
  predicate HwLeaf(e: nat) {
    && (Readable(e) || (Executable(e) && !Writable(e)))
    && e < 0x40_0000_0000_0000
  }

  lemma TableEntryFlags(f: nat)
    requires f < 0x10_0000
    ensures
      var e := TableEntry(f);
      Valid(e) && !Readable(e) && !Writable(e) && !Executable(e) && Ppn(e) == f && e < 0x40_0000_0000_0000
  {
    var e := TableEntry(f);
    assert e == 2 * (f * 512) + 1 == 4 * (f * 256) + 1 == 8 * (f * 128) + 1;
    assert e / 2 == 2 * (f * 256);
    assert e / 4 == 2 * (f * 128);
    assert e / 8 == 2 * (f * 64);
  }

  /** What the hardware makes of the kernel's lookup of an address. */
  function HwOutcome(entry: Option<nat>, v: nat): Option<nat> {
    match entry
    case None => None
    case Some(e) => if HwLeaf(e) then Some(Ppn(e) * 4096 + v % 4096) else None
  }

  /** Off the direct map the hardware reaches exactly the entry the kernel's walk finds. */
  lemma {:induction false} WalkersAgree(s: Pages, root: nat, T: Tables, u: nat, level: nat, v: nat)
    requires Tree(s, root, T) && !DirectPage(PageOf(v))
    requires u in T && T[u] == Node(level, Prefix(PageOf(v), level))
    ensures HwWalk(s.w, u, level, v) == HwOutcome(Lookup(s.w, u, level, PageOf(v)), v)
    decreases level
  {
    WalkStep(s, root, T, u, level, PageOf(v));
    var e := s.w[u][Slot(PageOf(v), level)];
    if Valid(e) {
      if level > 0 {
        TableEntryFlags(Ppn(e));
        WalkersAgree(s, root, T, Ppn(e), level - 1, v);
      } else {
        LastLevel(s.w, u, v);
      }
    }
  }

  lemma LastLevel(w: Frames, u: nat, v: nat)
    requires u < |w| && Valid(w[u][Slot(PageOf(v), 0)])
    ensures HwWalk(w, u, 0, v) == HwOutcome(Some(w[u][Slot(PageOf(v), 0)]), v)
  {
  }

  /** The second-level table of the direct map. */
  function DirectTable(s: Pages, root: nat): nat
    requires root < |s.w|
  {
    Ppn(s.w[root][256])
  }

  lemma DirectEntries(s: Pages, root: nat, T: Tables)
    requires Tree(s, root, T)
    ensures s.w[root][256] == TableEntry(DirectTable(s, root))
    ensures DirectTable(s, root) in T && T[DirectTable(s, root)] == Node(2, 256)
    ensures forall g: nat | g < 4 :: s.w[DirectTable(s, root)][g] == DirectEntry(g)
  {
    assert SlotOk(s, T, T[root], 256, s.w[root][256]);
    var d := DirectTable(s, root);
    forall g: nat | g < 4
      ensures s.w[d][g] == DirectEntry(g)
    {
      assert SlotOk(s, T, T[d], g, s.w[d][g]);
    }
  }

  /** The hardware sends the direct map's addresses to physical memory unchanged. */
  lemma DirectMapHolds(s: Pages, root: nat, T: Tables, a: nat)
    requires Tree(s, root, T) && a < 0x1_0000_0000
    ensures HwTranslate(s.w, root, VIRTUAL_OFFSET + a) == Some(a)
  {
    DirectEntries(s, root, T);
    DirectWalk(s.w, root, DirectTable(s, root), a);
  }

  lemma DirectWalk(w: Frames, root: nat, d: nat, a: nat)
    requires a < 0x1_0000_0000 && root < |w| && d < |w| && d < 0x10_0000
    requires w[root][256] == TableEntry(d)
    requires forall g: nat | g < 4 :: w[d][g] == DirectEntry(g)
    ensures HwTranslate(w, root, VIRTUAL_OFFSET + a) == Some(a)
  {
    DirectFields(a);
    TableEntryFlags(d);
    DirectWalkLeaf(w, d, a);
  }

  lemma DirectWalkLeaf(w: Frames, d: nat, a: nat)
    requires a < 0x1_0000_0000 && d < |w|
    requires w[d][a / 0x4000_0000] == DirectEntry(a / 0x4000_0000)
    ensures HwWalk(w, d, 2, VIRTUAL_OFFSET + a) == Some(a)
  {
    DirectFields(a);
    DirectLeaf(a, a / 0x4000_0000);
  }

  lemma DirectFields(a: nat)
    requires a < 0x1_0000_0000
    ensures
      var v := VIRTUAL_OFFSET + a;
      Canonical(v) && Slot(PageOf(v), 3) == 256 && Slot(PageOf(v), 2) == a / 0x4000_0000 && DirectPage(PageOf(v))
  {
    var v := VIRTUAL_OFFSET + a;
    assert VIRTUAL_OFFSET == 0xF_FFF8_0000_0000 * 4096;
    assert v / 4096 == 0xF_FFF8_0000_0000 + a / 4096;
    assert 0xF_FFF8_0000_0000 == 0xFFFF * PAGES + 0x8_0000_0000;
    assert PageOf(v) == 0x8_0000_0000 + a / 4096;
  }

  lemma DirectLeaf(a: nat, g: nat)
    requires a < 0x1_0000_0000 && g == a / 0x4000_0000
    ensures
      var e := DirectEntry(g);
      && Valid(e) && Readable(e) && e < 0x40_0000_0000_0000
      && Ppn(e) == g * 0x4_0000 && Ppn(e) % 0x4_0000 == 0
      && Ppn(e) * 4096 + (VIRTUAL_OFFSET + a) % (0x4_0000 * 4096) == a
  {
    assert (VIRTUAL_OFFSET + a) % 0x4000_0000 == a % 0x4000_0000;
  }
}
