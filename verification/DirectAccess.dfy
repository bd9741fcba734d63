/** Accesses through the active page table, and the direct map through which the kernel
    reaches its own tables while it edits them. */
module DirectAccess {
  import opened Wrappers
  import opened Bits
  import opened Memory
  import opened Sv48
  import opened FrameAllocator
  import opened PageTree
  import opened PageMapping
  import opened PageRuns
  import opened HeapMemory

  /** The boot code's table maps the kernel and some frames behind it at VIRTUAL_OFFSET;
      paging_init then makes its own root active. */
  datatype Satp = BootTable | RootTable(root: nat)

  function Translate(m: Mem, satp: Satp, v: nat): Option<nat> {
    match satp
    case BootTable => if VIRTUAL_OFFSET <= v < VIRTUAL_OFFSET + |m| then Some(v - VIRTUAL_OFFSET) else None
    case RootTable(root) => HwTranslate(Words(m), root, v)
  }

  /** Every byte of s finds its place when stored one after the other from v on. */
  predicate StoresOk(m: Mem, satp: Satp, v: nat, s: seq<byte>)
    decreases |s|
  {
    s == [] ||
    match Translate(m, satp, v)
    case None => false
    case Some(a) => a < |m| && StoresOk(m[a := s[0]], satp, v + 1, s[1..])
  }

  function Stored(m: Mem, satp: Satp, v: nat, s: seq<byte>): (m': Mem)
    requires StoresOk(m, satp, v, s)
    ensures |m'| == |m|
    decreases |s|
  {
    if s == [] then m
    else Stored(m[Translate(m, satp, v).value := s[0]], satp, v + 1, s[1..])
  }

  /** Storing s from v on succeeds and turns m into m'. */
  ghost predicate StoreIs(m: Mem, satp: Satp, v: nat, s: seq<byte>, m': Mem) {
    StoresOk(m, satp, v, s) && Stored(m, satp, v, s) == m'
  }

  predicate LoadsOk(m: Mem, satp: Satp, v: nat, n: nat)
    decreases n
  {
    n == 0 ||
    match Translate(m, satp, v)
    case None => false
    case Some(a) => a < |m| && LoadsOk(m, satp, v + 1, n - 1)
  }

  function Loaded(m: Mem, satp: Satp, v: nat, n: nat): (s: seq<byte>)
    requires LoadsOk(m, satp, v, n)
    ensures |s| == n
    decreases n
  {
    if n == 0 then [] else [m[Translate(m, satp, v).value]] + Loaded(m, satp, v + 1, n - 1)
  }

  /** Loading n bytes from v on succeeds and yields s. */
  ghost predicate LoadIs(m: Mem, satp: Satp, v: nat, n: nat, s: seq<byte>) {
    LoadsOk(m, satp, v, n) && Loaded(m, satp, v, n) == s
  }

  // The direct map.

  ghost predicate Direct(m: Mem, satp: Satp) {
    forall a: nat | a < |m| :: DirectAt(m, satp, a)
  }

  predicate DirectAt(m: Mem, satp: Satp, a: nat) {
    Translate(m, satp, VIRTUAL_OFFSET + a) == Some(a)
  }

  /** The five entries that make up the direct map of a root. */
  ghost predicate Intact(m: Mem, root: nat, d: nat) {
    && |m| <= 0x1_0000_0000 && root != d
    && InMem(m, root) && InMem(m, d)
    && Word(m, EntryAddress(root, 256)) == TableEntry(d)
    && forall g: nat | g < 4 :: Word(m, EntryAddress(d, g)) == DirectEntry(g)
  }

  /** The bytes of those five entries. */
  predicate InDirectMap(root: nat, d: nat, a: nat) {
    || EntryAddress(root, 256) <= a < EntryAddress(root, 257)
    || EntryAddress(d, 0) <= a < EntryAddress(d, 4)
  }

  lemma IntactIsDirect(m: Mem, root: nat, d: nat)
    requires Intact(m, root, d)
    ensures Direct(m, RootTable(root))
  {
    hide Word;
    forall a: nat | a < |m|
      ensures DirectAt(m, RootTable(root), a)
    {
      DirectWalk(Words(m), root, d, a);
    }
  }

  lemma ByteKeepsIntact(m: Mem, root: nat, d: nat, a: nat, x: byte)
    requires Intact(m, root, d) && a < |m| && !InDirectMap(root, d, a)
    ensures Intact(m[a := x], root, d)
  {
    hide DirectEntry;
    var m' := m[a := x];
    WordSame(m, m', EntryAddress(root, 256));
    forall g: nat | g < 4
      ensures Word(m', EntryAddress(d, g)) == DirectEntry(g)
    {
      WordSame(m, m', EntryAddress(d, g));
    }
  }

  /** Storing through the direct map reaches the intended bytes, at every moment of the
      store, as long as the direct map's own entries are spared. */
  lemma {:induction false} StoreThroughDirectMap(m: Mem, root: nat, d: nat, a: nat, s: seq<byte>)
    requires Intact(m, root, d) && a + |s| <= |m|
    requires forall b | a <= b < a + |s| :: !InDirectMap(root, d, b)
    ensures StoreIs(m, RootTable(root), VIRTUAL_OFFSET + a, s, SetBytes(m, a, s))
    decreases |s|
  {
    hide Intact, InDirectMap, Translate;
    if s != [] {
      IntactIsDirect(m, root, d);
      assert DirectAt(m, RootTable(root), a);
      ByteKeepsIntact(m, root, d, a, s[0]);
      StoreThroughDirectMap(m[a := s[0]], root, d, a + 1, s[1..]);
      SetBytesCons(m, a, s);
    }
  }

  /** Under the boot table the same holds without conditions. */
  lemma {:induction false} StoreThroughBootTable(m: Mem, a: nat, s: seq<byte>)
    requires a + |s| <= |m|
    ensures StoreIs(m, BootTable, VIRTUAL_OFFSET + a, s, SetBytes(m, a, s))
    decreases |s|
  {
    if s != [] {
      StoreThroughBootTable(m[a := s[0]], a + 1, s[1..]);
      SetBytesCons(m, a, s);
    }
  }

  lemma {:induction false} LoadDirect(m: Mem, satp: Satp, a: nat, n: nat)
    requires Direct(m, satp) && a + n <= |m|
    ensures LoadIs(m, satp, VIRTUAL_OFFSET + a, n, m[a..a + n])
    decreases n
  {
    hide Translate;
    if n > 0 {
      assert DirectAt(m, satp, a);
      LoadDirect(m, satp, a + 1, n - 1);
      assert m[a..a + n] == [m[a]] + m[a + 1..a + n];
    }
  }

  // Tables are reached and edited through the direct map.

  lemma TreeIsIntact(m: Mem, base: nat, root: nat, T: Tables)
    requires Mapped(m, base, root, T)
    ensures InMem(m, root)
    ensures Intact(m, root, DirectTable(PagesOf(m, base), root))
    ensures base <= root && base <= DirectTable(PagesOf(m, base), root)
    ensures T[root] == Node(3, 0)
    ensures DirectTable(PagesOf(m, base), root) in T && T[DirectTable(PagesOf(m, base), root)] == Node(2, 256)
  {
    hide Word, DirectEntry, TableEntry;
    var s := PagesOf(m, base);
    DirectEntries(s, root, T);
    var d := DirectTable(s, root);
    TableInMem(m, base, root, T, root);
    TableInMem(m, base, root, T, d);
    assert forall g: nat | g < 4 :: s.w[d][g] == Word(m, EntryAddress(d, g));
  }

  /** map_page's own table edits: a slot of a table, unless it is one of the five. */
  lemma EditEntry(m: Mem, base: nat, root: nat, T: Tables, t: nat, i: nat, w: nat)
    requires Mapped(m, base, root, T) && t in T && i < 512 && w < WORD
    requires !DirectSlot(T[t], i) && !(t == root && i == 256)
    ensures InMem(m, t)
    ensures StoreIs(m, RootTable(root), VIRTUAL_OFFSET + EntryAddress(t, i), ToLe(w, 8),
                    SetWord(m, EntryAddress(t, i), w))
  {
    hide Tree, Word, Le, ToLe, Intact, SetBytes, StoreIs;
    TableInMem(m, base, root, T, t);
    TreeIsIntact(m, base, root, T);
    var d := DirectTable(PagesOf(m, base), root);
    var a := EntryAddress(t, i);
    forall b | a <= b < a + 8
      ensures !InDirectMap(root, d, b)
    {
    }
    StoreThroughDirectMap(m, root, d, a, ToLe(w, 8));
  }

  lemma TreeIsDirect(m: Mem, base: nat, root: nat, T: Tables)
    requires Mapped(m, base, root, T)
    ensures Direct(m, RootTable(root))
  {
    hide Tree, Intact;
    TreeIsIntact(m, base, root, T);
    IntactIsDirect(m, root, DirectTable(PagesOf(m, base), root));
  }

  // Heap accesses are the accesses of the flat heap.

  lemma {:induction false} HeapStoresOk(m: Mem, base: nat, root: nat, T: Tables, fr: seq<nat>, i: nat, s: seq<byte>)
    requires HeapOk(m, base, root, T, fr) && i + |s| <= |fr| * 4096
    ensures StoreIs(m, RootTable(root), HEAP_START + i, s, StoreBytes(m, root, HEAP_START + i, s))
    decreases |s|
  {
    hide HeapOk, HwTranslate;
    if s != [] {
      HeapTranslate(m, base, root, T, fr, i);
      HeapStore(m, base, root, T, fr, i, s[0]);
      HeapStoresOk(StoreByte(m, root, HEAP_START + i, s[0]), base, root, T, fr, i + 1, s[1..]);
    }
  }

  lemma {:induction false} HeapLoadsOk(m: Mem, base: nat, root: nat, T: Tables, fr: seq<nat>, i: nat, n: nat)
    requires HeapOk(m, base, root, T, fr) && i + n <= |fr| * 4096
    ensures LoadIs(m, RootTable(root), HEAP_START + i, n, LoadBytes(m, root, HEAP_START + i, n))
    decreases n
  {
    hide HeapOk, HwTranslate;
    if n > 0 {
      HeapTranslate(m, base, root, T, fr, i);
      HeapLoadsOk(m, base, root, T, fr, i + 1, n - 1);
    }
  }
}
