/** get_inode_in_dir: the walk over a directory's entries, and where an inode lies on disk. */
module Ext2Dir {
  import opened Wrappers
  import opened Bits
  import opened Memory
  import opened Sv48
  import opened BlockRead
  import opened Ext2Disk

  const LOOKUPS: nat := 10

  // A directory entry at offset o of a buffer: inode (4 bytes), rec_len (2), name_len (1),
  // file_type (1), name.

  predicate EntryIn(data: seq<byte>, o: nat) {
    o + 8 <= |data| && o + 8 + data[o + 6] <= |data|
  }

  function EntryInode(data: seq<byte>, o: nat): nat
    requires EntryIn(data, o)
  {
    Le(data[o..o + 4])
  }

  function RecLen(data: seq<byte>, o: nat): nat
    requires EntryIn(data, o)
  {
    Le(data[o + 4..o + 6])
  }

  function EntryName(data: seq<byte>, o: nat): seq<byte>
    requires EntryIn(data, o)
  {
    data[o + 8..o + 8 + data[o + 6]]
  }

  /** The entries that a search of at most n steps looks at lie inside the buffer. */
  predicate WalkIn(data: seq<byte>, o: nat, n: nat, name: seq<byte>)
    decreases n
  {
    && EntryIn(data, o)
    && (n > 0 && EntryName(data, o) != name ==> WalkIn(data, o + RecLen(data, o), n - 1, name))
  }

  /** The first of the entries from offset o on, among the next n, that carries the name;
      None when none does. */
  function FirstMatch(data: seq<byte>, o: nat, n: nat, name: seq<byte>): (r: Option<nat>)
    requires WalkIn(data, o, n, name)
    ensures r.Some? ==> EntryIn(data, r.value) && EntryName(data, r.value) == name
    decreases n
  {
    if n == 0 then None
    else if EntryName(data, o) == name then Some(o)
    else FirstMatch(data, o + RecLen(data, o), n - 1, name)
  }

  // The code.

  /** matches is equality of names. */
  method Matches(data: seq<byte>, o: nat, other_name: seq<byte>) returns (r: bool)
    requires EntryIn(data, o)
    ensures r <==> EntryName(data, o) == other_name
  {
    var other_len := |other_name|;
    if other_len != data[o + 6] {
      return false;
    }
    var i := 0;
    while i < other_len
      invariant i <= other_len
      invariant EntryName(data, o)[..i] == other_name[..i]
    {
      if other_name[i] != data[o + 8 + i] {
        assert EntryName(data, o)[i] != other_name[i];
        return false;
      }
      i := i + 1;
    }
    assert EntryName(data, o)[..other_len] == EntryName(data, o);
    assert other_name[..other_len] == other_name;
    return true;
  }

  /** On every written directory at the beginning of the data: the inode number written for the
      first of the first ten entries with the name, and none when ten have other names. */
  ghost predicate FindsWritten(data: seq<byte>, name: seq<byte>, inode: Option<nat>) {
    && (forall es: seq<DirEntry>, k: nat |
          EntriesOk(es) && WriteDir(es) <= data && FirstNamed(es, k, name) && k < 10 ::
          inode == Some(es[k].inode))
    && (forall es: seq<DirEntry> |
          EntriesOk(es) && WriteDir(es) <= data && NoneNamed(es, 10, name) && |es| >= 10 :: inode == None)
  }

  /** The search loop looks at ten entries: the inode number of the first with the name, or
      None, which the caller turns into -1. */
  method FindEntry(data: seq<byte>, name: seq<byte>) returns (inode: Option<nat>)
    requires WalkIn(data, 0, LOOKUPS, name)
    ensures inode == match FirstMatch(data, 0, LOOKUPS, name)
                     case None => None
                     case Some(o) => Some(EntryInode(data, o))
    ensures FindsWritten(data, name, inode)
  {
    forall es: seq<DirEntry> | EntriesOk(es) && WriteDir(es) <= data
      ensures WrittenSearchOk(data, 0, es, 10, name)
    {
      WrittenSearch(data, 0, es, 10, name);
    }
    hide EntryName, RecLen, EntryInode, EntryIn, WriteDir, EntriesOk;
    var current_offset: nat := 0;
    var counter: nat := 0;
    var found := Matches(data, current_offset, name);
    while !found && counter < LOOKUPS
      invariant counter <= LOOKUPS
      invariant WalkIn(data, current_offset, LOOKUPS - counter, name)
      invariant found <==> EntryName(data, current_offset) == name
      invariant FirstMatch(data, 0, LOOKUPS, name) == FirstMatch(data, current_offset, LOOKUPS - counter, name)
      decreases LOOKUPS - counter
    {
      current_offset := current_offset + RecLen(data, current_offset);
      counter := counter + 1;
      found := Matches(data, current_offset, name);
    }
    if counter == LOOKUPS {
      return None;
    }
    return Some(EntryInode(data, current_offset));
  }

  // A directory as a list of names and inode numbers.

  datatype Entry = Entry(inode: nat, name: seq<byte>)

  /** data[o..end] is a chain of entries es whose record lengths lead from one to the next. */
  predicate Chain(data: seq<byte>, o: nat, es: seq<Entry>, end: nat)
    decreases |es|
  {
    if es == [] then o == end
    else
      && end <= |data| && EntryIn(data, o) && o + 8 + data[o + 6] <= end
      && EntryInode(data, o) == es[0].inode && EntryName(data, o) == es[0].name
      && Chain(data, o + RecLen(data, o), es[1..], end)
  }

  /** The first entry of a list with the name. */
  function Find(es: seq<Entry>, name: seq<byte>): (r: Option<nat>)
    decreases |es|
  {
    if es == [] then None
    else if es[0].name == name then Some(es[0].inode)
    else Find(es[1..], name)
  }

  function Inode(data: seq<byte>, o: Option<nat>): Option<nat>
    requires o.Some? ==> EntryIn(data, o.value)
  {
    match o
    case None => None
    case Some(a) => Some(EntryInode(data, a))
  }

  /** On a directory that lists at least as many entries as are looked at, the walk is a
      search of the first n of the list. */
  lemma {:induction false} WalkSearchesList(
    data: seq<byte>, o: nat, es: seq<Entry>, end: nat, n: nat, name: seq<byte>)
    requires Chain(data, o, es, end) && WalkIn(data, o, n, name) && n <= |es|
    ensures Inode(data, FirstMatch(data, o, n, name)) == Find(es[..n], name)
    decreases n
  {
    hide EntryInode, EntryName, RecLen, EntryIn;
    if n > 0 {
      assert es[..n][1..] == es[1..][..n - 1];
      if es[0].name != name {
        WalkSearchesList(data, o + RecLen(data, o), es[1..], end, n - 1, name);
      }
    }
  }

  /** The lookup of a name in a block that holds the chain es, with memory `after` behind. */
  function Lookup10(block: seq<byte>, after: seq<byte>, name: seq<byte>): Option<nat>
    requires WalkIn(block + after, 0, LOOKUPS, name)
  {
    Inode(block + after, FirstMatch(block + after, 0, LOOKUPS, name))
  }

  lemma {:induction false} ChainExtends(block: seq<byte>, after: seq<byte>, o: nat, es: seq<Entry>)
    requires Chain(block, o, es, |block|)
    ensures Chain(block + after, o, es, |block|)
    decreases |es|
  {
    if es != [] {
      var d := block + after;
      assert d[o..o + 4] == block[o..o + 4] && d[o + 4..o + 6] == block[o + 4..o + 6];
      assert d[o + 8..o + 8 + d[o + 6]] == block[o + 8..o + 8 + block[o + 6]];
      ChainExtends(block, after, o + RecLen(block, o), es[1..]);
    }
  }

  /** The entries that are looked at. */
  function FirstTen(es: seq<Entry>): seq<Entry> {
    if |es| < LOOKUPS then es else es[..LOOKUPS]
  }

  /** Memory behind the block: the heap header of the next block, which is read's temporary
      buffer for the directory block and one sector more. */
  function NextHeader(size: nat): (s: seq<byte>)
    ensures |s| == 8
  {
    ToLe(size + SECTOR, 8)
  }

  /** Read as a directory entry the header has no name and leads to itself. */
  lemma HeaderAsEntry(d: seq<byte>, o: nat, size: nat)
    requires size + SECTOR < 0x1_0000_0000
    requires o + 8 <= |d| && d[o..o + 8] == NextHeader(size)
    ensures EntryIn(d, o) && EntryName(d, o) == [] && RecLen(d, o) == 0 && EntryInode(d, o) == size + SECTOR
  {
    var w := size + SECTOR;
    assert Pow256(4) == 0x1_0000_0000;
    ToLePads(w, 4, 8);
    LeToLe(w, 4);
    hide ToLe, Le;
    forall i | 0 <= i < 8
      ensures d[o + i] == NextHeader(size)[i]
    {
      assert d[o..o + 8][i] == d[o + i];
    }
    assert d[o..o + 4] == ToLe(w, 8)[..4];
    assert NextHeader(size)[4] == NextHeader(size)[5] == NextHeader(size)[6] == 0;
    assert d[o + 4..o + 6] == [0, 0];
    LeZero(d[o + 4..o + 6]);
  }

  /** A number of n bytes written in k bytes: the same n bytes, then zeros. */
  lemma {:induction false} ToLePads(w: nat, n: nat, k: nat)
    requires n <= k && w < Pow256(n)
    ensures ToLe(w, k)[..n] == ToLe(w, n) && forall i | n <= i < k :: ToLe(w, k)[i] == 0
    decreases n
  {
    if n == 0 {
      ToLeZero(k);
    } else {
      ToLePads(w / 256, n - 1, k - 1);
      var s, t := ToLe(w, k), ToLe(w / 256, k - 1);
      assert s == [w % 256] + t;
      assert s[..n] == [w % 256] + t[..n - 1];
    }
  }

  /** A search that reaches the header stays there: it finds the empty name, and no other. */
  lemma {:induction false} StuckSearch(d: seq<byte>, o: nat, n: nat, name: seq<byte>)
    requires EntryIn(d, o) && EntryName(d, o) == [] && RecLen(d, o) == 0
    ensures WalkIn(d, o, n, name)
    ensures FirstMatch(d, o, n, name) == if n > 0 && name == [] then Some(o) else None
    decreases n
  {
    if n > 0 && name != [] { StuckSearch(d, o, n - 1, name); }
  }

  /** The search of a chain with the header behind it: the listed entries among the first n,
      and then the header. */
  lemma {:induction false} SearchThenHeader(
    d: seq<byte>, o: nat, es: seq<Entry>, end: nat, n: nat, name: seq<byte>)
    requires Chain(d, o, es, end) && EntryIn(d, end) && EntryName(d, end) == [] && RecLen(d, end) == 0
    ensures WalkIn(d, o, n, name)
    ensures
      var listed := Find(if |es| < n then es else es[..n], name);
      Inode(d, FirstMatch(d, o, n, name)) ==
      if listed.Some? then listed else if |es| < n && name == [] then Some(EntryInode(d, end)) else None
    decreases n
  {
    hide EntryInode, EntryName, RecLen, EntryIn;
    if es == [] {
      StuckSearch(d, o, n, name);
    } else if n > 0 && es[0].name != name {
      if |es| >= n { assert es[..n][1..] == es[1..][..n - 1]; }
      SearchThenHeader(d, o + RecLen(d, o), es[1..], end, n - 1, name);
    }
  }

  /** The lookup of any name in the directory that lists es: the listed inode among the first
      ten; else, for the empty name in a directory of fewer than ten entries, the inode number
      read from the header; else none. */
  lemma LookupExactly(block: seq<byte>, es: seq<Entry>, name: seq<byte>)
    requires Chain(block, 0, es, |block|) && |block| + SECTOR < 0x1_0000_0000
    ensures WalkIn(block + NextHeader(|block|), 0, LOOKUPS, name)
    ensures
      Lookup10(block, NextHeader(|block|), name) ==
      if Find(FirstTen(es), name).Some? then Find(FirstTen(es), name)
      else if |es| < LOOKUPS && name == [] then Some(|block| + SECTOR) else None
  {
    hide EntryInode, EntryName, RecLen, EntryIn, NextHeader;
    var d := block + NextHeader(|block|);
    ChainExtends(block, NextHeader(|block|), 0, es);
    assert d[|block|..|block| + 8] == NextHeader(|block|);
    HeaderAsEntry(d, |block|, |block|);
    SearchThenHeader(d, 0, es, |block|, LOOKUPS, name);
  }

  /** An unlisted name is reported missing exactly when the directory lists ten entries or
      the name is not empty. */
  lemma MissingReportedExactly(block: seq<byte>, es: seq<Entry>, name: seq<byte>)
    requires Chain(block, 0, es, |block|) && |block| + SECTOR < 0x1_0000_0000 && Find(es, name).None?
    ensures WalkIn(block + NextHeader(|block|), 0, LOOKUPS, name)
    ensures Lookup10(block, NextHeader(|block|), name).None? <==> |es| >= LOOKUPS || name != []
  {
    LookupExactly(block, es, name);
    if |es| >= LOOKUPS { NoneInPrefix(es, LOOKUPS, name); }
  }

  lemma {:induction false} NoneInPrefix(es: seq<Entry>, n: nat, name: seq<byte>)
    requires n <= |es| && Find(es, name).None?
    ensures Find(es[..n], name).None?
    decreases n
  {
    if n > 0 {
      assert es[..n][1..] == es[1..][..n - 1];
      NoneInPrefix(es[1..], n - 1, name);
    }
  }

  // A search sees no memory but the entries it looks at.

  lemma {:induction false} WalkExtends(d: seq<byte>, more: seq<byte>, o: nat, n: nat, name: seq<byte>)
    requires WalkIn(d, o, n, name)
    ensures WalkIn(d + more, o, n, name) && FirstMatch(d + more, o, n, name) == FirstMatch(d, o, n, name)
    decreases n
  {
    hide EntryInode;
    EntryExtends(d, more, o);
    if n > 0 && EntryName(d, o) != name {
      WalkExtends(d, more, o + RecLen(d, o), n - 1, name);
    }
  }

  lemma EntryExtends(d: seq<byte>, more: seq<byte>, o: nat)
    requires EntryIn(d, o)
    ensures EntryIn(d + more, o) && EntryName(d + more, o) == EntryName(d, o)
    ensures RecLen(d + more, o) == RecLen(d, o) && EntryInode(d + more, o) == EntryInode(d, o)
  {
    var e := d + more;
    assert e[o..o + 4] == d[o..o + 4] && e[o + 4..o + 6] == d[o + 4..o + 6];
    assert e[o + 8..o + 8 + e[o + 6]] == d[o + 8..o + 8 + d[o + 6]];
  }

  /** So more memory behind the block does not change a lookup that was possible without. */
  lemma LookupExtends(block: seq<byte>, after: seq<byte>, more: seq<byte>, name: seq<byte>)
    requires WalkIn(block + after, 0, LOOKUPS, name)
    ensures WalkIn(block + (after + more), 0, LOOKUPS, name)
    ensures Lookup10(block, after + more, name) == Lookup10(block, after, name)
  {
    hide EntryInode, EntryName, RecLen, EntryIn;
    var d := block + after;
    assert d + more == block + (after + more);
    WalkExtends(d, more, 0, LOOKUPS, name);
    var r := FirstMatch(d, 0, LOOKUPS, name);
    if r.Some? { EntryExtends(d, more, r.value); }
  }

  /** A block is the chain of at most one list of entries. */
  lemma {:induction false} ChainUnique(d: seq<byte>, o: nat, es: seq<Entry>, fs: seq<Entry>, end: nat)
    requires Chain(d, o, es, end) && Chain(d, o, fs, end)
    ensures es == fs
    decreases |es|
  {
    hide EntryInode, EntryName, RecLen;
    if es != [] && fs != [] {
      ChainUnique(d, o + RecLen(d, o), es[1..], fs[1..], end);
      assert es == [es[0]] + es[1..] && fs == [fs[0]] + fs[1..];
    }
  }

  // Directories as they are written.

  lemma EntryOfWritten(d: seq<byte>, o: nat, e: DirEntry)
    requires EntryOk(e) && o + |WriteEntry(e)| <= |d| && d[o..o + |WriteEntry(e)|] == WriteEntry(e)
    ensures EntryIn(d, o) && o + 8 + d[o + 6] <= o + |WriteEntry(e)|
    ensures EntryInode(d, o) == e.inode && RecLen(d, o) == |WriteEntry(e)| && EntryName(d, o) == e.name
  {
    var w := WriteEntry(e);
    assert Pow256(4) == 0x1_0000_0000 && Pow256(2) == 0x1_0000;
    LeToLe(e.inode, 4);
    LeToLe(|w|, 2);
    EntryLayout(e);
    hide Le, ToLe, WriteEntry;
    InSlice(d, o, |w|, 0, 4);
    InSlice(d, o, |w|, 4, 6);
    InSlice(d, o, |w|, 6, 7);
    InSlice(d, o, |w|, 8, 8 + |e.name|);
    assert d[o + 6..o + 7][0] == d[o + 6];
  }

  lemma InSlice(d: seq<byte>, o: nat, n: nat, a: nat, b: nat)
    requires o + n <= |d| && a <= b <= n
    ensures d[o..o + n][a..b] == d[o + a..o + b]
  {
    var s, t := d[o..o + n][a..b], d[o + a..o + b];
    assert forall i | 0 <= i < b - a :: s[i] == t[i];
  }

  lemma FirstWritten(d: seq<byte>, o: nat, es: seq<DirEntry>)
    requires es != [] && EntriesOk(es) && o + |WriteDir(es)| <= |d| && d[o..o + |WriteDir(es)|] == WriteDir(es)
    ensures EntryOk(es[0]) && EntriesOk(es[1..])
    ensures
      var n := |WriteEntry(es[0])|;
      && o + n + |WriteDir(es[1..])| == o + |WriteDir(es)|
      && d[o..o + n] == WriteEntry(es[0]) && d[o + n..o + n + |WriteDir(es[1..])|] == WriteDir(es[1..])
  {
    hide WriteEntry;
    assert es[0] in es;
    var w, r := WriteEntry(es[0]), WriteDir(es[1..]);
    assert d[o..o + |w| + |r|][..|w|] == w && d[o..o + |w| + |r|][|w|..] == r;
  }

  /** Names and inode numbers of written entries. */
  function Plain(es: seq<DirEntry>): (p: seq<Entry>)
    ensures |p| == |es|
  {
    seq(|es|, i requires 0 <= i < |es| => Entry(es[i].inode, es[i].name))
  }

  /** Written entries are a chain. */
  lemma {:induction false} WrittenChain(d: seq<byte>, o: nat, es: seq<DirEntry>)
    requires EntriesOk(es) && o + |WriteDir(es)| <= |d| && d[o..o + |WriteDir(es)|] == WriteDir(es)
    ensures Chain(d, o, Plain(es), o + |WriteDir(es)|)
    decreases |es|
  {
    hide EntryInode, EntryName, RecLen, EntryIn, WriteEntry, EntryOk;
    if es != [] {
      FirstWritten(d, o, es);
      EntryOfWritten(d, o, es[0]);
      WrittenChain(d, o + |WriteEntry(es[0])|, es[1..]);
      assert Plain(es)[1..] == Plain(es[1..]);
    }
  }

  /** The first of n written entries with the name is the one found; when all n have other
      names, none is. */
  ghost predicate WrittenSearchOk(d: seq<byte>, o: nat, es: seq<DirEntry>, n: nat, name: seq<byte>)
    requires WalkIn(d, o, n, name)
  {
    && (forall k: nat | FirstNamed(es, k, name) && k < n ::
          Inode(d, FirstMatch(d, o, n, name)) == Some(es[k].inode))
    && (|es| >= n && NoneNamed(es, n, name) ==> FirstMatch(d, o, n, name) == None)
  }

  lemma {:induction false} WrittenSearch(d: seq<byte>, o: nat, es: seq<DirEntry>, n: nat, name: seq<byte>)
    requires EntriesOk(es) && o + |WriteDir(es)| <= |d| && d[o..o + |WriteDir(es)|] == WriteDir(es)
    requires WalkIn(d, o, n, name)
    ensures WrittenSearchOk(d, o, es, n, name)
    decreases n
  {
    hide EntryInode, EntryName, RecLen, EntryIn, WriteEntry, EntryOk, WriteDir;
    if es != [] && n > 0 {
      FirstWritten(d, o, es);
      EntryOfWritten(d, o, es[0]);
      if es[0].name != name {
        WrittenSearch(d, o + |WriteEntry(es[0])|, es[1..], n - 1, name);
        forall k: nat | FirstNamed(es, k, name) && k < n
          ensures Inode(d, FirstMatch(d, o, n, name)) == Some(es[k].inode)
        {
          assert FirstNamed(es[1..], k - 1, name);
        }
      }
    }
  }

  lemma {:induction false} FindIsFirst(es: seq<DirEntry>, n: nat, name: seq<byte>)
    requires n <= |es|
    ensures forall k: nat | FirstNamed(es, k, name) && k < n :: Find(Plain(es)[..n], name) == Some(es[k].inode)
    ensures NoneNamed(es, n, name) ==> Find(Plain(es)[..n], name) == None
    decreases n
  {
    if n > 0 {
      assert Plain(es)[..n][1..] == Plain(es[1..])[..n - 1];
      assert Plain(es)[..n][0] == Plain(es)[0];
      FindIsFirst(es[1..], n - 1, name);
      if es[0].name != name {
        forall k: nat | FirstNamed(es, k, name) && k < n
          ensures Find(Plain(es)[..n], name) == Some(es[k].inode)
        {
          assert FirstNamed(es[1..], k - 1, name);
        }
      }
    }
  }

  /** The lookup of any name in a directory as it is written, with the heap's header behind: the
      first of the first ten entries with the name; else, for the empty name and fewer than
      ten entries, the block's size and 512; else none. */
  lemma WrittenLookup(block: seq<byte>, es: seq<DirEntry>, name: seq<byte>)
    requires EntriesOk(es) && block == WriteDir(es) && |block| + 512 < 0x1_0000_0000
    ensures WalkIn(block + NextHeader(|block|), 0, LOOKUPS, name)
    ensures forall k: nat | FirstNamed(es, k, name) && k < 10 ::
              Lookup10(block, NextHeader(|block|), name) == Some(es[k].inode)
    ensures NoneNamed(es, 10, name) ==>
              Lookup10(block, NextHeader(|block|), name) ==
              if |es| < 10 && name == [] then Some(|block| + 512) else None
  {
    hide WriteDir, Chain, WalkIn, NextHeader, Lookup10;
    assert block[0..0 + |block|] == block;
    WrittenChain(block, 0, es);
    LookupExactly(block, Plain(es), name);
    var n := if |es| < 10 then |es| else 10;
    assert FirstTen(Plain(es)) == Plain(es)[..n];
    FindIsFirst(es, n, name);
  }

  // Which inodes are directories.

  /** (i_mode & 0x4000) != 0, the guard of get_inode_in_dir. */
  predicate PassesDirCheck(mode: nat) {
    And(mode, 0x4000) != 0
  }

  lemma {:induction false} AndOneBit(x: nat, k: nat)
    ensures And(x, Pow2(k)) == x / Pow2(k) % 2 * Pow2(k)
  {
    if k == 0 {
      AndLow(x, 1);
      assert Pow2(1) == 2;
    } else {
      AndOneBit(x / 2, k - 1);
      AndStep(x, Pow2(k));
      assert Pow2(k) == 2 * Pow2(k - 1);
      hide And, Pow2;
      DoubleBit(x, Pow2(k - 1));
    }
  }

  lemma DoubleBit(x: nat, p: nat)
    requires p > 0
    ensures 2 * p % 2 == 0 && 2 * p / 2 == p
    ensures 2 * (x / 2 / p % 2 * p) == x / (2 * p) % 2 * (2 * p)
  {
    HalfQuotient(x, p);
    var b := x / (2 * p) % 2;
    assert 2 * (b * p) == b * (2 * p);
  }

  lemma HalfQuotient(x: nat, p: nat)
    requires p > 0
    ensures x / 2 / p == x / (2 * p)
  {
    var q, r := x / 2 / p, x / 2 % p;
    assert x / 2 == q * p + r;
    assert x == q * (2 * p) + (2 * r + x % 2);
    DivModUnique(x, 2 * p, q, 2 * r + x % 2);
  }

  /** The guard tests one bit of the file type: it lets through directories (4), block
      devices (6), sockets (12) and every other type with that bit, and no others. */
  lemma DirCheckExactly(mode: nat)
    requires mode < 0x1_0000
    ensures PassesDirCheck(mode) <==> mode / 0x1000 in {4, 5, 6, 7, 12, 13, 14, 15}
  {
    hide And, Pow2;
    Pow2Fourteen();
    AndOneBit(mode, 14);
    FileTypeBit(mode);
  }

  lemma Pow2Fourteen()
    ensures Pow2(14) == 0x4000
  {
    assert Pow2(7) == 0x80;
  }

  lemma FileTypeBit(mode: nat)
    requires mode < 0x1_0000
    ensures mode / 0x4000 % 2 == 1 <==> mode / 0x1000 in {4, 5, 6, 7, 12, 13, 14, 15}
  {
    assert mode / 0x4000 == mode / 0x1000 / 4;
  }

  // Where an inode lies.

  datatype Volume = Volume(block_size: nat, inodes_per_group: nat, tables: seq<nat>)

  function Group(v: Volume, inode: nat): nat
    requires v.inodes_per_group > 0 && inode > 0
  {
    (inode - 1) / v.inodes_per_group
  }

  function Index(v: Volume, inode: nat): nat
    requires v.inodes_per_group > 0 && inode > 0
  {
    (inode - 1) % v.inodes_per_group
  }

  /** The byte offset in the partition at which get_inode_in_dir reads an inode. */
  function InodeAt(v: Volume, inode: nat): nat
    requires v.inodes_per_group > 0 && inode > 0 && Group(v, inode) < |v.tables|
  {
    Times32(v.block_size, v.tables[Group(v, inode)]) + INODE_SIZE * Index(v, inode)
  }

  /** The byte offset at which get_root_inode reads. */
  function RootInodeAt(v: Volume): nat
    requires |v.tables| > 0
  {
    Times32(v.block_size, v.tables[0]) + INODE_SIZE * 1
  }

  /** Inode i is number k of group g. */
  predicate Numbered(v: Volume, g: nat, k: nat, i: nat) {
    g < |v.tables| && k < v.inodes_per_group && i == g * v.inodes_per_group + k + 1
  }

  /** Its record is record k of the group's table. */
  lemma InodePlace(v: Volume, g: nat, k: nat, i: nat)
    requires Numbered(v, g, k, i)
    ensures i > 0 && Group(v, i) == g
    ensures InodeAt(v, i) == v.block_size * v.tables[g] % 0x1_0000_0000 + 256 * k
  {
    DivModUnique(i - 1, v.inodes_per_group, g, k);
  }

  predicate TablesDisjoint(v: Volume) {
    forall g, h | 0 <= g < |v.tables| && 0 <= h < |v.tables| && g != h ::
      TableAt(v, g) + INODE_SIZE * v.inodes_per_group <= TableAt(v, h)
      || TableAt(v, h) + INODE_SIZE * v.inodes_per_group <= TableAt(v, g)
  }

  function TableAt(v: Volume, g: nat): nat
    requires g < |v.tables|
  {
    v.block_size * v.tables[g]
  }

  predicate Fits32(v: Volume) {
    forall g | 0 <= g < |v.tables| :: TableAt(v, g) < 0x1_0000_0000
  }

  /** The general formula at inode 2 is the one of get_root_inode. */
  lemma RootIsInodeTwo(v: Volume)
    requires v.inodes_per_group > 1 && |v.tables| > 0
    ensures Group(v, 2) == 0 && InodeAt(v, 2) == RootInodeAt(v)
  {
    DivModUnique(1, v.inodes_per_group, 0, 1);
  }

  /** Distinct inodes are read from disjoint 256-byte ranges. */
  lemma InodesDisjoint(v: Volume, i: nat, j: nat)
    requires v.inodes_per_group > 0 && TablesDisjoint(v) && Fits32(v)
    requires i > 0 && j > 0 && i != j && Group(v, i) < |v.tables| && Group(v, j) < |v.tables|
    ensures InodeAt(v, i) + INODE_SIZE <= InodeAt(v, j) || InodeAt(v, j) + INODE_SIZE <= InodeAt(v, i)
  {
    var g, h, a, b := Group(v, i), Group(v, j), Index(v, i), Index(v, j);
    NoWrap(v, g);
    NoWrap(v, h);
    if g == h {
      SameGroup(v, i, j);
    } else {
      assert a < v.inodes_per_group && b < v.inodes_per_group;
      assert TableAt(v, g) + INODE_SIZE * v.inodes_per_group <= TableAt(v, h)
        || TableAt(v, h) + INODE_SIZE * v.inodes_per_group <= TableAt(v, g);
    }
  }

  lemma NoWrap(v: Volume, g: nat)
    requires Fits32(v) && g < |v.tables|
    ensures Times32(v.block_size, v.tables[g]) == TableAt(v, g)
  {
    assert TableAt(v, g) < 0x1_0000_0000;
  }

  lemma SameGroup(v: Volume, i: nat, j: nat)
    requires v.inodes_per_group > 0 && i > 0 && j > 0 && i != j && Group(v, i) == Group(v, j)
    ensures Index(v, i) != Index(v, j)
  {
    var n, g := v.inodes_per_group, Group(v, i);
    assert i - 1 == g * n + Index(v, i);
    assert j - 1 == g * n + Index(v, j);
  }
}
