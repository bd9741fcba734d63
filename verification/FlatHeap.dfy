/** The heap as a plain byte array: free-block status words, growth, block headers. */
module FlatHeap {
  import opened Bits
  import opened Memory

  const PAGE_SIZE: nat := 4096
  const MAGIC: nat := 0xFEEB_DAED_DEAD_BEEF

  // FreeSpace: the size in the upper 63 bits of a status word, "last" in bit 0.

  function GetSize(status: nat): nat { status / 2 }

  predicate IsLast(status: nat) { And(status, 1) == 1 }

  function SetSize(status: nat, size: nat): nat {
    Or(size * 2 % WORD, And(status, 1))
  }

  function SetLast(status: nat): nat { Or(status, 1) }

  function SetNotLast(status: nat): nat { status / 2 * 2 }

  lemma LowBit(status: nat)
    ensures And(status, 1) == status % 2
  {
    assert Pow2(1) == 2;
    AndLow(status, 1);
  }

  /** The two fields are independent; a size is kept exactly when it has 63 bits. */
  lemma FreeSpaceFields(status: nat, size: nat)
    requires status < WORD
    ensures GetSize(SetSize(status, size)) == size % 0x8000_0000_0000_0000
    ensures SetSize(status, size) < WORD && SetLast(status) < WORD
    ensures IsLast(SetSize(status, size)) == IsLast(status)
    ensures GetSize(SetLast(status)) == GetSize(status) && IsLast(SetLast(status))
    ensures GetSize(SetNotLast(status)) == GetSize(status) && !IsLast(SetNotLast(status))
  {
    hide And, Or, Shl;
    LowBit(status);
    LowBit(SetSize(status, size));
    LowBit(SetLast(status));
    LowBit(SetNotLast(status));
    var n := size % 0x8000_0000_0000_0000;
    assert size * 2 % WORD == n * 2 by { DoubleMod(size); }
    OrBit(n, status % 2);
    OrDouble(status / 2, 0, status % 2, 1);
    OrZero(status / 2);
  }

  lemma DoubleMod(size: nat)
    ensures size * 2 % WORD == size % 0x8000_0000_0000_0000 * 2
  {
    var h := 0x8000_0000_0000_0000;
    DivModUnique(size * 2, WORD, size / h, size % h * 2);
  }

  lemma OrBit(n: nat, b: nat)
    requires b < 2
    ensures Or(n * 2, b) == n * 2 + b
  {
    OrDouble(n, 0, 0, b);
    OrZero(n);
  }

  /** A heap whose status word says "last" holds the size and the mark together. */
  lemma LastStatus(status: nat, size: nat)
    requires status < WORD && IsLast(status) && size < 0x8000_0000_0000_0000
    ensures SetSize(status, size) == size * 2 + 1
  {
    LowBit(status);
    OrBit(size, 1);
    assert size * 2 % WORD == size * 2;
  }

  lemma OddStatus(size: nat)
    ensures IsLast(size * 2 + 1) && GetSize(size * 2 + 1) == size
  {
    LowBit(size * 2 + 1);
  }

  // The heap: bytes[..at] are allocated blocks, bytes[at..] is the free block.

  datatype Flat = Flat(bytes: seq<byte>, at: nat)

  function Zeros(n: nat): (s: seq<byte>)
    ensures |s| == n && forall i | 0 <= i < n :: s[i] == 0
  {
    seq(n, _ => 0)
  }

  /** The one free block is marked last, reaches the end of the heap, and has room for
      its own header. */
  ghost predicate FlatOk(h: Flat) {
    && h.at + 16 <= |h.bytes| <= 0x800_0000
    && |h.bytes| % PAGE_SIZE == 0
    && Word(h.bytes, h.at) == (|h.bytes| - h.at) * 2 + 1
  }

  /** One round of the growth loop. */
  function FlatGrow(h: Flat): (r: Flat)
    requires h.at + 16 <= |h.bytes|
    ensures |r.bytes| == |h.bytes| + PAGE_SIZE && r.at == h.at
  {
    var status := Word(h.bytes, h.at);
    Flat(SetWord(h.bytes + Zeros(PAGE_SIZE), h.at, SetSize(status, GetSize(status) + PAGE_SIZE)), h.at)
  }

  function FlatGrowN(h: Flat, k: nat): (r: Flat)
    requires h.at + 16 <= |h.bytes|
    ensures |r.bytes| == |h.bytes| + k * PAGE_SIZE && r.at == h.at
    decreases k
  {
    if k == 0 then h else FlatGrowN(FlatGrow(h), k - 1)
  }

  /** How many pages the growth loop adds: size + 2 * sizeof(FreeSpace) in 64 bits
      must be available. */
  function PagesNeeded(have: nat, size: nat): nat {
    var need := (size + 32) % WORD;
    if have >= need then 0 else (need - have + PAGE_SIZE - 1) / PAGE_SIZE
  }

  /** The header of a block. */
  function WriteHeader(b: seq<byte>, at: nat, size: nat): (r: seq<byte>)
    requires at + 16 <= |b|
    ensures |r| == |b|
  {
    SetWord(SetWord(b, at, size), at + 8, MAGIC)
  }

  /** set_last, then set_size, on a status word. */
  function WriteFree(b: seq<byte>, at: nat, size: nat): (r: seq<byte>)
    requires at + 8 <= |b|
    ensures |r| == |b|
  {
    var b1 := SetWord(b, at, SetLast(Word(b, at)));
    SetWord(b1, at, SetSize(Word(b1, at), size))
  }

  /** a - b in 64 bits. */
  function Minus64(a: nat, b: nat): nat
  {
    (a + WORD - b % WORD) % WORD
  }

  /** The block header and the free block behind it. */
  function FlatSplit(h: Flat, size: nat): (r: Flat)
    requires h.at + 32 + size <= |h.bytes|
    ensures |r.bytes| == |h.bytes| && r.at == h.at + 16 + size
  {
    var old_size := GetSize(Word(h.bytes, h.at));
    var next := h.at + 16 + size;
    Flat(WriteFree(WriteHeader(h.bytes, h.at, size), next, Minus64(old_size, size + 16)), next)
  }

  lemma FlatGrowOk(h: Flat)
    requires FlatOk(h) && |h.bytes| + PAGE_SIZE <= 0x800_0000
    ensures FlatOk(FlatGrow(h))
    ensures FlatGrow(h).bytes[..h.at] == h.bytes[..h.at]
  {
    hide SetWord, SetBytes, Le, ToLe, SetSize, IsLast, Word, And, Or;
    var n := |h.bytes| - h.at;
    OddStatus(n);
    LastStatus(n * 2 + 1, n + PAGE_SIZE);
    var status := Word(h.bytes, h.at);
    assert SetSize(status, GetSize(status) + PAGE_SIZE) == (n + PAGE_SIZE) * 2 + 1;
  }

  lemma {:induction false} FlatGrowNOk(h: Flat, k: nat)
    requires FlatOk(h) && |h.bytes| + k * PAGE_SIZE <= 0x800_0000
    ensures FlatOk(FlatGrowN(h, k))
    ensures FlatGrowN(h, k).bytes[..h.at] == h.bytes[..h.at]
    decreases k
  {
    hide SetWord, SetBytes, Le, ToLe;
    if k > 0 {
      FlatGrowOk(h);
      FlatGrowNOk(FlatGrow(h), k - 1);
    }
  }

  /** The pages added are the fewest that make room, and they do so exactly when
      size + 32 does not wrap. */
  lemma GrowthSuffices(have: nat, size: nat)
    requires size < WORD && have < 0x8000_0000_0000_0000
    ensures have + PagesNeeded(have, size) * PAGE_SIZE >= size + 32 <==> size + 32 < WORD
    ensures size + 32 < WORD && PagesNeeded(have, size) > 0 ==>
              have + (PagesNeeded(have, size) - 1) * PAGE_SIZE < size + 32
  {
    if size + 32 < WORD {
      assert (size + 32) % WORD == size + 32;
    } else {
      assert (size + 32) % WORD == size + 32 - WORD < 32;
    }
  }

  /** kalloc on the flat heap. */
  function FlatKalloc(h: Flat, size: nat): (r: Flat)
    requires h.at + 16 <= |h.bytes|
    requires GetSize(Word(h.bytes, h.at)) == |h.bytes| - h.at < 0x8000_0000_0000_0000 && size + 32 < WORD
    ensures r.at == h.at + 16 + size
  {
    var k := PagesNeeded(GetSize(Word(h.bytes, h.at)), size);
    GrowthSuffices(|h.bytes| - h.at, size);
    FlatSplit(FlatGrowN(h, k), size)
  }

  ghost predicate Fits(h: Flat, size: nat) {
    && FlatOk(h) && size + 32 < WORD
    && |h.bytes| + PagesNeeded(|h.bytes| - h.at, size) * PAGE_SIZE <= 0x800_0000
  }

  lemma WriteHeaderOk(b: seq<byte>, at: nat, size: nat)
    requires at + 16 <= |b| && size < WORD
    ensures
      var r := WriteHeader(b, at, size);
      && r[..at] == b[..at]
      && Word(r, at) == size && Word(r, at + 8) == MAGIC
  {
    hide SetWord, SetBytes, Le, ToLe;
    var b1 := SetWord(b, at, size);
    WordSame(b1, WriteHeader(b, at, size), at);
  }

  lemma WriteFreeOk(b: seq<byte>, at: nat, size: nat)
    requires at + 8 <= |b| && size < 0x8000_0000_0000_0000
    ensures
      var r := WriteFree(b, at, size);
      && r[..at] == b[..at]
      && Word(r, at) == size * 2 + 1
  {
    hide SetWord, SetBytes, Le, ToLe;
    var status := Word(b, at);
    FreeSpaceFields(status, 0);
    LastStatus(SetLast(status), size);
  }

  lemma PrefixTrans(a: seq<byte>, b: seq<byte>, c: seq<byte>, k: nat, n: nat)
    requires k <= n <= |a| && n <= |b| && k <= |c|
    requires a[..n] == b[..n] && b[..k] == c[..k]
    ensures a[..k] == c[..k]
  {
    assert a[..k] == a[..n][..k];
    assert b[..k] == b[..n][..k];
  }

  lemma Minus64Exact(a: nat, b: nat)
    requires b <= a < WORD
    ensures Minus64(a, b) == a - b
  {
  }

  lemma FlatSplitIs(h: Flat, size: nat, old_size: nat, rest: nat)
    requires h.at + 32 + size <= |h.bytes|
    requires old_size == GetSize(Word(h.bytes, h.at)) && rest == Minus64(old_size, size + 16)
    ensures FlatSplit(h, size) ==
            Flat(WriteFree(WriteHeader(h.bytes, h.at, size), h.at + 16 + size, rest), h.at + 16 + size)
  {
    hide SetWord, SetBytes, Le, ToLe;
    hide WriteFree, WriteHeader, Word, Minus64, GetSize;
  }

  /** r has one block more than h: its header at h.at, and no earlier byte changed. */
  ghost predicate BlockAdded(h: Flat, size: nat, r: Flat) {
    && r.at == h.at + 16 + size
    && h.at <= |h.bytes| && r.at <= |r.bytes|
    && r.bytes[..h.at] == h.bytes[..h.at]
    && Word(r.bytes, h.at) == size && Word(r.bytes, h.at + 8) == 0xFEEB_DAED_DEAD_BEEF
  }

  lemma BlockAddedKept(h: Flat, size: nat, b: seq<byte>, r: seq<byte>, next: nat)
    requires next <= |b| && next <= |r| && r[..next] == b[..next]
    requires BlockAdded(h, size, Flat(b, next))
    ensures BlockAdded(h, size, Flat(r, next))
  {
    WordPrefix(b, r, h.at, next);
    WordPrefix(b, r, h.at + 8, next);
    PrefixTrans(r, b, h.bytes, h.at, next);
  }

  lemma SplitBytes(h: Flat, size: nat, rest: nat)
    requires h.at + 32 + size <= |h.bytes| && size < WORD && rest < 0x8000_0000_0000_0000
    ensures
      var r := WriteFree(WriteHeader(h.bytes, h.at, size), h.at + 16 + size, rest);
      && BlockAdded(h, size, Flat(r, h.at + 16 + size))
      && Word(r, h.at + 16 + size) == rest * 2 + 1
  {
    hide SetWord, SetBytes, Le, ToLe;
    WriteHeaderOk(h.bytes, h.at, size);
    var b, next := WriteHeader(h.bytes, h.at, size), h.at + 16 + size;
    assert BlockAdded(h, size, Flat(b, next));
    WriteFreeOk(b, next, rest);
    hide WriteHeader, WriteFree, Word, BlockAdded;
    BlockAddedKept(h, size, b, WriteFree(b, next, rest), next);
  }

  lemma FlatSplitOk(h: Flat, size: nat)
    requires FlatOk(h) && h.at + 32 + size <= |h.bytes|
    ensures FlatOk(FlatSplit(h, size)) && BlockAdded(h, size, FlatSplit(h, size))
  {
    hide SetWord, SetBytes, Le, ToLe;
    var n := |h.bytes| - h.at;
    var rest := n - (size + 16);
    OddStatus(n);
    Minus64Exact(n, size + 16);
    FlatSplitIs(h, size, n, rest);
    SplitBytes(h, size, rest);
    hide FlatSplit, WriteFree, WriteHeader, Word, BlockAdded;
  }

  lemma FlatKallocIs(h: Flat, size: nat, k: nat)
    requires h.at + 16 <= |h.bytes|
    requires GetSize(Word(h.bytes, h.at)) == |h.bytes| - h.at < 0x8000_0000_0000_0000 && size + 32 < WORD
    requires k == PagesNeeded(|h.bytes| - h.at, size)
    ensures h.at + 32 + size <= |h.bytes| + k * PAGE_SIZE
    ensures FlatKalloc(h, size) == FlatSplit(FlatGrowN(h, k), size)
  {
    hide SetWord, SetBytes, Le, ToLe;
    GrowthSuffices(|h.bytes| - h.at, size);
    hide FlatSplit, FlatGrowN, PagesNeeded, GetSize, Word;
  }

  lemma FitsGrows(h: Flat, size: nat)
    requires Fits(h, size)
    ensures
      var n := |h.bytes| - h.at;
      var g := FlatGrowN(h, PagesNeeded(n, size));
      && GetSize(Word(h.bytes, h.at)) == n < 0x8000_0000_0000_0000
      && FlatOk(g) && g.at + 32 + size <= |g.bytes| && g.bytes[..h.at] == h.bytes[..h.at]
      && FlatKalloc(h, size) == FlatSplit(g, size)
  {
    hide SetWord, SetBytes, Le, ToLe;
    var n := |h.bytes| - h.at;
    OddStatus(n);
    GrowthSuffices(n, size);
    FlatGrowNOk(h, PagesNeeded(n, size));
    FlatKallocIs(h, size, PagesNeeded(n, size));
    hide FlatKalloc, FlatSplit, FlatGrowN, PagesNeeded;
  }

  lemma BlockAddedTrans(h: Flat, g: Flat, size: nat, r: Flat)
    requires g.at == h.at <= |h.bytes| && h.at <= |g.bytes| && g.bytes[..h.at] == h.bytes[..h.at]
    requires BlockAdded(g, size, r)
    ensures BlockAdded(h, size, r)
  {
  }

  /** kalloc keeps the free block last and at the end, leaves every earlier byte alone,
      and writes the header of exactly one new block. */
  lemma FlatKallocOk(h: Flat, size: nat)
    requires Fits(h, size)
    ensures GetSize(Word(h.bytes, h.at)) == |h.bytes| - h.at < 0x8000_0000_0000_0000
    ensures FlatOk(FlatKalloc(h, size)) && BlockAdded(h, size, FlatKalloc(h, size))
    ensures |FlatKalloc(h, size).bytes| == |h.bytes| + PagesNeeded(|h.bytes| - h.at, size) * PAGE_SIZE
  {
    hide SetWord, SetBytes, Le, ToLe;
    FitsGrows(h, size);
    var g := FlatGrowN(h, PagesNeeded(|h.bytes| - h.at, size));
    FlatSplitOk(g, size);
    BlockAddedTrans(h, g, size, FlatSplit(g, size));
    hide FlatKalloc, FlatSplit, FlatGrowN, PagesNeeded, Word, BlockAdded, FlatOk;
  }

  /** kalloc on a heap with room for it. */
  function NewBlock(h: Flat, size: nat): (r: Flat)
    requires Fits(h, size)
    ensures FlatOk(r) && BlockAdded(h, size, r) && |h.bytes| <= |r.bytes|
  {
    FlatKallocOk(h, size);
    FlatKalloc(h, size)
  }

  /** The heap can grow by n bytes of blocks. */
  ghost predicate Room(h: Flat, n: nat) {
    FlatOk(h) && h.at + n + 2 * PAGE_SIZE <= 0x800_0000
  }

  lemma RoomFits(h: Flat, size: nat, n: nat)
    requires Room(h, 16 + size + n)
    ensures Fits(h, size) && Room(NewBlock(h, size), n)
  {
    var need, have := size + 32, |h.bytes| - h.at;
    if have < need {
      var x := need - have + PAGE_SIZE - 1;
      assert x / PAGE_SIZE * PAGE_SIZE <= x;
    }
    assert Fits(h, size);
    hide FlatKalloc;
  }

  // Tiling.

  /** bytes[from..at] is exactly a header and payload for each size, in order. */
  predicate Tiled(bytes: seq<byte>, from: nat, sizes: seq<nat>, at: nat)
    decreases |sizes|
  {
    if sizes == [] then from == at
    else
      && from + 16 + sizes[0] <= at <= |bytes|
      && Word(bytes, from) == sizes[0] && Word(bytes, from + 8) == MAGIC
      && Tiled(bytes, from + 16 + sizes[0], sizes[1..], at)
  }

  /** Reading the sizes back from the headers. */
  function WalkHeaders(bytes: seq<byte>, from: nat, at: nat): seq<nat>
    requires at <= |bytes|
    decreases at - from
  {
    if from + 16 > at then []
    else [Word(bytes, from)] + WalkHeaders(bytes, from + 16 + Word(bytes, from), at)
  }

  lemma {:induction false} WalkRecoversHistory(bytes: seq<byte>, from: nat, sizes: seq<nat>, at: nat)
    requires Tiled(bytes, from, sizes, at) && at <= |bytes|
    ensures WalkHeaders(bytes, from, at) == sizes
    decreases |sizes|
  {
    hide Word, Le;
    if sizes != [] {
      WalkRecoversHistory(bytes, from + 16 + sizes[0], sizes[1..], at);
      assert sizes == [sizes[0]] + sizes[1..];
    }
  }

  function Sum(sizes: seq<nat>): nat {
    if sizes == [] then 0 else sizes[0] + Sum(sizes[1..])
  }

  /** Nothing is lost: payloads and headers add up to the allocated part. */
  lemma {:induction false} TilingConserves(bytes: seq<byte>, from: nat, sizes: seq<nat>, at: nat)
    requires Tiled(bytes, from, sizes, at)
    ensures from + Sum(sizes) + 16 * |sizes| == at
    decreases |sizes|
  {
    if sizes != [] {
      TilingConserves(bytes, from + 16 + sizes[0], sizes[1..], at);
    }
  }

  lemma {:induction false} TiledExtend(
    b: seq<byte>, b': seq<byte>, from: nat, sizes: seq<nat>, at: nat, size: nat)
    requires Tiled(b, from, sizes, at) && from <= at && at + 16 + size <= |b'|
    requires at <= |b| && b'[..at] == b[..at]
    requires Word(b', at) == size && Word(b', at + 8) == MAGIC
    ensures Tiled(b', from, sizes + [size], at + 16 + size)
    decreases |sizes|
  {
    if sizes == [] {
      assert [size][1..] == [];
    } else {
      WordPrefix(b, b', from, at);
      WordPrefix(b, b', from + 8, at);
      TiledExtend(b, b', from + 16 + sizes[0], sizes[1..], at, size);
      assert (sizes + [size])[1..] == sizes[1..] + [size];
    }
  }

  lemma WordPrefix(b: seq<byte>, b': seq<byte>, a: nat, at: nat)
    requires a + 8 <= at <= |b| && at <= |b'| && b'[..at] == b[..at]
    ensures Word(b', a) == Word(b, a)
  {
    assert b'[a..a + 8] == b'[..at][a..a + 8] == b[..at][a..a + 8] == b[a..a + 8];
  }

  /** Offset i is inside the payload of one of the blocks that start at `from`. */
  predicate InPayload(from: nat, sizes: seq<nat>, i: nat)
    decreases |sizes|
  {
    sizes != [] &&
    (from + 16 <= i < from + 16 + sizes[0] || InPayload(from + 16 + sizes[0], sizes[1..], i))
  }

  lemma {:induction false} PayloadBound(bytes: seq<byte>, from: nat, sizes: seq<nat>, at: nat, i: nat)
    requires Tiled(bytes, from, sizes, at) && InPayload(from, sizes, i)
    ensures from + 16 <= i < at
    decreases |sizes|
  {
    TilingConserves(bytes, from, sizes, at);
    if !(from + 16 <= i < from + 16 + sizes[0]) {
      PayloadBound(bytes, from + 16 + sizes[0], sizes[1..], at, i);
    }
  }

  /** A write inside a payload keeps every header. */
  lemma {:induction false} PayloadWriteKeepsTiling(
    bytes: seq<byte>, from: nat, sizes: seq<nat>, at: nat, i: nat, x: byte)
    requires Tiled(bytes, from, sizes, at) && InPayload(from, sizes, i) && at <= |bytes|
    ensures i < at && Tiled(bytes[i := x], from, sizes, at)
    decreases |sizes|
  {
    PayloadBound(bytes, from, sizes, at, i);
    var b := bytes[i := x];
    WordSame(bytes, b, from);
    WordSame(bytes, b, from + 8);
    if from + 16 <= i < from + 16 + sizes[0] {
      TiledAbove(bytes, from + 16 + sizes[0], sizes[1..], at, i, x);
    } else {
      PayloadWriteKeepsTiling(bytes, from + 16 + sizes[0], sizes[1..], at, i, x);
    }
  }

  lemma {:induction false} TiledAbove(
    bytes: seq<byte>, from: nat, sizes: seq<nat>, at: nat, i: nat, x: byte)
    requires Tiled(bytes, from, sizes, at) && i < from && i < |bytes| && at <= |bytes|
    ensures Tiled(bytes[i := x], from, sizes, at)
    decreases |sizes|
  {
    if sizes != [] {
      WordSame(bytes, bytes[i := x], from);
      WordSame(bytes, bytes[i := x], from + 8);
      TiledAbove(bytes, from + 16 + sizes[0], sizes[1..], at, i, x);
    }
  }

  /** A new block's payload shares no byte with an earlier one. */
  lemma PayloadsDisjoint(bytes: seq<byte>, sizes: seq<nat>, at: nat, size: nat, i: nat)
    requires Tiled(bytes, 0, sizes, at) && InPayload(0, sizes, i)
    ensures !(at + 16 <= i < at + 16 + size)
  {
    PayloadBound(bytes, 0, sizes, at, i);
  }
}
