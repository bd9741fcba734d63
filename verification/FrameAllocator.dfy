/** The physical frame allocator: one flag byte per frame, first fit.

    Frame number i is the physical page base + i, and its flag is byte i of the eight
    frames that precede the first managed frame. Those eight frames hold 32768 flags. */
module FrameAllocator {
  import opened Wrappers
  import opened Bits
  import opened Memory
  import opened Sv48

  const FRAMES_FOR_MANAGING: nat := 8

  /** (address + num - 1) & ~(num - 1) in 64 bits. */
  function AllignAddress(address: nat, num: nat): nat
    requires 1 <= num <= WORD
  {
    And((address + num - 1) % WORD, WORD - num)
  }

  lemma MaskRoundsDown(x: nat, k: nat)
    requires k <= 64 && x < WORD
    ensures Pow2(k) <= WORD
    ensures And(x, WORD - Pow2(k)) == x - x % Pow2(k)
  {
    Pow2Values();
    AndHigh(x, k, 64);
  }

  lemma AllignAddressRounds(address: nat, num: nat, k: nat)
    requires k <= 64 && num == Pow2(k) && address + num <= WORD
    ensures AllignAddress(address, num) == (address + num - 1) / num * num
  {
    var x := address + num - 1;
    WholeWord(x);
    MaskRoundsDown(x, k);
    QuotientTimes(x, num);
  }

  lemma WholeWord(x: nat)
    requires x < WORD
    ensures x % WORD == x
  {
  }

  lemma QuotientTimes(x: nat, num: nat)
    requires num > 0
    ensures x - x % num == x / num * num
  {
  }

  /** For every power of two, the least multiple at or above the address. */
  lemma AllignAddressLeast(address: nat, k: nat)
    requires k <= 64 && address + Pow2(k) <= WORD
    ensures AllignAddress(address, Pow2(k)) % Pow2(k) == 0
    ensures address <= AllignAddress(address, Pow2(k)) < address + Pow2(k)
    ensures forall b: nat {:trigger b % Pow2(k)} | address <= b && b % Pow2(k) == 0 ::
              AllignAddress(address, Pow2(k)) <= b
  {
    AllignAddressRounds(address, Pow2(k), k);
    RoundUpLeast(address, Pow2(k));
  }

  lemma RoundUpLeast(a: nat, num: nat)
    requires num > 0
    ensures (a + num - 1) / num * num % num == 0
    ensures a <= (a + num - 1) / num * num < a + num
    ensures forall b: nat {:trigger b % num} | a <= b && b % num == 0 :: (a + num - 1) / num * num <= b
  {
    var q := (a + num - 1) / num;
    DivModUnique(q * num, num, q, 0);
    assert a + num - 1 == q * num + (a + num - 1) % num;
    forall b: nat {:trigger b % num} | a <= b && b % num == 0
      ensures q * num <= b
    {
      if b < q * num { MultipleGap(b, num, q); }
    }
  }

  /** Two different multiples are at least one unit apart. */
  lemma MultipleGap(b: nat, num: nat, q: nat)
    requires num > 0 && b % num == 0 && b < q * num
    ensures b + num <= q * num
  {
    var c := b / num;
    assert b == c * num;
    MulDiff(q, c, num);
    if c < q { MulAtLeast(q - c, num); }
  }

  /** The linker places the physical heap right after .bss; memory ends on a frame.
      The flags then fill the eight frames before the first managed frame, and the
      managed frames end exactly at the end of memory. */
  lemma FrameRangeExact(heapStart: nat, memoryEnd: nat)
    requires memoryEnd % FRAME_SIZE == 0 && memoryEnd <= 0x1_0000_0000
    requires heapStart + 9 * FRAME_SIZE <= memoryEnd
    ensures
      var flagsAt := AllignAddress(heapStart + VIRTUAL_OFFSET, FRAME_SIZE);
      var first := AllignAddress(heapStart + FRAMES_FOR_MANAGING * FRAME_SIZE, FRAME_SIZE);
      var numFrames := (memoryEnd - heapStart) / FRAME_SIZE - FRAMES_FOR_MANAGING;
      && flagsAt == VIRTUAL_OFFSET + first - FRAMES_FOR_MANAGING * FRAME_SIZE
      && heapStart <= first - FRAMES_FOR_MANAGING * FRAME_SIZE
      && first % FRAME_SIZE == 0
      && first + numFrames * FRAME_SIZE == memoryEnd
  {
    hide Pow2, AllignAddress;
    Pow2Values();
    AllignAddressLeast(heapStart + VIRTUAL_OFFSET, 12);
    AllignAddressLeast(heapStart + 8 * 4096, 12);
    var first := AllignAddress(heapStart + 8 * 4096, 4096);
    FlagsPlace(heapStart, AllignAddress(heapStart + VIRTUAL_OFFSET, 4096), first);
    FramesEnd(heapStart, memoryEnd, first);
  }

  lemma FlagsPlace(heapStart: nat, flagsAt: nat, first: nat)
    requires flagsAt % 4096 == 0 && heapStart + VIRTUAL_OFFSET <= flagsAt < heapStart + VIRTUAL_OFFSET + 4096
    requires first % 4096 == 0 && heapStart + 8 * 4096 <= first < heapStart + 9 * 4096
    ensures flagsAt == VIRTUAL_OFFSET + first - 8 * 4096
  {
    var q := VIRTUAL_OFFSET / 4096 + first / 4096 - 8;
    assert VIRTUAL_OFFSET == VIRTUAL_OFFSET / 4096 * 4096;
    DivModUnique(VIRTUAL_OFFSET + first - 8 * 4096, 4096, q, 0);
    SameMultiple(flagsAt, VIRTUAL_OFFSET + first - 8 * 4096);
  }

  lemma FramesEnd(heapStart: nat, memoryEnd: nat, first: nat)
    requires memoryEnd % 4096 == 0 && heapStart + 9 * 4096 <= memoryEnd
    requires first % 4096 == 0 && heapStart + 8 * 4096 <= first < heapStart + 9 * 4096
    ensures first + ((memoryEnd - heapStart) / 4096 - 8) * 4096 == memoryEnd
  {
    var n := (memoryEnd - heapStart) / 4096;
    assert memoryEnd - heapStart == n * 4096 + (memoryEnd - heapStart) % 4096;
    DivModUnique(first + (n - 8) * 4096, 4096, first / 4096 + n - 8, 0);
    SameMultiple(first + (n - 8) * 4096, memoryEnd);
  }

  /** Two multiples less than one unit apart are equal. */
  lemma SameMultiple(a: int, b: int)
    requires a % 4096 == 0 && b % 4096 == 0 && -4096 < a - b < 4096
    ensures a == b
  {
    var q, r := a / 4096, b / 4096;
    assert a == q * 4096 && b == r * 4096;
  }

  ghost predicate Layout(m: Mem, base: nat) {
    && FRAMES_FOR_MANAGING <= base
    && base * FRAME_SIZE < |m| <= 0x1_0000_0000
    && |m| % FRAME_SIZE == 0
  }

  /** Number of frames that exist and whose flag byte is one of the reserved 32768. */
  function Cap(m: Mem, base: nat): (c: nat)
    requires base * FRAME_SIZE <= |m|
    ensures (base + c) * FRAME_SIZE <= |m|
  {
    var n := |m| / FRAME_SIZE - base;
    if n < 32768 then n else 32768
  }

  function FlagAddress(base: nat, i: nat): nat
    requires FRAMES_FOR_MANAGING <= base
  {
    (base - FRAMES_FOR_MANAGING) * FRAME_SIZE + i
  }

  predicate IsFree(m: Mem, base: nat, i: nat)
    requires FRAMES_FOR_MANAGING <= base && base * FRAME_SIZE <= |m| && i < 32768
  {
    m[FlagAddress(base, i)] == 0
  }

  /** The lowest free frame number at or above i, or the cap when there is none. */
  function FirstFree(m: Mem, base: nat, i: nat): (r: nat)
    requires FRAMES_FOR_MANAGING <= base && base * FRAME_SIZE <= |m| && i <= Cap(m, base)
    ensures i <= r <= Cap(m, base)
    ensures r < Cap(m, base) ==> IsFree(m, base, r)
    ensures forall j | i <= j < r :: !IsFree(m, base, j)
    decreases Cap(m, base) - i
  {
    if i == Cap(m, base) || IsFree(m, base, i) then i else FirstFree(m, base, i + 1)
  }

  /** kalloc_frame: None when every frame is taken. */
  function KallocFrame(m: Mem, base: nat): (r: Option<(Mem, nat)>)
    requires FRAMES_FOR_MANAGING <= base && base * FRAME_SIZE <= |m|
    ensures r.Some? ==>
              |r.value.0| == |m| && base <= r.value.1 < base + Cap(m, base) && IsFree(m, base, r.value.1 - base)
  {
    var i := FirstFree(m, base, 0);
    if i == Cap(m, base) then None
    else Some((m[FlagAddress(base, i) := 1], base + i))
  }

  /** (frame_address - first_frame_address) / FRAME_SIZE, cut to 32 bits. */
  function GetFrameNumber(address: nat, base: nat): nat {
    (address + WORD - base * FRAME_SIZE % WORD) % WORD / FRAME_SIZE % 0x1_0000_0000
  }

  lemma GetFrameNumberInverts(base: nat, i: nat)
    requires (base + i) * 4096 < WORD
    ensures GetFrameNumber((base + i) * 4096, base) == i % 0x1_0000_0000
  {
    assert ((base + i) * FRAME_SIZE + WORD - base * FRAME_SIZE) % WORD == i * FRAME_SIZE;
  }

  function KfreeFrame(m: Mem, base: nat, i: nat): (m': Mem)
    requires FRAMES_FOR_MANAGING <= base && base * FRAME_SIZE <= |m| && i < 32768
    ensures |m'| == |m|
  {
    m[FlagAddress(base, i) := 0]
  }

  ghost function Live(m: Mem, base: nat): set<nat>
    requires FRAMES_FOR_MANAGING <= base && base * FRAME_SIZE <= |m|
  {
    set i: nat | i < Cap(m, base) && !IsFree(m, base, i)
  }

  datatype FrameOp = Alloc | Free(i: nat)

  predicate FreesInRange(ops: seq<FrameOp>, cap: nat) {
    forall k | 0 <= k < |ops| && ops[k].Free? :: ops[k].i < cap
  }

  /** The frame numbers that a run of operations hands out, while a frame is available. */
  function RunFrames(m: Mem, base: nat, ops: seq<FrameOp>): Option<(Mem, seq<nat>)>
    requires FRAMES_FOR_MANAGING <= base && base * FRAME_SIZE <= |m|
    requires FreesInRange(ops, Cap(m, base))
    decreases |ops|
  {
    if ops == [] then Some((m, []))
    else if ops[0].Free? then RunFrames(KfreeFrame(m, base, ops[0].i), base, ops[1..])
    else
      match KallocFrame(m, base)
      case None => None
      case Some((m1, f)) =>
        match RunFrames(m1, base, ops[1..])
        case None => None
        case Some((m2, fs)) => var i: nat := f - base; Some((m2, [i] + fs))
  }

  /** An independent reading of first fit on a set of live frames: each allocation takes
      the least number that is not live. */
  ghost predicate FirstFit(live: set<nat>, ops: seq<FrameOp>, handed: seq<nat>, final: set<nat>)
    decreases |ops|
  {
    if ops == [] then handed == [] && final == live
    else if ops[0].Free? then FirstFit(live - {ops[0].i}, ops[1..], handed, final)
    else
      && handed != []
      && handed[0] !in live
      && (forall j: nat | j < handed[0] :: j in live)
      && FirstFit(live + {handed[0]}, ops[1..], handed[1..], final)
  }

  lemma LiveAfterAlloc(m: Mem, base: nat)
    requires Layout(m, base) && KallocFrame(m, base).Some?
    ensures
      var (m', f) := KallocFrame(m, base).value;
      && f - base !in Live(m, base)
      && (forall j: nat | j < f - base :: j in Live(m, base))
      && Live(m', base) == Live(m, base) + {f - base}
  {
    var (m', f) := KallocFrame(m, base).value;
    assert forall j: nat | j < Cap(m, base) :: IsFree(m', base, j) <==> IsFree(m, base, j) && j != f - base;
  }

  lemma LiveAfterFree(m: Mem, base: nat, i: nat)
    requires Layout(m, base) && i < Cap(m, base)
    ensures Live(KfreeFrame(m, base, i), base) == Live(m, base) - {i}
  {
    var m' := KfreeFrame(m, base, i);
    assert forall j: nat | j < Cap(m, base) :: IsFree(m', base, j) <==> IsFree(m, base, j) || j == i;
  }

  /** Over any run of allocations and frees no frame is handed out while it is live,
      and the lowest free frame is always the one chosen. */
  lemma {:induction false} RunIsFirstFit(m: Mem, base: nat, ops: seq<FrameOp>)
    requires Layout(m, base) && FreesInRange(ops, Cap(m, base))
    requires RunFrames(m, base, ops).Some?
    ensures
      var (m', handed) := RunFrames(m, base, ops).value;
      |m'| == |m| && FirstFit(Live(m, base), ops, handed, Live(m', base))
    decreases |ops|
  {
    if ops == [] {
    } else if ops[0].Free? {
      LiveAfterFree(m, base, ops[0].i);
      RunIsFirstFit(KfreeFrame(m, base, ops[0].i), base, ops[1..]);
    } else {
      LiveAfterAlloc(m, base);
      var (m1, f) := KallocFrame(m, base).value;
      RunIsFirstFit(m1, base, ops[1..]);
      assert RunFrames(m, base, ops).value.1[1..] == RunFrames(m1, base, ops[1..]).value.1;
    }
  }

  // The search as it is written: nothing stops it at the last frame.

  /** The index at which the search of kalloc_frame stops when it starts at i; None when it
      would leave memory. */
  function Search(m: Mem, base: nat, i: nat): (r: Option<nat>)
    requires FRAMES_FOR_MANAGING <= base
    ensures r.Some? ==>
              i <= r.value && FlagAddress(base, r.value) < |m| && m[FlagAddress(base, r.value)] == 0
    ensures forall j | i <= j < (if r.Some? then r.value else |m|) && FlagAddress(base, j) < |m| ::
              m[FlagAddress(base, j)] != 0
    decreases |m| - FlagAddress(base, i)
  {
    if FlagAddress(base, i) >= |m| then None
    else if m[FlagAddress(base, i)] == 0 then Some(i)
    else Search(m, base, i + 1)
  }

  /** kalloc_frame without the cap; the index is multiplied in 32 bits. */
  function KallocFrameUncapped(m: Mem, base: nat): (r: Option<(Mem, nat)>)
    requires FRAMES_FOR_MANAGING <= base
    ensures r.Some? ==> |r.value.0| == |m|
  {
    match Search(m, base, 0)
    case None => None
    case Some(i) => Some((m[FlagAddress(base, i) := 1], base + i % 0x10_0000))
  }

  /** The address handed out: the index times 4096 in 32 bits, from the first frame on. */
  lemma UncappedAddress(m: Mem, base: nat)
    requires FRAMES_FOR_MANAGING <= base && KallocFrameUncapped(m, base).Some?
    ensures
      var i := Search(m, base, 0).value;
      KallocFrameUncapped(m, base).value.1 * 4096 == base * 4096 + i * 4096 % 0x1_0000_0000
  {
    var i := Search(m, base, 0).value;
    assert i * 4096 == i / 0x10_0000 * 0x1_0000_0000 + i % 0x10_0000 * 4096;
    DivModUnique(i * 4096, 0x1_0000_0000, i / 0x10_0000, i % 0x10_0000 * 4096);
  }

  /** The search stops at one of the frames that exist and have a reserved flag exactly when
      one of them is free, and then kalloc_frame is first fit on them. */
  lemma SearchStaysInside(m: Mem, base: nat)
    requires Layout(m, base)
    ensures (exists i: nat :: i < Cap(m, base) && IsFree(m, base, i)) <==>
            Search(m, base, 0).Some? && Search(m, base, 0).value < Cap(m, base)
    ensures KallocFrame(m, base).Some? <==> Search(m, base, 0).Some? && Search(m, base, 0).value < Cap(m, base)
    ensures KallocFrame(m, base).Some? ==> KallocFrameUncapped(m, base) == KallocFrame(m, base)
  {
    var f, r := FirstFree(m, base, 0), Search(m, base, 0);
    FlagsInMemory(m, base);
    if f < Cap(m, base) {
      assert IsFree(m, base, f);
      assert m[FlagAddress(base, f)] == 0;
    }
    if r.Some? && r.value < Cap(m, base) {
      assert IsFree(m, base, r.value);
    }
  }

  lemma FlagsInMemory(m: Mem, base: nat)
    requires Layout(m, base)
    ensures forall i: nat | i < 32768 :: FlagAddress(base, i) < base * FRAME_SIZE < |m|
  {
  }

  /** The flag of frame i lies inside managed memory, where frames are handed out,
      exactly when i is past the 32768 reserved flags. With 2 GiB of memory there are far
      more frames than that: the flag of frame 32768 is byte 0 of frame 0, which
      paging_init makes the root page table. */
  lemma FlagOutsideManagedFrames(base: nat, i: nat)
    requires FRAMES_FOR_MANAGING <= base
    ensures FlagAddress(base, i) < base * FRAME_SIZE <==> i < 32768
    ensures FlagAddress(base, 32768) == base * FRAME_SIZE
  {
  }

  /** kalloc_frame leaves every managed frame alone exactly when one of the 32768 reserved
      flags is clear. */
  lemma SearchLeavesFlags(m: Mem, base: nat)
    requires Layout(m, base)
    ensures (exists i: nat :: i < 32768 && IsFree(m, base, i)) <==>
            Search(m, base, 0).Some? && FlagAddress(base, Search(m, base, 0).value) < base * FRAME_SIZE
  {
    var r := Search(m, base, 0);
    FlagsInMemory(m, base);
    if r.Some? {
      FlagOutsideManagedFrames(base, r.value);
      if r.value < 32768 { assert IsFree(m, base, r.value); }
    }
    forall i: nat | i < 32768 && IsFree(m, base, i)
      ensures r.Some? && r.value <= i
    {
      assert m[FlagAddress(base, i)] == 0;
    }
  }

  /** When all of them are set and the first word of frame 0 is empty, kalloc_frame hands out
      frame 32768, and that turns the word into a valid page-table entry that points to
      physical frame 0. */
  lemma ExhaustionCorruptsFrameZero(m: Mem, base: nat)
    requires Layout(m, base) && InMem(m, base) && WordsOf(m, base)[0] == 0
    requires forall i: nat | i < 32768 :: !IsFree(m, base, i)
    ensures KallocFrameUncapped(m, base) == Some((m[FlagAddress(base, 32768) := 1], base + 32768))
    ensures WordsOf(m[FlagAddress(base, 32768) := 1], base)[0] == CreateValidPageTableEntry(0)
  {
    var r := Search(m, base, 0);
    FlagsInMemory(m, base);
    FlagOutsideManagedFrames(base, 32768);
    LateFlagCorruptsFrameZero(m, base);
    assert m[FlagAddress(base, 32768)] == 0;
    if r.Some? && r.value < 32768 {
      assert IsFree(m, base, r.value);
    }
  }

  /** Marking frame 32768 allocated turns an empty first word of frame 0 into 1: a valid
      page-table entry that points to physical frame 0. */
  lemma LateFlagCorruptsFrameZero(m: Mem, base: nat)
    requires Layout(m, base) && InMem(m, base) && WordsOf(m, base)[0] == 0
    ensures m[FlagAddress(base, 32768)] == 0
    ensures WordsOf(m[FlagAddress(base, 32768) := 1], base)[0] == CreateValidPageTableEntry(0)
  {
    var a := base * FRAME_SIZE;
    var s := m[a..a + 8];
    var m' := m[a := 1];
    assert WordsOf(m, base)[0] == Le(s);
    ToLeLe(s);
    assert m[a] == s[0];
    assert s[1..] == ToLe(0, 7);
    assert m'[a..a + 8] == [1] + s[1..];
    LeToLe(0, 7);
    assert Pow256(7) > 0;
    assert Le([1] + s[1..]) == 1 + 256 * Le(s[1..]);
  }
}
