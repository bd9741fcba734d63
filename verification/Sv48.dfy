/** Sv48 addresses, page-table entries and the two walkers: the hardware's
    (RISC-V Privileged Specification 20211203, sections 4.3.2 and 4.5) and the kernel's. */
module Sv48 {
  import opened Wrappers
  import opened Bits
  import opened Memory

  const VIRTUAL_OFFSET: nat := 0xFFFF_8000_0000_0000
  const PAGES: nat := 0x10_0000_0000 // 2^36 pages of 4 KiB in a 48-bit space

  /** Number of pages covered by one slot of a table; the root has level 3. */
  function Span(level: nat): (s: nat)
    ensures s > 0
  {
    if level == 0 then 1
    else if level == 1 then 512
    else if level == 2 then 0x4_0000
    else if level == 3 then 0x800_0000
    else PAGES
  }

  /** The 36-bit page number of an address: bits 47..12. */
  function PageOf(a: nat): (p: nat)
    ensures p < PAGES
  {
    a / 4096 % PAGES
  }

  /** The slot of a level's table on the path to page p. */
  function Slot(p: nat, level: nat): (i: nat)
    ensures i < 512
  {
    p / Span(level) % 512
  }

  /** The path that leads from the root to a level's table for page p. */
  function Prefix(p: nat, level: nat): nat {
    p / Span(level + 1)
  }

  lemma PrefixStep(p: nat, level: nat)
    requires p < PAGES && level <= 3
    ensures Prefix(p, 3) == 0
    ensures level > 0 ==> Prefix(p, level - 1) == Prefix(p, level) * 512 + Slot(p, level)
    ensures level == 0 ==> p == Prefix(p, 0) * 512 + Slot(p, 0)
  {
    if level == 1 {
      Div512(p);
    } else if level == 2 {
      Div18(p);
    } else if level == 3 {
      Div27(p);
    }
  }

  lemma Div512(p: nat)
    ensures p / 512 / 512 == p / 0x4_0000
  {
  }

  lemma Div18(p: nat)
    ensures p / 0x4_0000 / 512 == p / 0x800_0000
  {
  }

  lemma Div27(p: nat)
    ensures p / 0x800_0000 / 512 == p / PAGES
  {
  }

  // The accessors of VirtualPage, as shifts and masks.

  function GetVpn3(a: nat): (i: nat)
    ensures i == Slot(PageOf(a), 3)
  {
    Field(a, 0x80_0000_0000, 3);
    And(a / 0x80_0000_0000, 511)
  }

  function GetVpn2(a: nat): (i: nat)
    ensures i == Slot(PageOf(a), 2)
  {
    Field(a, 0x4000_0000, 2);
    And(a / 0x4000_0000, 511)
  }

  function GetVpn1(a: nat): (i: nat)
    ensures i == Slot(PageOf(a), 1)
  {
    Field(a, 0x20_0000, 1);
    And(a / 0x20_0000, 511)
  }

  function GetVpn0(a: nat): (i: nat)
    ensures i == Slot(PageOf(a), 0)
  {
    Field(a, 0x1000, 0);
    And(a / 0x1000, 511)
  }

  function GetOffset(a: nat): (o: nat)
    ensures o == a % 4096
  {
    AndLow(a, 12);
    And(a, 0xFFF)
  }

  /** Shifting by 12 + 9*level and masking nine bits selects the slot of that level. */
  lemma Field(a: nat, unit: nat, level: nat)
    requires level <= 3 && unit == 4096 * Span(level)
    ensures And(a / unit, 511) == Slot(PageOf(a), level)
  {
    MaskNine(a / unit);
    DivFrame(a, level);
    SlotOfHigher(a / 4096, level);
  }

  /** The bits above the 36 page bits do not matter to any slot. */
  lemma SlotOfHigher(q: nat, level: nat)
    requires level <= 3
    ensures q / Span(level) % 512 == Slot(q % PAGES, level)
  {
    var c, r := q / PAGES, q % PAGES;
    assert q == c * PAGES + r;
    if level == 0 {
      ModOfSum(c * 0x800_0000, q, r);
    } else if level == 1 {
      assert q / 512 == c * 0x800_0000 + r / 512;
      ModOfSum(c * 0x4_0000, q / 512, r / 512);
    } else if level == 2 {
      assert q / 0x4_0000 == c * 0x4_0000 + r / 0x4_0000;
      ModOfSum(c * 512, q / 0x4_0000, r / 0x4_0000);
    } else {
      assert q / 0x800_0000 == c * 512 + r / 0x800_0000;
      ModOfSum(c, q / 0x800_0000, r / 0x800_0000);
    }
  }

  lemma MaskNine(x: nat)
    ensures And(x, 511) == x % 512
  {
    Pow2Values();
    AndLow(x, 9);
  }

  lemma DivFrame(a: nat, level: nat)
    requires level <= 3
    ensures a / (4096 * Span(level)) == a / 4096 / Span(level)
  {
    var q := a / 4096;
    if level == 1 {
      assert a / 0x20_0000 == q / 512;
    } else if level == 2 {
      assert a / 0x4000_0000 == q / 0x4_0000;
    } else if level == 3 {
      assert a / 0x80_0000_0000 == q / 0x800_0000;
    }
  }

  lemma ModOfSum(c: nat, x: nat, y: nat)
    requires x == c * 512 + y
    ensures x % 512 == y % 512
  {
  }

  /** The five fields determine the address. */
  lemma FieldsDetermineAddress(a: nat)
    requires a < 0x1_0000_0000_0000
    ensures a == (((GetVpn3(a) * 512 + GetVpn2(a)) * 512 + GetVpn1(a)) * 512 + GetVpn0(a)) * 4096 + GetOffset(a)
  {
    var p := PageOf(a);
    assert p == a / 4096;
    SlotsDeterminePage(p);
    assert a == p * 4096 + a % 4096;
  }

  lemma SlotsDeterminePage(p: nat)
    requires p < PAGES
    ensures p == ((Slot(p, 3) * 512 + Slot(p, 2)) * 512 + Slot(p, 1)) * 512 + Slot(p, 0)
  {
    PrefixStep(p, 3);
    PrefixStep(p, 2);
    PrefixStep(p, 1);
    PrefixStep(p, 0);
  }

  // Page-table entries.

  function Ppn(e: nat): nat { e / 1024 }
  predicate Valid(e: nat) { e % 2 == 1 }
  predicate Readable(e: nat) { e / 2 % 2 == 1 }
  predicate Writable(e: nat) { e / 4 % 2 == 1 }
  predicate Executable(e: nat) { e / 8 % 2 == 1 }

  /** (ppn & 0xFFFFFFFFFF) << 10 | 1 */
  function CreateValidPageTableEntry(ppn: nat): (e: nat)
    ensures e == ppn % 0x100_0000_0000 * 1024 + 1
    ensures e < 0x4_0000_0000_0000
  {
    Pow2Values();
    AndLow(ppn, 40);
    OrDisjoint(ppn % 0x100_0000_0000, 10, 1);
    ShlTimes(ppn % 0x100_0000_0000, 10);
    Or(And(ppn, 0xFF_FFFF_FFFF) * 1024, 1)
  }

  /** The entry map_page writes at the last level. */
  function LeafEntry(ppn: nat, flag: nat): nat {
    Or(CreateValidPageTableEntry(ppn), flag)
  }

  /** A flag above the ten flag bits is or-ed into the frame number, and a frame number
      above 40 bits is cut: what is read back, for all inputs. */
  lemma LeafEntryFields(ppn: nat, flag: nat)
    ensures Ppn(LeafEntry(ppn, flag)) == Or(ppn % 0x100_0000_0000, flag / 1024)
    ensures LeafEntry(ppn, flag) % 1024 == Or(1, flag % 1024)
  {
    Pow2Values();
    var h, g := ppn % 0x100_0000_0000, flag / 1024;
    OrSplit(h, g, 10, 1, flag % 1024);
    ShlTimes(h, 10);
    ShlTimes(g, 10);
    ShlTimes(Or(h, g), 10);
  }

  lemma EntryOfParts(e: nat, p: nat, r: nat, half: nat)
    requires e / 1024 == p && e % 1024 == r && r == 1 + 2 * half
    ensures e == p * 1024 + r && e % 2 == 1
  {
    assert e == 2 * (p * 512 + half) + 1;
  }

  /** With a ten-bit flag the frame number survives exactly when it has 40 bits. */
  lemma LeafEntryFrame(ppn: nat, flag: nat)
    requires flag < 1024
    ensures Ppn(LeafEntry(ppn, flag)) == ppn <==> ppn < 0x100_0000_0000
    ensures LeafEntry(ppn, flag) < 0x4_0000_0000_0000
    ensures LeafEntry(ppn, flag) == ppn % 0x100_0000_0000 * 1024 + Or(1, flag)
    ensures Valid(LeafEntry(ppn, flag))
  {
    hide Or, And, LeafEntry, CreateValidPageTableEntry;
    LeafEntryFields(ppn, flag);
    OrZero(ppn % 0x100_0000_0000);
    OrStep(1, flag);
    assert flag / 1024 == 0 && flag % 1024 == flag && 1 / 2 == 0;
    var e, r := LeafEntry(ppn, flag), Or(1, flag);
    EntryOfParts(e, ppn % 0x100_0000_0000, r, Or(0, flag / 2));
  }

  /** The hardware's walk from table t of the given level. */
  function HwWalk(w: Frames, t: nat, level: nat, v: nat): Option<nat>
    decreases level
  {
    if t >= |w| then None
    else
      var e := w[t][Slot(PageOf(v), level)];
      if !Valid(e) || (!Readable(e) && Writable(e)) || e >= 0x40_0000_0000_0000 then None
      else if Readable(e) || Executable(e) then
        if Ppn(e) % Span(level) != 0 then None
        else Some(Ppn(e) * 4096 + v % (Span(level) * 4096))
      else if level == 0 then None
      else HwWalk(w, Ppn(e), level - 1, v)
  }

  /** Bits 63..48 of an address must equal bit 47. */
  predicate Canonical(v: nat) {
    v < 0x8000_0000_0000 || VIRTUAL_OFFSET <= v < WORD
  }

  function HwTranslate(w: Frames, root: nat, v: nat): Option<nat>
  {
    if Canonical(v) then HwWalk(w, root, 3, v) else None
  }

  /** The kernel's walk: the last-level entry for page p, if every level is valid. */
  function Lookup(w: Frames, t: nat, level: nat, p: nat): Option<nat>
    decreases level
  {
    if t >= |w| then None
    else
      var e := w[t][Slot(p, level)];
      if !Valid(e) then None
      else if level == 0 then Some(e)
      else Lookup(w, Ppn(e), level - 1, p)
  }

  /** get_physical_address_of_virtual_address, with 0 for "not mapped". */
  function SwTranslate(w: Frames, root: nat, v: nat): nat
  {
    match Lookup(w, root, 3, PageOf(v))
    case None => 0
    case Some(e) => Or(Ppn(e) * 4096 % WORD, GetOffset(v))
  }

  lemma FrameOrOffset(f: nat, v: nat)
    ensures Or(f * 4096, GetOffset(v)) == f * 4096 + v % 4096
  {
    Pow2Values();
    OrDisjoint(f, 12, v % 4096);
    ShlTimes(f, 12);
  }
}
