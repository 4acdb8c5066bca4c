/** src/rk356x/io.c and src/mmu.c: the translation tables, against the table walk
    of VMSAv8-64 (Arm DDI 0487, section D8.3) with a 4 KiB granule and 32-bit
    virtual addresses. */
module PageTables {
  import opened Bytes
  import opened Rk356x
  import MemoryMap

  const GIB: nat := 0x4000_0000
  const MIB2: nat := 0x20_0000
  const DMA_START: nat := 0x0800_0000
  const DMA_END: nat := 0x0840_0000
  const FB_START: nat := 0x1000_0000
  const FB_END: nat := 0x1200_0000

  /** Access flag, inner shareable, AP[1]. */
  const FLAG: nat := 0x740

  /** Three tables of 512 words: level 1, the lowest GiB, the highest GiB. */
  const WORDS: nat := 3 * 512

  // ----- what the hardware does with a table

  datatype Walked = Fault | Walked(address: nat, attribute: nat)

  /** The descriptor word at a physical address, if it lies in the tables. */
  predicate InTables(base: nat, a: int) {
    base <= a < base + 8 * WORDS && (a - base) % 8 == 0
  }

  function WordAt(tables: seq<u64>, base: nat, a: int): u64
    requires |tables| == WORDS && InTables(base, a)
  {
    tables[(a - base) / 8]
  }

  /** A block descriptor for blocks of `size` bytes. */
  function Block(d: u64, size: nat, va: nat): Walked
    requires size > 0
  {
    if d / 0x400 % 2 == 0 then Fault
    else Walked(d % 0x1_0000_0000_0000 / size * size + va % size, d / 4 % 8)
  }

  /** The walk for a 32-bit address from the level 1 table at `base`. */
  function Walk(tables: seq<u64>, base: nat, va: nat): Walked
    requires |tables| == WORDS && va < TWO32
  {
    var a1 := base + va / GIB * 8;
    if !InTables(base, a1) then Fault
    else
      var d1 := WordAt(tables, base, a1);
      if d1 % 2 == 0 then Fault
      else if d1 % 4 == 1 then Block(d1, GIB, va)
      else
        var a2 := d1 % 0x1_0000_0000_0000 / 0x1000 * 0x1000 + va % GIB / MIB2 * 8;
        if !InTables(base, a2) then Fault
        else
          var d2 := WordAt(tables, base, a2);
          if d2 % 4 != 1 then Fault else Block(d2, MIB2, va)
  }

  // ----- the descriptors

  function BlockDescriptor(address: nat, size: nat, attribute: nat): nat
    requires size > 0
  {
    address / size * size + FLAG + attribute * 4 + 1
  }

  function TableDescriptor(address: nat): nat {
    address + 3
  }

  predicate Base(base: nat) {
    base % 0x1000 == 0 && base + 8 * WORDS <= 0x1_0000_0000
  }

  function LowAttribute(address: nat): nat {
    if DMA_START <= address < DMA_END || FB_START <= address < FB_END then 2 else 3
  }

  function HighAttribute(address: nat): nat {
    if address >= MMIO_START then 0 else 3
  }

  /** The tables that plat_setup_mmu builds at `base`, word by word. */
  function Entry(base: nat, k: nat): u64
    requires Base(base) && k < WORDS
  {
    if k == 0 then TableDescriptor(base + 0x1000)
    else if k == 1 then BlockDescriptor(GIB, GIB, 3)
    else if k == 2 then BlockDescriptor(2 * GIB, GIB, 3)
    else if k == 3 then TableDescriptor(base + 0x2000)
    else if k < 512 then 0
    else if k < 1024 then BlockDescriptor((k - 512) * MIB2, MIB2, LowAttribute((k - 512) * MIB2))
    else BlockDescriptor(3 * GIB + (k - 1024) * MIB2, MIB2, HighAttribute(3 * GIB + (k - 1024) * MIB2))
  }

  predicate Built(tables: seq<u64>, base: nat) {
    Base(base) && |tables| == WORDS && forall k :: 0 <= k < WORDS ==> tables[k] == Entry(base, k)
  }

  /** plat_setup_mmu. */
  method SetupTables(tables: array<u64>, base: nat)
    requires tables.Length == WORDS && Base(base)
    modifies tables
    ensures Built(tables[..], base)
  {
    for k := 0 to WORDS
      invariant forall i :: 0 <= i < k ==> tables[i] == 0
    {
      tables[k] := 0;
    }
    tables[0] := TableDescriptor(base + 0x1000);
    tables[1] := BlockDescriptor(GIB, GIB, 3);
    tables[2] := BlockDescriptor(2 * GIB, GIB, 3);
    tables[3] := TableDescriptor(base + 0x2000);
    for i := 0 to 512
      invariant forall k :: 0 <= k < 512 + i ==> tables[k] == Entry(base, k)
    {
      var address := i * MIB2;
      var attribute := 3;
      if (address >= DMA_START && address < DMA_END) || (address >= FB_START && address < FB_END) {
        attribute := 2;
      }
      tables[512 + i] := BlockDescriptor(address, MIB2, attribute);
    }
    for i := 0 to 512
      invariant forall k :: 0 <= k < 1024 + i ==> tables[k] == Entry(base, k)
    {
      var address := 3 * GIB + i * MIB2;
      tables[1024 + i] := BlockDescriptor(address, MIB2, if address >= MMIO_START then 0 else 3);
    }
  }

  // ----- the identity

  /** The attribute index that an address should have: device memory in the MMIO
      window, non-cacheable where the hardware shares buffers, else write-back. */
  function Attribute(va: nat): nat {
    if va >= MMIO_START then 0
    else if DMA_START <= va < DMA_END || FB_START <= va < FB_END then 2
    else 3
  }

  lemma BlockGib(i: nat, attribute: nat, va: nat)
    requires attribute < 8 && i < 4
    ensures var d := BlockDescriptor(i * GIB, GIB, attribute);
            && d < TWO64 && d % 4 == 1 && Block(d, GIB, va) == Walked(i * GIB + va % GIB, attribute)
  {
    var r := FLAG + attribute * 4 + 1;
    assert i * GIB / GIB == i;
    assert (i * GIB + r) / GIB == i;
    LowBits(i * (GIB / 0x1000), attribute);
    assert i * GIB == i * (GIB / 0x1000) * 0x1000;
  }

  lemma BlockMib(i: nat, attribute: nat, va: nat)
    requires attribute < 8 && i < 2048
    ensures var d := BlockDescriptor(i * MIB2, MIB2, attribute);
            && d < TWO64 && d % 4 == 1 && Block(d, MIB2, va) == Walked(i * MIB2 + va % MIB2, attribute)
  {
    var r := FLAG + attribute * 4 + 1;
    assert i * MIB2 / MIB2 == i;
    assert (i * MIB2 + r) / MIB2 == i;
    LowBits(i * (MIB2 / 0x1000), attribute);
    assert i * MIB2 == i * (MIB2 / 0x1000) * 0x1000;
  }

  /** The low bits of a block descriptor. */
  lemma LowBits(pages: nat, attribute: nat)
    requires attribute < 8
    ensures var d := pages * 0x1000 + FLAG + attribute * 4 + 1;
            d % 4 == 1 && d / 0x400 % 2 == 1 && d / 4 % 8 == attribute
  {
    var d := pages * 0x1000 + FLAG + attribute * 4 + 1;
    var q, h := pages * 0x400 + 464 + attribute, 4 * pages + 1;
    Quotient4(d, q);
    Quotient8(q, pages * 0x80 + 58, attribute);
    Quotient400(d, h, 0x340 + attribute * 4 + 1);
    Quotient2(h, 2 * pages);
  }

  lemma Quotient2(d: nat, q: nat)
    requires d == 2 * q + 1
    ensures d % 2 == 1
  {}

  lemma Quotient4(d: nat, q: nat)
    requires d == 4 * q + 1
    ensures d / 4 == q && d % 4 == 1
  {}

  lemma Quotient8(d: nat, q: nat, r: nat)
    requires d == 8 * q + r && r < 8
    ensures d % 8 == r
  {}

  lemma Quotient400(d: nat, q: nat, r: nat)
    requires d == 0x400 * q + r && r < 0x400
    ensures d / 0x400 == q
  {}

  lemma TableIs(base: nat, offset: nat)
    requires Base(base) && offset in {0x1000, 0x2000}
    ensures var d := TableDescriptor(base + offset);
            d % 4 == 3 && d % 0x1_0000_0000_0000 / 0x1000 * 0x1000 == base + offset
  {
    var q := base / 0x1000;
    assert base == q * 0x1000;
    if offset == 0x1000 { Page(q + 1); } else { Page(q + 2); }
  }

  lemma Page(q: nat)
    requires q * 0x1000 < 0x1_0000_0000
    ensures var d := q * 0x1000 + 3; d % 4 == 3 && d / 0x1000 == q && d % 0x1_0000_0000_0000 == d
  {
    var d := q * 0x1000 + 3;
    Remainder4(d, q * 0x400);
    Quotient1000(d, q);
    Below48(d);
  }

  lemma Remainder4(d: nat, q: nat)
    requires d == 4 * q + 3
    ensures d % 4 == 3
  {}

  lemma Quotient1000(d: nat, q: nat)
    requires d == 0x1000 * q + 3
    ensures d / 0x1000 == q
  {}

  lemma Below48(d: nat)
    requires d < 0x1_0000_0000_0000
    ensures d % 0x1_0000_0000_0000 == d
  {}

  lemma Split(va: nat)
    requires va < TWO32
    ensures va / GIB < 4 && va % GIB / MIB2 < 512 && va % GIB % MIB2 == va % MIB2
    ensures va == va / GIB * GIB + va % GIB / MIB2 * MIB2 + va % MIB2
  {}

  /** An address below a second-level table: the block that covers it. */
  lemma ViaTable(tables: seq<u64>, base: nat, va: nat)
    requires Built(tables, base) && va < TWO32 && va / GIB in {0, 3}
    ensures var m := va % GIB / MIB2;
            var k := (if va / GIB == 0 then 512 else 1024) + m;
            && m < 512 && tables[k] == Entry(base, k)
            && Walk(tables, base, va) == if tables[k] % 4 != 1 then Fault else Block(tables[k], MIB2, va)
  {
    hide BlockDescriptor, TableDescriptor, Block;
    Split(va);
    TableIs(base, 0x1000);
    TableIs(base, 0x2000);
    var g, m := va / GIB, va % GIB / MIB2;
    assert WordAt(tables, base, base + g * 8) == Entry(base, g);
    var offset := if g == 0 then 0x1000 else 0x2000;
    assert WordAt(tables, base, base + offset + m * 8) == tables[(if g == 0 then 512 else 1024) + m];
  }

  lemma ViaBlock(tables: seq<u64>, base: nat, va: nat)
    requires Built(tables, base) && va < TWO32 && va / GIB in {1, 2}
    ensures Walk(tables, base, va) == Walked(va, 3)
  {
    hide BlockDescriptor, TableDescriptor, Block;
    var g := va / GIB;
    assert WordAt(tables, base, base + g * 8) == Entry(base, g);
    BlockGib(g, 3, va);
  }

  /** For every 32-bit address the walk yields the same address, with the
      attribute that belongs there. */
  lemma IdentityMap(tables: seq<u64>, base: nat, va: nat)
    requires Built(tables, base) && va < TWO32
    ensures Walk(tables, base, va) == Walked(va, Attribute(va))
  {
    hide BlockDescriptor, TableDescriptor, Block, Walk;
    Split(va);
    var g, m := va / GIB, va % GIB / MIB2;
    if g == 1 || g == 2 {
      ViaBlock(tables, base, va);
    } else if g == 0 {
      ViaTable(tables, base, va);
      BlockMib(m, LowAttribute(m * MIB2), va);
    } else {
      ViaTable(tables, base, va);
      assert 3 * GIB + m * MIB2 == (1536 + m) * MIB2;
      BlockMib(1536 + m, HighAttribute(3 * GIB + m * MIB2), va);
    }
  }

  /** Memory that the map calls free is mapped write-back at its own address: the
      windows with other attributes are all reserved. */
  lemma FreeIsCached(tables: seq<u64>, base: nat, va: nat, banks: seq<Bank>, payloadEnd: u64)
    requires Built(tables, base) && va < TWO32
    requires MemoryMap.Want(banks, payloadEnd, va) == MemoryMap.UNUSED
    ensures Walk(tables, base, va) == Walked(va, 3)
  {
    hide Walk;
    IdentityMap(tables, base, va);
    var r := MemoryMap.ReservedRanges(payloadEnd);
    FreeOutside(r, va, 3);
    FreeOutside(r, va, 4);
  }

  lemma {:induction false} FreeOutside(r: seq<MemoryMap.Range>, a: int, i: nat)
    requires i < |r| && MemoryMap.ReservedAt(r, a) == MemoryMap.UNUSED
    requires forall x :: x in r ==> x.flags != MemoryMap.UNUSED
    ensures !(r[i].start <= a < r[i].end)
  {
    if i > 0 { FreeOutside(r[1..], a, i - 1); }
  }
}
