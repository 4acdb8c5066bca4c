/** src/rk356x/dram.c: the topology that the boot code passes in ATAGS, and its
    reconciliation with the decoded geometry. */
module Dram {
  import opened Bytes
  import opened Rk356x
  import Pmugrf

  const MMIO_SIZE: u64 := PHYS_4G - MMIO_START
  const DDR_MEM: u32 := 0x5441_0052
  const DDR_WORDS: nat := 48

  datatype Source = Fallback | Geometry | Atags

  datatype Layout = Layout(total: u64, atagBytes: u64, geometryBytes: u64, banks: seq<Bank>, source: Source,
                           atagsValid: bool, atagsAccepted: bool, geometryValid: bool)

  datatype Parsed = Rejected | Parsed(banks: seq<Bank>, total: u64)

  // ----- reading

  function LE32(s: bytes, i: nat): u32
    requires i + 4 <= |s|
  {
    s[i] as int + s[i + 1] as int * 0x100 + s[i + 2] as int * 0x1_0000 + s[i + 3] as int * 0x100_0000
  }

  function LE64(s: bytes, i: nat): u64
    requires i + 8 <= |s|
  {
    LE32(s, i) + LE32(s, i + 4) * TWO32
  }

  /** js_hash. */
  function JsHash(s: bytes): bv32 {
    if s == [] then 0x47c6_a7e6 else Mix(JsHash(s[..|s| - 1]), s[|s| - 1])
  }

  function Mix(hash: bv32, b: byte): bv32 {
    hash ^ ((hash << 5) + (b as bv32) + (hash >> 2))
  }

  function End(b: Bank): int {
    b.start + b.size
  }

  /** Addition of 64-bit words. */
  function Plus(x: u64, y: u64): u64 {
    (x + y) % TWO64
  }

  predicate PageMultiple(x: u64) {
    x % 0x1000 == 0
  }

  /** The bank table of a DDR tag, from the bank behind `banks` on. */
  function BanksFrom(tag: bytes, count: nat, banks: seq<Bank>, total: u64): Parsed
    requires |tag| == 4 * DDR_WORDS && |banks| <= count <= MAX_BANKS
    decreases count - |banks|
  {
    var i := |banks|;
    if i == count then Parsed(banks, total)
    else
      var start, size := LE64(tag, 16 + i * 8), LE64(tag, 16 + (count + i) * 8);
      if !Fits(banks, total, start, size) then Rejected
      else BanksFrom(tag, count, banks + [Bank(start, size)], Plus(total, size))
  }

  /** The tests on one bank, with their 64-bit sums. */
  predicate Fits(banks: seq<Bank>, total: u64, start: u64, size: u64) {
    && size != 0 && Plus(start, size) >= start && PageMultiple(start) && PageMultiple(size)
    && (banks != [] ==> start >= Plus(banks[|banks| - 1].start, banks[|banks| - 1].size))
    && Plus(total, size) >= total
  }

  function ParseTag(tag: bytes): Parsed
    requires |tag| == 4 * DDR_WORDS
  {
    var count, expected := LE32(tag, 8), LE32(tag, |tag| - 4);
    if count == 0 || count > MAX_BANKS || expected == 0 then Rejected
    else if JsHash(tag[..|tag| - 4]) as int != expected then Rejected
    else BanksFrom(tag, count, [], 0)
  }

  /** The tag list from `cursor` on. */
  function ParseFrom(data: bytes, cursor: nat): Parsed
    requires cursor <= |data|
    decreases |data| - cursor
  {
    if |data| - cursor < 8 then Rejected
    else
      var words := LE32(data, cursor);
      if words < 2 || words > (|data| - cursor) / 4 then Rejected
      else if LE32(data, cursor + 4) != DDR_MEM then ParseFrom(data, cursor + 4 * words)
      else if words != DDR_WORDS then Rejected
      else ParseTag(data[cursor..cursor + 4 * words])
  }

  // ----- what an accepted table is worth

  function Sum(banks: seq<Bank>): nat {
    if banks == [] then 0 else Sum(banks[..|banks| - 1]) + banks[|banks| - 1].size
  }

  /** Ordered, disjoint, page-aligned banks that do not wrap. */
  predicate Ordered(banks: seq<Bank>) {
    && (forall i :: 0 <= i < |banks| ==> banks[i].size > 0 && End(banks[i]) < TWO64)
    && (forall i, j :: 0 <= i < j < |banks| ==> End(banks[i]) <= banks[j].start)
  }

  predicate Sane(p: Parsed) {
    && p.Parsed? && p.banks != [] && |p.banks| <= MAX_BANKS && Ordered(p.banks) && p.total == Sum(p.banks)
    && forall b :: b in p.banks ==> Aligned(b)
  }

  lemma SumAppend(banks: seq<Bank>, b: Bank)
    ensures Sum(banks + [b]) == Sum(banks) + b.size
  {
    assert (banks + [b])[..|banks|] == banks;
  }

  lemma Unwrapped(x: u64, y: u64)
    ensures Plus(x, y) >= x ==> Plus(x, y) == x + y
  {}

  predicate Aligned(b: Bank) {
    PageMultiple(b.start) && PageMultiple(b.size)
  }

  lemma OneMore(banks: seq<Bank>, total: u64, start: u64, size: u64)
    requires Ordered(banks) && Fits(banks, total, start, size)
    ensures Ordered(banks + [Bank(start, size)]) && Plus(total, size) == total + size
  {
    Unwrapped(start, size);
    Unwrapped(total, size);
    var r, n := banks + [Bank(start, size)], |banks|;
    assert forall i :: 0 <= i < n ==> r[i] == banks[i];
    assert n > 0 ==> Plus(banks[n - 1].start, banks[n - 1].size) == End(banks[n - 1]);
    assert forall i :: 0 <= i < n - 1 ==> End(banks[i]) <= banks[n - 1].start;
  }

  lemma {:induction false} BanksSane(tag: bytes, count: nat, banks: seq<Bank>, total: u64)
    requires |tag| == 4 * DDR_WORDS && |banks| <= count <= MAX_BANKS && count > 0
    requires Ordered(banks) && total == Sum(banks) && forall b :: b in banks ==> Aligned(b)
    requires BanksFrom(tag, count, banks, total).Parsed?
    ensures Sane(BanksFrom(tag, count, banks, total))
    decreases count - |banks|
  {
    hide LE32, LE64, Ordered, Sum, Plus, PageMultiple;
    var i := |banks|;
    if i < count {
      var start, size := LE64(tag, 16 + i * 8), LE64(tag, 16 + (count + i) * 8);
      OneMore(banks, total, start, size);
      SumAppend(banks, Bank(start, size));
      BanksSane(tag, count, banks + [Bank(start, size)], total + size);
    }
  }

  /** A parsed topology is ordered, disjoint and aligned, and its total is the
      sum of its banks. */
  lemma {:induction false} ParseSane(data: bytes, cursor: nat)
    requires cursor <= |data| && ParseFrom(data, cursor).Parsed?
    ensures Sane(ParseFrom(data, cursor))
    decreases |data| - cursor
  {
    hide LE32, LE64, JsHash, BanksFrom;
    var words: nat := LE32(data, cursor);
    if LE32(data, cursor + 4) != DDR_MEM {
      ParseSane(data, cursor + 4 * words);
    } else {
      var tag := data[cursor..cursor + 4 * words];
      BanksSane(tag, LE32(tag, 8), [], 0);
    }
  }

  // ----- the pigeonhole

  predicate InSome(banks: seq<Bank>, a: int) {
    exists i :: 0 <= i < |banks| && banks[i].start <= a < End(banks[i])
  }

  /** Ordered banks inside `[lo, hi)` take no more than its length, and if they
      take all of it they leave no gap. */
  lemma {:induction false} Tight(banks: seq<Bank>, lo: int, hi: int)
    requires Ordered(banks) && lo <= hi && forall i :: 0 <= i < |banks| ==> lo <= banks[i].start && End(banks[i]) <= hi
    ensures Sum(banks) <= hi - lo
    ensures Sum(banks) == hi - lo ==> forall a :: lo <= a < hi ==> InSome(banks, a)
    decreases |banks|
  {
    if banks != [] {
      var n := |banks| - 1;
      var front, b := banks[..n], banks[n];
      Tight(front, lo, b.start);
      if Sum(banks) == hi - lo {
        forall a | lo <= a < hi ensures InSome(banks, a) {
          if a < b.start {
            assert InSome(front, a);
            var i :| 0 <= i < n && front[i].start <= a < End(front[i]);
            assert banks[i] == front[i];
          } else {
            assert banks[n].start <= a < End(banks[n]);
          }
        }
      }
    }
  }

  // ----- agreement with the geometry

  predicate WithinCapacity(b: Bank, capacity: u64) {
    var end := Plus(b.start, b.size);
    if end < b.start then false
    else if b.start < MMIO_START then end <= MMIO_START && end <= capacity
    else if b.start < PHYS_4G || capacity <= MMIO_START then false
    else
      var highEnd := Plus(capacity, MMIO_SIZE);
      highEnd >= capacity && end <= highEnd
  }

  /** atags_match_geometry. */
  predicate Matches(p: Parsed, capacity: u64)
    requires p.Parsed?
  {
    && p.banks != [] && p.total == capacity && p.banks[0].start <= 0x0020_0000
    && forall i :: 0 <= i < |p.banks| ==> WithinCapacity(p.banks[i], capacity)
  }

  /** The addresses that DRAM of that capacity answers to. */
  predicate InMemory(capacity: u64, a: int) {
    0 <= a < Low(capacity) || (capacity > MMIO_START && PHYS_4G <= a < capacity + MMIO_SIZE)
  }

  function Low(capacity: u64): u64 {
    if capacity < MMIO_START then capacity else MMIO_START
  }

  /** The banks below the window come first. */
  function LowCount(banks: seq<Bank>): (k: nat)
    ensures k <= |banks|
    ensures forall i :: 0 <= i < k ==> banks[i].start < MMIO_START
    ensures k < |banks| ==> banks[k].start >= MMIO_START
  {
    if banks == [] || banks[0].start >= MMIO_START then 0 else 1 + LowCount(banks[1..])
  }

  lemma {:induction false} SumSplit(banks: seq<Bank>, k: nat)
    requires k <= |banks|
    ensures Sum(banks) == Sum(banks[..k]) + Sum(banks[k..])
    decreases |banks|
  {
    if k < |banks| {
      var n := |banks| - 1;
      SumSplit(banks[..n], k);
      assert banks[..n][..k] == banks[..k] && banks[..n][k..] == banks[k..][..n - k];
    } else {
      assert banks[..k] == banks && banks[k..] == [];
    }
  }

  /** Accepted banks that add up to the capacity tile memory: no gap, no overlap,
      nothing in the MMIO window. Where the first bank starts need not be looked at. */
  lemma {:induction false} Tiles(banks: seq<Bank>, capacity: u64, a: int)
    requires Ordered(banks) && Sum(banks) == capacity
    requires forall i :: 0 <= i < |banks| ==> WithinCapacity(banks[i], capacity)
    ensures InSome(banks, a) <==> InMemory(capacity, a)
  {
    hide WithinCapacity, Sum, InSome;
    var k := LowCount(banks);
    var low, high := banks[..k], banks[k..];
    SumSplit(banks, k);
    Sides(banks, capacity);
    Slices(banks, k);
    Tight(low, 0, Low(capacity));
    if capacity > MMIO_START {
      Tight(high, PHYS_4G, capacity + MMIO_SIZE);
    } else {
      assert high == [];
      Nothing(high);
    }
    Parts(banks, k, a);
    if InSome(low, a) { Within(low, 0, Low(capacity), a); }
    if InSome(high, a) { Within(high, PHYS_4G, capacity + MMIO_SIZE, a); }
  }

  lemma Nothing(banks: seq<Bank>)
    requires banks == []
    ensures Sum(banks) == 0 && forall a :: !InSome(banks, a)
  {}

  lemma Within(banks: seq<Bank>, lo: int, hi: int, a: int)
    requires InSome(banks, a) && forall i :: 0 <= i < |banks| ==> lo <= banks[i].start && End(banks[i]) <= hi
    ensures lo <= a < hi && banks != []
  {}

  lemma Slices(banks: seq<Bank>, k: nat)
    requires Ordered(banks) && k <= |banks|
    ensures Ordered(banks[..k]) && Ordered(banks[k..])
  {}

  lemma Sides(banks: seq<Bank>, capacity: u64)
    requires Ordered(banks) && forall i :: 0 <= i < |banks| ==> WithinCapacity(banks[i], capacity)
    ensures var k := LowCount(banks);
            && (forall i :: 0 <= i < k ==> End(banks[i]) <= Low(capacity))
            && forall i :: k <= i < |banks| ==>
                             capacity > MMIO_START && PHYS_4G <= banks[i].start && End(banks[i]) <= capacity + MMIO_SIZE
  {
    hide WithinCapacity, Low;
    var k := LowCount(banks);
    forall i | 0 <= i < |banks|
      ensures i < k ==> End(banks[i]) <= Low(capacity)
      ensures i >= k ==> capacity > MMIO_START && PHYS_4G <= banks[i].start && End(banks[i]) <= capacity + MMIO_SIZE
    {
      assert i > k ==> End(banks[k]) <= banks[i].start;
      WithinIs(banks[i], capacity);
    }
  }

  lemma WithinIs(b: Bank, capacity: u64)
    requires WithinCapacity(b, capacity) && End(b) < TWO64
    ensures b.start < MMIO_START ==> End(b) <= Low(capacity)
    ensures b.start >= MMIO_START ==> capacity > MMIO_START && b.start >= PHYS_4G && End(b) <= capacity + MMIO_SIZE
  {}

  lemma Parts(banks: seq<Bank>, k: nat, a: int)
    requires k <= |banks|
    ensures InSome(banks, a) <==> InSome(banks[..k], a) || InSome(banks[k..], a)
  {
    if InSome(banks, a) {
      var i :| 0 <= i < |banks| && banks[i].start <= a < End(banks[i]);
      assert i >= k ==> banks[k..][i - k] == banks[i];
      assert i < k ==> banks[..k][i] == banks[i];
    }
  }

  lemma FirstAtZero(banks: seq<Bank>, capacity: u64)
    requires banks != [] && Ordered(banks) && Sum(banks) == capacity
    requires forall i :: 0 <= i < |banks| ==> WithinCapacity(banks[i], capacity)
    ensures banks[0].start == 0
  {
    SumPositive(banks);
    Tiles(banks, capacity, 0);
    assert forall j :: 0 < j < |banks| ==> 0 < End(banks[0]) <= banks[j].start;
  }

  lemma SumPositive(banks: seq<Bank>)
    requires banks != [] && Ordered(banks)
    ensures Sum(banks) > 0
  {}

  // ----- the layout that is used

  /** synthesize_geometry. */
  function Synthesized(capacity: u64): seq<Bank> {
    (if Low(capacity) > 0 then [Bank(0, Low(capacity))] else [])
    + if capacity > PHYS_4G then [Bank(PHYS_4G, capacity - PHYS_4G)] else []
  }

  datatype Table = NoTable | Table(data: bytes)

  /** rk356x_select_dram_layout. */
  function Select(atags: Table, reg2: u32, reg3: u32): Layout {
    var geometry := Pmugrf.Decode(reg2, reg3);
    var parsed := if atags.NoTable? then Rejected else ParseFrom(atags.data, 0);
    if geometry != 0 && parsed.Parsed? && Matches(parsed, geometry) then
      Layout(geometry, parsed.total, geometry, parsed.banks, Atags, true, true, true)
    else if geometry != 0 then
      Layout(geometry, if parsed.Parsed? then parsed.total else 0, geometry, Synthesized(geometry), Geometry,
             parsed.Parsed?, false, true)
    else if parsed.Parsed? then
      Layout(parsed.total, parsed.total, 0, parsed.banks, Atags, true, true, false)
    else
      Layout(0x4000_0000, 0, 0, Synthesized(0x4000_0000), Fallback, false, false, false)
  }

  /** The part of `[0, total)` that the MMIO window hides. */
  function Hidden(total: u64): nat {
    if total <= MMIO_START then 0 else if total < PHYS_4G then total - MMIO_START else MMIO_SIZE
  }

  lemma SynthesizedIs(capacity: u64)
    ensures var banks := Synthesized(capacity);
            && Ordered(banks) && |banks| <= 2 && Sum(banks) == capacity - Hidden(capacity)
            && forall a :: InSome(banks, a) <==> 0 <= a < capacity && !(MMIO_START <= a < PHYS_4G)
  {
    SynthesizedSum(capacity);
    SynthesizedCover(capacity);
  }

  lemma SynthesizedSum(capacity: u64)
    ensures Sum(Synthesized(capacity)) == capacity - Hidden(capacity)
  {
    var banks := Synthesized(capacity);
    var low := if Low(capacity) > 0 then [Bank(0, Low(capacity))] else [];
    assert Sum([]) == 0;
    assert Sum(low) == Low(capacity) by { SumAppend([], Bank(0, Low(capacity))); assert [] + low == low; }
    if capacity > PHYS_4G {
      SumAppend(low, Bank(PHYS_4G, capacity - PHYS_4G));
      assert banks == low + [Bank(PHYS_4G, capacity - PHYS_4G)];
    } else {
      assert banks == low;
    }
  }

  lemma SynthesizedCover(capacity: u64)
    ensures var banks := Synthesized(capacity);
            && Ordered(banks) && |banks| <= 2
            && forall a :: InSome(banks, a) <==> 0 <= a < capacity && !(MMIO_START <= a < PHYS_4G)
  {
    var banks := Synthesized(capacity);
    if capacity > PHYS_4G {
      assert banks[1] == Bank(PHYS_4G, capacity - PHYS_4G);
    }
    forall a ensures InSome(banks, a) <==> 0 <= a < capacity && !(MMIO_START <= a < PHYS_4G) {
      if 0 <= a < Low(capacity) { assert banks[0].start <= a < End(banks[0]); }
      if PHYS_4G <= a < capacity { assert banks[1].start <= a < End(banks[1]); }
    }
  }

  /** Every selected layout has at most ten ordered, disjoint banks that do not
      wrap; they add up to the total, less what the window hides when the layout
      comes from the geometry alone; and an accepted ATAGS topology that agrees
      with the geometry tiles memory. */
  lemma {:induction false} SelectConserves(atags: Table, reg2: u32, reg3: u32)
    ensures var l := Select(atags, reg2, reg3);
            && l.banks != [] && |l.banks| <= MAX_BANKS && Ordered(l.banks) && l.total > 0
            && Sum(l.banks) == (if l.source == Atags then l.total else l.total - Hidden(l.total))
            && (l.source == Atags && l.geometryValid ==> forall a :: InSome(l.banks, a) <==> InMemory(l.total, a))
            && (l.source != Atags ==>
                  forall a :: InSome(l.banks, a) <==> 0 <= a < l.total && !(MMIO_START <= a < PHYS_4G))
  {
    hide Synthesized, Sum, InSome, InMemory, WithinCapacity, ParseFrom;
    var l := Select(atags, reg2, reg3);
    if atags.Table? && ParseFrom(atags.data, 0).Parsed? {
      ParseSane(atags.data, 0);
      SumPositive(ParseFrom(atags.data, 0).banks);
    }
    if l.source != Atags {
      SynthesizedIs(l.total);
      NotEmpty(l.total);
    } else if l.geometryValid {
      forall a ensures InSome(l.banks, a) <==> InMemory(l.total, a) {
        Tiles(l.banks, l.total, a);
      }
    }
  }

  lemma NotEmpty(capacity: u64)
    requires capacity > 0
    ensures Synthesized(capacity) != []
  {}

  // ----- the C routines

  method HashBytes(s: bytes) returns (hash: bv32)
    ensures hash == JsHash(s)
  {
    hide Mix;
    hash := 0x47c6_a7e6;
    for i := 0 to |s|
      invariant hash == JsHash(s[..i])
    {
      assert s[..i + 1][..i] == s[..i];
      hash := Mix(hash, s[i]);
    }
    assert s[..|s|] == s;
  }

  method ReadBanks(tag: bytes, count: nat) returns (p: Parsed)
    requires |tag| == 4 * DDR_WORDS && 0 < count <= MAX_BANKS
    ensures p == BanksFrom(tag, count, [], 0)
  {
    hide LE32, LE64, Plus, PageMultiple;
    var banks: seq<Bank> := [];
    var total: u64, previousEnd: u64 := 0, 0;
    for i := 0 to count
      invariant |banks| == i && BanksFrom(tag, count, [], 0) == BanksFrom(tag, count, banks, total)
      invariant i > 0 ==> previousEnd == Plus(banks[i - 1].start, banks[i - 1].size)
    {
      var start, size := LE64(tag, 16 + i * 8), LE64(tag, 16 + (count + i) * 8);
      var bankEnd := Plus(start, size);
      if size == 0 || bankEnd < start || !PageMultiple(start) || !PageMultiple(size) {
        return Rejected;
      }
      if i > 0 && start < previousEnd {
        return Rejected;
      }
      if Plus(total, size) < total {
        return Rejected;
      }
      banks, previousEnd, total := banks + [Bank(start, size)], bankEnd, Plus(total, size);
    }
    p := Parsed(banks, total);
  }

  /** rk356x_parse_atags. */
  method ParseAtags(data: bytes) returns (p: Parsed)
    ensures p == ParseFrom(data, 0)
  {
    hide LE32, JsHash, BanksFrom;
    var cursor := 0;
    while |data| - cursor >= 8
      invariant cursor <= |data| && ParseFrom(data, 0) == ParseFrom(data, cursor)
      decreases |data| - cursor
    {
      var words, magic := LE32(data, cursor), LE32(data, cursor + 4);
      if words < 2 || words > (|data| - cursor) / 4 {
        return Rejected;
      }
      if magic != DDR_MEM {
        cursor := cursor + 4 * words;
        continue;
      }
      if words != DDR_WORDS {
        return Rejected;
      }
      var tag := data[cursor..cursor + 4 * words];
      var count, expected := LE32(tag, 8), LE32(tag, |tag| - 4);
      if count == 0 || count > MAX_BANKS || expected == 0 {
        return Rejected;
      }
      var hash := HashBytes(tag[..|tag| - 4]);
      if hash as int != expected {
        return Rejected;
      }
      p := ReadBanks(tag, count);
      return;
    }
    p := Rejected;
  }

  method MatchGeometry(p: Parsed, capacity: u64) returns (ok: bool)
    requires p.Parsed?
    ensures ok == Matches(p, capacity)
  {
    hide WithinCapacity;
    if p.banks == [] || p.total != capacity || p.banks[0].start > 0x0020_0000 {
      return false;
    }
    for i := 0 to |p.banks|
      invariant forall k :: 0 <= k < i ==> WithinCapacity(p.banks[k], capacity)
    {
      if !WithinCapacity(p.banks[i], capacity) {
        return false;
      }
    }
    ok := true;
  }

  method Synthesize(capacity: u64) returns (banks: seq<Bank>)
    ensures banks == Synthesized(capacity)
  {
    var low := if capacity < MMIO_START then capacity else MMIO_START;
    banks := [];
    if low > 0 {
      banks := banks + [Bank(0, low)];
    }
    if capacity > PHYS_4G {
      banks := banks + [Bank(PHYS_4G, capacity - PHYS_4G)];
    }
  }

  method SelectLayout(atags: Table, reg2: u32, reg3: u32) returns (layout: Layout)
    ensures layout == Select(atags, reg2, reg3)
  {
    hide ParseFrom, Matches, Synthesized;
    var geometry := Pmugrf.DecodeRegisters(reg2, reg3);
    var parsed := Rejected;
    if atags.Table? {
      parsed := ParseAtags(atags.data);
    }
    var agree := false;
    if geometry != 0 && parsed.Parsed? {
      agree := MatchGeometry(parsed, geometry);
    }
    if agree {
      return Layout(geometry, parsed.total, geometry, parsed.banks, Atags, true, true, true);
    }
    var banks := Synthesize(if geometry != 0 then geometry else 0x4000_0000);
    if geometry != 0 {
      return Layout(geometry, if parsed.Parsed? then parsed.total else 0, geometry, banks, Geometry,
                    parsed.Parsed?, false, true);
    }
    if parsed.Parsed? {
      return Layout(parsed.total, parsed.total, 0, parsed.banks, Atags, true, true, false);
    }
    layout := Layout(0x4000_0000, 0, 0, banks, Fallback, false, false, false);
  }
}
