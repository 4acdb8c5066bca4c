/** src/rk356x/memory_map.c: the map handed to the payload, by a sweep over the
    ends of banks and reserved ranges. */
module MemoryMap {
  import opened Bytes
  import opened Rk356x

  const UNUSED: u32 := 1
  const RESERVED: u32 := 2
  const FRAMEBUFFER: u32 := 4
  const MMIO: u32 := 8
  const PAYLOAD: u32 := 16

  const PAYLOAD_START: u64 := 0x00a0_0000
  const MAX_ITEMS: nat := 32
  const MAX_BOUNDARIES: nat := 2 * (MAX_BANKS + 6)

  datatype Range = Range(start: u64, end: u64, flags: u32)
  datatype Item = Item(start: u64, end: u64, flags: u32)

  function ReservedRanges(payloadEnd: u64): (r: seq<Range>)
    ensures |r| == 5 && forall x :: x in r ==> x.flags != 0
  {
    [Range(0, 0x0020_0000, RESERVED), Range(PAYLOAD_START, payloadEnd, PAYLOAD),
     Range(0x07ff_0000, 0x0800_0000, RESERVED), Range(0x0800_0000, 0x0840_0000, RESERVED),
     Range(0x1000_0000, 0x1200_0000, FRAMEBUFFER)]
  }

  // ----- what the map should say about an address

  /** A bank whose end wraps around holds no address. */
  predicate InBank(b: Bank, a: int) {
    b.start <= a < b.start + b.size && b.start + b.size < TWO64
  }

  /** The flags of the first reserved range that holds the address. */
  function ReservedAt(r: seq<Range>, a: int): u32 {
    if r == [] then UNUSED
    else if r[0].start <= a < r[0].end then r[0].flags
    else ReservedAt(r[1..], a)
  }

  function Want(banks: seq<Bank>, payloadEnd: u64, a: int): u32 {
    if MMIO_START <= a < PHYS_4G then MMIO
    else if exists b :: b in banks && InBank(b, a) then ReservedAt(ReservedRanges(payloadEnd), a)
    else 0
  }

  predicate Covers(x: Item, a: int) {
    x.start <= a < x.end
  }

  /** Below `top` the items say exactly what they should, in order, none empty,
      and no two touching items with the same flags. */
  ghost predicate Exact(items: seq<Item>, top: int, banks: seq<Bank>, payloadEnd: u64) {
    && Ordered(items, top) && Maximal(items)
    && (forall i, a :: 0 <= i < |items| && Covers(items[i], a) ==> Want(banks, payloadEnd, a) == items[i].flags)
    && Complete(items, top, banks, payloadEnd)
  }

  predicate Ordered(items: seq<Item>, top: int) {
    && (forall i :: 0 <= i < |items| ==> items[i].start < items[i].end <= top && items[i].flags != 0)
    && (forall i, j :: 0 <= i < j < |items| ==> items[i].end <= items[j].start)
  }

  /** No two neighbours could be one item. */
  predicate Maximal(items: seq<Item>) {
    forall i :: 0 <= i < |items| - 1 ==> !(items[i].end == items[i + 1].start && items[i].flags == items[i + 1].flags)
  }

  ghost predicate Complete(items: seq<Item>, top: int, banks: seq<Bank>, payloadEnd: u64) {
    forall a :: 0 <= a < top && Want(banks, payloadEnd, a) != 0 ==> exists i :: 0 <= i < |items| && Covers(items[i], a)
  }

  // ----- the boundaries

  predicate Ascending(s: seq<u64>) {
    forall i, j :: 0 <= i < j < |s| ==> s[i] < s[j]
  }

  /** Where a value goes in an ascending sequence. */
  function Position(s: seq<u64>, v: u64): (p: nat)
    ensures p <= |s| && (p > 0 ==> s[p - 1] <= v)
  {
    if s == [] || s[|s| - 1] <= v then |s| else Position(s[..|s| - 1], v)
  }

  lemma {:induction false} PositionIs(s: seq<u64>, v: u64)
    requires Ascending(s) && v !in s
    ensures forall i :: 0 <= i < Position(s, v) ==> s[i] < v
    ensures forall i :: Position(s, v) <= i < |s| ==> v < s[i]
  {
    if s != [] && s[|s| - 1] > v {
      PositionIs(s[..|s| - 1], v);
    }
  }

  function Inserted(s: seq<u64>, v: u64): seq<u64> {
    if v in s then s else s[..Position(s, v)] + [v] + s[Position(s, v)..]
  }

  lemma InsertedIs(s: seq<u64>, v: u64)
    requires Ascending(s)
    ensures Ascending(Inserted(s, v)) && |Inserted(s, v)| <= |s| + 1
    ensures forall x :: x in Inserted(s, v) <==> x in s || x == v
  {
    hide Position;
    if v !in s {
      PositionIs(s, v);
      InsertAt(s, Position(s, v), v);
    }
  }

  lemma InsertAt(s: seq<u64>, p: nat, v: u64)
    requires Ascending(s) && p <= |s|
    requires (forall i :: 0 <= i < p ==> s[i] < v) && forall i :: p <= i < |s| ==> v < s[i]
    ensures var r := s[..p] + [v] + s[p..]; Ascending(r) && |r| == |s| + 1 && forall x :: x in r <==> x in s || x == v
  {
    var r := s[..p] + [v] + s[p..];
    assert forall i :: 0 <= i < |r| ==> r[i] == if i < p then s[i] else if i == p then v else s[i - 1];
    assert s == s[..p] + s[p..];
  }

  /** The search of add_boundary. */
  method Present(boundaries: array<u64>, count: nat, value: u64) returns (found: bool)
    requires count <= boundaries.Length
    ensures found == (value in boundaries[..count])
  {
    for i := 0 to count
      invariant value !in boundaries[..i]
    {
      if boundaries[i] == value {
        return true;
      }
    }
    found := false;
  }

  /** Its insertion. */
  method ShiftIn(boundaries: array<u64>, count: nat, value: u64)
    requires count < boundaries.Length
    modifies boundaries
    ensures var s := old(boundaries[..count]);
            boundaries[..count + 1] == s[..Position(s, value)] + [value] + s[Position(s, value)..]
  {
    hide Position;
    ghost var s := boundaries[..count];
    var position := count;
    assert s[..count] == s;
    while position > 0 && boundaries[position - 1] > value
      invariant position <= count && Position(s, value) == Position(s[..position], value)
      invariant boundaries[..position] == s[..position] && boundaries[position + 1..count + 1] == s[position..]
    {
      assert boundaries[position - 1] == boundaries[..position][position - 1] == s[position - 1];
      FrontStep(s, position, value);
      boundaries[position] := boundaries[position - 1];
      position := position - 1;
    }
    FrontStep(s, position, value);
    boundaries[position] := value;
    assert boundaries[..count + 1][position + 1..] == boundaries[position + 1..count + 1];
    Opened(s, boundaries[..count + 1], position, value);
  }

  lemma Opened(s: seq<u64>, r: seq<u64>, p: nat, v: u64)
    requires p <= |s| && |r| == |s| + 1 && r[..p] == s[..p] && r[p] == v && r[p + 1..] == s[p..]
    ensures r == s[..p] + [v] + s[p..]
  {
    assert r == r[..p] + [r[p]] + r[p + 1..];
  }

  lemma FrontStep(s: seq<u64>, p: nat, v: u64)
    requires p <= |s|
    ensures p == 0 || s[p - 1] <= v ==> Position(s[..p], v) == p
    ensures p > 0 && s[p - 1] > v ==> Position(s[..p], v) == Position(s[..p - 1], v)
  {
    hide Position;
    PositionStep(s[..p], v);
    if p > 0 { assert s[..p][..p - 1] == s[..p - 1] && s[..p][p - 1] == s[p - 1]; }
  }

  lemma PositionStep(s: seq<u64>, v: u64)
    ensures s == [] || s[|s| - 1] <= v ==> Position(s, v) == |s|
    ensures s != [] && s[|s| - 1] > v ==> Position(s, v) == Position(s[..|s| - 1], v)
  {}

  /** add_boundary: false when there is no room. */
  method AddBoundary(boundaries: array<u64>, count: nat, value: u64) returns (ok: bool, n: nat)
    requires boundaries.Length == MAX_BOUNDARIES && count <= MAX_BOUNDARIES
    modifies boundaries
    ensures n <= MAX_BOUNDARIES
    ensures ok == (value in old(boundaries[..count]) || count < MAX_BOUNDARIES)
    ensures boundaries[..n] == if ok then Inserted(old(boundaries[..count]), value) else old(boundaries[..count])
  {
    var found := Present(boundaries, count, value);
    if found {
      return true, count;
    }
    if count >= MAX_BOUNDARIES {
      return false, count;
    }
    ShiftIn(boundaries, count, value);
    ok, n := true, count + 1;
  }

  function BankEnd(b: Bank): u64 {
    (b.start + b.size) % TWO64
  }

  /** Every end of a range is a boundary. */
  ghost predicate Cut(s: seq<u64>, banks: seq<Bank>, payloadEnd: u64) {
    && Ascending(s) && 0 in s && MMIO_START in s && PHYS_4G in s
    && (forall b :: b in banks ==> b.start in s && BankEnd(b) in s)
    && (forall r :: r in ReservedRanges(payloadEnd) ==> r.start in s && r.end in s)
  }

  /** Two calls of add_boundary, for the ends of one range. */
  method AddEnds(boundaries: array<u64>, count: nat, start: u64, end: u64) returns (n: nat)
    requires boundaries.Length == MAX_BOUNDARIES && count + 2 <= MAX_BOUNDARIES && Ascending(boundaries[..count])
    modifies boundaries
    ensures count <= n <= count + 2 && Ascending(boundaries[..n])
    ensures start in boundaries[..n] && end in boundaries[..n]
    ensures forall x :: x in old(boundaries[..count]) ==> x in boundaries[..n]
  {
    hide Inserted, Ascending;
    var ok: bool;
    ghost var s := boundaries[..count];
    InsertedIs(s, start);
    ok, n := AddBoundary(boundaries, count, start);
    SizeOf(s, start);
    InsertedIs(Inserted(s, start), end);
    SizeOf(Inserted(s, start), end);
    ok, n := AddBoundary(boundaries, n, end);
  }

  lemma SizeOf(s: seq<u64>, v: u64)
    ensures |s| <= |Inserted(s, v)| <= |s| + 1
  {}

  method Boundaries(banks: seq<Bank>, payloadEnd: u64, boundaries: array<u64>) returns (count: nat)
    requires |banks| <= MAX_BANKS && boundaries.Length == MAX_BOUNDARIES
    modifies boundaries
    ensures count <= MAX_BOUNDARIES && Cut(boundaries[..count], banks, payloadEnd)
  {
    hide ReservedRanges, BankEnd, Ascending, Cut;
    NoneAscend(boundaries);
    count := 0;
    for i := 0 to |banks|
      invariant count <= 2 * i && Ascending(boundaries[..count])
      invariant forall b :: b in banks[..i] ==> b.start in boundaries[..count] && BankEnd(b) in boundaries[..count]
    {
      count := AddEnds(boundaries, count, banks[i].start, BankEnd(banks[i]));
      assert banks[..i + 1] == banks[..i] + [banks[i]];
    }
    assert banks[..|banks|] == banks;
    var reserved := ReservedRanges(payloadEnd);
    for i := 0 to 5
      invariant count <= 2 * |banks| + 2 * i && Ascending(boundaries[..count])
      invariant forall b :: b in banks ==> b.start in boundaries[..count] && BankEnd(b) in boundaries[..count]
      invariant forall r :: r in reserved[..i] ==> r.start in boundaries[..count] && r.end in boundaries[..count]
    {
      count := AddEnds(boundaries, count, reserved[i].start, reserved[i].end);
      assert reserved[..i + 1] == reserved[..i] + [reserved[i]];
    }
    assert reserved[..5] == reserved;
    count := AddEnds(boundaries, count, MMIO_START, PHYS_4G);
    LowestIs(payloadEnd);
    assert reserved[0] in reserved;
    CutFrom(boundaries[..count], banks, payloadEnd, reserved);
  }

  lemma NoneAscend(a: array<u64>)
    ensures Ascending(a[..0])
  {}

  lemma CutFrom(s: seq<u64>, banks: seq<Bank>, payloadEnd: u64, reserved: seq<Range>)
    requires Ascending(s) && reserved == ReservedRanges(payloadEnd) && 0 in s && MMIO_START in s && PHYS_4G in s
    requires forall b :: b in banks ==> b.start in s && BankEnd(b) in s
    requires forall r :: r in reserved ==> r.start in s && r.end in s
    ensures Cut(s, banks, payloadEnd)
  {
    hide ReservedRanges, BankEnd, Ascending;
  }

  lemma LowestIs(payloadEnd: u64)
    ensures ReservedRanges(payloadEnd)[0].start == 0
  {}

  // ----- an interval between two neighbouring boundaries

  /** No boundary lies strictly inside. */
  predicate Elementary(s: seq<u64>, start: u64, end: u64) {
    forall x :: x in s ==> x <= start || end <= x
  }

  predicate Inside(b: Bank, start: u64, end: u64) {
    b.start <= start && end <= b.start + b.size && b.start + b.size < TWO64
  }

  function FirstRange(r: seq<Range>, start: u64, end: u64): u32 {
    if r == [] then UNUSED
    else if start >= r[0].start && end <= r[0].end then r[0].flags
    else FirstRange(r[1..], start, end)
  }

  /** The flags that the sweep gives to the interval. */
  function IntervalFlags(banks: seq<Bank>, payloadEnd: u64, start: u64, end: u64): u32 {
    if start >= MMIO_START && end <= PHYS_4G then MMIO
    else if exists b :: b in banks && Inside(b, start, end) then FirstRange(ReservedRanges(payloadEnd), start, end)
    else 0
  }

  lemma {:induction false} FirstRangeIs(r: seq<Range>, start: u64, end: u64, a: int)
    requires start <= a < end && forall x :: x in r ==>
        (x.start <= start || end <= x.start) && (x.end <= start || end <= x.end)
    ensures FirstRange(r, start, end) == ReservedAt(r, a)
  {
    if r != [] {
      assert r[0] in r;
      FirstRangeIs(r[1..], start, end, a);
    }
  }

  lemma InsideIs(b: Bank, start: u64, end: u64, a: int)
    requires start <= a < end && (b.start <= start || end <= b.start) && (BankEnd(b) <= start || end <= BankEnd(b))
    ensures Inside(b, start, end) <==> InBank(b, a)
  {
    if b.start + b.size < TWO64 {
      assert BankEnd(b) == b.start + b.size;
    }
  }

  /** Every address of the interval wants the flags that the interval gets. */
  lemma ElementaryIs(s: seq<u64>, banks: seq<Bank>, payloadEnd: u64, start: u64, end: u64, a: int)
    requires Cut(s, banks, payloadEnd) && Elementary(s, start, end) && start <= a < end
    ensures IntervalFlags(banks, payloadEnd, start, end) == Want(banks, payloadEnd, a)
  {
    hide ReservedRanges, BankEnd, Inside, InBank, FirstRange, ReservedAt, Ascending;
    forall b | b in banks ensures Inside(b, start, end) <==> InBank(b, a) {
      InsideIs(b, start, end, a);
    }
    FirstRangeIs(ReservedRanges(payloadEnd), start, end, a);
  }

  /** Below the lowest and above the highest boundary nothing is wanted. */
  lemma OutsideIs(s: seq<u64>, banks: seq<Bank>, payloadEnd: u64, a: int)
    requires Cut(s, banks, payloadEnd) && s != [] && a >= s[|s| - 1]
    ensures Want(banks, payloadEnd, a) == 0
  {
    hide ReservedRanges;
    assert forall x :: x in s ==> x <= s[|s| - 1];
    forall b | b in banks ensures !InBank(b, a) {
      assert BankEnd(b) <= s[|s| - 1];
    }
  }

  // ----- the sweep

  /** map_add without its limit. */
  function Added(items: seq<Item>, start: u64, end: u64, flags: u32): seq<Item> {
    var n := |items|;
    if end <= start then items
    else if n > 0 && items[n - 1].end == start && items[n - 1].flags == flags then
      items[..n - 1] + [items[n - 1].(end := end)]
    else items + [Item(start, end, flags)]
  }

  lemma AddedSize(items: seq<Item>, start: u64, end: u64, flags: u32)
    ensures |items| <= |Added(items, start, end, flags)| <= |items| + 1
  {}

  lemma ExactSkip(items: seq<Item>, top: u64, next: u64, banks: seq<Bank>, payloadEnd: u64)
    requires Exact(items, top, banks, payloadEnd) && top <= next
    requires forall a :: top <= a < next ==> Want(banks, payloadEnd, a) == 0
    ensures Exact(items, next, banks, payloadEnd)
  {
    hide Want;
  }

  /** A new item behind the others. */
  lemma ExactAppend(items: seq<Item>, top: u64, next: u64, flags: u32, banks: seq<Bank>, payloadEnd: u64)
    requires Exact(items, top, banks, payloadEnd) && top < next && flags != 0
    requires forall a :: top <= a < next ==> Want(banks, payloadEnd, a) == flags
    requires items != [] && items[|items| - 1].end == top ==> items[|items| - 1].flags != flags
    ensures Exact(items + [Item(top, next, flags)], next, banks, payloadEnd)
  {
    hide Want, Ordered, Maximal, Complete;
    OrderedAppend(items, top, next, flags);
    MaximalAppend(items, Item(top, next, flags));
    CompleteAppend(items, top, next, flags, banks, payloadEnd);
  }

  lemma OrderedAppend(items: seq<Item>, top: u64, next: u64, flags: u32)
    requires Ordered(items, top) && top < next && flags != 0
    ensures Ordered(items + [Item(top, next, flags)], next)
  {}

  lemma MaximalAppend(items: seq<Item>, x: Item)
    requires Maximal(items)
    requires items != [] && items[|items| - 1].end == x.start ==> items[|items| - 1].flags != x.flags
    ensures Maximal(items + [x])
  {}

  lemma CompleteAppend(items: seq<Item>, top: u64, next: u64, flags: u32, banks: seq<Bank>, payloadEnd: u64)
    requires Complete(items, top, banks, payloadEnd) && top < next
    ensures Complete(items + [Item(top, next, flags)], next, banks, payloadEnd)
  {
    hide Want;
    var r := items + [Item(top, next, flags)];
    forall a | 0 <= a < next && Want(banks, payloadEnd, a) != 0 ensures exists i :: 0 <= i < |r| && Covers(r[i], a) {
      if a < top {
        var i :| 0 <= i < |items| && Covers(items[i], a);
        assert Covers(r[i], a);
      } else {
        assert Covers(r[|items|], a);
      }
    }
  }

  /** The last item without its tail: what the map says below its start. */
  lemma ExactDrop(items: seq<Item>, top: u64, banks: seq<Bank>, payloadEnd: u64)
    requires Exact(items, top, banks, payloadEnd) && items != []
    ensures var n := |items| - 1; Exact(items[..n], items[n].start, banks, payloadEnd)
    ensures var x := items[|items| - 1]; forall a :: x.start <= a < x.end ==> Want(banks, payloadEnd, a) == x.flags
    ensures var n := |items| - 1;
            n > 0 && items[n - 1].end == items[n].start ==> items[n - 1].flags != items[n].flags
  {
    hide Want;
    var n := |items| - 1;
    var r, x := items[..n], items[n];
    assert forall a :: x.start <= a < x.end ==> Covers(x, a);
    forall a | 0 <= a < x.start && Want(banks, payloadEnd, a) != 0 ensures exists i :: 0 <= i < n && Covers(r[i], a) {
      var i :| 0 <= i < |items| && Covers(items[i], a);
      assert Covers(r[i], a);
    }
  }

  /** map_add keeps the map exact: it lengthens the last item or starts a new one. */
  lemma ExactAdd(items: seq<Item>, top: u64, next: u64, flags: u32, banks: seq<Bank>, payloadEnd: u64)
    requires Exact(items, top, banks, payloadEnd) && top < next && flags != 0
    requires forall a :: top <= a < next ==> Want(banks, payloadEnd, a) == flags
    ensures Exact(Added(items, top, next, flags), next, banks, payloadEnd)
  {
    hide Want, Exact;
    var n := |items| - 1;
    if n >= 0 && items[n].end == top && items[n].flags == flags {
      ExactDrop(items, top, banks, payloadEnd);
      LastSpan(items, top, banks, payloadEnd);
      ExactAppend(items[..n], items[n].start, next, flags, banks, payloadEnd);
    } else {
      ExactAppend(items, top, next, flags, banks, payloadEnd);
    }
  }

  lemma LastSpan(items: seq<Item>, top: u64, banks: seq<Bank>, payloadEnd: u64)
    requires Exact(items, top, banks, payloadEnd) && items != []
    ensures items[|items| - 1].start < items[|items| - 1].end
  {
    hide Want;
  }

  class Map {
    var items: seq<Item>

    /** map_add: a full map still lengthens its last item, and drops the rest. */
    method Add(start: u64, end: u64, flags: u32)
      requires |items| <= MAX_ITEMS
      modifies this
      ensures |items| <= MAX_ITEMS
      ensures var r := Added(old(items), start, end, flags);
              items == if |r| <= MAX_ITEMS then r else old(items)
    {
      if end <= start {
        return;
      }
      var n := |items|;
      if n > 0 && items[n - 1].end == start && items[n - 1].flags == flags {
        items := items[..n - 1] + [items[n - 1].(end := end)];
        return;
      }
      if n >= MAX_ITEMS {
        return;
      }
      items := items + [Item(start, end, flags)];
    }

    method InSomeBank(banks: seq<Bank>, start: u64, end: u64) returns (found: bool)
      ensures found == exists b :: b in banks && Inside(b, start, end)
    {
      for i := 0 to |banks|
        invariant forall k :: 0 <= k < i ==> !Inside(banks[k], start, end)
      {
        var bankEnd := BankEnd(banks[i]);
        if bankEnd >= banks[i].start && start >= banks[i].start && end <= bankEnd {
          assert Inside(banks[i], start, end);
          return true;
        }
        Wrapped(banks[i]);
      }
      found := false;
    }

    /** The body of the sweep: what the interval gets. */
    method Classify(banks: seq<Bank>, reserved: seq<Range>, payloadEnd: u64, start: u64, end: u64) returns (flags: u32)
      requires reserved == ReservedRanges(payloadEnd)
      ensures flags == IntervalFlags(banks, payloadEnd, start, end)
    {
      hide ReservedRanges, Inside;
      if start >= MMIO_START && end <= PHYS_4G {
        return MMIO;
      }
      var found := InSomeBank(banks, start, end);
      if !found {
        return 0;
      }
      var j := 0;
      assert reserved[0..] == reserved;
      while j < |reserved|
        invariant j <= |reserved| && FirstRange(reserved, start, end) == FirstRange(reserved[j..], start, end)
      {
        if start >= reserved[j].start && end <= reserved[j].end {
          return reserved[j].flags;
        }
        assert reserved[j..][1..] == reserved[j + 1..];
        j := j + 1;
      }
      flags := UNUSED;
    }

    /** rk356x_build_mem_map: for up to ten banks and any end of the payload the
        map is exact and canonical, and neither limit ever cuts it short. */
    method Build(banks: seq<Bank>, payloadEnd: u64)
      requires |banks| <= MAX_BANKS
      modifies this
      ensures |items| < MAX_ITEMS && Exact(items, TWO64, banks, payloadEnd)
    {
      hide IntervalFlags, Exact, Cut, ReservedRanges, Want, Added, Elementary;
      var boundaries := new u64[MAX_BOUNDARIES];
      items := [];
      var count := Boundaries(banks, payloadEnd, boundaries);
      ghost var s := boundaries[..count];
      CutIs(s, banks, payloadEnd);
      NothingYet(banks, payloadEnd);
      var i := 0;
      while i + 1 < count
        invariant i < count && boundaries[..count] == s && |items| <= i
        invariant Exact(items, s[i], banks, payloadEnd)
      {
        var start, end := boundaries[i], boundaries[i + 1];
        assert start == s[i] && end == s[i + 1];
        var flags := Classify(banks, ReservedRanges(payloadEnd), payloadEnd, start, end);
        NextTo(s, i);
        forall a | start <= a < end ensures Want(banks, payloadEnd, a) == flags {
          ElementaryIs(s, banks, payloadEnd, start, end, a);
        }
        if flags != 0 {
          AddedSize(items, start, end, flags);
          ExactAdd(items, start, end, flags, banks, payloadEnd);
          Add(start, end, flags);
        } else {
          ExactSkip(items, start, end, banks, payloadEnd);
        }
        i := i + 1;
      }
      forall a: int | s[i] <= a ensures Want(banks, payloadEnd, a) == 0 {
        OutsideIs(s, banks, payloadEnd, a);
      }
      ExactTop(items, s[i], banks, payloadEnd);
    }

    /** rk356x_largest_low_free: the index of the item, or the number of items. */
    method LargestLowFree() returns (best: nat)
      ensures best <= |items|
      ensures best < |items| ==> LowFree(items[best])
      ensures forall i :: 0 <= i < |items| && LowFree(items[i]) ==>
                best < |items| && Length(items[i]) <= Length(items[best])
                    && (Length(items[i]) == Length(items[best]) ==> best <= i)
    {
      best := |items|;
      for i := 0 to |items|
        invariant best < i || best == |items|
        invariant best < |items| ==> LowFree(items[best])
        invariant forall k :: 0 <= k < i && LowFree(items[k]) ==>
                    best < |items| && Length(items[k]) <= Length(items[best])
                        && (Length(items[k]) == Length(items[best]) ==> best <= k)
      {
        if items[i].flags % 2 == 0 || items[i].start >= PHYS_4G || items[i].end > PHYS_4G {
          continue;
        }
        if best == |items| || Length(items[i]) > Length(items[best]) {
          best := i;
        }
      }
    }
  }

  lemma Wrapped(b: Bank)
    ensures BankEnd(b) >= b.start ==> BankEnd(b) == b.start + b.size
  {}

  lemma CutIs(s: seq<u64>, banks: seq<Bank>, payloadEnd: u64)
    requires Cut(s, banks, payloadEnd)
    ensures s != [] && s[0] == 0 && Ascending(s)
  {}

  lemma NextTo(s: seq<u64>, i: nat)
    requires Ascending(s) && i + 1 < |s|
    ensures s[i] < s[i + 1] && Elementary(s, s[i], s[i + 1])
  {}

  lemma NothingYet(banks: seq<Bank>, payloadEnd: u64)
    ensures Exact([], 0, banks, payloadEnd)
  {}

  lemma ExactTop(items: seq<Item>, top: u64, banks: seq<Bank>, payloadEnd: u64)
    requires Exact(items, top, banks, payloadEnd) && forall a: int :: top <= a ==> Want(banks, payloadEnd, a) == 0
    ensures Exact(items, TWO64, banks, payloadEnd)
  {
    hide Want;
  }

  // ----- the largest free range below 4 GiB

  predicate LowFree(x: Item) {
    x.flags % 2 == 1 && x.start < PHYS_4G && x.end <= PHYS_4G
  }

  function Length(x: Item): int {
    x.end - x.start
  }

  lemma WantFlags(banks: seq<Bank>, payloadEnd: u64, a: int)
    ensures Want(banks, payloadEnd, a) in {0, UNUSED, RESERVED, FRAMEBUFFER, MMIO, PAYLOAD}
  {
    ReservedFlags(ReservedRanges(payloadEnd), a);
  }

  lemma {:induction false} ReservedFlags(r: seq<Range>, a: int)
    requires forall x :: x in r ==> x.flags in {RESERVED, FRAMEBUFFER, PAYLOAD}
    ensures ReservedAt(r, a) in {UNUSED, RESERVED, FRAMEBUFFER, PAYLOAD}
  {
    if r != [] {
      assert r[0] in r;
      ReservedFlags(r[1..], a);
    }
  }

  /** In an exact map a run of free addresses lies inside one item. */
  lemma {:induction false} RunInItem(items: seq<Item>, banks: seq<Bank>, payloadEnd: u64, start: u64, end: u64)
    returns (k: nat)
    requires Exact(items, TWO64, banks, payloadEnd) && start < end
    requires forall a :: start <= a < end ==> Want(banks, payloadEnd, a) == UNUSED
    ensures k < |items| && items[k].start <= start && end <= items[k].end && items[k].flags == UNUSED
    decreases end - start
  {
    hide Want, Exact;
    if end - start == 1 {
      k := ItemAt(items, banks, payloadEnd, start);
    } else {
      k := RunInItem(items, banks, payloadEnd, start, end - 1);
      var j := ItemAt(items, banks, payloadEnd, end - 1);
      NoSeam(items, banks, payloadEnd, k, j, end - 1);
    }
  }

  lemma ItemAt(items: seq<Item>, banks: seq<Bank>, payloadEnd: u64, a: u64) returns (k: nat)
    requires Exact(items, TWO64, banks, payloadEnd) && Want(banks, payloadEnd, a) == UNUSED
    ensures k < |items| && items[k].start <= a < items[k].end && items[k].flags == UNUSED
  {
    hide Want;
    k :| 0 <= k < |items| && Covers(items[k], a);
  }

  /** No item ends where an item of the same kind goes on. */
  lemma NoSeam(items: seq<Item>, banks: seq<Bank>, payloadEnd: u64, k: nat, j: nat, a: int)
    requires Exact(items, TWO64, banks, payloadEnd) && k < |items| && j < |items|
    requires items[k].flags == items[j].flags && Covers(items[j], a)
    ensures items[k].end != a
  {
    hide Want;
    if k + 1 < j {
      assert items[k].end <= items[k + 1].start < items[k + 1].end <= items[j].start;
    }
  }

  /** rk356x_largest_low_free finds a range at least as large as any run of free
      addresses below 4 GiB. */
  lemma {:induction false} LargestIs(items: seq<Item>, banks: seq<Bank>, payloadEnd: u64, best: nat, start: u64,
      end: u64)
    requires Exact(items, TWO64, banks, payloadEnd)
    requires forall i :: 0 <= i < |items| && LowFree(items[i]) ==>
        best < |items| && Length(items[i]) <= Length(items[best])
    requires start < end <= PHYS_4G && forall a :: start <= a < end ==> Want(banks, payloadEnd, a) == UNUSED
    ensures best < |items| && end - start <= Length(items[best])
  {
    var k := RunInItem(items, banks, payloadEnd, start, end);
    assert Want(banks, payloadEnd, PHYS_4G - 1) == MMIO;
    hide Want;
    assert Covers(items[k], PHYS_4G - 1) <==> items[k].end >= PHYS_4G;
    assert LowFree(items[k]);
  }

  /** What it finds is free. */
  lemma LowFreeIsFree(items: seq<Item>, banks: seq<Bank>, payloadEnd: u64, k: nat)
    requires Exact(items, TWO64, banks, payloadEnd) && k < |items| && LowFree(items[k])
    ensures forall a :: Covers(items[k], a) ==> Want(banks, payloadEnd, a) == UNUSED
  {
    hide Want;
    forall a | Covers(items[k], a) ensures Want(banks, payloadEnd, a) == UNUSED {
      WantFlags(banks, payloadEnd, a);
    }
  }
}
