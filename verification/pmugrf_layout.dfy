/** The two PMUGRF registers from the writer's side: the boot code lays the
    fields of each channel side by side, and the decoder of
    src/rk356x/pmugrf_dram.c gets them back. */
module PmugrfLayout {
  import opened Bytes
  import opened Pmugrf

  // ----- fields side by side, the lowest first

  datatype Field = Field(width: nat, value: nat)

  predicate Fits(fields: seq<Field>) {
    forall k :: 0 <= k < |fields| ==> fields[k].value < Pow2(fields[k].width)
  }

  function Width(fields: seq<Field>): nat {
    if fields == [] then 0 else fields[0].width + Width(fields[1..])
  }

  function Word(fields: seq<Field>): nat {
    if fields == [] then 0 else fields[0].value + Pow2(fields[0].width) * Word(fields[1..])
  }

  lemma {:induction false} WordRange(fields: seq<Field>)
    requires Fits(fields)
    ensures Word(fields) < Pow2(Width(fields))
  {
    if fields != [] {
      var f, rest := fields[0], fields[1..];
      WordRange(rest);
      Pow2Sum(f.width, Width(rest));
      Carry(f.value, Pow2(f.width), Word(rest), Pow2(Width(rest)));
    }
  }

  lemma Carry(v: nat, p: nat, w: nat, q: nat)
    requires v < p && w < q
    ensures v + p * w < p * q
  {
    assert p * (w + 1) <= p * q;
  }

  /** Behind the first field. */
  lemma Above(v: nat, p: nat, w: nat, q: nat)
    requires v < p && q > 0
    ensures (v + p * w) / (p * q) == w / q
  {
    var x := v + p * w;
    assert p * w == p * (q * (w / q) + w % q);
    assert p * (w % q) + v < p * q by { Carry(v, p, w % q, q); }
    Quotient(x, p * q, w / q, p * (w % q) + v);
  }

  lemma Quotient(x: nat, d: nat, q: nat, r: nat)
    requires x == d * q + r && r < d
    ensures x / d == q && x % d == r
  {
    var e := x / d - q;
    assert d * e == r - x % d;
    Multiple(d, e);
  }

  lemma {:induction false} FieldAt(fields: seq<Field>, k: nat)
    requires Fits(fields) && k < |fields|
    ensures Word(fields) / Pow2(Width(fields[..k])) % Pow2(fields[k].width) == fields[k].value
    decreases k
  {
    var f, rest := fields[0], fields[1..];
    if k == 0 {
      assert Word(fields) == Pow2(f.width) * Word(rest) + f.value;
      Quotient(Word(fields), Pow2(f.width), Word(rest), f.value);
    } else {
      FieldAt(rest, k - 1);
      assert fields[..k][1..] == rest[..k - 1];
      Pow2Sum(f.width, Width(rest[..k - 1]));
      Above(f.value, Pow2(f.width), Word(rest), Pow2(Width(rest[..k - 1])));
    }
  }

  lemma {:induction false} WordAppend(a: seq<Field>, b: seq<Field>)
    ensures Width(a + b) == Width(a) + Width(b) && Word(a + b) == Word(a) + Pow2(Width(a)) * Word(b)
  {
    if a == [] {
      assert a + b == b;
    } else {
      assert (a + b)[1..] == a[1..] + b;
      WordAppend(a[1..], b);
      Pow2Sum(a[0].width, Width(a[1..]));
      Spread(Pow2(a[0].width), Word(a[1..]), Pow2(Width(a[1..])), Word(b));
    }
  }

  lemma Spread(p: nat, w: nat, q: nat, z: nat)
    ensures p * (w + q * z) == p * w + p * q * z
  {}

  /** Where field `k` begins. */
  function Offset(fields: seq<Field>, k: nat): nat
    requires k <= |fields|
    decreases k
  {
    if k == 0 then 0 else Offset(fields, k - 1) + fields[k - 1].width
  }

  lemma {:induction false} OffsetIs(fields: seq<Field>, k: nat)
    requires k <= |fields|
    ensures Width(fields[..k]) == Offset(fields, k)
  {
    if k > 0 {
      OffsetIs(fields, k - 1);
      assert fields[..k] == fields[..k - 1] + [fields[k - 1]];
      WordAppend(fields[..k - 1], [fields[k - 1]]);
    }
  }

  lemma FieldIs(fields: seq<Field>, k: nat)
    requires Fits(fields) && k < |fields| && Word(fields) < TWO32
    ensures Bits(Word(fields), Offset(fields, k), fields[k].width) == fields[k].value
  {
    OffsetIs(fields, k);
    FieldAt(fields, k);
  }

  /** A field of a group in the middle of the word. */
  lemma ReadAt(pre: seq<Field>, mid: seq<Field>, post: seq<Field>, k: nat)
    requires k < |mid| && Fits(pre + mid + post) && Word(pre + mid + post) < TWO32
    ensures Bits(Word(pre + mid + post), Width(pre) + Offset(mid, k), mid[k].width) == mid[k].value
  {
    hide Word, Fits, Pow2;
    var fields := pre + mid + post;
    assert fields[..|pre| + k] == pre + mid[..k] && fields[|pre| + k] == mid[k];
    WordAppend(pre, mid[..k]);
    OffsetIs(mid, k);
    FieldAt(fields, |pre| + k);
  }

  lemma WholeWidth(fields: seq<Field>)
    ensures Width(fields) == Offset(fields, |fields|)
  {
    OffsetIs(fields, |fields|);
    assert fields[..|fields|] == fields;
  }

  lemma FitsAppend(a: seq<Field>, b: seq<Field>)
    requires Fits(a) && Fits(b)
    ensures Fits(a + b)
  {}

  // ----- the registers

  /** What the boot code knows about the memory. */
  datatype Memory = Memory(version: nat, kind: nat, count: nat, first: Channel, second: Channel)

  /** What a channel can be in that register version. */
  predicate Encodable(version: nat, kind: nat, c: Channel) {
    && c.ranks in {1, 2} && c.width < 4 && 9 <= c.columns0 <= 12 && 9 <= c.columns1 <= 12
    && c.bank in (if kind == 9 then {3, 4} else {2, 3})
    && c.group in (if kind == 0 && version != 3 then {1, 2} else {0})
    && if version < 2 then 13 <= c.rows0 <= 16 && 13 <= c.rows1 <= 16 && c.columns1 == c.columns0
       else 12 <= c.rows0 <= 19 && 12 <= c.rows1 <= 19
  }

  predicate Valid(m: Memory) {
    && m.version < 16 && m.kind < (if m.version < 3 then 8 else 32) && m.count in {1, 2}
    && Encodable(m.version, m.kind, m.first) && Encodable(m.version, m.kind, m.second)
  }

  /** 12 rows came last and got the code that was left. */
  function RowCode(rows: nat): nat
    requires rows >= 12
  {
    if rows == 12 then 7 else rows - 13
  }

  /** The twelve bits of a channel in the first register. */
  function Lane(c: Channel): seq<Field>
    requires 9 <= c.columns0 && 12 <= c.rows0 && 12 <= c.rows1 && c.ranks >= 1
  {
    [Field(2, c.group), Field(2, c.width), Field(2, RowCode(c.rows1) % 4), Field(2, RowCode(c.rows0) % 4),
     Field(1, if c.bank == 3 then 0 else 1), Field(2, c.columns0 - 9), Field(1, c.ranks - 1)]
  }

  function LowRest(m: Memory): seq<Field>
    requires m.count >= 1
  {
    [Field(1, m.count - 1), Field(3, m.kind % 8)]
  }

  function HighRest(m: Memory, spare: nat): seq<Field> {
    [Field(2, spare), Field(1, Flag(m.first.threeQuarters)), Field(1, Flag(m.second.threeQuarters))]
  }

  function Flag(b: bool): nat {
    if b then 1 else 0
  }

  function LowHalf(m: Memory): seq<Field>
    requires Valid(m)
  {
    Lane(m.first) + LowRest(m)
  }

  function HighHalf(m: Memory, spare: nat): seq<Field>
    requires Valid(m)
  {
    Lane(m.second) + HighRest(m, spare)
  }

  function Reg2(m: Memory, spare: nat): nat
    requires Valid(m)
  {
    Word(LowHalf(m) + HighHalf(m, spare))
  }

  function Fields3(m: Memory, low: nat, high: nat): seq<Field>
    requires Valid(m)
  {
    [Field(2, m.first.columns1 - 9), Field(2, m.second.columns1 - 9),
     Field(1, RowCode(m.first.rows1) / 4), Field(1, RowCode(m.first.rows0) / 4),
     Field(1, RowCode(m.second.rows1) / 4), Field(1, RowCode(m.second.rows0) / 4),
     Field(4, low), Field(2, m.kind / 8), Field(14, high), Field(4, m.version)]
  }

  function Reg3(m: Memory, low: nat, high: nat): nat
    requires Valid(m)
  {
    Word(Fields3(m, low, high))
  }

  // ----- reading them

  lemma Powers()
    ensures Pow2(1) == 2 && Pow2(2) == 4 && Pow2(3) == 8 && Pow2(4) == 16 && Pow2(14) == 0x4000
    ensures Pow2(16) == 0x1_0000 && Pow2(32) == TWO32
  {
    assert Pow2(7) == 128;
    Pow2Sum(7, 7);
    Pow2Sum(14, 2);
    Pow2Sum(16, 16);
  }

  lemma LaneFits(version: nat, kind: nat, c: Channel)
    requires Encodable(version, kind, c)
    ensures Fits(Lane(c)) && Width(Lane(c)) == 12
  {
    hide Pow2;
    Powers();
    WholeWidth(Lane(c));
    assert Offset(Lane(c), 7) == 12;
  }

  lemma RestsFit(m: Memory, spare: nat)
    requires Valid(m) && spare < 4
    ensures Fits(LowRest(m)) && Fits(HighRest(m, spare)) && Width(LowRest(m)) == Width(HighRest(m, spare)) == 4
  {
    hide Pow2;
    Powers();
    WholeWidth(LowRest(m));
    WholeWidth(HighRest(m, spare));
  }

  lemma HalvesFit(m: Memory, spare: nat)
    requires Valid(m) && spare < 4
    ensures Fits(LowHalf(m)) && Fits(HighHalf(m, spare)) && Width(LowHalf(m)) == Width(HighHalf(m, spare)) == 16
    ensures Word(LowHalf(m)) < 0x1_0000 && Word(HighHalf(m, spare)) < 0x1_0000
  {
    hide Pow2, Lane, LowRest, HighRest, Fits, Word;
    Powers();
    LaneFits(m.version, m.kind, m.first);
    LaneFits(m.version, m.kind, m.second);
    RestsFit(m, spare);
    WordAppend(Lane(m.first), LowRest(m));
    WordAppend(Lane(m.second), HighRest(m, spare));
    FitsAppend(Lane(m.first), LowRest(m));
    FitsAppend(Lane(m.second), HighRest(m, spare));
    WordRange(LowHalf(m));
    WordRange(HighHalf(m, spare));
  }

  /** Each channel's half of the first register. */
  lemma LanesAre(m: Memory, spare: nat)
    requires Valid(m) && spare < 4
    ensures Reg2(m, spare) < TWO32
    ensures LaneOf(Reg2(m, spare), 0) == Word(LowHalf(m)) && LaneOf(Reg2(m, spare), 1) == Word(HighHalf(m, spare))
  {
    hide Pow2, LowHalf, HighHalf, Bits;
    Powers();
    HalvesFit(m, spare);
    WordAppend(LowHalf(m), HighHalf(m, spare));
    TwoHalves(Word(LowHalf(m)), Word(HighHalf(m, spare)), Reg2(m, spare));
  }

  lemma TwoHalves(l: nat, h: nat, w: nat)
    requires l < 0x1_0000 && h < 0x1_0000 && w == l + Pow2(16) * h
    ensures w < TWO32 && Bits(w, 0, 16) == l && Bits(w, 16, 16) == h
  {
    hide Pow2;
    Powers();
    assert Pow2(0) == 1 by { Unit(); }
    Quotient(w, 0x1_0000, h, l);
    Quotient(h, 0x1_0000, 0, h);
  }

  lemma Unit()
    ensures Pow2(0) == 1
  {}

  /** The fields of a channel in its half. */
  lemma HalfReads(half: seq<Field>, c: Channel)
    requires 9 <= c.columns0 && 12 <= c.rows0 && 12 <= c.rows1 && c.ranks >= 1
    requires Fits(half) && Word(half) < TWO32 && |half| >= 7 && half[..7] == Lane(c)
    ensures var w: u32 := Word(half);
            && Bits(w, 0, 2) == c.group && Bits(w, 2, 2) == c.width
            && Bits(w, 4, 2) == RowCode(c.rows1) % 4 && Bits(w, 6, 2) == RowCode(c.rows0) % 4
            && Bits(w, 8, 1) == (if c.bank == 3 then 0 else 1)
            && Bits(w, 9, 2) == c.columns0 - 9 && Bits(w, 11, 1) == c.ranks - 1
  {
    hide Bits, Word, Fits;
    assert forall k :: 0 <= k < 7 ==> half[k] == Lane(c)[k];
    FieldIs(half, 0);
    FieldIs(half, 1);
    FieldIs(half, 2);
    FieldIs(half, 3);
    FieldIs(half, 4);
    FieldIs(half, 5);
    FieldIs(half, 6);
  }

  /** The fields of the first register that belong to no channel's lane. */
  lemma LowShared(m: Memory, spare: nat)
    requires Valid(m) && spare < 4
    ensures Reg2(m, spare) < TWO32
    ensures Bits(Reg2(m, spare), 12, 1) == m.count - 1 && Bits(Reg2(m, spare), 13, 3) == m.kind % 8
  {
    hide Bits, Word, Fits, Lane, HighHalf;
    LanesAre(m, spare);
    HalvesFit(m, spare);
    LaneFits(m.version, m.kind, m.first);
    FitsAppend(LowHalf(m), HighHalf(m, spare));
    ReadAt(Lane(m.first), LowRest(m), HighHalf(m, spare), 0);
    ReadAt(Lane(m.first), LowRest(m), HighHalf(m, spare), 1);
  }

  lemma HighShared(m: Memory, spare: nat)
    requires Valid(m) && spare < 4
    ensures Reg2(m, spare) < TWO32
    ensures Bits(Reg2(m, spare), 30, 1) == Flag(m.first.threeQuarters)
    ensures Bits(Reg2(m, spare), 31, 1) == Flag(m.second.threeQuarters)
  {
    hide Bits, Word, Fits, Lane, LowHalf;
    LanesAre(m, spare);
    HalvesFit(m, spare);
    LaneFits(m.version, m.kind, m.second);
    var low, lane, rest := LowHalf(m), Lane(m.second), HighRest(m, spare);
    FitsAppend(low, HighHalf(m, spare));
    WordAppend(low, lane);
    assert low + (lane + rest) == (low + lane) + rest + [];
    ReadAt(low + lane, rest, [], 1);
    ReadAt(low + lane, rest, [], 2);
  }

  lemma SecondReads(m: Memory, low: nat, high: nat)
    requires Valid(m) && low < 16 && high < 0x4000
    ensures Reg3(m, low, high) < TWO32
    ensures var w: u32 := Reg3(m, low, high);
            && Bits(w, 0, 2) == m.first.columns1 - 9 && Bits(w, 2, 2) == m.second.columns1 - 9
            && Bits(w, 4, 1) == RowCode(m.first.rows1) / 4 && Bits(w, 5, 1) == RowCode(m.first.rows0) / 4
            && Bits(w, 6, 1) == RowCode(m.second.rows1) / 4 && Bits(w, 7, 1) == RowCode(m.second.rows0) / 4
            && Bits(w, 12, 2) == m.kind / 8 && Bits(w, 28, 4) == m.version
  {
    hide Bits, Word, Fits;
    var fields := Fields3(m, low, high);
    ThirdFits(m, low, high);
    FieldIs(fields, 0);
    FieldIs(fields, 1);
    FieldIs(fields, 2);
    FieldIs(fields, 3);
    FieldIs(fields, 4);
    FieldIs(fields, 5);
    FieldIs(fields, 7);
    FieldIs(fields, 9);
  }

  lemma ThirdFits(m: Memory, low: nat, high: nat)
    requires Valid(m) && low < 16 && high < 0x4000
    ensures Fits(Fields3(m, low, high)) && Reg3(m, low, high) < TWO32
  {
    hide Pow2, Word;
    Powers();
    WordRange(Fields3(m, low, high));
    WholeWidth(Fields3(m, low, high));
  }

  lemma CodeIs(rows: nat)
    requires 12 <= rows <= 19
    ensures RowCode(rows) % 4 + 4 * (RowCode(rows) / 4) == RowCode(rows) && Rows(RowCode(rows)) == rows
    ensures 13 <= rows <= 16 ==> 13 + RowCode(rows) % 4 == rows
  {}

  /** The fields of a channel make up the channel. */
  lemma ChannelIs(version: nat, kind: nat, c: Channel, reg2: u32, reg3: u32, i: nat)
    requires i < 2 && Encodable(version, kind, c) && Version(reg3) == version && DramType(reg2, reg3) == kind
    requires var w := LaneOf(reg2, i);
             && Bits(w, 0, 2) == c.group && Bits(w, 2, 2) == c.width
             && Bits(w, 4, 2) == RowCode(c.rows1) % 4 && Bits(w, 6, 2) == RowCode(c.rows0) % 4
             && Bits(w, 8, 1) == (if c.bank == 3 then 0 else 1)
             && Bits(w, 9, 2) == c.columns0 - 9 && Bits(w, 11, 1) == c.ranks - 1
    requires Bits(reg3, 4 + 2 * i, 1) == RowCode(c.rows1) / 4 && Bits(reg3, 5 + 2 * i, 1) == RowCode(c.rows0) / 4
    requires Bits(reg3, 2 * i, 2) == c.columns1 - 9 && Bits(reg2, 30 + i, 1) == Flag(c.threeQuarters)
    ensures ChannelOf(reg2, reg3, i) == c
  {
    hide Bits, LaneOf, RowCode, Rows, Version, DramType;
    CodeIs(c.rows0);
    CodeIs(c.rows1);
  }

  lemma KindIs(m: Memory, reg2: u32, reg3: u32)
    requires Valid(m) && Bits(reg2, 12, 1) == m.count - 1 && Bits(reg2, 13, 3) == m.kind % 8
    requires Bits(reg3, 12, 2) == m.kind / 8 && Bits(reg3, 28, 4) == m.version
    ensures Version(reg3) == m.version && DramType(reg2, reg3) == m.kind && ChannelCount(reg2) == m.count
  {
    hide Bits, Encodable;
  }

  /** The decoder gets back the version, the kind of memory, the number of
      channels and both channels, whatever the unused bits are. */
  lemma Recovers(m: Memory, spare: nat, low: nat, high: nat)
    requires Valid(m) && spare < 4 && low < 16 && high < 0x4000
    ensures Reg2(m, spare) < TWO32 && Reg3(m, low, high) < TWO32
    ensures var reg2: u32, reg3: u32 := Reg2(m, spare), Reg3(m, low, high);
            && Version(reg3) == m.version && DramType(reg2, reg3) == m.kind && ChannelCount(reg2) == m.count
            && ChannelOf(reg2, reg3, 0) == m.first && ChannelOf(reg2, reg3, 1) == m.second
  {
    hide Bits, Word, Fits, Reg2, Reg3, LowHalf, HighHalf, Encodable, ChannelOf, LaneOf, Lane, RowCode, Version;
    hide DramType, ChannelCount;
    LanesAre(m, spare);
    HalvesFit(m, spare);
    LowShared(m, spare);
    HighShared(m, spare);
    SecondReads(m, low, high);
    HalfIs(m, spare);
    EncodableIs(m);
    HalfReads(LowHalf(m), m.first);
    HalfReads(HighHalf(m, spare), m.second);
    KindIs(m, Reg2(m, spare), Reg3(m, low, high));
    ChannelIs(m.version, m.kind, m.first, Reg2(m, spare), Reg3(m, low, high), 0);
    ChannelIs(m.version, m.kind, m.second, Reg2(m, spare), Reg3(m, low, high), 1);
  }

  lemma EncodableIs(m: Memory)
    requires Valid(m)
    ensures Encodable(m.version, m.kind, m.first) && Encodable(m.version, m.kind, m.second)
    ensures forall c :: c in {m.first, m.second} ==> 9 <= c.columns0 && 12 <= c.rows0 && 12 <= c.rows1 && c.ranks >= 1
  {}

  lemma HalfIs(m: Memory, spare: nat)
    requires Valid(m)
    ensures |LowHalf(m)| >= 7 && LowHalf(m)[..7] == Lane(m.first)
    ensures |HighHalf(m, spare)| >= 7 && HighHalf(m, spare)[..7] == Lane(m.second)
  {}

  function ChannelSize(c: Channel): nat {
    if !Plausible(c) then 0 else if c.threeQuarters then 3 * (RankBytes(c) / 4) else RankBytes(c)
  }

  /** Written and decoded, every memory has the capacity of its ranks, if all of
      its channels are plausible and it has between 1 GiB and 32 GiB. */
  lemma CapacityRecovered(m: Memory, spare: nat, low: nat, high: nat)
    requires Valid(m) && spare < 4 && low < 16 && high < 0x4000
    ensures Reg2(m, spare) < TWO32 && Reg3(m, low, high) < TWO32
    ensures var total := ChannelSize(m.first) + if m.count == 2 then ChannelSize(m.second) else 0;
            Decode(Reg2(m, spare), Reg3(m, low, high))
            == if m.kind <= 10 && Plausible(m.first) && (m.count == 2 ==> Plausible(m.second))
                  && 0x4000_0000 <= total <= 0x8_0000_0000 then total else 0
  {
    hide Reg2, Reg3, Decode, ChannelOf, DramType, Plausible, RankBytes, Version;
    Recovers(m, spare, low, high);
    var reg2: u32, reg3: u32 := Reg2(m, spare), Reg3(m, low, high);
    DecodeExact(reg2, reg3);
    assert Readable(reg2, reg3) <==>
           && m.kind <= 10 && Plausible(ChannelOf(reg2, reg3, 0))
           && (m.count == 2 ==> Plausible(ChannelOf(reg2, reg3, 1)));
  }
}
