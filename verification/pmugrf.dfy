/** src/rk356x/pmugrf_dram.c: the DRAM capacity that the boot code left in two
    PMUGRF registers. */
module Pmugrf {
  import opened Bytes

  lemma {:induction false} Pow2Sum(a: nat, b: nat)
    ensures Pow2(a + b) == Pow2(a) * Pow2(b)
  {
    if a > 0 { Pow2Sum(a - 1, b); }
  }

  lemma {:induction false} Pow2Mono(a: nat, b: nat)
    requires a <= b
    ensures Pow2(a) <= Pow2(b)
  {
    if a < b { Pow2Mono(a, b - 1); }
  }

  lemma Pow2Values()
    ensures Pow2(2) == 4 && Pow2(20) == 0x10_0000 && Pow2(30) == 0x4000_0000 && Pow2(35) == 0x8_0000_0000
  {
    assert Pow2(10) == 1024;
    Pow2Sum(10, 10);
    Pow2Sum(20, 10);
    Pow2Sum(30, 5);
  }

  /** field32 with a mask of `bits` ones. */
  function Bits(value: u32, shift: nat, bits: nat): (v: nat)
    ensures v < Pow2(bits)
  {
    value / Pow2(shift) % Pow2(bits)
  }

  function Rows(raw: nat): nat {
    if raw == 7 then 12 else 13 + raw
  }

  /** The fields of one channel. */
  datatype Channel = Channel(ranks: nat, width: nat, bank: nat, group: nat,
                             rows0: nat, columns0: nat, rows1: nat, columns1: nat, threeQuarters: bool)

  function Version(reg3: u32): nat {
    Bits(reg3, 28, 4)
  }

  function DramType(reg2: u32, reg3: u32): nat {
    Bits(reg2, 13, 3) + if Version(reg3) >= 3 then Bits(reg3, 12, 2) * 8 else 0
  }

  function ChannelCount(reg2: u32): nat {
    1 + Bits(reg2, 12, 1)
  }

  function ChannelOf(reg2: u32, reg3: u32, channel: nat): (c: Channel)
    ensures c.ranks in {1, 2} && c.width < 4 && 2 <= c.bank <= 4 && c.group <= 2
    ensures 12 <= c.rows0 <= 20 && 12 <= c.rows1 <= 20 && 9 <= c.columns0 <= 12 && 9 <= c.columns1 <= 12
  {
    FieldRanges();
    var early := Version(reg3) < 2;
    var lane: u32 := LaneOf(reg2, channel);
    var raw0 := Bits(lane, 6, 2) + 4 * Bits(reg3, 5 + 2 * channel, 1);
    var raw1 := Bits(lane, 4, 2) + 4 * Bits(reg3, 4 + 2 * channel, 1);
    var columns0 := 9 + Bits(lane, 9, 2);
    Channel(1 + Bits(lane, 11, 1), Bits(lane, 2, 2),
            if DramType(reg2, reg3) == 9 then 3 + Bits(lane, 8, 1) else 3 - Bits(lane, 8, 1),
            if DramType(reg2, reg3) == 0 && Version(reg3) != 3 then if Bits(lane, 0, 2) == 2 then 2 else 1 else 0,
            if early then 13 + Bits(lane, 6, 2) else Rows(raw0), columns0,
            if early then 13 + Bits(lane, 4, 2) else Rows(raw1),
            if early then columns0 else 9 + Bits(reg3, 2 * channel, 2),
            Bits(reg2, 30 + channel, 1) != 0)
  }

  function LaneOf(reg2: u32, channel: nat): u32 {
    LaneSmall(reg2, channel);
    Bits(reg2, channel * 16, 16)
  }

  lemma LaneSmall(reg2: u32, channel: nat)
    ensures Bits(reg2, channel * 16, 16) < TWO32
  {
    Pow2Values();
    Pow2Mono(16, 20);
  }

  lemma FieldRanges()
    ensures Pow2(1) == 2 && Pow2(2) == 4
  {}

  /** add_u64. */
  datatype Sum = Fails | Sum(value: u64)

  function AddU64(total: u64, value: int): Sum {
    if value > 0xffff_ffff_ffff_ffff - total then Fails else if value < 0 then Fails else Sum(total + value)
  }

  /** The exponent of the first rank. */
  function Exponent(c: Channel): int {
    c.rows0 + c.columns0 + c.bank + c.group + (2 - c.width)
  }

  function Delta(c: Channel): int {
    (c.rows0 as int - c.rows1) + (c.columns0 as int - c.columns1)
  }

  /** The bytes of one channel as the C code computes them; none when it gives up. */
  function ChannelBytes(c: Channel): Sum {
    if c.width == 3 || Exponent(c) < 20 || Exponent(c) > 35 then Fails
    else if c.ranks == 2 && (Delta(c) < 0 || Delta(c) > 8) then Fails
    else
      SmallPower(Exponent(c));
      var first: u64 := Pow2(Exponent(c));
      var both := if c.ranks == 2 then AddU64(first, first / Pow2(Delta(c))) else Sum(first);
      if both.Fails? then Fails
      else if c.threeQuarters then Sum(both.value / 4 * 3)
      else both
  }

  lemma SmallPower(n: nat)
    requires n <= 35
    ensures Pow2(n) <= 0x8_0000_0000
  {
    Pow2Values();
    Pow2Mono(n, 35);
  }

  function Total(reg2: u32, reg3: u32, channel: nat, total: u64): Sum
    requires channel <= ChannelCount(reg2)
    decreases ChannelCount(reg2) - channel
  {
    if channel == ChannelCount(reg2) then Sum(total)
    else
      var bytes := ChannelBytes(ChannelOf(reg2, reg3, channel));
      if bytes.Fails? then Fails
      else
        var next := AddU64(total, bytes.value);
        if next.Fails? then Fails else Total(reg2, reg3, channel + 1, next.value)
  }

  function Decode(reg2: u32, reg3: u32): u64 {
    if DramType(reg2, reg3) > 10 then 0
    else
      var total := Total(reg2, reg3, 0, 0);
      if total.Fails? || total.value < 0x4000_0000 || total.value > 0x8_0000_0000 then 0 else total.value
  }

  /** rk356x_decode_pmugrf. */
  method DecodeRegisters(reg2: u32, reg3: u32) returns (bytes: u64)
    ensures bytes == Decode(reg2, reg3)
  {
    hide ChannelBytes, ChannelOf, DramType, Bits;
    if DramType(reg2, reg3) > 10 {
      return 0;
    }
    var total: u64 := 0;
    var channel := 0;
    while channel < ChannelCount(reg2)
      invariant channel <= ChannelCount(reg2) && Total(reg2, reg3, 0, 0) == Total(reg2, reg3, channel, total)
    {
      var c := ChannelBytes(ChannelOf(reg2, reg3, channel));
      if c.Fails? {
        return 0;
      }
      var next := AddU64(total, c.value);
      if next.Fails? {
        return 0;
      }
      total, channel := next.value, channel + 1;
    }
    bytes := if total < 0x4000_0000 || total > 0x8_0000_0000 then 0 else total;
  }

  // ----- the same from the geometry of each rank

  /** The exponent of the second rank, from its own rows and columns. */
  function SecondExponent(c: Channel): int {
    c.rows1 + c.columns1 + c.bank + c.group + (2 - c.width)
  }

  predicate Plausible(c: Channel) {
    && c.width != 3 && 20 <= Exponent(c) <= 35
    && (c.ranks == 2 ==> Exponent(c) - 8 <= SecondExponent(c) <= Exponent(c))
  }

  /** Each rank a power of two of its own; three quarters of them if so marked. */
  function RankBytes(c: Channel): nat
    requires Plausible(c)
  {
    Pow2(Exponent(c)) + if c.ranks == 2 then Pow2(SecondExponent(c)) else 0
  }

  lemma SecondRank(c: Channel)
    requires Plausible(c) && c.ranks == 2
    ensures 0 <= Delta(c) <= 8 && Pow2(Exponent(c)) / Pow2(Delta(c)) == Pow2(SecondExponent(c))
    ensures Pow2(SecondExponent(c)) % 4 == 0 && Pow2(SecondExponent(c)) <= Pow2(Exponent(c))
  {
    assert Exponent(c) == Delta(c) + SecondExponent(c);
    Pow2Sum(Delta(c), SecondExponent(c));
    Divides(Pow2(Delta(c)), Pow2(SecondExponent(c)));
    Quarters(SecondExponent(c));
    Pow2Mono(SecondExponent(c), Exponent(c));
  }

  lemma Divides(a: nat, b: nat)
    requires a > 0
    ensures (a * b) / a == b
  {
    var q, r := (a * b) / a, (a * b) % a;
    assert a * b == a * q + r;
    assert a * (b - q) == r;
    Multiple(a, b - q);
  }

  lemma Multiple(a: nat, d: int)
    ensures d >= 1 ==> a * d >= a
    ensures d <= -1 ==> a * d <= -(a as int)
  {}

  lemma Quarters(n: nat)
    requires n >= 2
    ensures Pow2(n) % 4 == 0
  {
    var q := Pow2(n - 2);
    assert Pow2(n) == 4 * q;
    hide Pow2;
    FourTimes(q);
  }

  lemma FourTimes(q: nat)
    ensures 4 * q % 4 == 0
  {}

  lemma QuartersSum(a: nat, b: nat)
    requires a % 4 == 0 && b % 4 == 0
    ensures (a + b) % 4 == 0
  {
    assert a + b == 4 * (a / 4 + b / 4);
    FourTimes(a / 4 + b / 4);
  }

  lemma RankRange(c: Channel)
    requires Plausible(c)
    ensures RankBytes(c) % 4 == 0 && 0x10_0000 <= RankBytes(c) <= 0x10_0000_0000
  {
    hide Pow2, Exponent, SecondExponent, Delta;
    SmallPower(Exponent(c));
    Quarters(Exponent(c));
    Pow2Values();
    Pow2Mono(20, Exponent(c));
    if c.ranks == 2 {
      SecondRank(c);
      QuartersSum(Pow2(Exponent(c)), Pow2(SecondExponent(c)));
    }
  }

  /** A channel is refused exactly when it is implausible; otherwise no addition
      overflows and the division by four is exact. */
  lemma ChannelExact(c: Channel)
    requires c.ranks in {1, 2} && c.width < 4
    ensures ChannelBytes(c).Fails? <==> !Plausible(c)
    ensures Plausible(c) ==>
              && RankBytes(c) % 4 == 0 && 0x10_0000 <= RankBytes(c) <= 0x10_0000_0000
              && ChannelBytes(c).value == if c.threeQuarters then 3 * (RankBytes(c) / 4) else RankBytes(c)
  {
    hide Pow2;
    assert Exponent(c) == Delta(c) + SecondExponent(c);
    if Plausible(c) {
      RankRange(c);
      SmallPower(Exponent(c));
      if c.ranks == 2 { SecondRank(c); }
    }
  }

  function Capacity(reg2: u32, reg3: u32, channel: nat): nat {
    var c := ChannelOf(reg2, reg3, channel);
    if !Plausible(c) then 0 else if c.threeQuarters then 3 * (RankBytes(c) / 4) else RankBytes(c)
  }

  predicate Readable(reg2: u32, reg3: u32) {
    DramType(reg2, reg3) <= 10 && forall i :: 0 <= i < ChannelCount(reg2) ==> Plausible(ChannelOf(reg2, reg3, i))
  }

  /** For every pair of registers the decoder returns the capacity that the
      geometry of the ranks adds up to, when every channel is plausible and the
      sum is between 1 GiB and 32 GiB; and 0 in every other case. */
  lemma DecodeExact(reg2: u32, reg3: u32)
    ensures var n := Capacity(reg2, reg3, 0) + if ChannelCount(reg2) == 2 then Capacity(reg2, reg3, 1) else 0;
            Decode(reg2, reg3) == if Readable(reg2, reg3) && 0x4000_0000 <= n <= 0x8_0000_0000 then n else 0
  {
    hide ChannelOf, ChannelBytes, Plausible, RankBytes, DramType, Bits;
    CountRange(reg2);
    var c0, c1 := ChannelOf(reg2, reg3, 0), ChannelOf(reg2, reg3, 1);
    ChannelExact(c0);
    ChannelExact(c1);
    var b0, b1 := ChannelBytes(c0), ChannelBytes(c1);
    if b0.Sum? {
      assert Total(reg2, reg3, 0, 0) == Total(reg2, reg3, 1, b0.value);
      if ChannelCount(reg2) == 2 && b1.Sum? {
        assert Total(reg2, reg3, 1, b0.value) == Total(reg2, reg3, 2, b0.value + b1.value);
      }
    }
    assert Readable(reg2, reg3) <==>
           DramType(reg2, reg3) <= 10 && Plausible(c0) && (ChannelCount(reg2) == 2 ==> Plausible(c1));
  }

  lemma CountRange(reg2: u32)
    ensures ChannelCount(reg2) in {1, 2}
  {
    FieldRanges();
  }
}
