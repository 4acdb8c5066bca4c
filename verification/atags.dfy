/** src/rk356x/dram.c: the tag list as the boot code writes it, and that
    rk356x_parse_atags accepts exactly such lists and gives back their banks. */
module Atags {
  import opened Bytes
  import opened Rk356x
  import opened Dram

  // ----- the writer's side

  function LEBytes(v: u32): (s: bytes)
    ensures |s| == 4
  {
    [v % 0x100, v / 0x100 % 0x100, v / 0x1_0000 % 0x100, v / 0x100_0000]
  }

  function LEBytes8(v: u64): (s: bytes)
    ensures |s| == 8
  {
    LEBytes(v % TWO32) + LEBytes(v / TWO32)
  }

  function Column(vs: seq<u64>): (s: bytes)
    ensures |s| == 8 * |vs|
  {
    if vs == [] then [] else LEBytes8(vs[0]) + Column(vs[1..])
  }

  function Starts(banks: seq<Bank>): (s: seq<u64>)
    ensures |s| == |banks|
  {
    seq(|banks|, i requires 0 <= i < |banks| => banks[i].start)
  }

  function Sizes(banks: seq<Bank>): (s: seq<u64>)
    ensures |s| == |banks|
  {
    seq(|banks|, i requires 0 <= i < |banks| => banks[i].size)
  }

  function HashOf(s: bytes): u32 {
    JsHash(s) as int
  }

  /** A DDR tag of 48 words without its last: the number of banks, a word that
      nobody reads, all starts, all sizes, and what else the tag holds. */
  function TagBody(banks: seq<Bank>, spare: bytes, rest: bytes): (s: bytes)
    requires |banks| <= MAX_BANKS && |spare| == 4 && |rest| == 172 - 16 * |banks|
    ensures |s| == 188
  {
    LEBytes(DDR_WORDS) + LEBytes(DDR_MEM) + LEBytes(|banks|) + spare
    + Column(Starts(banks)) + Column(Sizes(banks)) + rest
  }

  /** The tag, closed with the hash of the rest. */
  function DdrTag(banks: seq<Bank>, spare: bytes, rest: bytes): (s: bytes)
    requires |banks| <= MAX_BANKS && |spare| == 4 && |rest| == 172 - 16 * |banks|
    ensures |s| == 4 * DDR_WORDS
  {
    TagBody(banks, spare, rest) + LEBytes(HashOf(TagBody(banks, spare, rest)))
  }

  /** Any other tag: its length in words, its kind, its contents. */
  datatype Other = Other(kind: u32, contents: bytes)

  predicate WellFormed(t: Other) {
    t.kind != DDR_MEM && |t.contents| % 4 == 0 && 8 + |t.contents| < 4 * TWO32
  }

  function OtherTag(t: Other): (s: bytes)
    requires WellFormed(t)
    ensures |s| == 8 + |t.contents|
  {
    LEBytes(2 + |t.contents| / 4) + LEBytes(t.kind) + t.contents
  }

  function Others(tags: seq<Other>): bytes
    requires forall t :: t in tags ==> WellFormed(t)
  {
    if tags == [] then [] else OtherTag(tags[0]) + Others(tags[1..])
  }

  /** Banks that a tag may hold: one to ten, page-aligned, in order, neither they
      nor their sum beyond 64 bits. */
  predicate Legal(banks: seq<Bank>) {
    && 1 <= |banks| <= MAX_BANKS && Ordered(banks) && Sum(banks) < TWO64
    && forall b :: b in banks ==> Dram.Aligned(b)
  }

  /** `data` from `o` on: other tags, then a tag with these banks. */
  ghost predicate Written(data: bytes, o: nat, banks: seq<Bank>, tags: seq<Other>, spare: bytes, rest: bytes,
                          tail: bytes)
  {
    && (forall t :: t in tags ==> WellFormed(t))
    && |banks| <= MAX_BANKS && |spare| == 4 && |rest| == 172 - 16 * |banks|
    && o <= |data| && data[o..] == Others(tags) + DdrTag(banks, spare, rest) + tail
    && HashOf(TagBody(banks, spare, rest)) != 0
  }

  // ----- little-endian words

  lemma LERoundTrip(v: u32)
    ensures LE32(LEBytes(v), 0) == v
  {
    assert v / 0x100 == v / 0x1_0000 * 0x100 + v / 0x100 % 0x100;
    assert v / 0x1_0000 == v / 0x100_0000 * 0x100 + v / 0x1_0000 % 0x100;
  }

  lemma LEOf(s: bytes, i: nat, v: u32)
    requires i + 4 <= |s| && s[i..i + 4] == LEBytes(v)
    ensures LE32(s, i) == v
  {
    LERoundTrip(v);
    var w := s[i..i + 4];
    assert w[0] == s[i] && w[1] == s[i + 1] && w[2] == s[i + 2] && w[3] == s[i + 3];
  }

  lemma LEBack(s: bytes, i: nat)
    requires i + 4 <= |s|
    ensures s[i..i + 4] == LEBytes(LE32(s, i))
  {
    var v := LE32(s, i);
    assert v / 0x100 == s[i + 1] as int + s[i + 2] as int * 0x100 + s[i + 3] as int * 0x1_0000;
    assert v / 0x1_0000 == s[i + 2] as int + s[i + 3] as int * 0x100;
    assert v / 0x100_0000 == s[i + 3];
    assert s[i..i + 4] == [s[i], s[i + 1], s[i + 2], s[i + 3]];
  }

  lemma LE8Of(s: bytes, i: nat, v: u64)
    requires i + 8 <= |s| && s[i..i + 8] == LEBytes8(v)
    ensures LE64(s, i) == v
  {
    hide LE32, LEBytes;
    var lo, hi := LEBytes(v % TWO32), LEBytes(v / TWO32);
    assert (lo + hi)[0..4] == lo && (lo + hi)[4..8] == hi;
    SliceSlice(s, i, i + 8, 0, 4);
    SliceSlice(s, i, i + 8, 4, 8);
    LEOf(s, i, v % TWO32);
    LEOf(s, i + 4, v / TWO32);
  }

  lemma LE8Back(s: bytes, i: nat)
    requires i + 8 <= |s|
    ensures s[i..i + 8] == LEBytes8(LE64(s, i))
  {
    hide LE32, LEBytes;
    LEBack(s, i);
    LEBack(s, i + 4);
    SliceJoin(s, i, i + 4, i + 8);
    Halves(LE32(s, i), LE32(s, i + 4));
  }

  lemma Halves(lo: u32, hi: u32)
    ensures (lo + hi * TWO32) % TWO32 == lo && (lo + hi * TWO32) / TWO32 == hi
  {}

  lemma {:induction false} ColumnAt(s: bytes, o: nat, vs: seq<u64>, i: nat)
    requires o + 8 * |vs| <= |s| && s[o..o + 8 * |vs|] == Column(vs) && i < |vs|
    ensures LE64(s, o + 8 * i) == vs[i]
    decreases i
  {
    hide LE64, LEBytes8;
    var n := 8 * |vs|;
    var h, t := LEBytes8(vs[0]), Column(vs[1..]);
    assert (h + t)[0..8] == h && (h + t)[8..n] == t;
    SliceSlice(s, o, o + n, 0, 8);
    SliceSlice(s, o, o + n, 8, n);
    if i == 0 {
      LE8Of(s, o, vs[0]);
    } else {
      ColumnAt(s, o + 8, vs[1..], i - 1);
    }
  }

  lemma {:induction false} ColumnBack(s: bytes, o: nat, vs: seq<u64>)
    requires o + 8 * |vs| <= |s| && forall i :: 0 <= i < |vs| ==> LE64(s, o + 8 * i) == vs[i]
    ensures s[o..o + 8 * |vs|] == Column(vs)
    decreases |vs|
  {
    hide LE64, LEBytes8;
    if vs != [] {
      var ws := vs[1..];
      assert LE64(s, o + 8 * 0) == vs[0];
      LE8Back(s, o);
      forall i | 0 <= i < |ws| ensures LE64(s, o + 8 + 8 * i) == ws[i] {
        assert LE64(s, o + 8 * (i + 1)) == vs[i + 1];
      }
      ColumnBack(s, o + 8, ws);
      SliceJoin(s, o, o + 8, o + 8 * |vs|);
    }
  }

  // ----- one tag

  lemma TagWords(tag: bytes, banks: seq<Bank>, spare: bytes, rest: bytes)
    requires |banks| <= MAX_BANKS && |spare| == 4 && |rest| == 172 - 16 * |banks| && tag == DdrTag(banks, spare, rest)
    ensures LE32(tag, 0) == DDR_WORDS && LE32(tag, 4) == DDR_MEM && LE32(tag, 8) == |banks|
    ensures tag[..188] == TagBody(banks, spare, rest) && LE32(tag, 188) == HashOf(TagBody(banks, spare, rest))
    ensures var n := 8 * |banks|;
            tag[16..16 + n] == Column(Starts(banks)) && tag[16 + n..16 + 2 * n] == Column(Sizes(banks))
  {
    hide LE32, LEBytes, HashOf, Column, Starts, Sizes, TagBody, LE64;
    var body, n := TagBody(banks, spare, rest), 8 * |banks|;
    BodyParts(banks, spare, rest);
    var h := HashOf(body);
    Ends(body, LEBytes(h));
    LEOf(tag, 188, h);
    SliceSlice(tag, 0, 188, 0, 4);
    SliceSlice(tag, 0, 188, 4, 8);
    SliceSlice(tag, 0, 188, 8, 12);
    SliceSlice(tag, 0, 188, 16, 16 + n);
    SliceSlice(tag, 0, 188, 16 + n, 16 + 2 * n);
    LEOf(tag, 0, DDR_WORDS);
    LEOf(tag, 4, DDR_MEM);
    LEOf(tag, 8, |banks|);
  }

  lemma Ends(a: bytes, b: bytes)
    ensures (a + b)[..|a|] == (a + b)[0..|a|] == a && (a + b)[|a|..|a| + |b|] == b
  {}

  lemma BodyParts(banks: seq<Bank>, spare: bytes, rest: bytes)
    requires |banks| <= MAX_BANKS && |spare| == 4 && |rest| == 172 - 16 * |banks|
    ensures var b, n := TagBody(banks, spare, rest), 8 * |banks|;
            && b[0..4] == LEBytes(DDR_WORDS) && b[4..8] == LEBytes(DDR_MEM) && b[8..12] == LEBytes(|banks|)
            && b[16..16 + n] == Column(Starts(banks)) && b[16 + n..16 + 2 * n] == Column(Sizes(banks))
  {
    hide LEBytes, Column, Starts, Sizes;
    var w, x, y := LEBytes(DDR_WORDS), LEBytes(DDR_MEM), LEBytes(|banks|);
    var c, d := Column(Starts(banks)), Column(Sizes(banks));
    var b := TagBody(banks, spare, rest);
    Pieces(w, x, y, spare, c, d, rest);
  }

  lemma Pieces(w: bytes, x: bytes, y: bytes, z: bytes, c: bytes, d: bytes, e: bytes)
    requires |w| == |x| == |y| == |z| == 4 && |c| == |d|
    ensures var b, n := w + x + y + z + c + d + e, |c|;
            && b[0..4] == w && b[4..8] == x && b[8..12] == y && b[12..16] == z
            && b[16..16 + n] == c && b[16 + n..16 + 2 * n] == d && b[16 + 2 * n..] == e
  {}

  /** The loop over the banks of such a tag. */
  lemma {:induction false} BanksGiven(tag: bytes, banks: seq<Bank>, k: nat)
    requires |tag| == 4 * DDR_WORDS && Legal(banks) && k <= |banks|
    requires forall i :: 0 <= i < |banks| ==> BankAt(tag, |banks|, i) == banks[i]
    ensures Sum(banks[..k]) <= Sum(banks)
    ensures BanksFrom(tag, |banks|, banks[..k], Sum(banks[..k])) == Parsed(banks, Sum(banks))
    decreases |banks| - k
  {
    hide LE64, Sum, Ordered;
    var n := |banks|;
    if k == n {
      assert banks[..k] == banks;
    } else {
      BanksGiven(tag, banks, k + 1);
      var front := banks[..k];
      assert banks[..k + 1] == front + [banks[k]] && banks[..k + 1][..k] == front;
      SumAppend(front, banks[k]);
      assert BankAt(tag, n, k) == banks[k];
      NextFits(banks, k);
    }
  }

  function BankAt(tag: bytes, count: nat, i: nat): Bank
    requires |tag| == 4 * DDR_WORDS && i < count <= MAX_BANKS
  {
    Bank(LE64(tag, 16 + i * 8), LE64(tag, 16 + (count + i) * 8))
  }

  lemma NextFits(banks: seq<Bank>, k: nat)
    requires Legal(banks) && k < |banks| && Sum(banks[..k]) + banks[k].size < TWO64
    ensures Fits(banks[..k], Sum(banks[..k]), banks[k].start, banks[k].size)
    ensures Plus(Sum(banks[..k]), banks[k].size) == Sum(banks[..k]) + banks[k].size
  {
    hide Sum;
    assert banks[k] in banks;
    if k > 0 { assert banks[..k][k - 1] == banks[k - 1]; }
  }

  lemma {:induction false} BanksRead(tag: bytes, count: nat, banks: seq<Bank>, total: u64)
    requires |tag| == 4 * DDR_WORDS && |banks| <= count <= MAX_BANKS && BanksFrom(tag, count, banks, total).Parsed?
    requires forall i :: 0 <= i < |banks| ==> BankAt(tag, count, i) == banks[i]
    ensures var r := BanksFrom(tag, count, banks, total).banks;
            |r| == count && forall i :: 0 <= i < count ==> BankAt(tag, count, i) == r[i]
    decreases count - |banks|
  {
    hide LE64, Fits;
    if |banks| < count {
      var i := |banks|;
      var b := BankAt(tag, count, i);
      BanksRead(tag, count, banks + [b], Plus(total, b.size));
    }
  }

  lemma GivenBanks(tag: bytes, banks: seq<Bank>, spare: bytes, rest: bytes)
    requires |banks| <= MAX_BANKS && |spare| == 4 && |rest| == 172 - 16 * |banks| && tag == DdrTag(banks, spare, rest)
    ensures forall i :: 0 <= i < |banks| ==> BankAt(tag, |banks|, i) == banks[i]
  {
    hide LE64, LE32, DdrTag, Column;
    TagWords(tag, banks, spare, rest);
    var n := |banks|;
    forall i | 0 <= i < n ensures BankAt(tag, n, i) == banks[i] {
      ColumnAt(tag, 16, Starts(banks), i);
      ColumnAt(tag, 16 + 8 * n, Sizes(banks), i);
    }
  }

  /** A tag that the boot code wrote is read back. */
  lemma TagParses(tag: bytes, banks: seq<Bank>, spare: bytes, rest: bytes)
    requires Legal(banks) && |spare| == 4 && |rest| == 172 - 16 * |banks| && tag == DdrTag(banks, spare, rest)
    requires HashOf(TagBody(banks, spare, rest)) != 0
    ensures ParseTag(tag) == Parsed(banks, Sum(banks))
  {
    hide LE32, LE64, JsHash, BanksFrom, TagBody, DdrTag, Sum, Ordered;
    TagWords(tag, banks, spare, rest);
    GivenBanks(tag, banks, spare, rest);
    BanksGiven(tag, banks, 0);
    NoSum();
    assert banks[..0] == [];
  }

  lemma NoSum()
    ensures Sum([]) == 0 && Ordered([])
  {}

  /** Whatever is accepted as a tag is one that the boot code could have written. */
  lemma TagWritten(tag: bytes) returns (spare: bytes, rest: bytes)
    requires |tag| == 4 * DDR_WORDS && LE32(tag, 0) == DDR_WORDS && LE32(tag, 4) == DDR_MEM && ParseTag(tag).Parsed?
    ensures var banks := ParseTag(tag).banks;
            && Legal(banks) && ParseTag(tag).total == Sum(banks) && |spare| == 4 && |rest| == 172 - 16 * |banks|
            && tag == DdrTag(banks, spare, rest) && HashOf(TagBody(banks, spare, rest)) != 0
  {
    hide LE32, LE64, JsHash, BanksFrom, TagBody, LEBytes, Column, Starts, Sizes, Sum, Ordered;
    var count := LE32(tag, 8);
    NoSum();
    BanksSane(tag, count, [], 0);
    BanksRead(tag, count, [], 0);
    var banks := ParseTag(tag).banks;
    spare, rest := tag[12..16], tag[16 + 16 * count..188];
    BodyWritten(tag, banks);
    SliceJoin(tag, 0, 188, 192);
    LEBack(tag, 188);
    assert tag[..188] == tag[0..188];
  }

  lemma BodyWritten(tag: bytes, banks: seq<Bank>)
    requires |tag| == 4 * DDR_WORDS && LE32(tag, 0) == DDR_WORDS && LE32(tag, 4) == DDR_MEM && LE32(tag, 8) == |banks|
    requires |banks| <= MAX_BANKS && forall i :: 0 <= i < |banks| ==> BankAt(tag, |banks|, i) == banks[i]
    ensures tag[0..188] == TagBody(banks, tag[12..16], tag[16 + 16 * |banks|..188])
  {
    hide LE32, LE64, LEBytes, Column;
    var n := |banks|;
    LEBack(tag, 0);
    LEBack(tag, 4);
    LEBack(tag, 8);
    forall i | 0 <= i < n
      ensures LE64(tag, 16 + 8 * i) == Starts(banks)[i] && LE64(tag, 16 + 8 * n + 8 * i) == Sizes(banks)[i]
    {
      assert BankAt(tag, n, i) == banks[i];
    }
    ColumnBack(tag, 16, Starts(banks));
    ColumnBack(tag, 16 + 8 * n, Sizes(banks));
    SliceJoin(tag, 0, 4, 8);
    SliceJoin(tag, 0, 8, 12);
    SliceJoin(tag, 0, 12, 16);
    SliceJoin(tag, 0, 16, 16 + 8 * n);
    SliceJoin(tag, 0, 16 + 8 * n, 16 + 16 * n);
    SliceJoin(tag, 0, 16 + 16 * n, 188);
  }

  // ----- the whole list

  /** For every list of one to ten legal banks, behind any other tags and
      whatever follows, parsing gives back exactly those banks and their sum. */
  lemma {:induction false} ParsesWritten(data: bytes, o: nat, banks: seq<Bank>, tags: seq<Other>, spare: bytes,
                                         rest: bytes, tail: bytes)
    requires Written(data, o, banks, tags, spare, rest, tail) && Legal(banks)
    ensures ParseFrom(data, o) == Parsed(banks, Sum(banks))
    decreases |tags|
  {
    hide LE32, JsHash, BanksFrom, TagBody, DdrTag, ParseTag, Sum, Ordered, LEBytes;
    var tag := DdrTag(banks, spare, rest);
    if tags == [] {
      assert Others(tags) + tag + tail == tag + tail;
      Peel(data, o, tag, tail);
      TagWords(tag, banks, spare, rest);
      TagParses(tag, banks, spare, rest);
      LEIn(data, o, tag, 0);
      LEIn(data, o, tag, 4);
    } else {
      var t, more := OtherTag(tags[0]), Others(tags[1..]);
      assert t + more + tag + tail == t + (more + tag + tail) by { Assoc4(t, more, tag, tail); }
      Peel(data, o, t, more + tag + tail);
      OtherWords(tags[0]);
      LEIn(data, o, t, 0);
      LEIn(data, o, t, 4);
      ParsesWritten(data, o + |t|, banks, tags[1..], spare, rest, tail);
    }
  }

  lemma LEIn(s: bytes, o: nat, t: bytes, k: nat)
    requires o + |t| <= |s| && s[o..o + |t|] == t && k + 4 <= |t|
    ensures LE32(s, o + k) == LE32(t, k)
  {
    hide LEBytes;
    LEBack(t, k);
    SliceSlice(s, o, o + |t|, k, k + 4);
    LEOf(s, o + k, LE32(t, k));
  }

  lemma OtherWords(t: Other)
    requires WellFormed(t)
    ensures LE32(OtherTag(t), 0) == 2 + |t.contents| / 4 && LE32(OtherTag(t), 4) == t.kind
    ensures 4 * LE32(OtherTag(t), 0) == |OtherTag(t)|
  {
    hide LE32, LEBytes;
    var s := OtherTag(t);
    assert s[0..4] == LEBytes(2 + |t.contents| / 4) && s[4..8] == LEBytes(t.kind);
    LEOf(s, 0, 2 + |t.contents| / 4);
    LEOf(s, 4, t.kind);
  }

  /** And only such lists are accepted. */
  lemma {:induction false} AcceptedWritten(data: bytes, o: nat)
    returns (tags: seq<Other>, spare: bytes, rest: bytes, tail: bytes)
    requires o <= |data| && ParseFrom(data, o).Parsed?
    ensures var p := ParseFrom(data, o);
            Legal(p.banks) && p.total == Sum(p.banks) && Written(data, o, p.banks, tags, spare, rest, tail)
    decreases |data| - o
  {
    hide LE32, JsHash, BanksFrom, TagBody, DdrTag, ParseTag, Sum, Ordered, LEBytes;
    var words: nat := LE32(data, o);
    var e := o + 4 * words;
    SliceJoin(data, o, e, |data|);
    if LE32(data, o + 4) == DDR_MEM {
      var tag := data[o..e];
      LEIn(data, o, tag, 0);
      LEIn(data, o, tag, 4);
      spare, rest := TagWritten(tag);
      tags, tail := [], data[e..];
      assert [] + tag + tail == data[o..];
    } else {
      tags, spare, rest, tail := AcceptedWritten(data, e);
      var t := Other(LE32(data, o + 4), data[o + 8..e]);
      LEBack(data, o);
      LEBack(data, o + 4);
      SliceJoin(data, o, o + 4, o + 8);
      SliceJoin(data, o, o + 8, e);
      assert OtherTag(t) == data[o..e];
      var banks := ParseFrom(data, e).banks;
      Assoc4(OtherTag(t), Others(tags), DdrTag(banks, spare, rest), tail);
      assert ([t] + tags)[1..] == tags;
      tags := [t] + tags;
    }
  }
}
