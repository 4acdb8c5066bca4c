/** Bytes, fixed-width words and the pure sequence operations the rest of the
    project is specified with. */
module Bytes {
  type byte = x: int | 0 <= x < 0x100
  type u32 = x: int | 0 <= x < 0x1_0000_0000
  type u64 = x: int | 0 <= x < 0x1_0000_0000_0000_0000
  type bytes = seq<byte>

  const INT_MAX: int := 0x7fff_ffff
  const TWO32: int := 0x1_0000_0000
  const TWO64: int := 0x1_0000_0000_0000_0000

  /** The big-endian 32-bit word of `s` at `i`. */
  function U32(s: bytes, i: nat): u32
    requires i + 4 <= |s|
  {
    s[i] as int * 0x100_0000 + s[i + 1] as int * 0x1_0000 + s[i + 2] as int * 0x100 + s[i + 3]
  }

  function BE32(v: u32): (s: bytes)
    ensures |s| == 4
  {
    [v / 0x100_0000, v / 0x1_0000 % 0x100, v / 0x100 % 0x100, v % 0x100]
  }

  function BE64(v: u64): (s: bytes)
    ensures |s| == 8
  {
    BE32(v / TWO32) + BE32(v % TWO32)
  }

  lemma BE32RoundTrip(v: u32)
    ensures U32(BE32(v), 0) == v
  {
    assert v / 0x1_0000 == v / 0x100_0000 * 0x100 + v / 0x1_0000 % 0x100;
    assert v / 0x100 == v / 0x1_0000 * 0x100 + v / 0x100 % 0x100;
  }

  lemma U32RoundTrip(s: bytes, i: nat)
    requires i + 4 <= |s|
    ensures BE32(U32(s, i)) == s[i..i + 4]
  {
    var v := U32(s, i);
    assert v / 0x100_0000 == s[i];
    assert v / 0x1_0000 == s[i] as int * 0x100 + s[i + 1];
    assert v / 0x100 == (s[i] as int * 0x100 + s[i + 1] as int) * 0x100 + s[i + 2];
    assert v % 0x100 == s[i + 3];
    assert BE32(v) == [s[i], s[i + 1], s[i + 2], s[i + 3]];
  }

  /** Reading a word that was laid down as `BE32(v)` gives it back. */
  lemma U32Of(s: bytes, i: nat, v: u32)
    requires i + 4 <= |s| && s[i..i + 4] == BE32(v)
    ensures U32(s, i) == v
  {
    BE32RoundTrip(v);
    var w := s[i..i + 4];
    assert w[0] == s[i] && w[1] == s[i + 1] && w[2] == s[i + 2] && w[3] == s[i + 3];
  }

  function Zeros(n: nat): (z: bytes)
    ensures |z| == n
  {
    seq(n, _ => 0)
  }

  function Pow2(n: nat): (p: nat)
    ensures p > 0
  {
    if n == 0 then 1 else 2 * Pow2(n - 1)
  }

  /** Round up to a multiple of four: the tag alignment of the format. */
  function Align4(n: int): int {
    (n + 3) / 4 * 4
  }

  /** How many padding bytes bring a field of `n` bytes to the tag alignment. */
  function PadLen(n: int): nat {
    (-n) % 4
  }

  predicate Aligned(n: int) {
    n % 4 == 0
  }

  lemma AlignIsPad(n: int)
    ensures Align4(n) == n + PadLen(n) && PadLen(n) < 4 && Aligned(Align4(n))
  {}

  lemma AlignedSum(a: int, b: int)
    requires Aligned(a) && Aligned(b)
    ensures Aligned(a + b)
  {}

  lemma AlignFrom(x: int, n: nat)
    requires Aligned(x)
    ensures Align4(x + n) == x + n + PadLen(n)
    ensures n == 4 ==> PadLen(n) == 0
  {}

  lemma Assoc(a: bytes, b: bytes, c: bytes)
    ensures a + b + c == a + (b + c)
  {}

  lemma Assoc4(a: bytes, b: bytes, c: bytes, d: bytes)
    ensures a + b + c + d == a + (b + c) + d == a + b + (c + d) == a + (b + c + d)
  {
    Assoc(a, b, c);
    Assoc(a + b, c, d);
    Assoc(a, b + c, d);
  }

  /** Peel a known piece off what follows an offset. */
  lemma Peel(s: bytes, o: nat, x: bytes, rest: bytes)
    requires o <= |s| && s[o..] == x + rest
    ensures o + |x| <= |s| && s[o..o + |x|] == x && s[o + |x|..] == rest
  {
    assert |s| - o == |x| + |rest|;
    assert s[o..o + |x|] == s[o..][..|x|];
    assert s[o + |x|..] == s[o..][|x|..];
  }

  lemma PeelU32(s: bytes, o: nat, v: u32, rest: bytes)
    requires o <= |s| && s[o..] == BE32(v) + rest
    ensures o + 4 <= |s| && U32(s, o) == v && s[o + 4..] == rest
  {
    hide U32, BE32;
    Peel(s, o, BE32(v), rest);
    U32Of(s, o, v);
  }

  /** `m` with the bytes from `at` on replaced by `s`. */
  function Overwrite(m: bytes, at: nat, s: bytes): (r: bytes)
    requires at + |s| <= |m|
    ensures |r| == |m|
  {
    m[..at] + s + m[at + |s|..]
  }

  /** Reading a range that a write did not touch, or lies inside what it wrote. */
  lemma OverwriteSlice(m: bytes, at: nat, s: bytes, lo: nat, hi: nat)
    requires at + |s| <= |m| && lo <= hi <= |m|
    ensures hi <= at || at + |s| <= lo ==> Overwrite(m, at, s)[lo..hi] == m[lo..hi]
    ensures at <= lo && hi <= at + |s| ==> Overwrite(m, at, s)[lo..hi] == s[lo - at..hi - at]
    ensures lo <= at && at + |s| <= hi ==> Overwrite(m, at, s)[lo..hi] == Overwrite(m[lo..hi], at - lo, s)
  {
    hide Overwrite;
    if hi <= at || at + |s| <= lo {
      OverwriteOutside(m, at, s, lo, hi);
    }
    if at <= lo && hi <= at + |s| {
      OverwriteInside(m, at, s, lo, hi);
    }
    if lo <= at && at + |s| <= hi {
      OverwriteAround(m, at, s, lo, hi);
    }
  }

  lemma OverwriteParts(m: bytes, at: nat, s: bytes)
    requires at + |s| <= |m|
    ensures var r := Overwrite(m, at, s);
            r[0..at] == m[0..at] && r[at..at + |s|] == s && r[at + |s|..|m|] == m[at + |s|..|m|]
  {}

  lemma OverwriteOutside(m: bytes, at: nat, s: bytes, lo: nat, hi: nat)
    requires at + |s| <= |m| && lo <= hi <= |m| && (hi <= at || at + |s| <= lo)
    ensures Overwrite(m, at, s)[lo..hi] == m[lo..hi]
  {
    hide Overwrite;
    OverwriteParts(m, at, s);
    var r, e := Overwrite(m, at, s), at + |s|;
    if hi <= at {
      SliceSlice(m, 0, at, lo, hi);
      SliceSlice(r, 0, at, lo, hi);
    } else {
      SliceSlice(m, e, |m|, lo - e, hi - e);
      SliceSlice(r, e, |m|, lo - e, hi - e);
    }
  }

  lemma OverwriteInside(m: bytes, at: nat, s: bytes, lo: nat, hi: nat)
    requires at + |s| <= |m| && at <= lo <= hi <= at + |s|
    ensures Overwrite(m, at, s)[lo..hi] == s[lo - at..hi - at]
  {
    hide Overwrite;
    OverwriteParts(m, at, s);
    SliceSlice(Overwrite(m, at, s), at, at + |s|, lo - at, hi - at);
  }

  lemma OverwriteAround(m: bytes, at: nat, s: bytes, lo: nat, hi: nat)
    requires at + |s| <= |m| && lo <= at && at + |s| <= hi <= |m|
    ensures Overwrite(m, at, s)[lo..hi] == Overwrite(m[lo..hi], at - lo, s)
  {
    var r, e := Overwrite(m, at, s), at + |s|;
    OverwriteParts(m, at, s);
    OverwriteOutside(m, at, s, lo, at);
    OverwriteOutside(m, at, s, e, hi);
    SliceJoin(r, lo, at, e);
    SliceJoin(r, lo, e, hi);
    SliceSlice(m, lo, hi, 0, at - lo);
    SliceSlice(m, lo, hi, e - lo, hi - lo);
    hide *;
    OverwriteIs3(m[lo..hi], at - lo, s, m[lo..at], m[e..hi]);
  }

  lemma OverwriteIs3(m: bytes, at: nat, s: bytes, a: bytes, z: bytes)
    requires at + |s| <= |m| && m[0..at] == a && m[at + |s|..|m|] == z
    ensures Overwrite(m, at, s) == a + s + z
  {
    assert m[..at] == m[0..at] && m[at + |s|..] == m[at + |s|..|m|];
  }

  /** The same for bytes moved from `src` to `dst`. */
  lemma MovedSlice(m: bytes, dst: nat, src: nat, len: nat, lo: nat, hi: nat)
    requires dst + len <= |m| && src + len <= |m| && dst <= lo <= hi <= dst + len
    ensures Overwrite(m, dst, m[src..src + len])[lo..hi] == m[src + lo - dst..src + hi - dst]
  {
    OverwriteSlice(m, dst, m[src..src + len], lo, hi);
    SliceSlice(m, src, src + len, lo - dst, hi - dst);
  }

  lemma SliceJoin(m: bytes, lo: nat, mid: nat, hi: nat)
    requires lo <= mid <= hi <= |m|
    ensures m[lo..hi] == m[lo..mid] + m[mid..hi]
  {}

  lemma SliceSlice(m: bytes, lo: nat, hi: nat, i: nat, j: nat)
    requires lo <= hi <= |m| && i <= j <= hi - lo
    ensures m[lo..hi][i..j] == m[lo + i..lo + j]
  {
    var a, b := m[lo..hi][i..j], m[lo + i..lo + j];
    assert |a| == |b| && forall k :: 0 <= k < |a| ==> a[k] == b[k];
  }

  /** Overwriting exactly the middle of three pieces. */
  lemma OverwriteMiddle(a: bytes, m: bytes, z: bytes, t: bytes)
    requires |t| == |m|
    ensures Overwrite(a + m + z, |a|, t) == a + t + z
  {
    var s := a + m + z;
    assert s[..|a|] == a && s[|a| + |t|..] == z;
  }

  lemma WordSame(a: bytes, b: bytes, i: nat, j: nat)
    requires i + 4 <= |a| && j + 4 <= |b| && a[i..i + 4] == b[j..j + 4]
    ensures U32(a, i) == U32(b, j)
  {
    var v, w := a[i..i + 4], b[j..j + 4];
    assert v[0] == a[i] && v[1] == a[i + 1] && v[2] == a[i + 2] && v[3] == a[i + 3];
    assert w[0] == b[j] && w[1] == b[j + 1] && w[2] == b[j + 2] && w[3] == b[j + 3];
  }

  /** Words laid down one after the other. */
  function Words(ws: seq<u32>): (s: bytes)
    ensures |s| == 4 * |ws|
  {
    if ws == [] then [] else BE32(ws[0]) + Words(ws[1..])
  }

  lemma {:induction false} WordsAt(ws: seq<u32>, k: nat)
    requires k < |ws|
    ensures U32(Words(ws), 4 * k) == ws[k]
  {
    hide U32, BE32;
    var s, e := BE32(ws[0]), Words(ws[1..]);
    if k == 0 {
      assert (s + e)[0..4] == s;
      U32Of(s + e, 0, ws[0]);
    } else {
      WordsAt(ws[1..], k - 1);
      assert (s + e)[4 * k..4 * k + 4] == e[4 * (k - 1)..4 * (k - 1) + 4];
      WordSame(s + e, e, 4 * k, 4 * (k - 1));
    }
  }

  lemma {:induction false} WordsAppend(v: seq<u32>, w: seq<u32>)
    ensures Words(v + w) == Words(v) + Words(w)
  {
    hide BE32;
    if v == [] {
      assert v + w == w;
    } else {
      assert (v + w)[1..] == v[1..] + w;
      WordsAppend(v[1..], w);
      Assoc(BE32(v[0]), Words(v[1..]), Words(w));
    }
  }
}
