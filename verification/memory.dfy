/** src/chainload/compat.c: copying inside one memory, overlapping or not, and
    the bookkeeping of writes that stay inside a window of it. */
module Memory {
  import opened Bytes

  /** memmove: forwards when the destination is below the source, backwards
      when it is above, so that an overlap never costs a byte. */
  method MemMove(mem: array<byte>, dst: nat, src: nat, len: nat)
    requires dst + len <= mem.Length && src + len <= mem.Length
    modifies mem
    ensures mem[..] == Overwrite(old(mem[..]), dst, old(mem[src..src + len]))
  {
    ghost var m, s := mem[..], mem[src..src + len];
    if dst < src {
      for i := 0 to len
        invariant forall k :: 0 <= k < mem.Length ==> mem[k] == if dst <= k < dst + i then s[k - dst] else m[k]
      {
        assert mem[src + i] == m[src + i] == s[i];
        mem[dst + i] := mem[src + i];
      }
    } else if dst > src {
      for i := len downto 0
        invariant forall k :: 0 <= k < mem.Length ==> mem[k] == if dst + i <= k < dst + len then s[k - dst] else m[k]
      {
        assert mem[src + i] == m[src + i] == s[i];
        mem[dst + i] := mem[src + i];
      }
    }
    OverwriteIs(m, mem[..], dst, s);
  }

  /** memcpy from a value. */
  method Store(mem: array<byte>, at: nat, s: bytes)
    requires at + |s| <= mem.Length
    modifies mem
    ensures mem[..] == Overwrite(old(mem[..]), at, s)
  {
    ghost var m := mem[..];
    for i := 0 to |s|
      invariant forall k :: 0 <= k < mem.Length ==> mem[k] == if at <= k < at + i then s[k - at] else m[k]
    {
      mem[at + i] := s[i];
    }
    OverwriteIs(m, mem[..], at, s);
  }

  lemma OverwriteIs(m: bytes, r: bytes, at: nat, s: bytes)
    requires |m| == |r| && at + |s| <= |m|
    requires forall k :: 0 <= k < |m| ==> r[k] == if at <= k < at + |s| then s[k - at] else m[k]
    ensures r == Overwrite(m, at, s)
  {}

  /** `m` is `m0` with the window at `lo` holding `w` instead: a statement
      about what was written and about everything that was not. */
  ghost predicate Window(m: bytes, m0: bytes, lo: nat, w: bytes) {
    lo + |w| <= |m0| && m == Overwrite(m0, lo, w)
  }

  lemma WindowStart(m: bytes, lo: nat, n: nat)
    requires lo + n <= |m|
    ensures Window(m, m, lo, m[lo..lo + n])
  {}

  lemma WindowRead(m: bytes, m0: bytes, lo: nat, w: bytes)
    requires Window(m, m0, lo, w)
    ensures |m| == |m0| && m[lo..lo + |w|] == w && m[..lo] == m0[..lo] && m[lo + |w|..] == m0[lo + |w|..]
  {}

  lemma WindowSlice(m: bytes, m0: bytes, lo: nat, w: bytes, i: nat, j: nat)
    requires Window(m, m0, lo, w) && i <= j <= |w|
    ensures lo + j <= |m| && m[lo + i..lo + j] == w[i..j]
  {
    WindowRead(m, m0, lo, w);
    assert m[lo + i..lo + j] == m[lo..lo + |w|][i..j];
  }

  /** A write inside the window changes the window only. */
  lemma WindowWrite(m: bytes, m0: bytes, lo: nat, w: bytes, at: nat, s: bytes)
    requires Window(m, m0, lo, w) && at + |s| <= |w|
    ensures lo + at + |s| <= |m|
    ensures Window(Overwrite(m, lo + at, s), m0, lo, Overwrite(w, at, s))
  {
    var x, y := Overwrite(m, lo + at, s), Overwrite(m0, lo, Overwrite(w, at, s));
    assert |x| == |y| && forall i :: 0 <= i < |x| ==> x[i] == y[i];
  }

  /** Windows compose: a window on the same place of the result. */
  lemma WindowTrans(m: bytes, m1: bytes, m0: bytes, lo: nat, v: bytes, w: bytes)
    requires Window(m1, m0, lo, v) && Window(m, m1, lo, w) && |v| == |w|
    ensures Window(m, m0, lo, w)
  {
    var y := Overwrite(m0, lo, w);
    assert |m| == |y| && forall i :: 0 <= i < |m| ==> m[i] == y[i];
  }

  /** memcpy from a value into the window at `lo`. */
  method StoreIn(mem: array<byte>, lo: nat, at: nat, s: bytes, ghost m0: bytes, ghost w: bytes)
    requires Window(mem[..], m0, lo, w) && at + |s| <= |w|
    modifies mem
    ensures Window(mem[..], m0, lo, Overwrite(w, at, s))
  {
    WindowWrite(mem[..], m0, lo, w, at, s);
    Store(mem, lo + at, s);
  }

  /** memmove inside the window at `lo`. */
  method MoveIn(mem: array<byte>, lo: nat, dst: nat, src: nat, len: nat, ghost m0: bytes, ghost w: bytes)
    requires Window(mem[..], m0, lo, w) && dst + len <= |w| && src + len <= |w|
    modifies mem
    ensures Window(mem[..], m0, lo, Overwrite(w, dst, w[src..src + len]))
  {
    hide Window, Overwrite;
    WindowSlice(mem[..], m0, lo, w, src, src + len);
    WindowWrite(mem[..], m0, lo, w, dst, w[src..src + len]);
    assert mem[lo + src..lo + src + len] == mem[..][lo + src..lo + src + len];
    MemMove(mem, lo + dst, lo + src, len);
  }
}
