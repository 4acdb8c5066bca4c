/** external/libfdt/fdt.c and fdt_ro.c: fdt_check_header and fdt_check_full.
    The full check accepts exactly the blocks that encode a tree. */
module FdtCheck {
  import opened Bytes
  import opened FdtFormat
  import opened FdtWalk
  import opened FdtNodes
  import opened FdtRead
  import opened FdtProps

  /** check_off_ and check_block_, the latter with its unsigned sum. */
  predicate CheckOff(hdrsize: u32, total: u32, off: u32) {
    off >= hdrsize && off <= total
  }

  predicate CheckBlock(hdrsize: u32, total: u32, base: u32, size: u32) {
    && CheckOff(hdrsize, total, base)
    && (base + size) % TWO32 >= base
    && CheckOff(hdrsize, total, (base + size) % TWO32)
  }

  lemma CheckBlockIs(hdrsize: u32, total: u32, base: u32, size: u32)
    ensures CheckBlock(hdrsize, total, base, size) <==> hdrsize <= base && base + size <= total
  {
    if base + size < TWO32 {
      assert (base + size) % TWO32 == base + size;
    } else {
      assert (base + size) % TWO32 == base + size - TWO32 < base;
    }
  }

  function HeaderSize(version: u32): nat {
    if version <= 1 then 28 else if version <= 2 then 32 else if version <= 16 then 36 else 40
  }

  /** fdt_check_header for the blob `b` at address `at`. */
  function CheckHeader(b: bytes, at: nat): (r: int)
    requires |b| >= HEADER_SIZE
    ensures r <= 0
    ensures r == 0 ==> Magic(b) == MAGIC && LastComp(b) <= 17 && at % 8 == 0 && TotalSize(b) <= INT_MAX
    ensures r == 0 && Version(b) >= 17 && TotalSize(b) <= |b| && TotalSize(b) != INT_MAX
            ==> BlocksInside(b) && Probe(b, at) == TotalSize(b)
  {
    CheckBlockIs(HeaderSize(Version(b)), TotalSize(b), OffStruct(b), SizeStruct(b));
    CheckBlockIs(HeaderSize(Version(b)), TotalSize(b), OffStrings(b), SizeStrings(b));
    var hdrsize := HeaderSize(Version(b));
    if at % 8 != 0 then ERR_ALIGNMENT
    else if Magic(b) != MAGIC then ERR_BADMAGIC
    else if Version(b) < 2 || LastComp(b) > 17 then ERR_BADVERSION
    else if Version(b) < LastComp(b) then ERR_BADVERSION
    else if TotalSize(b) < hdrsize || TotalSize(b) > INT_MAX then ERR_TRUNCATED
    else if !CheckOff(hdrsize, TotalSize(b), OffRsv(b)) then ERR_TRUNCATED
    else if Version(b) < 17 && !CheckOff(hdrsize, TotalSize(b), OffStruct(b)) then ERR_TRUNCATED
    else if Version(b) >= 17 && !CheckBlock(hdrsize, TotalSize(b), OffStruct(b), SizeStruct(b)) then ERR_TRUNCATED
    else if !CheckBlock(hdrsize, TotalSize(b), OffStrings(b), SizeStrings(b)) then ERR_TRUNCATED
    else 0
  }

  /** fdt_mem_rsv: the `n`-th reserve entry can be read. */
  predicate RsvReadable(b: bytes, n: nat)
    requires InMemory(b)
  {
    var absoffset := (OffRsv(b) + n * 16) % TWO32;
    absoffset >= OffRsv(b) && absoffset <= TotalSize(b) - 16
  }

  /** fdt_num_mem_rsv, from entry `n` on: the first entry of size zero. */
  function RsvCount(b: bytes, n: nat): int
    requires InMemory(b) && OffRsv(b) + n * 16 <= TotalSize(b) + 16
    decreases TotalSize(b) + 16 - n * 16
  {
    var x := OffRsv(b) + n * 16;
    assert x % TWO32 == x;
    if !RsvReadable(b, n) then ERR_TRUNCATED
    else if U32(b, x + 8) == 0 && U32(b, x + 12) == 0 then n
    else RsvCount(b, n + 1)
  }

  // ----- the tag loop of fdt_check_full

  /** The loop from offset `o` with the flat depth counter. */
  function CheckTags(b: bytes, at: nat, o: int, depth: nat, expectEnd: bool): int
    requires InMemory(b)
    decreases |StructOf(b)| - o
  {
    var s := StructOf(b);
    var t := NextTag(s, o);
    if t.next < 0 then t.next
    else if expectEnd && t.tag != END then ERR_BADLAYOUT
    else if t.tag == NOP then CheckTags(b, at, t.next, depth, expectEnd)
    else if t.tag == END then if depth != 0 then ERR_BADSTRUCTURE else 0
    else if t.tag == BEGIN_NODE then
      if depth + 1 > INT_MAX then ERR_BADSTRUCTURE
      else if depth == 0 && NameAt(s, o) != [] then ERR_BADLAYOUT
      else CheckTags(b, at, t.next, depth + 1, expectEnd)
    else if t.tag == END_NODE then
      if depth == 0 then ERR_BADSTRUCTURE
      else CheckTags(b, at, t.next, depth - 1, expectEnd || depth == 1)
    else
      if PropName(b, at, o).Missing? then PropName(b, at, o).error
      else CheckTags(b, at, t.next, depth, expectEnd)
  }

  /** fdt_check_full on the memory `b`. */
  function CheckFull(b: bytes, at: nat): int
    requires |b| >= HEADER_SIZE && Version(b) >= 17 && TotalSize(b) != INT_MAX
  {
    if CheckHeader(b, at) != 0 then CheckHeader(b, at)
    else if |b| < TotalSize(b) then ERR_TRUNCATED
    else if RsvCount(b, 0) < 0 then RsvCount(b, 0)
    else CheckTags(b, at, 0, 0, false)
  }

  method RunCheckFull(b: bytes, at: nat) returns (r: int)
    requires |b| >= HEADER_SIZE && Version(b) >= 17 && TotalSize(b) != INT_MAX
    ensures r == CheckFull(b, at)
  {
    hide NextTag, U32, GetString, NameEnd, Aligned, CheckBlock;
    r := CheckHeader(b, at);
    if r != 0 {
      return;
    }
    if |b| < TotalSize(b) {
      return ERR_TRUNCATED;
    }
    var rsv := CountRsv(b);
    if rsv < 0 {
      return rsv;
    }
    ghost var s := StructOf(b);
    var nextoffset, depth, expectEnd := 0, 0, false;
    while true
      invariant 0 <= nextoffset <= INT_MAX && 0 <= depth && depth * 4 <= nextoffset
      invariant CheckFull(b, at) == CheckTags(b, at, nextoffset, depth, expectEnd)
      decreases |s| - nextoffset
    {
      var offset := nextoffset;
      var tag: u32;
      tag, nextoffset := ReadTag(b, offset);
      if nextoffset < 0 {
        return nextoffset;
      }
      if expectEnd && tag != END {
        return ERR_BADLAYOUT;
      }
      if tag == NOP {
      } else if tag == END {
        return if depth != 0 then ERR_BADSTRUCTURE else 0;
      } else if tag == BEGIN_NODE {
        depth := depth + 1;
        if depth > INT_MAX {
          return ERR_BADSTRUCTURE;
        }
        if depth == 1 {
          var name := NodeName(b, offset);
          if name != [] {
            return ERR_BADLAYOUT;
          }
        }
      } else if tag == END_NODE {
        if depth == 0 {
          return ERR_BADSTRUCTURE;
        }
        depth := depth - 1;
        if depth == 0 {
          expectEnd := true;
        }
      } else {
        PropThere(s, offset);
        StructWord(b, offset + 8);
        var name := GetString(b, at, ToInt(U32(b, OffStruct(b) + offset + 8)));
        if name.Missing? {
          return name.error;
        }
      }
    }
  }

  method CountRsv(b: bytes) returns (n: int)
    requires InMemory(b) && OffRsv(b) <= TotalSize(b)
    ensures n == RsvCount(b, 0)
  {
    hide U32;
    n := 0;
    while true
      invariant 0 <= n && OffRsv(b) + n * 16 <= TotalSize(b) + 16
      invariant RsvCount(b, 0) == RsvCount(b, n)
      decreases TotalSize(b) + 16 - n * 16
    {
      var x := OffRsv(b) + n * 16;
      assert x % TWO32 == x;
      if !RsvReadable(b, n) {
        return ERR_TRUNCATED;
      }
      if U32(b, x + 8) == 0 && U32(b, x + 12) == 0 {
        return;
      }
      n := n + 1;
    }
  }

  // ----- the grammar

  /** Properties and NOPs, then at most one node, nameless and last. */
  predicate TopShape(f: Forest) {
    match f
    case Nil => true
    case Nop(r) => TopShape(r)
    case Prop(_, _, _, r) => TopShape(r)
    case Node(n, _, _, r) => n == [] && r == Nil
  }

  /** Properties and NOPs only. */
  predicate NoNode(f: Forest) {
    match f
    case Nil => true
    case Nop(r) => NoNode(r)
    case Prop(_, _, _, r) => NoNode(r)
    case Node(_, _, _, _) => false
  }

  predicate PropsNamed(b: bytes, at: nat, f: Forest)
    requires InMemory(b)
  {
    match f
    case Nil => true
    case Nop(r) => PropsNamed(b, at, r)
    case Prop(o, _, _, r) => GetString(b, at, ToInt(o)).Found? && PropsNamed(b, at, r)
    case Node(_, _, k, r) => PropsNamed(b, at, k) && PropsNamed(b, at, r)
  }

  /** The recursive description of what the check accepts: the structure block
      starts with the encoding of such a tree and an end tag. */
  ghost predicate Grammatical(b: bytes, at: nat, f: Forest)
    requires InMemory(b)
  {
    && WF(f) && TopShape(f) && PropsNamed(b, at, f)
    && Enc(f) + BE32(END) <= StructOf(b)
  }

  /** A position that the flat loop can be at: nothing follows the open nodes
      yet, and everything so far is acceptable. */
  predicate OpenAt(b: bytes, at: nat, c: Ctx)
    requires InMemory(b)
  {
    match c
    case Top(l) => TopShape(l) && PropsNamed(b, at, l)
    case In(u, n, _, l, a) =>
      a == Nil && PropsNamed(b, at, l) && OpenAt(b, at, u) && (u.Top? ==> n == [] && NoNode(u.before))
  }

  lemma {:induction false} AppendNamed(b: bytes, at: nat, f: Forest, g: Forest)
    requires InMemory(b) && PropsNamed(b, at, f) && PropsNamed(b, at, g)
    ensures PropsNamed(b, at, Append(f, g))
  {
    hide InMemory, GetString;
    if !f.Nil? { AppendNamed(b, at, f.rest, g); }
  }

  lemma {:induction false} AppendShape(f: Forest, g: Forest)
    ensures NoNode(f) && TopShape(g) ==> TopShape(Append(f, g))
    ensures NoNode(f) && NoNode(g) ==> NoNode(Append(f, g))
    ensures NoNode(f) ==> TopShape(f)
  {
    if !f.Nil? { AppendShape(f.rest, g); }
  }

  predicate NodeSeen(c: Ctx) {
    c.Top? && !NoNode(c.before)
  }

  lemma WordBytes(s: bytes, o: nat, t: u32, a: bytes)
    requires o + 4 <= |s| && s[..o] == a && U32(s, o) == t
    ensures s[..o + 4] == a + BE32(t)
  {
    hide U32, BE32;
    U32RoundTrip(s, o);
    assert s[..o + 4] == s[..o] + s[o..o + 4];
  }

  /** A property that the loop passes, as an item of the forest. */
  lemma {:induction false} TakeProp(c: Ctx, s: bytes, o: nat) returns (d: Ctx, g: Forest)
    requires CtxWF(c) && o == Pos(c) && o <= |s| && s[..o] == Before(c) && Aligned(o)
    requires NextTag(s, o).tag == PROP && NextTag(s, o).next <= |s| < INT_MAX
    ensures o + 12 <= |s| && g.Prop? && g == Prop(U32(s, o + 8), PropValue(s, o), g.pad, Nil) && WF(g)
    ensures CtxWF(d) && d == Pass(c, g) && Pos(d) == NextTag(s, o).next && s[..Pos(d)] == Before(d)
  {
    hide U32, BE32, PadLen, Align4, Aligned, Enc, Before, After, Block, Plug, NextTag;
    hide Pass, Pos, CtxWF, Size;
    PropRead(s, o);
    var n, x := U32(s, o + 4), NextTag(s, o).next;
    g := Prop(U32(s, o + 8), s[o + 12..o + 12 + n], s[o + 12 + n..x], Nil);
    d := Pass(c, g);
    PassIs(c, g, Nil);
    PreorderItem(g, 0, 0);
    PreorderItem(Nil, 0, 0);
    PropBytes(s, o, Before(c), n, x);
  }

  lemma PropBytes(s: bytes, o: nat, a: bytes, n: u32, x: nat)
    requires o + 12 + n <= x <= |s| && n <= INT_MAX && s[..o] == a && U32(s, o) == PROP && U32(s, o + 4) == n
    requires x == o + 12 + n + PadLen(n)
    ensures s[..x] == a + Enc(Prop(U32(s, o + 8), s[o + 12..o + 12 + n], s[o + 12 + n..x], Nil))
  {
    hide U32, BE32, PadLen, Enc;
    var k, v, p := U32(s, o + 8), s[o + 12..o + 12 + n], s[o + 12 + n..x];
    WordBytes(s, o, PROP, a);
    WordBytes(s, o + 4, n, a + BE32(PROP));
    WordBytes(s, o + 8, k, a + BE32(PROP) + BE32(n));
    SliceJoin(s, 0, o + 12 + n, x);
    SliceJoin(s, 0, o + 12, o + 12 + n);
    assert s[..o + 12] == s[0..o + 12] && s[..x] == s[0..x];
    PropEnc(a, k, v, p);
  }

  lemma PropRead(s: bytes, o: nat)
    requires Aligned(o) && NextTag(s, o).tag == PROP
    ensures o + 12 <= |s| && U32(s, o) == PROP && o + 12 + U32(s, o + 4) <= |s|
    ensures NextTag(s, o).next == o + 12 + U32(s, o + 4) + PadLen(U32(s, o + 4))
  {
    hide U32, PadLen, Align4, Aligned;
    PadAligned(0);
    AlignedSum(o, 12);
    AlignFrom(o + 12, U32(s, o + 4));
  }

  lemma PropEnc(a: bytes, k: u32, v: bytes, p: bytes)
    requires |v| <= INT_MAX && |p| == PadLen(|v|)
    ensures a + BE32(PROP) + BE32(|v|) + BE32(k) + v + p == a + Enc(Prop(k, v, p, Nil))
  {
    hide BE32, PadLen;
    var t, l, n := BE32(PROP), BE32(|v|), BE32(k);
    assert Enc(Prop(k, v, p, Nil)) == PropText(k, v, p);
    assert a + t + l + n + v + p == a + (t + l + n + v + p);
  }

  /** A node that the loop enters. */
  lemma {:induction false} EnterNode(c: Ctx, s: bytes, o: nat) returns (d: Ctx)
    requires CtxWF(c) && o == Pos(c) && o <= |s| && s[..o] == Before(c) && Aligned(o)
    requires NextTag(s, o).tag == BEGIN_NODE && NextTag(s, o).next <= |s|
    ensures CtxWF(d) && d.In? && d == In(c, NameAt(s, o), d.npad, Nil, Nil)
    ensures Pos(d) == NextTag(s, o).next && s[..Pos(d)] == Before(d)
  {
    hide U32, BE32, PadLen, Align4, Aligned, Enc, Before, After, Block, Plug, NameEnd, NextTag, Pos, NodeHead, NameAt;
    var n, p := NodeRead(s, o);
    d := In(c, n, p, Nil, Nil);
    NodeWF(n, p, Nil, Nil);
    EnterIs(c, n, p, Nil, Nil);
    NodeBytes(s, o, Before(c), n, p);
  }

  /** The name of a node and the padding behind it. */
  lemma NodeRead(s: bytes, o: nat) returns (n: bytes, p: bytes)
    requires Aligned(o) && NextTag(s, o).tag == BEGIN_NODE && NextTag(s, o).next <= |s|
    ensures o + 5 + |n| + |p| == NextTag(s, o).next <= |s| && U32(s, o) == BEGIN_NODE
    ensures n == NameAt(s, o) == s[o + 4..o + 4 + |n|] && 0 !in n && s[o + 4 + |n|] == 0
    ensures p == s[o + 5 + |n|..o + 5 + |n| + |p|] && |p| == PadLen(|n| + 1)
  {
    hide U32, PadLen, Align4, Aligned, NameEnd;
    var e, x := NameEnd(s, o + 4), NextTag(s, o).next;
    PadAligned(0);
    AlignedSum(o, 4);
    AlignFrom(o + 4, e - (o + 4) + 1);
    n, p := s[o + 4..e], s[e + 1..x];
  }

  lemma NodeBytes(s: bytes, o: nat, a: bytes, n: bytes, p: bytes)
    requires o + 5 + |n| + |p| <= |s| && s[..o] == a && U32(s, o) == BEGIN_NODE
    requires s[o + 4..o + 4 + |n|] == n && s[o + 4 + |n|] == 0 && s[o + 5 + |n|..o + 5 + |n| + |p|] == p
    ensures s[..o + 5 + |n| + |p|] == a + NodeHead(n, p)
  {
    hide U32, BE32;
    var i, j := o + 4 + |n|, o + 5 + |n| + |p|;
    WordBytes(s, o, BEGIN_NODE, a);
    SliceJoin(s, 0, o + 4, i);
    SliceJoin(s, 0, i, i + 1);
    SliceJoin(s, 0, i + 1, j);
    assert s[i..i + 1] == [0];
    assert s[..o + 4] == s[0..o + 4] && s[..j] == s[0..j];
    Assoc4(a, BE32(BEGIN_NODE), n, [0]);
    Assoc(a, BE32(BEGIN_NODE) + n + [0], p);
    Assoc(BE32(BEGIN_NODE), n, [0]);
  }

  /** What the flat loop accepts from a position on, the grammar accepts. */
  lemma {:induction false} CheckSound(b: bytes, at: nat, o: nat, c: Ctx) returns (f: Forest)
    requires InMemory(b) && CtxWF(c) && OpenAt(b, at, c)
    requires o <= |StructOf(b)| && o == Pos(c) && StructOf(b)[..o] == Before(c)
    requires CheckTags(b, at, o, Depth(c), NodeSeen(c)) == 0
    ensures Grammatical(b, at, f)
    decreases |StructOf(b)| - o, 1
  {
    hide U32, BE32, PadLen, Align4, Aligned, Enc, Before, After, Block, Plug, NameEnd, GetString, StructOf;
    hide InMemory, NextTag, WF, CtxWF, Pos, Size;
    var s := StructOf(b);
    var t := NextTag(s, o);
    PosAligned(c);
    NextRead(b, at, o, Depth(c), NodeSeen(c));
    if t.tag == NOP {
      f := SoundNop(b, at, o, c);
    } else if t.tag == PROP {
      f := SoundProp(b, at, o, c);
    } else if t.tag == BEGIN_NODE {
      f := SoundBegin(b, at, o, c);
    } else if t.tag == END_NODE {
      f := SoundEnd(b, at, o, c);
    } else {
      f := SoundDone(b, at, o, c);
    }
  }

  /** A loop that goes on reads its next tag inside the block. */
  lemma NextRead(b: bytes, at: nat, o: nat, depth: nat, seen: bool)
    requires InMemory(b) && CheckTags(b, at, o, depth, seen) == 0
    ensures var t := NextTag(StructOf(b), o);
            && o + 4 <= t.next <= |StructOf(b)| + 3
            && (t.tag != END ==> t.next <= |StructOf(b)|)
            && (seen ==> t.tag == END)
            && (t.tag == END ==> depth == 0)
  {
    hide U32, InMemory, StructOf, GetString, NameAt;
  }

  lemma TagWord(s: bytes, o: nat)
    requires NextTag(s, o).next >= 0
    ensures o + 4 <= |s| && U32(s, o) == NextTag(s, o).tag
    ensures NextTag(s, o).tag != PROP && NextTag(s, o).tag != BEGIN_NODE && Aligned(o) ==> NextTag(s, o).next == o + 4
  {
    hide U32;
  }

  lemma {:induction false} SoundDone(b: bytes, at: nat, o: nat, c: Ctx) returns (f: Forest)
    requires InMemory(b) && CtxWF(c) && OpenAt(b, at, c) && c.Top?
    requires o <= |StructOf(b)| && StructOf(b)[..o] == Before(c)
    requires NextTag(StructOf(b), o).tag == END && NextTag(StructOf(b), o).next >= 0
    ensures Grammatical(b, at, f)
  {
    hide U32, BE32, PadLen, StructOf, InMemory, NextTag, GetString;
    f := c.before;
    TagWord(StructOf(b), o);
    WordBytes(StructOf(b), o, END, Before(c));
  }

  lemma {:induction false} SoundNop(b: bytes, at: nat, o: nat, c: Ctx) returns (f: Forest)
    requires InMemory(b) && CtxWF(c) && OpenAt(b, at, c)
    requires o <= |StructOf(b)| && o == Pos(c) && StructOf(b)[..o] == Before(c)
    requires CheckTags(b, at, o, Depth(c), NodeSeen(c)) == 0 && NextTag(StructOf(b), o).tag == NOP
    ensures Grammatical(b, at, f)
    decreases |StructOf(b)| - o, 0
  {
    hide U32, BE32, PadLen, Align4, Aligned, Before, After, Block, Plug, NameEnd, GetString, StructOf, InMemory;
    hide NextTag;
    var s := StructOf(b);
    NextRead(b, at, o, Depth(c), NodeSeen(c));
    PosAligned(c);
    TagWord(s, o);
    WordBytes(s, o, NOP, Before(c));
    PassIs(c, Nop(Nil), Nil);
    assert Enc(Nop(Nil)) == BE32(NOP);
    PassOpen(b, at, c, Nop(Nil));
    f := CheckSound(b, at, o + 4, Pass(c, Nop(Nil)));
  }

  lemma {:induction false} PassOpen(b: bytes, at: nat, c: Ctx, g: Forest)
    requires InMemory(b) && OpenAt(b, at, c) && NoNode(g) && PropsNamed(b, at, g)
    requires !NodeSeen(c)
    ensures OpenAt(b, at, Pass(c, g)) && !NodeSeen(Pass(c, g))
  {
    hide GetString, InMemory;
    AppendShape(c.before, g);
    AppendShape(g, Nil);
    AppendNamed(b, at, c.before, g);
  }

  lemma {:induction false} SoundProp(b: bytes, at: nat, o: nat, c: Ctx) returns (f: Forest)
    requires InMemory(b) && CtxWF(c) && OpenAt(b, at, c)
    requires o <= |StructOf(b)| && o == Pos(c) && StructOf(b)[..o] == Before(c)
    requires CheckTags(b, at, o, Depth(c), NodeSeen(c)) == 0 && NextTag(StructOf(b), o).tag == PROP
    ensures Grammatical(b, at, f)
    decreases |StructOf(b)| - o, 0
  {
    hide U32, BE32, PadLen, Align4, Aligned, Before, After, Block, Plug, NameEnd, GetString, StructOf, InMemory;
    hide NextTag, Enc;
    NextRead(b, at, o, Depth(c), NodeSeen(c));
    PosAligned(c);
    var d, g := TakeProp(c, StructOf(b), o);
    PassOpen(b, at, c, g);
    PassDepth(c, g);
    f := CheckSound(b, at, NextTag(StructOf(b), o).next, d);
  }

  lemma PassDepth(c: Ctx, g: Forest)
    ensures Depth(Pass(c, g)) == Depth(c)
  {}

  lemma {:induction false} SoundBegin(b: bytes, at: nat, o: nat, c: Ctx) returns (f: Forest)
    requires InMemory(b) && CtxWF(c) && OpenAt(b, at, c)
    requires o <= |StructOf(b)| && o == Pos(c) && StructOf(b)[..o] == Before(c)
    requires CheckTags(b, at, o, Depth(c), NodeSeen(c)) == 0 && NextTag(StructOf(b), o).tag == BEGIN_NODE
    ensures Grammatical(b, at, f)
    decreases |StructOf(b)| - o, 0
  {
    hide U32, BE32, PadLen, Align4, Aligned, Before, After, Block, Plug, NameEnd, GetString, StructOf, InMemory;
    hide NextTag, Enc, NameAt;
    NextRead(b, at, o, Depth(c), NodeSeen(c));
    PosAligned(c);
    var d := EnterNode(c, StructOf(b), o);
    f := CheckSound(b, at, NextTag(StructOf(b), o).next, d);
  }

  lemma {:induction false} SoundEnd(b: bytes, at: nat, o: nat, c: Ctx) returns (f: Forest)
    requires InMemory(b) && CtxWF(c) && OpenAt(b, at, c)
    requires o <= |StructOf(b)| && o == Pos(c) && StructOf(b)[..o] == Before(c)
    requires CheckTags(b, at, o, Depth(c), NodeSeen(c)) == 0 && NextTag(StructOf(b), o).tag == END_NODE
    ensures Grammatical(b, at, f)
    decreases |StructOf(b)| - o, 0
  {
    hide U32, BE32, PadLen, Align4, Aligned, Before, After, Block, Plug, NameEnd, GetString, StructOf, InMemory;
    hide NextTag, Enc;
    var s := StructOf(b);
    NextRead(b, at, o, Depth(c), NodeSeen(c));
    PosAligned(c);
    TagWord(s, o);
    WordBytes(s, o, END_NODE, Before(c));
    LeaveIs(c);
    LeaveOpen(b, at, c);
    f := CheckSound(b, at, o + 4, Leave(c));
  }

  lemma {:induction false} LeaveOpen(b: bytes, at: nat, c: Ctx)
    requires InMemory(b) && OpenAt(b, at, c) && c.In?
    ensures OpenAt(b, at, Leave(c)) && NodeSeen(Leave(c)) == c.up.Top?
  {
    hide GetString, InMemory;
    var g := Node(c.name, c.npad, c.before, Nil);
    AppendNamed(b, at, c.up.before, g);
    AppendShape(c.up.before, g);
    if c.up.Top? { AppendSeen(c.up.before, g); }
  }

  lemma {:induction false} AppendSeen(f: Forest, g: Forest)
    requires !NoNode(g)
    ensures !NoNode(Append(f, g))
  {
    if !f.Nil? { AppendSeen(f.rest, g); }
  }

  // ----- and accepts everything grammatical

  /** Reading on inside a prefix of the block gives what the prefix says. */
  lemma NextTagExtends(s: bytes, u: bytes, o: int)
    requires u <= s && NextTag(u, o).next >= 0
    ensures NextTag(s, o) == NextTag(u, o)
    ensures NextTag(u, o).tag == BEGIN_NODE ==> NameAt(s, o) == NameAt(u, o)
    ensures NextTag(u, o).tag == PROP ==> U32(s, o + 8) == U32(u, o + 8)
  {
    assert forall i :: 0 <= i < |u| ==> s[i] == u[i];
    WordExtends(s, u, o);
    if U32(u, o) == BEGIN_NODE {
      NameEndExtends(s, u, o + 4);
      assert s[o + 4..NameEnd(u, o + 4)] == u[o + 4..NameEnd(u, o + 4)];
    } else if U32(u, o) == PROP {
      WordExtends(s, u, o + 4);
      WordExtends(s, u, o + 8);
    }
  }

  lemma WordExtends(s: bytes, u: bytes, o: nat)
    requires u <= s && o + 4 <= |u|
    ensures U32(s, o) == U32(u, o)
  {
    assert s[o] == u[o] && s[o + 1] == u[o + 1] && s[o + 2] == u[o + 2] && s[o + 3] == u[o + 3];
  }

  lemma {:induction false} DepthBound(c: Ctx)
    requires CtxWF(c)
    ensures Depth(c) <= Pos(c)
  {
    hide PadLen, Before, Enc;
    if c.In? { DepthBound(c.up); }
  }

  /** One tag of the encoded tree, read from the possibly longer block. */
  lemma {:induction false} TagAt(b: bytes, c: Ctx, f: Forest)
    requires InMemory(b) && CtxWF(c) && WF(f) && Block(c, f) <= StructOf(b)
    ensures f.Nop? ==> NextTag(StructOf(b), Pos(c)) == Step(NOP, Pos(c) + 4)
    ensures f.Prop? ==> NextTag(StructOf(b), Pos(c)) == Step(PROP, Pos(c) + 12 + |f.value| + |f.pad|)
                        && U32(StructOf(b), Pos(c) + 8) == f.nameoff
    ensures f.Node? ==> NextTag(StructOf(b), Pos(c)) == Step(BEGIN_NODE, HeadEnd(c, f))
                        && NameAt(StructOf(b), Pos(c)) == f.name
    ensures f.Nil? && c.In? ==> NextTag(StructOf(b), Pos(c)) == Step(END_NODE, Pos(c) + 4)
    ensures f.Nil? && c.Top? ==> NextTag(StructOf(b), Pos(c)) == Step(END, Pos(c) + 4)
    ensures Pos(c) < |StructOf(b)|
  {
    hide U32, BE32, PadLen, Aligned, Before, After, Block, NameEnd, StructOf, InMemory, NextTag, Enc;
    match f {
      case Nil => if c.In? { TagEndNode(c); } else { TagEnd(c); }
      case Nop(r) => TagNop(c, r);
      case Prop(o, v, p, r) => TagProp(c, o, v, p, r);
      case Node(n, p, k, r) => TagBegin(c, n, p, k, r);
    }
    NextTagExtends(StructOf(b), Block(c, f), Pos(c));
    BlockFrom(c, f);
    StepInside(Block(c, f), Pos(c));
  }

  lemma StepInside(s: bytes, o: nat)
    requires NextTag(s, o).next >= 0
    ensures o + 4 <= |s|
  {
    hide U32;
  }

  /** Inside a node, the loop passes a list of items with its counter restored. */
  lemma {:induction false} AcceptItems(b: bytes, at: nat, c: Ctx, f: Forest)
    requires InMemory(b) && CtxWF(c) && WF(f) && Block(c, f) <= StructOf(b) && c.In? && PropsNamed(b, at, f)
    ensures CheckTags(b, at, Pos(c), Depth(c), false) == CheckTags(b, at, Pos(c) + Size(f), Depth(c), false)
    decreases f, 1
  {
    hide U32, BE32, PadLen, Aligned, Before, After, Block, NameEnd, StructOf, InMemory, NextTag, Enc, Plug, GetString;
    hide NameAt, Pos, Size, CtxWF, CheckTags;
    if !f.Node? { PreorderItem(f, 0, 0); }
    match f
    case Nil =>
    case Nop(r) =>
      PassNop(c, r);
      PassDepth(c, Nop(Nil));
      AcceptItems(b, at, Pass(c, Nop(Nil)), r);
      AcceptNop(b, at, c, r);
    case Prop(o, v, p, r) =>
      PassProp(c, o, v, p, r);
      PassDepth(c, Prop(o, v, p, Nil));
      AcceptItems(b, at, Pass(c, Prop(o, v, p, Nil)), r);
      AcceptProp(b, at, c, f);
    case Node(n, p, k, r) =>
      AcceptNode(b, at, c, f);
      PassNode(c, n, p, k, r);
      PassDepth(c, Node(n, p, k, Nil));
      AcceptItems(b, at, Pass(c, Node(n, p, k, Nil)), r);
      SizeNode(n, p, k, r);
  }

  lemma {:induction false} AcceptNop(b: bytes, at: nat, c: Ctx, r: Forest)
    requires InMemory(b) && CtxWF(c) && WF(r) && Block(c, Nop(r)) <= StructOf(b)
    ensures CheckTags(b, at, Pos(c), Depth(c), false) == CheckTags(b, at, Pos(c) + 4, Depth(c), false)
  {
    hide U32, BE32, PadLen, Aligned, Before, After, Block, NameEnd, StructOf, InMemory, NextTag, Enc, Plug, GetString;
    hide NameAt, Pos, CtxWF;
    TagAt(b, c, Nop(r));
  }

  lemma {:induction false} AcceptProp(b: bytes, at: nat, c: Ctx, f: Forest)
    requires InMemory(b) && CtxWF(c) && WF(f) && f.Prop? && Block(c, f) <= StructOf(b) && PropsNamed(b, at, f)
    ensures CheckTags(b, at, Pos(c), Depth(c), false)
         == CheckTags(b, at, Pos(c) + 12 + |f.value| + |f.pad|, Depth(c), false)
  {
    hide U32, BE32, PadLen, Aligned, Before, After, Block, NameEnd, StructOf, InMemory, NextTag, Enc, Plug, GetString;
    hide NameAt, Pos, CtxWF;
    TagAt(b, c, f);
  }

  /** A node is passed as a whole; at the top level it must be the last. */
  lemma {:induction false} AcceptNode(b: bytes, at: nat, c: Ctx, f: Forest)
    requires InMemory(b) && CtxWF(c) && WF(f) && f.Node? && Block(c, f) <= StructOf(b) && PropsNamed(b, at, f.kids)
    requires c.Top? ==> f.name == []
    ensures CheckTags(b, at, Pos(c), Depth(c), false) == CheckTags(b, at, NodeEnd(c, f), Depth(c), c.Top?)
    decreases f, 0
  {
    hide U32, BE32, PadLen, Aligned, Before, After, Block, NameEnd, StructOf, InMemory, NextTag, Enc, Plug;
    hide GetString, NameAt, Pos;
    TagAt(b, c, f);
    DepthBound(c);
    StructSmall(b);
    var i := In(c, f.name, f.npad, Nil, f.rest);
    EnterIs(c, f.name, f.npad, f.kids, f.rest);
    AcceptItems(b, at, i, f.kids);
    PassIs(i, f.kids, Nil);
    AppendNil(f.kids);
    TagAt(b, Pass(i, f.kids), Nil);
  }

  lemma StructSmall(b: bytes)
    requires InMemory(b)
    ensures |StructOf(b)| < INT_MAX
  {}

  lemma {:induction false} AcceptTop(b: bytes, at: nat, c: Ctx, f: Forest)
    requires InMemory(b) && CtxWF(c) && WF(f) && Block(c, f) <= StructOf(b) && c.Top?
    requires PropsNamed(b, at, f) && TopShape(f)
    ensures CheckTags(b, at, Pos(c), 0, false) == 0
    decreases f
  {
    hide U32, BE32, PadLen, Aligned, Before, After, Block, NameEnd, StructOf, InMemory, NextTag, Enc, Plug;
    hide GetString, NameAt, Pos;
    TagAt(b, c, f);
    match f
    case Nil =>
    case Nop(r) =>
      PassItem(c, Nop(Nil), r);
      AcceptTop(b, at, Pass(c, Nop(Nil)), r);
    case Prop(o, v, p, r) =>
      PassItem(c, Prop(o, v, p, Nil), r);
      AcceptTop(b, at, Pass(c, Prop(o, v, p, Nil)), r);
    case Node(n, p, k, r) =>
      AcceptNode(b, at, c, f);
      PassItem(c, Node(n, p, k, Nil), r);
      TagAt(b, Pass(c, Node(n, p, k, Nil)), Nil);
  }

  lemma BlockOfTree(f: Forest)
    requires WF(f)
    ensures Block(Top(Nil), f) == Enc(f) + BE32(END) && Pos(Top(Nil)) == 0
  {
    hide BE32;
    assert [] + Enc(f) == Enc(f);
  }

  /** The tag loop of fdt_check_full accepts a block exactly when the block
      starts with the encoding of a tree: properties and NOPs, then at most
      one nameless node, then immediately the end tag, every property name a
      terminated string of the strings block. */
  lemma {:induction false} CheckIsGrammar(b: bytes, at: nat)
    requires InMemory(b)
    ensures CheckTags(b, at, 0, 0, false) == 0 <==> exists f :: Grammatical(b, at, f)
  {
    hide U32, BE32, PadLen, Aligned, NameEnd, InMemory, NextTag, Enc, GetString, Block, CheckTags, PropsNamed, WF;
    hide TopShape;
    if CheckTags(b, at, 0, 0, false) == 0 {
      EmptyTop(b, at);
      var f := CheckSound(b, at, 0, Top(Nil));
    }
    forall f | Grammatical(b, at, f) ensures CheckTags(b, at, 0, 0, false) == 0 {
      BlockOfTree(f);
      EmptyTop(b, at);
      AcceptTop(b, at, Top(Nil), f);
    }
  }

  lemma EmptyTop(b: bytes, at: nat)
    requires InMemory(b)
    ensures CtxWF(Top(Nil)) && OpenAt(b, at, Top(Nil)) && Before(Top(Nil)) == [] && Pos(Top(Nil)) == 0
  {
    hide InMemory;
  }

  /** fdt_check_full returns 0 exactly on a well-placed, terminated blob that
      holds such a block. */
  lemma {:induction false} CheckFullIs(b: bytes, at: nat)
    requires |b| >= HEADER_SIZE && Version(b) >= 17 && TotalSize(b) != INT_MAX
    ensures CheckFull(b, at) == 0 <==>
              CheckHeader(b, at) == 0 && TotalSize(b) <= |b| && RsvCount(b, 0) >= 0
              && exists f :: Grammatical(b, at, f)
  {
    hide U32, CheckHeader, CheckTags, RsvCount, Grammatical;
    if CheckHeader(b, at) == 0 && TotalSize(b) <= |b| {
      CheckIsGrammar(b, at);
    }
  }
}
