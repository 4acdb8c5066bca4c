/** What the editing routines do to the tree that a blob encodes. */
module FdtUpdate {
  import opened Bytes
  import opened FdtFormat
  import opened FdtWalk
  import opened FdtNodes
  import opened FdtRead
  import opened FdtAncestors
  import opened FdtProps
  import opened FdtSplice
  import opened FdtEdit

  /** Every property name is a terminated string of the strings block. */
  predicate Resolved(t: bytes, f: Forest) {
    match f
    case Nil => true
    case Nop(r) => Resolved(t, r)
    case Prop(o, _, _, r) => CString(t, ToInt(o)).Found? && Resolved(t, r)
    case Node(_, _, k, r) => Resolved(t, k) && Resolved(t, r)
  }

  /** The editable blob `b` at address `at` encodes the tree with `f` at `c`. */
  predicate Encodes(b: bytes, at: nat, c: Ctx, f: Forest) {
    && Editable(b) && Probe(b, at) >= 0 && Magic(b) == MAGIC
    && CtxWF(c) && WF(f) && StructOf(b) == Block(c, f) && Resolved(StringsOf(b), Plug(c, f))
  }

  // ----- texts

  lemma ResizeText(a: bytes, t: bytes, l: bytes, o: bytes, v: bytes, z: bytes, l': bytes, g: bytes, val: bytes)
    requires |t| == 4 && |l| == 4 && |o| == 4 && |l'| == 4 && |val| <= |g|
    ensures var s := a + (t + l + o + v) + z;
            var s1 := s[..|a| + 12] + g + s[|a| + 12 + |v|..];
            Overwrite(Overwrite(s1, |a| + 4, l'), |a| + 12, val) == a + (t + l' + o + val + g[|val|..]) + z
  {
    hide Overwrite;
    var s := a + (t + l + o + v) + z;
    var g0, g1 := g[..|val|], g[|val|..];
    Cut(a, t + l + o, v, z);
    assert g == g0 + g1;
    Regroup(a, t, l, o, g, z);
    OverwriteMiddle(a + t, l, o + (g + z), l');
    Assoc(g0, g1, z);
    Regroup(a, t, l', o, g, z);
    Assoc(a + t + l' + o, g0, g1 + z);
    OverwriteMiddle(a + t + l' + o, g0, g1 + z, val);
    Close(a, t + l' + o, val, g1, z);
    assert a + t + l' + o == a + (t + l' + o);
  }

  lemma Cut(a: bytes, h: bytes, v: bytes, z: bytes)
    ensures var s := a + (h + v) + z; s[..|a| + |h|] == a + h && s[|a| + |h| + |v|..] == z
  {
    var s := a + (h + v) + z;
    assert s == a + h + v + z;
  }

  lemma Regroup(a: bytes, t: bytes, l: bytes, o: bytes, g: bytes, z: bytes)
    ensures a + (t + l + o) + g + z == a + t + l + (o + (g + z))
    ensures a + t + l + (o + (g + z)) == a + t + l + o + (g + z)
  {
    Assoc(a + t + l, o, g + z);
    Assoc(a + (t + l + o), g, z);
    assert a + (t + l + o) == a + t + l + o;
  }

  lemma Close(a: bytes, h: bytes, v: bytes, g: bytes, z: bytes)
    ensures a + h + v + (g + z) == a + (h + v + g) + z
  {
    Assoc(a + h + v, g, z);
    Assoc(a, h, v);
    Assoc(a, h + v, g);
  }

  /** The five pieces of a gap, with what stands around it. */
  lemma Pieces(a: bytes, g0: bytes, g1: bytes, g2: bytes, g3: bytes, z: bytes)
    ensures a + (g0 + g1 + g2 + g3) + z == a + g0 + (g1 + (g2 + (g3 + z)))
    ensures a + g0 + (g1 + (g2 + (g3 + z))) == a + g0 + g1 + (g2 + (g3 + z))
    ensures a + g0 + g1 + (g2 + (g3 + z)) == a + g0 + g1 + g2 + (g3 + z)
  {
    Assoc(a + g0, g1, g2 + (g3 + z));
    Assoc(a + g0 + g1, g2, g3 + z);
    Assoc(a, g0 + g1 + g2, g3);
    Assoc(a, g0 + g1, g2);
    Assoc(a, g0, g1);
    Assoc(a + g0 + g1 + g2, g3, z);
  }

  lemma LayText(a: bytes, g0: bytes, g1: bytes, g2: bytes, v: bytes, pad: bytes, z: bytes, t: bytes, o: bytes,
      l: bytes, val: bytes)
    requires |t| == |g0| == 4 && |l| == |g1| == 4 && |o| == |g2| == 4 && |val| == |v|
    ensures var s := a + (g0 + g1 + g2 + (v + pad)) + z;
            Overwrite(Overwrite(Overwrite(Overwrite(s, |a|, t), |a| + 8, o), |a| + 4, l), |a| + 12, val) ==
            a + (t + l + o + (val + pad)) + z
  {
    hide Overwrite;
    var w, y := v + pad, v + pad + z;
    Pieces(a, g0, g1, g2, w, z);
    OverwriteMiddle(a, g0, g1 + (g2 + (w + z)), t);
    Pieces(a, t, g1, g2, w, z);
    OverwriteMiddle(a + t + g1, g2, w + z, o);
    Pieces(a, t, g1, o, w, z);
    OverwriteMiddle(a + t, g1, o + (w + z), l);
    Pieces(a, t, l, o, w, z);
    Assoc(v, pad, z);
    Assoc(a + t + l + o, v, pad + z);
    OverwriteMiddle(a + t + l + o, v, pad + z, val);
    Assoc(val, pad, z);
    Assoc(a + t + l + o, val, pad + z);
    Pieces(a, t, l, o, val + pad, z);
  }

  // ----- fdt_setprop on a property that exists

  /** The property at `d` gets the value; the rest of the blob stays. */
  lemma {:induction false} ResizeIs(b: bytes, d: Ctx, o: u32, v: bytes, p: bytes, r: Forest, val: bytes)
    returns (pad: bytes)
    requires Editable(b) && CtxWF(d) && WF(Prop(o, v, p, r)) && StructOf(b) == Block(d, Prop(o, v, p, r))
    requires |val| <= INT_MAX - 16 && NextTag(StructOf(b), Pos(d)).tag == PROP
    requires ResizeProp(b, Pos(d), val).err == 0
    ensures |pad| == PadLen(|val|)
    ensures Kept(b, ResizeProp(b, Pos(d), val).blob)
    ensures StructOf(ResizeProp(b, Pos(d), val).blob) == Block(d, Prop(o, val, pad, r))
  {
    hide U32, BE32, PadLen, Align4, NextTag, Enc, Block, Before, After, SpliceStruct, Overwrite, NameEnd, Splice;
    hide StructOf, Kept, Editable, SizeStruct, DataSize, BlocksInside;
    hide Pos, CtxWF;
    TagProp(d, o, v, p, r);
    AlignIsPad(|v|);
    AlignIsPad(|val|);
    var x, was, now := Pos(d), Align4(|v|), Align4(|val|);
    StructSize(b);
    SpliceRoom(b, OffStruct(b) + x + 12, was, now);
    KeptSplice(b, x + 12, was, now);
    var b1 := SpliceStruct(b, x + 12, was, now);
    KeptIs(b, b1);
    var g := b[OffStruct(b) + x + 12..OffStruct(b) + x + 12 + now];
    pad := g[|val|..];
    KeptEdit(b1, x + 4, BE32(|val|));
    var b2 := Put(b1, OffStruct(b) + x + 4, |val|);
    KeptIs(b1, b2);
    KeptEdit(b2, x + 12, val);
    KeptTrans(b, b1, b2);
    KeptTrans(b, b2, Overwrite(b2, OffStruct(b) + x + 12, val));
    PropBlock(d, o, v, p, r);
    PropBlock(d, o, val, pad, r);
    ResizeText(Before(d), BE32(PROP), BE32(|v|), BE32(o), v + p, Enc(r) + After(d), BE32(|val|), g, val);
  }

  lemma SpliceRoom(b: bytes, soff: nat, oldlen: nat, newlen: nat)
    requires Editable(b) && SpliceError(b, soff, oldlen, newlen) == 0
    ensures DataSize(b) - oldlen + newlen <= TotalSize(b)
  {
    hide U32;
  }

  lemma PropBlock(d: Ctx, o: u32, v: bytes, p: bytes, r: Forest)
    requires CtxWF(d) && WF(Prop(o, v, p, r))
    ensures Block(d, Prop(o, v, p, r))
         == Before(d) + (BE32(PROP) + BE32(|v|) + BE32(o) + (v + p)) + (Enc(r) + After(d))
    ensures Block(d, Prop(o, v, p, r))
         == Before(d) + (BE32(PROP) + BE32(|v|) + BE32(o) + v + p) + (Enc(r) + After(d))
  {
    hide BE32, PadLen, Before, After;
    Assoc(BE32(PROP) + BE32(|v|) + BE32(o), v, p);
    Assoc4(Before(d), PropText(o, v, p), Enc(r), After(d));
    Assoc(Before(d) + PropText(o, v, p), Enc(r), After(d));
  }

  // ----- fdt_setprop on a property that does not

  /** The new property stands first in the gap at the position `d`. */
  lemma {:induction false} PlaceIs(b: bytes, d: Ctx, k: Forest, nameoff: nat, name: bytes, added: bool, val: bytes)
    returns (pad: bytes)
    requires Editable(b) && CtxWF(d) && WF(k) && StructOf(b) == Block(d, k)
    requires |val| <= INT_MAX - 16 && nameoff <= INT_MAX && (added ==> |name| + 1 <= SizeStrings(b))
    requires PlaceProp(b, Pos(d), nameoff, name, added, val).err == 0
    ensures |pad| == PadLen(|val|)
    ensures Kept(b, PlaceProp(b, Pos(d), nameoff, name, added, val).blob)
    ensures StructOf(PlaceProp(b, Pos(d), nameoff, name, added, val).blob) == Block(d, Prop(nameoff, val, pad, k))
  {
    hide U32, BE32, PadLen, Align4, Enc, Block, Before, After, SpliceStruct, Overwrite, Splice, StructOf, Kept;
    hide SizeStruct, DataSize, BlocksInside, LayProp;
    var x, size := Pos(d), 12 + Align4(|val|);
    AlignIsPad(|val|);
    StructSize(b);
    BlockFrom(d, k);
    SpliceRoom(b, OffStruct(b) + x, 0, size);
    KeptSplice(b, x, 0, size);
    var b1 := SpliceStruct(b, x, 0, size);
    KeptIs(b, b1);
    var g := b[OffStruct(b) + x..OffStruct(b) + x + size];
    pad := g[12 + |val|..];
    assert StructOf(b1) == Before(d) + g + (Enc(k) + After(d));
    LayIs(b, b1, d, k, nameoff, val, g);
  }

  lemma {:induction false} LayIs(b: bytes, b1: bytes, d: Ctx, k: Forest, nameoff: nat, val: bytes, g: bytes)
    requires Kept(b, b1) && CtxWF(d) && WF(k) && |val| <= INT_MAX - 16 && nameoff <= INT_MAX
    requires |g| == 12 + |val| + PadLen(|val|)
    requires StructOf(b1) == Before(d) + g + (Enc(k) + After(d))
    ensures OffStruct(b1) + Pos(d) + 12 + |val| <= |b1|
    ensures var q := LayProp(b1, OffStruct(b1) + Pos(d), nameoff, val);
            Kept(b, q) && StructOf(q) == Block(d, Prop(nameoff, val, g[12 + |val|..], k))
  {
    hide U32, BE32, PadLen, Enc, Block, Before, After, Overwrite, StructOf, Kept, SizeStruct, DataSize;
    hide BlocksInside, WF, CtxWF;
    hide Pos, HeaderOf;
    KeptIs(b, b1);
    StructSize(b1);
    var x, o := Pos(d), OffStruct(b1);
    var z, pad := Enc(k) + After(d), g[12 + |val|..];
    KeptEdit(b1, x, BE32(PROP));
    var b2 := Put(b1, o + x, PROP);
    KeptIs(b1, b2);
    KeptEdit(b2, x + 8, BE32(nameoff));
    var b3 := Put(b2, o + x + 8, nameoff);
    KeptIs(b2, b3);
    KeptEdit(b3, x + 4, BE32(|val|));
    var b4 := Put(b3, o + x + 4, |val|);
    KeptIs(b3, b4);
    KeptEdit(b4, x + 12, val);
    KeptTrans(b, b1, b2);
    KeptTrans(b, b2, b3);
    KeptTrans(b, b3, b4);
    KeptTrans(b, b4, Overwrite(b4, o + x + 12, val));
    PropWF(nameoff, val, pad, k);
    PropBlock(d, nameoff, val, pad, k);
    GapPieces(g, |val|);
    LayText(Before(d), g[..4], g[4..8], g[8..12], g[12..12 + |val|], pad, z, BE32(PROP), BE32(nameoff), BE32(|val|),
        val);
  }

  lemma PropWF(o: u32, v: bytes, p: bytes, r: Forest)
    requires |v| <= INT_MAX && |p| == PadLen(|v|) && WF(r)
    ensures WF(Prop(o, v, p, r))
  {}

  lemma GapPieces(g: bytes, n: nat)
    requires 12 + n <= |g|
    ensures g == g[..4] + g[4..8] + g[8..12] + (g[12..12 + n] + g[12 + n..])
  {}

  // ----- where the lookup found the property

  /** The list with `x` in place of everything from the first property of that
      name on. */
  function SwapFrom(f: Forest, t: bytes, name: bytes, x: Forest): Forest {
    match f
    case Nil => Nil
    case Nop(r) => Nop(SwapFrom(r, t, name, x))
    case Prop(o, v, p, r) =>
      if CString(t, ToInt(o)) == Found(name) then x else Prop(o, v, p, SwapFrom(r, t, name, x))
    case Node(_, _, _, _) => f
  }

  /** Everything from that property on. */
  function SuffixFrom(f: Forest, t: bytes, name: bytes): Forest {
    match f
    case Nil => Nil
    case Nop(r) => SuffixFrom(r, t, name)
    case Prop(o, v, p, r) => if CString(t, ToInt(o)) == Found(name) then f else SuffixFrom(r, t, name)
    case Node(_, _, _, _) => Nil
  }

  lemma {:induction false} LocateProp(c: Ctx, f: Forest, t: bytes, name: bytes) returns (d: Ctx)
    requires CtxWF(c) && WF(f) && PropIn(f, Pos(c), t, name) >= 0
    ensures var g := SuffixFrom(f, t, name);
            && CtxWF(d) && WF(g) && g.Prop? && Pos(d) == PropIn(f, Pos(c), t, name)
            && Block(d, g) == Block(c, f)
    ensures forall x | WF(x) :: WF(SwapFrom(f, t, name, x)) && Block(d, x) == Block(c, SwapFrom(f, t, name, x))
    decreases f
  {
    hide PadLen, Enc, Block, Before, After, Plug, Pass, CString, BE32, Pos, CtxWF, Size;
    match f
    case Nil => d := c;
    case Nop(r) =>
      PassNop(c, r);
      d := LocateProp(Pass(c, Nop(Nil)), r, t, name);
      forall x | WF(x) ensures Block(d, x) == Block(c, SwapFrom(f, t, name, x)) {
        PassNop(c, SwapFrom(r, t, name, x));
      }
    case Prop(o, v, p, r) =>
      if CString(t, ToInt(o)) == Found(name) {
        d := c;
      } else {
        PassProp(c, o, v, p, r);
        d := LocateProp(Pass(c, Prop(o, v, p, Nil)), r, t, name);
        forall x | WF(x) ensures Block(d, x) == Block(c, SwapFrom(f, t, name, x)) {
          PassProp(c, o, v, p, SwapFrom(r, t, name, x));
        }
      }
    case Node(_, _, _, _) => d := c;
  }
}
