/** external/libfdt/fdt_rw.c: fdt_add_subnode. */
module FdtAddNode {
  import opened Bytes
  import opened Memory
  import opened FdtFormat
  import opened FdtWalk
  import opened FdtNodes
  import opened FdtRead
  import opened FdtTree
  import opened FdtAncestors
  import opened FdtProps
  import opened FdtSplice
  import opened FdtEdit
  import opened FdtUpdate
  import opened FdtMeaning
  import opened FdtSetProp

  /** Behind the properties and NOPs that start at `o`. */
  function AfterProps(s: bytes, o: nat): (r: nat)
    ensures r == o || (r >= o && r <= |s| + 3)
    decreases |s| - o
  {
    var t := NextTag(s, o);
    if t.tag == PROP || t.tag == NOP then AfterProps(s, t.next) else o
  }

  function NodeSize(name: bytes): nat {
    8 + Align4(|name| + 1)
  }

  /** An empty node laid into the gap at `p`. */
  function LayNode(b: bytes, p: nat, name: bytes): (r: bytes)
    requires p + NodeSize(name) <= |b|
    ensures |r| == |b|
  {
    AlignIsPad(|name| + 1);
    Put(Overwrite(Overwrite(Put(b, p, BEGIN_NODE), p + 4, Zeros(Align4(|name| + 1))), p + 4, name),
        p + NodeSize(name) - 4, END_NODE)
  }

  function PlaceNode(b: bytes, o: nat, name: bytes): (r: Outcome)
    requires Editable(b)
    ensures |r.blob| == |b|
  {
    AlignIsPad(|name| + 1);
    var e := SpliceError(b, OffStruct(b) + o, 0, NodeSize(name));
    if e != 0 then Outcome(e, b)
    else Outcome(o, LayNode(SpliceStruct(b, o, 0, NodeSize(name)), OffStruct(b) + o, name))
  }

  /** fdt_add_subnode: the offset of the new node, or an error. */
  function AddSubnode(b: bytes, at: nat, parent: int, name: bytes): (r: Outcome)
    requires Given(b)
    ensures |r.blob| == |b|
  {
    if RwProbe(b, at) != 0 then Outcome(RwProbe(b, at), b)
    else
      ProbeEditable(b, at);
      var o := SubnodeOffset(b, at, parent, name);
      var s := StructOf(b);
      if o >= 0 then Outcome(ERR_EXISTS, b)
      else if o != ERR_NOTFOUND then Outcome(o, b)
      else if NextTag(s, parent).tag != BEGIN_NODE then Outcome(ERR_INTERNAL, b)
      else PlaceNode(b, AfterProps(s, NextTag(s, parent).next), name)
  }

  // ----- in memory

  method AddNode(mem: array<byte>, fdt: nat, n: nat, parent: int, name: bytes) returns (r: int)
    requires fdt + n <= mem.Length && Given(mem[fdt..fdt + n]) && parent <= INT_MAX
    modifies mem
    ensures r == AddSubnode(old(mem[fdt..fdt + n]), fdt, parent, name).err
    ensures Window(mem[..], old(mem[..]), fdt, AddSubnode(old(mem[fdt..fdt + n]), fdt, parent, name).blob)
  {
    hide U32, Window, NextTag, Misordered, Probe, PlaceNode, SubnodeOffset;
    var b := mem[fdt..fdt + n];
    ghost var m0 := mem[..];
    assert m0[fdt..fdt + n] == b;
    WindowStart(m0, fdt, n);
    r := RwProbe(b, fdt);
    if r != 0 {
      return;
    }
    ProbeEditable(b, fdt);
    r := FindSubnode(b, fdt, parent, name);
    if r >= 0 {
      return ERR_EXISTS;
    } else if r != ERR_NOTFOUND {
      return;
    }
    var tag, next := ReadTag(b, parent);
    if tag != BEGIN_NODE {
      return ERR_INTERNAL;
    }
    var offset := SkipProps(b, next);
    r := PlaceNodeAt(mem, fdt, offset, name, m0, b);
  }

  method SkipProps(b: bytes, start: nat) returns (offset: nat)
    requires InMemory(b) && start <= INT_MAX
    ensures offset == AfterProps(StructOf(b), start)
  {
    hide NextTag;
    ghost var s := StructOf(b);
    offset := start;
    while true
      invariant offset <= INT_MAX && AfterProps(s, start) == AfterProps(s, offset)
      decreases |s| - offset
    {
      var tag, next := ReadTag(b, offset);
      if tag != PROP && tag != NOP {
        return;
      }
      offset := next;
    }
  }

  method PlaceNodeAt(mem: array<byte>, fdt: nat, o: nat, name: bytes, ghost m0: bytes, ghost b: bytes) returns (r: int)
    requires Window(mem[..], m0, fdt, b) && Editable(b)
    modifies mem
    ensures r == PlaceNode(b, o, name).err && Window(mem[..], m0, fdt, PlaceNode(b, o, name).blob)
  {
    hide Window, U32, Put, SpliceStruct, Overwrite, Align4, Zeros;
    AlignIsPad(|name| + 1);
    var pad := Align4(|name| + 1);
    r := SpliceStructAt(mem, fdt, o, 0, 8 + pad, m0, b);
    if r != 0 {
      return;
    }
    ghost var b1 := SpliceStruct(b, o, 0, 8 + pad);
    SpliceStructField(b, o, 0, 8 + pad);
    var offStruct := LoadField(mem, fdt, 8, m0, b1);
    var p := offStruct + o;
    StoreField(mem, fdt, p, BEGIN_NODE, m0, b1);
    ghost var b2 := Put(b1, p, BEGIN_NODE);
    StoreIn(mem, fdt, p + 4, Zeros(pad), m0, b2);
    ghost var b3 := Overwrite(b2, p + 4, Zeros(pad));
    StoreIn(mem, fdt, p + 4, name, m0, b3);
    StoreField(mem, fdt, p + 4 + pad, END_NODE, m0, Overwrite(b3, p + 4, name));
    r := o;
  }

  // ----- on the tree

  /** The items of a list behind its leading properties and NOPs, and the list
      with `x` in their place. */
  function TailOf(f: Forest): Forest {
    match f
    case Nop(r) => TailOf(r)
    case Prop(_, _, _, r) => TailOf(r)
    case _ => f
  }

  function WithTail(f: Forest, x: Forest): Forest {
    match f
    case Nop(r) => Nop(WithTail(r, x))
    case Prop(o, v, p, r) => Prop(o, v, p, WithTail(r, x))
    case _ => x
  }

  /** Where the new node goes among the items `f` of its parent. */
  function TailCtx(c: Ctx, f: Forest): Ctx
    decreases f
  {
    match f
    case Nop(r) => TailCtx(Pass(c, Nop(Nil)), r)
    case Prop(o, v, p, r) => TailCtx(Pass(c, Prop(o, v, p, Nil)), r)
    case _ => c
  }

  lemma {:induction false} TailCtxWith(c: Ctx, f: Forest, x: Forest)
    requires CtxWF(c) && WF(f) && WF(x)
    ensures CtxWF(TailCtx(c, f)) && WF(TailOf(f)) && WF(WithTail(f, x))
    ensures Plug(TailCtx(c, f), x) == Plug(c, WithTail(f, x))
    ensures Block(TailCtx(c, f), x) == Block(c, WithTail(f, x))
    ensures WithTail(f, TailOf(f)) == f && TailCtx(c, f).In? == c.In?
    decreases f
  {
    hide PadLen, Enc, Block, Before, After, Plug, Pass, BE32;
    match f
    case Nop(r) =>
      PassKind(c, Nop(Nil));
      PassItem(c, Nop(Nil), r);
      TailCtxWith(Pass(c, Nop(Nil)), r, x);
      PassItem(c, Nop(Nil), WithTail(r, x));
    case Prop(o, v, p, r) =>
      PassKind(c, Prop(o, v, p, Nil));
      PassItem(c, Prop(o, v, p, Nil), r);
      TailCtxWith(Pass(c, Prop(o, v, p, Nil)), r, x);
      PassItem(c, Prop(o, v, p, Nil), WithTail(r, x));
    case _ =>
  }

  lemma {:induction false} TailCtxPos(c: Ctx, f: Forest)
    requires CtxWF(c) && WF(f)
    ensures CtxWF(TailCtx(c, f)) && Pos(TailCtx(c, f)) == AfterProps(Block(c, f), Pos(c))
    decreases f
  {
    hide PadLen, Enc, Block, Before, After, Plug, Pass, BE32, NextTag, U32, AfterProps, CtxWF;
    match f
    case Nil => PropsEnd(c, f);
    case Nop(r) =>
      TagNop(c, r);
      AfterPropsStep(Block(c, f), Pos(c));
      PassItem(c, Nop(Nil), r);
      TailCtxPos(Pass(c, Nop(Nil)), r);
    case Prop(o, v, p, r) =>
      TagProp(c, o, v, p, r);
      AfterPropsStep(Block(c, f), Pos(c));
      PassItem(c, Prop(o, v, p, Nil), r);
      TailCtxPos(Pass(c, Prop(o, v, p, Nil)), r);
    case Node(n, p, k, r) => PropsEnd(c, f);
  }

  lemma AfterPropsStep(s: bytes, o: nat)
    ensures var t := NextTag(s, o);
            AfterProps(s, o) == if t.tag == PROP || t.tag == NOP then AfterProps(s, t.next) else o
  {
    hide NextTag;
  }

  lemma {:induction false} PropsEnd(c: Ctx, f: Forest)
    requires CtxWF(c) && WF(f) && (f.Nil? || f.Node?)
    ensures AfterProps(Block(c, f), Pos(c)) == Pos(c)
  {
    hide PadLen, Enc, Block, Before, After, Plug, Pass, BE32, NextTag, U32, AfterProps;
    AfterPropsStep(Block(c, f), Pos(c));
    if f.Node? { TagBegin(c, f.name, f.npad, f.kids, f.rest); }
    else if c.In? { TagEndNode(c); } else { TagEnd(c); }
  }

  lemma {:induction false} TailWF(f: Forest)
    requires WF(f)
    ensures WF(TailOf(f))
  {
    match f
    case Nop(r) => TailWF(r);
    case Prop(_, _, _, r) => TailWF(r);
    case _ =>
  }

  lemma GapNode(a: bytes, g: bytes, z: bytes, t: bytes, n: bytes, e: bytes, pad: nat)
    requires |g| == 9 + |n| + pad && |t| == 4 && |e| == 4
    ensures Overwrite(Overwrite(Overwrite(Overwrite(a + g + z, |a|, t), |a| + 4, Zeros(|n| + 1 + pad)), |a| + 4, n),
                      |a| + 5 + |n| + pad, e)
         == a + (t + n + [0] + Zeros(pad) + e) + z
  {
    hide Overwrite, Zeros;
    var k := |n| + 1 + pad;
    var g0, g1, g2 := g[..4], g[4..4 + k], g[4 + k..];
    var h, w, y := a + t, [0] + Zeros(pad), g2 + z;
    assert g == g0 + g1 + g2;
    Assoc(g0, g1, g2);
    Assoc4(a, g0, g1 + g2, z);
    OverwriteMiddle(a, g0, g1 + g2 + z, t);
    Assoc(g1, g2, z);
    Assoc(h, g1, y);
    OverwriteMiddle(h, g1, y, Zeros(k));
    ZerosSplit(|n|, pad);
    Assoc(Zeros(|n|), [0], Zeros(pad));
    Assoc4(h, Zeros(|n|), w, y);
    OverwriteMiddle(h, Zeros(|n|), w + y, n);
    Assoc4(h, n, w, y);
    Assoc(h + n + w, g2, z);
    OverwriteMiddle(h + n + w, g2, z, e);
    GapJoined(a, t, n, Zeros(pad), e, z);
  }

  lemma GapJoined(a: bytes, t: bytes, n: bytes, p: bytes, e: bytes, z: bytes)
    ensures a + t + n + ([0] + p) + e + z == a + (t + n + [0] + p + e) + z
  {
    Assoc(t + n, [0], p);
    Assoc4(a, t, n, [0] + p);
    Assoc(a, t + n + ([0] + p), e);
    Assoc(a, t, n);
    Assoc(a, t + n, [0] + p);
  }

  lemma ZerosSplit(i: nat, j: nat)
    ensures Zeros(i + 1 + j) == Zeros(i) + ([0] + Zeros(j))
  {}

  function NewNode(name: bytes, rest: Forest): Forest {
    Node(name, Zeros(PadLen(|name| + 1)), Nil, rest)
  }

  /** The gap at `d` filled with the empty node. */
  lemma {:induction false} PlaceNodeIs(b: bytes, d: Ctx, g: Forest, name: bytes)
    requires Editable(b) && CtxWF(d) && WF(g) && StructOf(b) == Block(d, g) && 0 !in name
    requires PlaceNode(b, Pos(d), name).err >= 0
    ensures WF(NewNode(name, g)) && PlaceNode(b, Pos(d), name).err == Pos(d)
    ensures Kept(b, PlaceNode(b, Pos(d), name).blob)
    ensures StructOf(PlaceNode(b, Pos(d), name).blob) == Block(d, NewNode(name, g))
  {
    hide U32, BE32, PadLen, Align4, Enc, Block, Before, After, SpliceStruct, Overwrite, Splice, StructOf, Kept;
    hide SizeStruct, DataSize, BlocksInside, LayNode, Zeros;
    AlignIsPad(|name| + 1);
    var x, size := Pos(d), NodeSize(name);
    StructSize(b);
    BlockFrom(d, g);
    assert SpliceError(b, OffStruct(b) + x, 0, size) == 0;
    SpliceRoom(b, OffStruct(b) + x, 0, size);
    KeptSplice(b, x, 0, size);
    var b1 := SpliceStruct(b, x, 0, size);
    KeptIs(b, b1);
    var gap := b[OffStruct(b) + x..OffStruct(b) + x + size];
    assert StructOf(b1) == Before(d) + gap + (Enc(g) + After(d));
    LayNodeIs(b, b1, d, g, name, gap);
  }

  lemma {:induction false} LayNodeIs(b: bytes, b1: bytes, d: Ctx, g: Forest, name: bytes, gap: bytes)
    requires Kept(b, b1) && CtxWF(d) && WF(g) && 0 !in name && |gap| == NodeSize(name)
    requires StructOf(b1) == Before(d) + gap + (Enc(g) + After(d))
    ensures WF(NewNode(name, g)) && OffStruct(b1) + Pos(d) + NodeSize(name) <= |b1|
    ensures var q := LayNode(b1, OffStruct(b1) + Pos(d), name);
            Kept(b, q) && StructOf(q) == Block(d, NewNode(name, g))
  {
    hide U32, BE32, PadLen, Enc, Block, Before, After, Overwrite, StructOf, Kept, SizeStruct, DataSize;
    hide BlocksInside, CtxWF, Align4, Zeros;
    KeptIs(b, b1);
    StructSize(b1);
    AlignIsPad(|name| + 1);
    var x, o, k := Pos(d), OffStruct(b1), Align4(|name| + 1);
    KeptEdit(b1, x, BE32(BEGIN_NODE));
    var b2 := Put(b1, o + x, BEGIN_NODE);
    KeptIs(b1, b2);
    KeptEdit(b2, x + 4, Zeros(k));
    var b3 := Overwrite(b2, o + x + 4, Zeros(k));
    KeptIs(b2, b3);
    KeptEdit(b3, x + 4, name);
    var b4 := Overwrite(b3, o + x + 4, name);
    KeptIs(b3, b4);
    KeptEdit(b4, x + 4 + k, BE32(END_NODE));
    KeptTrans(b, b1, b2);
    KeptTrans(b, b2, b3);
    KeptTrans(b, b3, b4);
    KeptTrans(b, b4, Put(b4, o + x + 4 + k, END_NODE));
    GapNode(Before(d), gap, Enc(g) + After(d), BE32(BEGIN_NODE), name, BE32(END_NODE), PadLen(|name| + 1));
    NewNodeBlock(d, name, g);
  }

  lemma NewNodeBlock(d: Ctx, name: bytes, g: Forest)
    requires CtxWF(d) && WF(g) && 0 !in name
    ensures WF(NewNode(name, g))
    ensures Block(d, NewNode(name, g))
         == Before(d) + (BE32(BEGIN_NODE) + name + [0] + Zeros(PadLen(|name| + 1)) + BE32(END_NODE))
             + (Enc(g) + After(d))
  {
    hide BE32, PadLen, Before, After, Zeros, NodeHead;
    var h, e := NodeHead(name, Zeros(PadLen(|name| + 1))), BE32(END_NODE);
    assert Enc(Nil) == [];
    NodeBlock(Before(d), h, e, Enc(g), After(d));
    HeadIs(name, Zeros(PadLen(|name| + 1)));
  }

  lemma HeadIs(name: bytes, npad: bytes)
    ensures NodeHead(name, npad) == BE32(BEGIN_NODE) + name + [0] + npad
  {}

  lemma NodeBlock(a: bytes, h: bytes, e: bytes, g: bytes, z: bytes)
    ensures a + (h + [] + e + g) + z == a + (h + e) + (g + z)
  {
    assert h + [] == h;
    Assoc(a, h + e, g);
    Assoc(a + (h + e), g, z);
  }

  // ----- the refinement

  function WithNode(x: Tree, name: bytes): Tree {
    match x
    case TProp(n, v, r) => TProp(n, v, WithNode(r, name))
    case _ => TNode(name, TNil, x)
  }

  lemma {:induction false} WithTailMeans(t: bytes, f: Forest, name: bytes)
    requires Resolved(t, f)
    ensures Resolved(t, TailOf(f)) && Resolved(t, WithTail(f, NewNode(name, TailOf(f))))
    ensures Meaning(t, WithTail(f, NewNode(name, TailOf(f)))) == WithNode(Meaning(t, f), name)
  {
    hide CString, PadLen, Zeros;
    match f
    case Nil =>
    case Nop(r) => WithTailMeans(t, r, name);
    case Prop(_, _, _, r) => WithTailMeans(t, r, name);
    case Node(_, _, _, _) =>
  }

  lemma {:induction false} AddCases(b: bytes, at: nat, c: Ctx, f: Forest, name: bytes)
    requires Encodes(b, at, c, f) && f.Node?
    ensures var o := FindChild(f.kids, HeadEnd(c, f), name);
            && (o >= 0 ==> AddSubnode(b, at, Pos(c), name) == Outcome(ERR_EXISTS, b))
            && (o < 0 ==> AddSubnode(b, at, Pos(c), name) == PlaceNode(b, AfterProps(StructOf(b), HeadEnd(c, f)), name))
  {
    hide U32, CString, Block, StructOf, StringsOf, Plug, NextTag, Enc, PadLen, Before, After, BE32, Probe;
    hide PlaceNode, Misordered, Trail, FirstMatch, FindChild, NodeEnd, AfterProps;
    EncodesIs(b, at, c, f);
    RwProbeIs(b, at);
    SubnodeIs(c, f, name);
    TagBegin(c, f.name, f.npad, f.kids, f.rest);
    FindChildError(f.kids, HeadEnd(c, f), name);
  }

  lemma {:induction false} FindChildError(f: Forest, base: nat, name: bytes)
    requires WF(f)
    ensures FindChild(f, base, name) >= 0 || FindChild(f, base, name) == ERR_NOTFOUND
  {}

  /** fdt_add_subnode refines the addition of a node. It fails with EXISTS
      exactly when a child matches the name, and with NOSPACE exactly when there
      is no room; then the blob is as it was. Otherwise it returns the offset of
      the new, empty node, which stands behind the parent's properties, and
      nothing else has changed. */
  lemma {:induction false} AddSubnodeRefines(b: bytes, at: nat, c: Ctx, f: Forest, name: bytes) returns (d: Ctx)
    requires Encodes(b, at, c, f) && f.Node? && 0 !in name
    ensures var r := AddSubnode(b, at, Pos(c), name);
            && (r.err == ERR_EXISTS <==> FindChild(f.kids, HeadEnd(c, f), name) >= 0)
            && (r.err < 0 && r.err != ERR_EXISTS ==>
                  r.err == ERR_NOSPACE && DataSize(b) + NodeSize(name) > TotalSize(b))
            && (r.err < 0 ==> r.blob == b)
            && (r.err >= 0 ==>
                  && DataSize(b) + NodeSize(name) <= TotalSize(b)
                  && d == TailCtx(In(c, f.name, f.npad, Nil, f.rest), f.kids)
                  && d.In? && CtxWF(d) && r.err == Pos(d) && Kept(b, r.blob)
                  && Encodes(r.blob, at, d, NewNode(name, TailOf(f.kids)))
                  && TreeOf(r.blob, at, d, NewNode(name, TailOf(f.kids)))
                  == TreeWith(b, at, c, f, WithNode(ItemsOf(b, at, c, f), name)))
  {
    hide U32, CString, Block, StructOf, StringsOf, Plug, NextTag, Enc, PadLen, Before, After, BE32, Probe;
    hide PlaceNode, FindChild, NodeEnd, AfterProps, Encodes, WF, CtxWF, AddSubnode, Resolved, Meaning, Prefix;
    hide HeaderOf, Kept, NewNode, TreeOf, TreeWith, ItemsOf, WithTail, TailOf, DataSize, NodeSize;
    EncodesIs(b, at, c, f);
    AddCases(b, at, c, f, name);
    EnterIs(c, f.name, f.npad, f.kids, f.rest);
    var i := In(c, f.name, f.npad, Nil, f.rest);
    d := TailCtx(i, f.kids);
    TailCtxPos(i, f.kids);
    TailWF(f.kids);
    TailCtxWith(i, f.kids, TailOf(f.kids));
    BlockFrom(d, TailOf(f.kids));
    PlaceNodeFits(b, Pos(d), name);
    if AddSubnode(b, at, Pos(c), name).err >= 0 {
      PlaceNodeIs(b, d, TailOf(f.kids), name);
      TailCtxWith(i, f.kids, NewNode(name, TailOf(f.kids)));
      AddedTree(b, AddSubnode(b, at, Pos(c), name).blob, at, c, f, d, name);
    }
  }

  lemma PlaceNodeFits(b: bytes, o: nat, name: bytes)
    requires Editable(b) && o <= |StructOf(b)|
    ensures var r := PlaceNode(b, o, name);
            && (r.err >= 0 ==> DataSize(b) + NodeSize(name) <= TotalSize(b))
            && (r.err < 0 ==> r.err == ERR_NOSPACE && r.blob == b && DataSize(b) + NodeSize(name) > TotalSize(b))
  {
    hide U32, LayNode, SpliceStruct, NodeSize;
  }

  lemma {:induction false} AddedTree(b: bytes, r: bytes, at: nat, c: Ctx, f: Forest, d: Ctx, name: bytes)
    requires Encodes(b, at, c, f) && f.Node? && Kept(b, r) && CtxWF(d) && WF(NewNode(name, TailOf(f.kids)))
    requires StructOf(r) == Block(d, NewNode(name, TailOf(f.kids)))
    requires var k := WithTail(f.kids, NewNode(name, TailOf(f.kids)));
             var i := In(c, f.name, f.npad, Nil, f.rest);
             && WF(k) && Plug(d, NewNode(name, TailOf(f.kids))) == Plug(i, k)
             && Block(d, NewNode(name, TailOf(f.kids))) == Block(i, k)
    ensures Encodes(r, at, d, NewNode(name, TailOf(f.kids)))
    ensures TreeOf(r, at, d, NewNode(name, TailOf(f.kids)))
         == TreeWith(b, at, c, f, WithNode(ItemsOf(b, at, c, f), name))
  {
    hide U32, CString, Block, StructOf, StringsOf, Prefix, HeaderOf, Plug, Probe, Magic, Kept, NewNode, WithTail;
    hide TailOf, Meaning, Resolved;
    EncodesIs(b, at, c, f);
    ResolvedParts(b, at, c, f);
    WithTailMeans(StringsOf(b), f.kids, name);
    var k := WithTail(f.kids, NewNode(name, TailOf(f.kids)));
    EnterIs(c, f.name, f.npad, k, f.rest);
    KeptStrings(b, r);
    UpdatedFrom(b, b, r, at, c, f, k);
    UpdatedTree(b, r, at, c, f, k);
  }
}
