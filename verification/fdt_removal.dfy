/** Deleting and NOPing out: both remove the same thing from the tree. */
module FdtRemoval {
  import opened Bytes
  import opened FdtFormat
  import opened FdtWalk
  import opened FdtNodes
  import opened FdtRead
  import opened FdtTree
  import opened FdtAncestors
  import opened FdtProps
  import opened FdtSplice
  import opened FdtEdit
  import opened FdtUpdate
  import opened FdtMeaning
  import opened FdtSetProp
  import opened FdtDelete

  // ----- the structure block after the edit

  /** `n` NOP items in front of a list. */
  function NopItems(n: nat, rest: Forest): Forest {
    if n == 0 then rest else Nop(NopItems(n - 1, rest))
  }

  lemma {:induction false} NopItemsIs(n: nat, rest: Forest, t: bytes)
    requires WF(rest)
    ensures WF(NopItems(n, rest)) && Size(NopItems(n, rest)) == 4 * n + Size(rest)
    ensures Enc(NopItems(n, rest)) == Nops(n) + Enc(rest)
    ensures Resolved(t, rest) ==> Resolved(t, NopItems(n, rest)) && Meaning(t, NopItems(n, rest)) == Meaning(t, rest)
  {
    hide BE32, CString, PadLen;
    if n > 0 {
      NopItemsIs(n - 1, rest, t);
      NopsFront(n);
      Assoc(BE32(NOP), Nops(n - 1), Enc(rest));
    } else {
      assert [] + Enc(rest) == Enc(rest);
    }
  }

  lemma {:induction false} NopsFront(n: nat)
    requires n > 0
    ensures Nops(n) == BE32(NOP) + Nops(n - 1)
  {
    hide BE32;
    if n > 1 {
      NopsFront(n - 1);
      Assoc(BE32(NOP), Nops(n - 2), BE32(NOP));
    } else {
      assert [] + BE32(NOP) == BE32(NOP) + [];
    }
  }

  /** Closing the gap where the items `g` stood. */
  lemma {:induction false} CutIs(b: bytes, d: Ctx, g: Forest, r: Forest)
    requires Editable(b) && CtxWF(d) && WF(g) && WF(r) && WF(Append(g, r)) && StructOf(b) == Block(d, Append(g, r))
    ensures Size(g) <= SizeStruct(b)
    ensures var q := CloseGap(b, Pos(d), Size(g));
            q.err == 0 && Kept(b, q.blob) && StructOf(q.blob) == Block(d, r)
  {
    hide U32, BE32, PadLen, Enc, Before, After, SpliceStruct, StructOf, Kept;
    StructSize(b);
    AppendEnc(g, r);
    var a, m, z := Before(d), Enc(g), Enc(r) + After(d);
    Assoc4(a, m, Enc(r), After(d));
    Assoc(a + m, Enc(r), After(d));
    assert StructOf(b) == a + m + z;
    assert (a + m + z)[..|a|] == a && (a + m + z)[|a| + |m|..] == z;
    KeptSplice(b, Pos(d), Size(g), 0);
    assert a + [] + z == a + Enc(r) + After(d) by { Assoc(a, Enc(r), After(d)); assert a + [] == a; }
  }

  /** Writing NOP tags over the items `g`. */
  lemma {:induction false} BlotIs(b: bytes, d: Ctx, g: Forest, r: Forest, n: nat)
    requires Editable(b) && CtxWF(d) && WF(g) && WF(r) && WF(Append(g, r)) && StructOf(b) == Block(d, Append(g, r))
    requires Size(g) == 4 * n
    ensures OffStruct(b) + Pos(d) + 4 * n <= |b| && WF(NopItems(n, r))
    ensures var q := Overwrite(b, OffStruct(b) + Pos(d), Nops(n));
            Kept(b, q) && StructOf(q) == Block(d, NopItems(n, r))
  {
    hide U32, BE32, PadLen, Enc, Before, After, StructOf, Kept, Overwrite, Nops;
    StructSize(b);
    AppendEnc(g, r);
    NopItemsIs(n, r, []);
    var a, m, z := Before(d), Enc(g), Enc(r) + After(d);
    Assoc4(a, m, Enc(r), After(d));
    Assoc(a + m, Enc(r), After(d));
    assert StructOf(b) == a + m + z;
    KeptEdit(b, Pos(d), Nops(n));
    OverwriteMiddle(a, m, z, Nops(n));
    Assoc4(a, Nops(n), Enc(r), After(d));
    Assoc(a + Nops(n), Enc(r), After(d));
  }

  /** The structure block of an encoded tree is a whole number of tags. */
  lemma {:induction false} EncodesWhole(b: bytes, at: nat, c: Ctx, f: Forest)
    requires Encodes(b, at, c, f)
    ensures WholeTags(b)
  {
    hide U32, CString, Block, StructOf, StringsOf, Plug, Enc, PadLen, BE32, Aligned, Resolved;
    EncodesIs(b, at, c, f);
    StructSize(b);
    PlugEnc(c, f);
    SizeAligned(Plug(c, f));
    AlignedSum(Size(Plug(c, f)), 4) by { FourAligned(); }
  }

  lemma FourAligned()
    ensures Aligned(4)
  {}

  // ----- properties

  /** What every removal of the property `name` of the node `f` amounts to. */
  predicate PropRemoved(b: bytes, r: bytes, at: nat, c: Ctx, f: Forest, name: bytes, k: Forest)
    requires Encodes(b, at, c, f) && f.Node?
  {
    && NodeUpdated(b, r, at, c, f, k)
    && TreeOf(r, at, c, f.(kids := k)) == TreeWith(b, at, c, f, WithoutProp(ItemsOf(b, at, c, f), name))
  }

  lemma {:induction false} RemovedFrom(b: bytes, r: bytes, at: nat, c: Ctx, f: Forest, name: bytes, x: Forest)
    requires Encodes(b, at, c, f) && f.Node? && Kept(b, r)
    requires SuffixFrom(f.kids, StringsOf(b), name).Prop?
    requires Resolved(StringsOf(b), SuffixFrom(f.kids, StringsOf(b), name).rest)
    requires WF(x) && Resolved(StringsOf(b), x)
    requires Meaning(StringsOf(b), x) == Meaning(StringsOf(b), SuffixFrom(f.kids, StringsOf(b), name).rest)
    requires WF(SwapFrom(f.kids, StringsOf(b), name, x))
    requires StructOf(r) == Block(c, f.(kids := SwapFrom(f.kids, StringsOf(b), name, x)))
    ensures PropRemoved(b, r, at, c, f, name, SwapFrom(f.kids, StringsOf(b), name, x))
  {
    hide U32, CString, Block, StructOf, StringsOf, Prefix, HeaderOf, Plug, WF, CtxWF, Probe, Magic, Kept, NodeUpdated;
    var k := SwapFrom(f.kids, StringsOf(b), name, x);
    EncodesIs(b, at, c, f);
    ResolvedParts(b, at, c, f);
    SwapMeans(f.kids, StringsOf(b), name, x);
    KeptStrings(b, r);
    UpdatedFrom(b, b, r, at, c, f, k);
    UpdatedTree(b, r, at, c, f, k);
  }

  /** Where the property stands, and what its removal leaves. */
  lemma {:induction false} FoundProp(b: bytes, at: nat, c: Ctx, f: Forest, name: bytes) returns (d: Ctx)
    requires Encodes(b, at, c, f) && f.Node?
    requires PropIn(f.kids, HeadEnd(c, f), StringsOf(b), name) >= 0
    ensures var t := StringsOf(b);
            var g := SuffixFrom(f.kids, t, name);
            && CtxWF(d) && WF(g) && g.Prop? && StructOf(b) == Block(d, g)
            && Pos(d) == PropIn(f.kids, HeadEnd(c, f), t, name)
            && Resolved(t, g.rest) && WF(g.rest) && NextTag(StructOf(b), Pos(d)).tag == PROP
            && Pos(d) + 8 <= |StructOf(b)| && U32(StructOf(b), Pos(d) + 4) == |g.value|
    ensures forall x | WF(x) ::
              WF(SwapFrom(f.kids, StringsOf(b), name, x)) &&
              Block(d, x) == Block(c, f.(kids := SwapFrom(f.kids, StringsOf(b), name, x)))
  {
    hide U32, CString, Block, StructOf, StringsOf, Plug, NextTag, Enc, PadLen, Before, After, BE32;
    hide PropIn, SwapFrom, SuffixFrom, Pos, CtxWF, Size, Meaning, Prefix, BlocksInside;
    ResolvedParts(b, at, c, f);
    EnterIs(c, f.name, f.npad, f.kids, f.rest);
    var t, i := StringsOf(b), In(c, f.name, f.npad, Nil, f.rest);
    d := LocateProp(i, f.kids, t, name);
    var g := SuffixFrom(f.kids, t, name);
    SwapMeans(f.kids, t, name, Nil);
    TagProp(d, g.nameoff, g.value, g.pad, g.rest);
    forall x | WF(x) ensures Block(d, x) == Block(c, f.(kids := SwapFrom(f.kids, t, name, x))) {
      EnterIs(c, f.name, f.npad, SwapFrom(f.kids, t, name, x), f.rest);
    }
  }

  /** The single item that a removal takes out. */
  function Alone(g: Forest): Forest
    requires g.Prop?
  {
    Prop(g.nameoff, g.value, g.pad, Nil)
  }

  lemma AloneIs(g: Forest)
    requires g.Prop? && WF(g)
    ensures WF(Alone(g)) && WF(g.rest) && Append(Alone(g), g.rest) == g
    ensures Size(Alone(g)) == 12 + Align4(|g.value|) && 4 * PropWords4(|g.value|) == Size(Alone(g))
  {
    AlignIsPad(|g.value|);
  }

  /** Both routines find the same property, or none. */
  lemma {:induction false} RemovalCases(b: bytes, at: nat, c: Ctx, f: Forest, name: bytes)
    requires Encodes(b, at, c, f) && f.Node?
    ensures var o := PropIn(f.kids, HeadEnd(c, f), StringsOf(b), name);
            && (o >= 0 <==> HasProp(ItemsOf(b, at, c, f), name)) && (o < 0 ==> o == ERR_NOTFOUND)
            && (o >= 0 ==>
                  && NextTag(StructOf(b), o).tag == PROP && Aligned(o) && o >= 5
                  && o + 12 + U32(StructOf(b), o + 4) <= |StructOf(b)|)
            && PropOffset(b, at, Pos(c), name) == o
  {
    hide U32, CString, Block, StructOf, StringsOf, Prefix, Plug, NextTag, Enc, PadLen, Before, After, BE32, PropIn;
    hide PropOffset, Probe;
    PropOffsetIs(b, at, c, f, name);
    ResolvedParts(b, at, c, f);
    PropInHas(f.kids, HeadEnd(c, f), StringsOf(b), name);
  }

  lemma DelPropAt(b: bytes, at: nat, node: int, name: bytes)
    requires Editable(b) && Probe(b, at) >= 0
    ensures var o := PropOffset(b, at, node, name);
            && (o < 0 ==> DelProp(b, at, node, name) == Outcome(o, b))
            && (o >= 0 && 12 + Align4(U32(StructOf(b), o + 4)) <= SizeStruct(b) ==>
                  DelProp(b, at, node, name) == CloseGap(b, o, 12 + Align4(U32(StructOf(b), o + 4))))
  {
    hide U32, StructOf, PropOffset, Misordered, Probe, CloseGap, Align4;
    RwProbeIs(b, at);
  }

  /** fdt_delprop removes exactly the first property of that name, or reports
      that the node has none. */
  lemma {:induction false} DelPropRefines(b: bytes, at: nat, c: Ctx, f: Forest, name: bytes) returns (k: Forest)
    requires Encodes(b, at, c, f) && f.Node?
    ensures var r := DelProp(b, at, Pos(c), name);
            && r.err == (if HasProp(ItemsOf(b, at, c, f), name) then 0 else ERR_NOTFOUND)
            && (r.err != 0 ==> r.blob == b)
            && (r.err == 0 ==> PropRemoved(b, r.blob, at, c, f, name, k))
  {
    hide U32, CString, Block, StructOf, StringsOf, Prefix, Plug, NextTag, Enc, PadLen, Before, After, BE32, PropIn;
    hide PropOffset, Probe, CloseGap, Align4, Kept, PropRemoved, DelProp, ItemsOf, HeaderOf, Encodes, WF, CtxWF;
    hide Resolved, Meaning, SwapFrom, SuffixFrom, Size, Append, Editable, HasProp;
    EncodesIs(b, at, c, f);
    RemovalCases(b, at, c, f, name);
    DelPropAt(b, at, Pos(c), name);
    k := f.kids;
    if PropIn(f.kids, HeadEnd(c, f), StringsOf(b), name) >= 0 {
      var d := FoundProp(b, at, c, f, name);
      var g := SuffixFrom(f.kids, StringsOf(b), name);
      AloneIs(g);
      CutIs(b, d, Alone(g), g.rest);
      RemovedFrom(b, DelProp(b, at, Pos(c), name).blob, at, c, f, name, g.rest);
      k := SwapFrom(f.kids, StringsOf(b), name, g.rest);
    }
  }

  /** The items with NOP items in the place of the first property `name`. */
  function Blotted(f: Forest, t: bytes, name: bytes): (k: Forest)
    requires WF(f)
    ensures WF(k) && Size(k) == Size(f)
  {
    hide CString, PadLen, Enc, NopItems, PropWords4; match f
    case Nil => Nil
    case Nop(r) => Nop(Blotted(r, t, name))
    case Prop(o, v, p, r) =>
      if CString(t, ToInt(o)) == Found(name) then
        BlottedWords(f, t, 0, 0);
        NopItems(PropWords4(|v|), r)
      else Prop(o, v, p, Blotted(r, t, name))
    case Node(_, _, _, _) => f
  }

  lemma {:induction false} BlottedIs(f: Forest, t: bytes, name: bytes)
    requires WF(f)
    ensures var g := SuffixFrom(f, t, name);
            if !g.Prop? then Blotted(f, t, name) == f
            else
              && |g.value| < TWO32
              && Blotted(f, t, name) == SwapFrom(f, t, name, NopItems(PropWords4(|g.value|), g.rest))
  {
    hide CString, PadLen, Enc, NopItems, PropWords4;
    match f
    case Nil =>
    case Nop(r) => BlottedIs(r, t, name);
    case Prop(o, v, p, r) => if CString(t, ToInt(o)) != Found(name) { BlottedIs(r, t, name); }
    case Node(_, _, _, _) =>
  }

  lemma {:induction false} BlottedWords(f: Forest, t: bytes, base: nat, d: int)
    requires WF(f) && f.Prop?
    ensures var x := NopItems(PropWords4(|f.value|), f.rest);
            && WF(x) && Size(x) == Size(f) && 4 * PropWords4(|f.value|) == 12 + |f.value| + |f.pad|
            && Preorder(x, base, d) == Preorder(f.rest, base + 12 + |f.value| + |f.pad|, d)
  {
    hide PadLen, Enc, Preorder, NopItems, PropWords4;
    AloneIs(f);
    AlonePlus(f);
    NopItemsIs(PropWords4(|f.value|), f.rest, t);
    NopItemsPreorder(PropWords4(|f.value|), f.rest, base, d);
    AlignIsPad(|f.value|);
  }

  /** fdt_nop_property does the same to the tree, and moves nothing. */
  lemma {:induction false} NopPropRefines(b: bytes, at: nat, c: Ctx, f: Forest, name: bytes) returns (k: Forest)
    requires Encodes(b, at, c, f) && f.Node?
    ensures WholeTags(b)
    ensures var r := NopProp(b, at, Pos(c), name);
            && r.err == (if HasProp(ItemsOf(b, at, c, f), name) then 0 else ERR_NOTFOUND)
            && (r.err != 0 ==> r.blob == b)
            && (r.err == 0 ==> PropRemoved(b, r.blob, at, c, f, name, k) && WF(k) && Size(k) == Size(f.kids))
            && (r.err == 0 ==> k == Blotted(f.kids, StringsOf(b), name))
  {
    hide U32, CString, Block, StructOf, StringsOf, Prefix, Plug, NextTag, Enc, PadLen, Before, After, BE32, PropIn;
    hide PropOffset, Probe, Align4, Kept, Overwrite, Nops, PropRemoved, PropWords4, ItemsOf, HeaderOf, Aligned;
    hide Encodes, WF, CtxWF, Resolved, Meaning, SwapFrom, SuffixFrom, Size, Append, Editable, HasProp, NopItems;
    hide Blotted;
    EncodesWhole(b, at, c, f);
    EncodesIs(b, at, c, f);
    RemovalCases(b, at, c, f, name);
    k := f.kids;
    if PropIn(f.kids, HeadEnd(c, f), StringsOf(b), name) >= 0 {
      var d := FoundProp(b, at, c, f, name);
      var g := SuffixFrom(f.kids, StringsOf(b), name);
      AloneIs(g);
      var n := PropWords4(|g.value|);
      BlotIs(b, d, Alone(g), g.rest, n);
      NopItemsIs(n, g.rest, StringsOf(b));
      var x := NopItems(n, g.rest);
      RemovedFrom(b, NopProp(b, at, Pos(c), name).blob, at, c, f, name, x);
      k := SwapFrom(f.kids, StringsOf(b), name, x);
      AlonePlus(g);
      SwapSize(f.kids, StringsOf(b), name, x);
      BlottedIs(f.kids, StringsOf(b), name);
    }
  }

  lemma AlonePlus(g: Forest)
    requires g.Prop? && WF(g)
    ensures WF(Alone(g)) && WF(g.rest) && Size(g) == Size(Alone(g)) + Size(g.rest)
  {
    hide PadLen, Enc;
  }

  lemma {:induction false} SwapSize(f: Forest, t: bytes, name: bytes, x: Forest)
    requires WF(f) && WF(x) && WF(SwapFrom(f, t, name, x)) && WF(SuffixFrom(f, t, name))
    requires Size(x) == Size(SuffixFrom(f, t, name)) && SuffixFrom(f, t, name).Prop?
    ensures Size(SwapFrom(f, t, name, x)) == Size(f)
    decreases f
  {
    hide CString, PadLen, Enc;
    match f
    case Nop(r) => SwapSize(r, t, name, x);
    case Prop(o, v, p, r) => if CString(t, ToInt(o)) != Found(name) { SwapSize(r, t, name, x); }
  }

  // ----- nodes

  /** What every removal of the node `f` at `c` amounts to: the later siblings
      stand in its place. */
  predicate NodeRemoved(b: bytes, r: bytes, at: nat, c: Ctx, f: Forest, g: Forest)
    requires Encodes(b, at, c, f) && f.Node?
  {
    ResolvedParts(b, at, c, f);
    && Kept(b, r) && Encodes(r, at, c, g)
    && TreeOf(r, at, c, g) == Graft(StringsOf(b), c, Meaning(StringsOf(b), f.rest))
  }

  lemma {:induction false} NodeRemovedFrom(b: bytes, r: bytes, at: nat, c: Ctx, f: Forest, g: Forest)
    requires Encodes(b, at, c, f) && f.Node? && Kept(b, r)
    requires Resolved(StringsOf(b), f.rest)
    requires WF(g) && Resolved(StringsOf(b), g) && Meaning(StringsOf(b), g) == Meaning(StringsOf(b), f.rest)
    requires StructOf(r) == Block(c, g)
    ensures NodeRemoved(b, r, at, c, f, g)
  {
    hide U32, CString, Block, StructOf, StringsOf, Prefix, Plug, WF, CtxWF, BlocksInside, Meaning, Resolved;
    StructSize(b);
    StructSize(r);
    ProbeSame(b, r, at);
    ResolvedParts(b, at, c, f);
    ResolvedPlug(StringsOf(b), c, g);
  }

  /** The node itself, without its later siblings. */
  function OnlyNode(f: Forest): Forest
    requires f.Node?
  {
    Node(f.name, f.npad, f.kids, Nil)
  }

  lemma OnlyNodeIs(c: Ctx, f: Forest)
    requires CtxWF(c) && WF(f) && f.Node?
    ensures WF(OnlyNode(f)) && WF(f.rest) && Append(OnlyNode(f), f.rest) == f
    ensures Size(OnlyNode(f)) == NodeEnd(c, f) - Pos(c) && Size(f) == Size(OnlyNode(f)) + Size(f.rest)
  {
    hide PadLen, Enc, Before;
  }

  lemma {:induction false} EndIs(b: bytes, at: nat, c: Ctx, f: Forest)
    requires Encodes(b, at, c, f) && f.Node?
    ensures EndOffset(StructOf(b), Pos(c)) == NodeEnd(c, f) && NodeEnd(c, f) <= |StructOf(b)|
    ensures Aligned(Pos(c)) && Aligned(NodeEnd(c, f))
  {
    hide U32, CString, StructOf, StringsOf, Trail, Block, Plug, Aligned, Enc, PadLen, Before, Resolved;
    NodeEndIs(c, f);
    EndOffsetRange(StructOf(b), Pos(c));
  }

  /** fdt_del_node takes out exactly the node and what is below it. */
  lemma {:induction false} DelNodeRefines(b: bytes, at: nat, c: Ctx, f: Forest)
    requires Encodes(b, at, c, f) && f.Node?
    ensures DelNode(b, at, Pos(c)).err == 0
    ensures NodeRemoved(b, DelNode(b, at, Pos(c)).blob, at, c, f, f.rest)
  {
    hide U32, CString, Block, StructOf, StringsOf, Prefix, Plug, Enc, PadLen, Before, After, BE32, Probe, CloseGap;
    hide Kept, NodeRemoved, HeaderOf, Encodes, WF, CtxWF, Resolved, Meaning, Size, Append, EndOffset, NodeEnd;
    hide OnlyNode, Misordered;
    EncodesIs(b, at, c, f);
    RwProbeIs(b, at);
    EndIs(b, at, c, f);
    OnlyNodeIs(c, f);
    CutIs(b, c, OnlyNode(f), f.rest);
    ResolvedParts(b, at, c, f);
    NodeRemovedFrom(b, DelNode(b, at, Pos(c)).blob, at, c, f, f.rest);
  }

  /** fdt_nop_node takes the same out of the tree, and moves nothing. */
  lemma {:induction false} NopNodeRefines(b: bytes, at: nat, c: Ctx, f: Forest)
    requires Encodes(b, at, c, f) && f.Node?
    ensures WholeTags(b)
    ensures NopNode(b, Pos(c)).err == 0
    ensures var n := (NodeEnd(c, f) - Pos(c)) / 4;
            && NodeRemoved(b, NopNode(b, Pos(c)).blob, at, c, f, NopItems(n, f.rest))
            && WF(NopItems(n, f.rest)) && Size(NopItems(n, f.rest)) == Size(f)
  {
    hide U32, CString, Block, StructOf, StringsOf, Prefix, Plug, Enc, PadLen, Before, After, BE32, Probe, Kept;
    hide NodeRemoved, HeaderOf, Encodes, WF, CtxWF, Resolved, Meaning, Size, Append, EndOffset, OnlyNode, Overwrite;
    hide Nops, NopItems, Aligned;
    EncodesWhole(b, at, c, f);
    EncodesIs(b, at, c, f);
    EndIs(b, at, c, f);
    WholeWords(Pos(c), NodeEnd(c, f));
    OnlyNodeIs(c, f);
    var n := (NodeEnd(c, f) - Pos(c)) / 4;
    BlotIs(b, c, OnlyNode(f), f.rest, n);
    ResolvedParts(b, at, c, f);
    NopItemsIs(n, f.rest, StringsOf(b));
    NodeRemovedFrom(b, NopNode(b, Pos(c)).blob, at, c, f, NopItems(n, f.rest));
  }

  /** Deleting a node and overwriting it with NOPs denote the same tree. */
  lemma {:induction false} NopNodeEqualsDelNode(b: bytes, at: nat, c: Ctx, f: Forest)
    requires Encodes(b, at, c, f) && f.Node?
    ensures WholeTags(b)
    ensures var n := (NodeEnd(c, f) - Pos(c)) / 4;
            && Encodes(NopNode(b, Pos(c)).blob, at, c, NopItems(n, f.rest))
            && Encodes(DelNode(b, at, Pos(c)).blob, at, c, f.rest)
            && TreeOf(NopNode(b, Pos(c)).blob, at, c, NopItems(n, f.rest))
            == TreeOf(DelNode(b, at, Pos(c)).blob, at, c, f.rest)
  {
    hide U32, StructOf, StringsOf, Plug, Encodes, Kept, NopNode, DelNode, TreeOf;
    EncodesWhole(b, at, c, f);
    DelNodeRefines(b, at, c, f);
    NopNodeRefines(b, at, c, f);
  }

  /** The same for a property. */
  lemma {:induction false} NopPropEqualsDelProp(b: bytes, at: nat, c: Ctx, f: Forest, name: bytes)
    returns (k: Forest, l: Forest)
    requires Encodes(b, at, c, f) && f.Node? && HasProp(ItemsOf(b, at, c, f), name)
    ensures WholeTags(b)
    ensures Encodes(NopProp(b, at, Pos(c), name).blob, at, c, f.(kids := k))
    ensures Encodes(DelProp(b, at, Pos(c), name).blob, at, c, f.(kids := l))
    ensures TreeOf(NopProp(b, at, Pos(c), name).blob, at, c, f.(kids := k))
         == TreeOf(DelProp(b, at, Pos(c), name).blob, at, c, f.(kids := l))
  {
    hide U32, StructOf, StringsOf, Plug, Encodes, NopProp, DelProp, TreeOf, ItemsOf, TreeWith, Prefix, HeaderOf;
    EncodesWhole(b, at, c, f);
    k := NopPropRefines(b, at, c, f, name);
    l := DelPropRefines(b, at, c, f, name);
  }

  // ----- no other node moves

  /** The nodes after the items at `c`, which end at offset `e`. */
  function PostVisits(c: Ctx, e: nat): seq<Visit>
    requires CtxWF(c)
  {
    match c
    case Top(_) => []
    case In(u, _, _, _, a) => Preorder(a, e + 4, Depth(u)) + PostVisits(u, e + 4 + Size(a))
  }

  lemma {:induction false} PreorderAround(c: Ctx, f: Forest)
    requires CtxWF(c) && WF(f) && WF(Plug(c, f))
    ensures Preorder(Plug(c, f), 0, 0)
         == PreVisits(c) + Preorder(f, Pos(c), Depth(c)) + PostVisits(c, Pos(c) + Size(f))
    decreases c
  {
    hide PadLen, Enc, Before, Preorder;
    match c
    case Top(b) => PreorderAppend(b, f, 0, 0);
    case In(u, n, p, b, a) =>
      AroundStep(u, n, p, b, f, a);
      PreorderAround(u, Node(n, p, Append(b, f), a));
  }

  lemma {:induction false} AroundStep(u: Ctx, n: bytes, p: bytes, b: Forest, f: Forest, a: Forest)
    requires CtxWF(In(u, n, p, b, a)) && WF(f)
    ensures var c, g := In(u, n, p, b, a), Node(n, p, Append(b, f), a);
            && WF(g) && Pos(u) + Size(g) == Pos(c) + Size(f) + 4 + Size(a)
            && PreVisits(u) + Preorder(g, Pos(u), Depth(u)) + PostVisits(u, Pos(u) + Size(g))
            == PreVisits(c) + Preorder(f, Pos(c), Depth(c)) + PostVisits(c, Pos(c) + Size(f))
  {
    hide *;
    AroundParts(u, n, p, b, f, a);
    var c, e, d := In(u, n, p, b, a), Pos(u) + 5 + |n| + |p|, Depth(u);
    var end := Pos(c) + Size(f);
    Regroup(PreVisits(u), Preorder(Node(n, p, Append(b, f), a), Pos(u), d), PostVisits(u, end + 4 + Size(a)),
      PreVisits(c), Preorder(f, Pos(c), d + 1), PostVisits(c, end),
      [Visit(Pos(u), d)], Preorder(b, e, d + 1), Preorder(a, end + 4, d));
  }

  lemma {:induction false} AroundParts(u: Ctx, n: bytes, p: bytes, b: Forest, f: Forest, a: Forest)
    requires CtxWF(In(u, n, p, b, a)) && WF(f)
    ensures var c, g := In(u, n, p, b, a), Node(n, p, Append(b, f), a);
            var e, d, end := Pos(u) + 5 + |n| + |p|, Depth(u), Pos(c) + Size(f);
            && WF(g) && WF(b) && WF(a) && CtxWF(u) && Pos(u) + Size(g) == end + 4 + Size(a) && Depth(c) == d + 1
            && Preorder(g, Pos(u), d)
            == [Visit(Pos(u), d)] + (Preorder(b, e, d + 1) + Preorder(f, Pos(c), d + 1)) + Preorder(a, end + 4, d)
            && PreVisits(c) == PreVisits(u) + [Visit(Pos(u), d)] + Preorder(b, e, d + 1)
            && PostVisits(c, end) == Preorder(a, end + 4, d) + PostVisits(u, end + 4 + Size(a))
  {
    hide PadLen, Enc, Before, Preorder, PreVisits, PostVisits, BE32, Append, Size, WF;
    var e, d := Pos(u) + 5 + |n| + |p|, Depth(u);
    CtxParts(u, n, p, b, a);
    AppendWF(b, f);
    PreorderAppend(b, f, e, d + 1);
    NodeWF(n, p, Append(b, f), a);
    PreorderNode(n, p, Append(b, f), a, Pos(u), d);
    SizeNode(n, p, Append(b, f), a);
    VisitsOf(u, n, p, b, a, Pos(In(u, n, p, b, a)) + Size(f));
  }

  lemma CtxParts(u: Ctx, n: bytes, p: bytes, b: Forest, a: Forest)
    requires CtxWF(In(u, n, p, b, a))
    ensures CtxWF(u) && WF(b) && WF(a) && 0 !in n && |p| == PadLen(|n| + 1)
    ensures Depth(In(u, n, p, b, a)) == Depth(u) + 1 && Pos(In(u, n, p, b, a)) == Pos(u) + 5 + |n| + |p| + Size(b)
  {}

  lemma VisitsOf(u: Ctx, n: bytes, p: bytes, b: Forest, a: Forest, end: nat)
    requires CtxWF(In(u, n, p, b, a))
    ensures var c := In(u, n, p, b, a);
            && PreVisits(c) == PreVisits(u) + [Visit(Pos(u), Depth(u))]
                 + Preorder(b, Pos(u) + 5 + |n| + |p|, Depth(u) + 1)
            && PostVisits(c, end) == Preorder(a, end + 4, Depth(u)) + PostVisits(u, end + 4 + Size(a))
  {
    CtxParts(u, n, p, b, a);
    PreVisitsIn(u, n, p, b, a);
    PostVisitsIn(u, n, p, b, a, end);
  }

  lemma PostVisitsIn(u: Ctx, n: bytes, p: bytes, b: Forest, a: Forest, end: nat)
    requires CtxWF(In(u, n, p, b, a))
    ensures PostVisits(In(u, n, p, b, a), end)
         == Preorder(a, end + 4, Depth(u)) + PostVisits(u, end + 4 + Size(a))
  {
    hide PadLen, Enc, Before, Preorder, BE32, Size, WF, Pos, Depth;
  }

  lemma Regroup(w: seq<Visit>, g: seq<Visit>, q: seq<Visit>, w': seq<Visit>, y: seq<Visit>, q': seq<Visit>,
                v: seq<Visit>, x: seq<Visit>, z: seq<Visit>)
    requires g == v + (x + y) + z && w' == w + v + x && q' == z + q
    ensures w + g + q == w' + y + q'
  {}

  /** After fdt_nop_node every remaining node is at the offset and depth it was
      at before. */
  lemma {:induction false} NopNodeKeepsOffsets(b: bytes, at: nat, c: Ctx, f: Forest)
    requires Encodes(b, at, c, f) && f.Node?
    ensures WholeTags(b)
    ensures var n := (NodeEnd(c, f) - Pos(c)) / 4;
            var gone := [Visit(Pos(c), Depth(c))] + Preorder(f.kids, HeadEnd(c, f), Depth(c) + 1);
            var rest := Preorder(f.rest, NodeEnd(c, f), Depth(c)) + PostVisits(c, Pos(c) + Size(f));
            && WF(Plug(c, f)) && WF(Plug(c, NopItems(n, f.rest)))
            && Preorder(Plug(c, f), 0, 0) == PreVisits(c) + gone + rest
            && Preorder(Plug(c, NopItems(n, f.rest)), 0, 0) == PreVisits(c) + rest
  {
    hide U32, CString, Block, StructOf, StringsOf, Prefix, Plug, Enc, PadLen, Before, After, BE32, Encodes;
    hide Resolved, Append, EndOffset, Aligned, Preorder, PostVisits, PreVisits, NopItems;
    hide Size, WF, CtxWF, Pos, StructOf;
    EncodesWhole(b, at, c, f);
    EncodesIs(b, at, c, f);
    OnlyNodeIs(c, f);
    EndIs(b, at, c, f);
    WholeWords(Pos(c), NodeEnd(c, f));
    var n := (NodeEnd(c, f) - Pos(c)) / 4;
    NopItemsIs(n, f.rest, []);
    PlugWF(c, f);
    PlugWF(c, NopItems(n, f.rest));
    PreorderAround(c, f);
    PreorderAround(c, NopItems(n, f.rest));
    PreorderNode(f.name, f.npad, f.kids, f.rest, Pos(c), Depth(c));
    NopItemsPreorder(n, f.rest, Pos(c), Depth(c));
    VisitsGroup(PreVisits(c), [Visit(Pos(c), Depth(c))] + Preorder(f.kids, HeadEnd(c, f), Depth(c) + 1),
                Preorder(f.rest, NodeEnd(c, f), Depth(c)), PostVisits(c, Pos(c) + Size(f)));
  }

  lemma VisitsGroup(w: seq<Visit>, g: seq<Visit>, r: seq<Visit>, q: seq<Visit>)
    ensures w + (g + r) + q == w + g + (r + q) && w + r + q == w + (r + q)
  {}

  lemma {:induction false} NopItemsPreorder(n: nat, r: Forest, base: nat, d: int)
    requires WF(r) && WF(NopItems(n, r))
    ensures Preorder(NopItems(n, r), base, d) == Preorder(r, base + 4 * n, d)
    decreases n
  {
    if n > 0 { NopItemsPreorder(n - 1, r, base + 4, d); }
  }

  /** After fdt_nop_property every node is at the offset and depth it was at
      before, and so is every property of another name. */
  lemma {:induction false} NopPropKeepsOffsets(b: bytes, at: nat, c: Ctx, f: Forest, name: bytes)
    requires Encodes(b, at, c, f) && f.Node?
    ensures var k := Blotted(f.kids, StringsOf(b), name);
            && WF(Plug(c, f)) && WF(Plug(c, f.(kids := k)))
            && Preorder(Plug(c, f.(kids := k)), 0, 0) == Preorder(Plug(c, f), 0, 0)
            && forall other :: other != name ==>
                 PropIn(k, HeadEnd(c, f), StringsOf(b), other) == PropIn(f.kids, HeadEnd(c, f), StringsOf(b), other)
  {
    hide U32, CString, Block, StructOf, StringsOf, Plug, Enc, PadLen, Before, After, BE32, Encodes, Resolved, Append;
    hide Aligned, Preorder, PostVisits, PreVisits, SwapFrom, SuffixFrom, PropIn, Blotted;
    EncodesIs(b, at, c, f);
    var k := Blotted(f.kids, StringsOf(b), name);
    var g := f.(kids := k);
    var e := HeadEnd(c, f);
    BlottedPreorder(f.kids, StringsOf(b), name, e, Depth(c) + 1);
    PlugWF(c, f);
    PlugWF(c, g);
    PreorderAround(c, f);
    PreorderAround(c, g);
    PreorderNode(f.name, f.npad, f.kids, f.rest, Pos(c), Depth(c));
    PreorderNode(f.name, f.npad, k, f.rest, Pos(c), Depth(c));
    forall other | other != name
      ensures PropIn(k, e, StringsOf(b), other) == PropIn(f.kids, e, StringsOf(b), other)
    {
      BlottedPropIn(f.kids, StringsOf(b), name, other, e);
    }
  }

  lemma {:induction false} BlottedPreorder(f: Forest, t: bytes, name: bytes, base: nat, d: int)
    requires WF(f)
    ensures Preorder(Blotted(f, t, name), base, d) == Preorder(f, base, d)
    decreases f
  {
    hide CString, PadLen, Enc, NopItems, PropWords4;
    match f
    case Nil =>
    case Nop(r) => BlottedPreorder(r, t, name, base + 4, d);
    case Prop(o, v, p, r) =>
      if CString(t, ToInt(o)) == Found(name) {
        BlottedWords(f, t, base, d);
      } else {
        BlottedPreorder(r, t, name, base + 12 + |v| + |p|, d);
      }
    case Node(_, _, _, _) =>
  }

  lemma {:induction false} BlottedPropIn(f: Forest, t: bytes, name: bytes, other: bytes, base: nat)
    requires WF(f) && other != name
    ensures PropIn(Blotted(f, t, name), base, t, other) == PropIn(f, base, t, other)
    decreases f
  {
    hide CString, PadLen, Enc, NopItems, PropWords4;
    match f
    case Nil =>
    case Nop(r) => BlottedPropIn(r, t, name, other, base + 4);
    case Prop(o, v, p, r) =>
      if CString(t, ToInt(o)) == Found(name) {
        BlottedWords(f, t, base, 0);
        NopItemsPropIn(PropWords4(|v|), r, t, other, base);
      } else {
        BlottedPropIn(r, t, name, other, base + 12 + |v| + |p|);
      }
    case Node(_, _, _, _) =>
  }

  lemma {:induction false} NopItemsPropIn(n: nat, r: Forest, t: bytes, name: bytes, base: nat)
    requires WF(r) && WF(NopItems(n, r))
    ensures PropIn(NopItems(n, r), base, t, name) == PropIn(r, base + 4 * n, t, name)
    decreases n
  {
    if n > 0 { NopItemsPropIn(n - 1, r, t, name, base + 4); }
  }
}
