/** fdt_setprop refines the update of one property of one node. */
module FdtSetProp {
  import opened Bytes
  import opened FdtFormat
  import opened FdtWalk
  import opened FdtNodes
  import opened FdtRead
  import opened FdtAncestors
  import opened FdtProps
  import opened FdtSplice
  import opened FdtEdit
  import opened FdtUpdate
  import opened FdtMeaning

  /** Nothing that belongs to the blob has changed. */
  predicate Untouched(b: bytes, r: bytes) {
    && Editable(b) && Editable(r) && |r| == |b| && HeaderOf(r) == HeaderOf(b)
    && Prefix(r) == Prefix(b) && StringsOf(r) == StringsOf(b) && StructOf(r) == StructOf(b)
  }

  lemma UntouchedSelf(b: bytes)
    requires Editable(b)
    ensures Untouched(b, b)
  {
    hide U32;
  }

  lemma UntouchedEncodes(b: bytes, r: bytes, at: nat, c: Ctx, f: Forest)
    requires Encodes(b, at, c, f) && Untouched(b, r)
    ensures Encodes(r, at, c, f)
  {
    hide U32, CString, Block, Plug, StructOf, StringsOf, Prefix, Resolved, WF, CtxWF, BlocksInside;
    StructSize(b);
    StructSize(r);
    ProbeSame(b, r, at);
  }

  lemma ProbeSame(b: bytes, r: bytes, at: nat)
    requires |b| >= HEADER_SIZE && |r| >= HEADER_SIZE && Probe(b, at) >= 0 && Magic(b) == MAGIC
    requires HeaderOf(r).magic == HeaderOf(b).magic && HeaderOf(r).total == HeaderOf(b).total
    requires HeaderOf(r).version == HeaderOf(b).version && HeaderOf(r).lastComp == HeaderOf(b).lastComp
    ensures Probe(r, at) >= 0 && Magic(r) == MAGIC
  {
    hide U32;
  }

  /** A list of items under one strings block, and the lookup in it. */
  lemma {:induction false} PropInHas(k: Forest, base: nat, t: bytes, name: bytes)
    requires WF(k) && Resolved(t, k)
    ensures PropIn(k, base, t, name) >= 0 <==> HasProp(Meaning(t, k), name)
    ensures PropIn(k, base, t, name) >= 0 || PropIn(k, base, t, name) == ERR_NOTFOUND
    decreases k
  {
    hide CString, PadLen;
    match k
    case Nil =>
    case Nop(r) => PropInHas(r, base + 4, t, name);
    case Prop(o, v, p, r) => PropInHas(r, base + 12 + |v| + |p|, t, name);
    case Node(_, _, _, _) =>
  }

  /** Swapping in a list `x` whose denotation is known. */
  lemma {:induction false} SwapMeans(k: Forest, t: bytes, name: bytes, x: Forest)
    requires Resolved(t, k) && Resolved(t, x)
    ensures Resolved(t, SwapFrom(k, t, name, x)) && Resolved(t, SuffixFrom(k, t, name))
    ensures SuffixFrom(k, t, name).Prop? ==>
              (forall val :: Meaning(t, x) == TProp(name, val, Meaning(t, SuffixFrom(k, t, name).rest)) ==>
                 Meaning(t, SwapFrom(k, t, name, x)) == Assigned(Meaning(t, k), name, val))
    ensures SuffixFrom(k, t, name).Prop? ==>
              CString(t, ToInt(SuffixFrom(k, t, name).nameoff)) == Found(name)
    ensures SuffixFrom(k, t, name).Prop? && Meaning(t, x) == Meaning(t, SuffixFrom(k, t, name).rest) ==>
              Meaning(t, SwapFrom(k, t, name, x)) == WithoutProp(Meaning(t, k), name)
    decreases k
  {
    hide CString;
    match k
    case Nil =>
    case Nop(r) => SwapMeans(r, t, name, x);
    case Prop(o, v, p, r) => SwapMeans(r, t, name, x);
    case Node(_, _, _, _) =>
  }

  /** The blob `r` encodes the tree with `k` as the items of the node `f`, and
      differs from `b` in nothing else that belongs to it. */
  predicate NodeUpdated(b: bytes, r: bytes, at: nat, c: Ctx, f: Forest, k: Forest)
    requires Editable(b) && f.Node?
  {
    && Encodes(r, at, c, f.(kids := k)) && |r| == |b|
    && Prefix(r) == Prefix(b) && StringsOf(b) <= StringsOf(r)
    && HeaderOf(r) == HeaderOf(b).(sizeStruct := SizeStruct(r), offStrings := OffStrings(r),
         sizeStrings := SizeStrings(r))
  }

  /** From the blob with its strings block possibly grown, and an edit of the
      structure block alone, to the updated node. */
  lemma {:induction false} UpdatedFrom(b: bytes, m: bytes, r: bytes, at: nat, c: Ctx, f: Forest, k: Forest)
    requires Encodes(b, at, c, f) && f.Node? && Kept(m, r) && |m| == |b|
    requires Prefix(m) == Prefix(b) && StringsOf(b) <= StringsOf(m)
    requires HeaderOf(m) == HeaderOf(b).(sizeStrings := SizeStrings(m))
    requires WF(k) && Resolved(StringsOf(m), k) && StructOf(r) == Block(c, f.(kids := k))
    ensures NodeUpdated(b, r, at, c, f, k)
  {
    hide U32, CString, Block, Plug, StructOf, StringsOf, Prefix, BlocksInside;
    StructSize(b);
    StructSize(r);
    ProbeSame(b, r, at);
    ResolvedPlug(StringsOf(b), c, f);
    var t, u := StringsOf(b), StringsOf(r);
    GraftExtends(t, u, c, Meaning(t, f));
    MeaningExtends(t, u, f);
    ResolvedPlug(u, c, f.(kids := k));
  }

  /** On a blob that encodes a tree, fdt_setprop resizes the property that the
      lookup finds, and otherwise adds one. */
  lemma {:induction false} SetPropCases(b: bytes, at: nat, c: Ctx, f: Forest, name: bytes, val: bytes)
    requires Encodes(b, at, c, f) && f.Node? && |val| <= INT_MAX - 16
    ensures var o := PropIn(f.kids, HeadEnd(c, f), StringsOf(b), name);
            && (o >= 0 ==>
                  && NextTag(StructOf(b), o).tag == PROP
                  && SetProp(b, at, Pos(c), name, val) == ResizeProp(b, o, val))
            && (o == ERR_NOTFOUND ==> SetProp(b, at, Pos(c), name, val) == AddProp(b, Pos(c), name, val))
  {
    hide U32, CString, Block, Plug, StructOf, StringsOf, Prefix, BlocksInside, Probe, PropOffset, ResizeProp;
    hide AddProp, PropIn, Misordered, NextTag, Enc, PadLen, BE32, Before, After;
    RwProbeIs(b, at);
    PropOffsetIs(b, at, c, f, name);
  }

  lemma {:induction false} SetPropHit(b: bytes, at: nat, c: Ctx, f: Forest, name: bytes, val: bytes) returns (k: Forest)
    requires Encodes(b, at, c, f) && f.Node? && |val| <= INT_MAX - 16
    requires PropIn(f.kids, HeadEnd(c, f), StringsOf(b), name) >= 0
    requires SetProp(b, at, Pos(c), name, val).err == 0
    ensures NodeUpdated(b, SetProp(b, at, Pos(c), name, val).blob, at, c, f, k)
    ensures Resolved(StringsOf(b), f.kids) && Resolved(StringsOf(b), k)
    ensures Meaning(StringsOf(b), k) == Assigned(Meaning(StringsOf(b), f.kids), name, val)
    ensures StringsOf(SetProp(b, at, Pos(c), name, val).blob) == StringsOf(b)
  {
    hide U32, CString, Block, Plug, StructOf, StringsOf, Prefix, BlocksInside, Probe, PropOffset, ResizeProp;
    hide PropIn, Misordered, NextTag, Enc, PadLen, BE32, Before, After, Kept, SetProp;
    hide Pos, CtxWF, Size, SwapFrom, SuffixFrom, HeaderOf;
    SetPropCases(b, at, c, f, name, val);
    ResolvedPlug(StringsOf(b), c, f);
    EnterIs(c, f.name, f.npad, f.kids, f.rest);
    var i := In(c, f.name, f.npad, Nil, f.rest);
    var d := LocateProp(i, f.kids, StringsOf(b), name);
    var g := SuffixFrom(f.kids, StringsOf(b), name);
    TagProp(d, g.nameoff, g.value, g.pad, g.rest);
    var pad := ResizeIs(b, d, g.nameoff, g.value, g.pad, g.rest, val);
    var x := g.(value := val, pad := pad);
    SwapMeans(f.kids, StringsOf(b), name, Nil);
    SwapMeans(f.kids, StringsOf(b), name, x);
    k := SwapFrom(f.kids, StringsOf(b), name, x);
    EnterIs(c, f.name, f.npad, k, f.rest);
    var r := ResizeProp(b, Pos(d), val).blob;
    KeptStrings(b, r);
    UpdatedFrom(b, b, r, at, c, f, k);
  }

  lemma KeptStrings(b: bytes, r: bytes)
    requires Kept(b, r)
    ensures Editable(b) && Editable(r) && StringsOf(r) == StringsOf(b) && |r| == |b|
    ensures HeaderOf(b) == HeaderOf(b).(sizeStrings := SizeStrings(b))
  {
    hide U32;
  }

  lemma {:induction false} SetPropMiss(b: bytes, at: nat, c: Ctx, f: Forest, name: bytes, val: bytes)
    returns (k: Forest)
    requires Encodes(b, at, c, f) && f.Node? && |val| <= INT_MAX - 16 && 0 !in name
    requires PropIn(f.kids, HeadEnd(c, f), StringsOf(b), name) == ERR_NOTFOUND
    requires SetProp(b, at, Pos(c), name, val).err == 0
    ensures NodeUpdated(b, SetProp(b, at, Pos(c), name, val).blob, at, c, f, k)
    ensures Resolved(StringsOf(b), f.kids) && Resolved(StringsOf(SetProp(b, at, Pos(c), name, val).blob), k)
    ensures Meaning(StringsOf(SetProp(b, at, Pos(c), name, val).blob), k)
         == TProp(name, val, Meaning(StringsOf(b), f.kids))
  {
    hide U32, CString, Block, Plug, StructOf, StringsOf, Prefix, BlocksInside, Probe, PropOffset, PropIn;
    hide Misordered, NextTag, Enc, PadLen, BE32, Before, After, Kept, PlaceProp, WithName, FindString, SetProp;
    hide Pos, CtxWF, Size, Walk, WalkFrom, Trail, FdtNodes.Preorder, HeaderOf;
    SetPropCases(b, at, c, f, name, val);
    ResolvedPlug(StringsOf(b), c, f);
    WalkStart(c, f, 0);
    NameAdded(b, name);
    var m, nameoff := WithName(b, name).blob, NameOffset(b, name);
    var added := FindString(StringsOf(b), name, 0) < 0;
    EnterIs(c, f.name, f.npad, f.kids, f.rest);
    var i := In(c, f.name, f.npad, Nil, f.rest);
    NameOffsetSmall(b, name);
    var pad := PlaceIs(m, i, f.kids, nameoff, name, added, val);
    k := Prop(nameoff, val, pad, f.kids);
    EnterIs(c, f.name, f.npad, k, f.rest);
    MeaningExtends(StringsOf(b), StringsOf(m), f.kids);
    var r := PlaceProp(m, Pos(i), nameoff, name, added, val).blob;
    KeptStrings(m, r);
    UpdatedFrom(b, m, r, at, c, f, k);
  }

  lemma NameOffsetSmall(b: bytes, name: bytes)
    requires Editable(b)
    ensures NameOffset(b, name) <= INT_MAX
  {
    hide U32, FindString;
  }

  /** How many more bytes the blob needs for the property. */
  function Growth(b: bytes, c: Ctx, f: Forest, name: bytes, val: bytes): int
    requires Editable(b) && CtxWF(c) && WF(f) && f.Node?
  {
    var o := PropIn(f.kids, HeadEnd(c, f), StringsOf(b), name);
    if o >= 0 && o + 8 <= |StructOf(b)| then Align4(|val|) - Align4(U32(StructOf(b), o + 4))
    else 12 + Align4(|val|) + if FindString(StringsOf(b), name, 0) >= 0 then 0 else |name| + 1
  }

  lemma {:induction false} SetPropFitsHit(b: bytes, at: nat, c: Ctx, f: Forest, name: bytes, val: bytes)
    requires Encodes(b, at, c, f) && f.Node? && |val| <= INT_MAX - 16
    requires PropIn(f.kids, HeadEnd(c, f), StringsOf(b), name) >= 0
    ensures var r := SetProp(b, at, Pos(c), name, val);
            && r.err == (if DataSize(b) + Growth(b, c, f, name, val) <= TotalSize(b) then 0 else ERR_NOSPACE)
            && (r.err != 0 ==> Untouched(b, r.blob))
  {
    hide U32, CString, Block, Plug, StructOf, StringsOf, Prefix, Probe, PropIn, NextTag, Enc, PadLen, BE32, Before;
    hide After, Align4, SetProp, ResizeProp;
    hide Pos, CtxWF, Size, SwapFrom;
    SetPropCases(b, at, c, f, name, val);
    EnterIs(c, f.name, f.npad, f.kids, f.rest);
    var d := LocateProp(In(c, f.name, f.npad, Nil, f.rest), f.kids, StringsOf(b), name);
    var g := SuffixFrom(f.kids, StringsOf(b), name);
    TagProp(d, g.nameoff, g.value, g.pad, g.rest);
    AlignIsPad(|g.value|);
    StructSize(b);
    ResizeFits(b, Pos(d), val);
    UntouchedSelf(b);
  }

  lemma ResizeFits(b: bytes, o: nat, val: bytes)
    requires Editable(b) && NextTag(StructOf(b), o).tag == PROP && |val| <= INT_MAX - 16
    requires o + 12 + Align4(U32(StructOf(b), o + 4)) <= |StructOf(b)|
    ensures var r := ResizeProp(b, o, val);
            var more := Align4(|val|) - Align4(U32(StructOf(b), o + 4));
            && r.err == (if DataSize(b) + more <= TotalSize(b) then 0 else ERR_NOSPACE)
            && (r.err != 0 ==> r.blob == b)
  {
    hide U32, NextTag, Align4, SpliceStruct, Put, Overwrite;
  }

  lemma {:induction false} SetPropFitsMiss(b: bytes, at: nat, c: Ctx, f: Forest, name: bytes, val: bytes)
    requires Encodes(b, at, c, f) && f.Node? && |val| <= INT_MAX - 16
    requires PropIn(f.kids, HeadEnd(c, f), StringsOf(b), name) == ERR_NOTFOUND
    ensures var r := SetProp(b, at, Pos(c), name, val);
            && r.err == (if DataSize(b) + Growth(b, c, f, name, val) <= TotalSize(b) then 0 else ERR_NOSPACE)
            && (r.err != 0 ==> Untouched(b, r.blob))
  {
    hide U32, CString, Block, Plug, StructOf, StringsOf, Prefix, Probe, PropOffset, PropIn, Misordered, NextTag;
    hide Enc, PadLen, BE32, Before, After, Align4, AddString, DelString, FindString, SetProp;
    SetPropCases(b, at, c, f, name, val);
    WalkStart(c, f, 0);
    AlignIsPad(|val|);
    UntouchedSelf(b);
    NodeInside(b, c, f);
    if WithName(b, name).err == 0 {
      NameAdded(b, name);
      if FindString(StringsOf(b), name, 0) < 0 { AddDelString(b, name); }
    }
  }

  lemma NodeInside(b: bytes, c: Ctx, f: Forest)
    requires Editable(b) && CtxWF(c) && WF(f) && f.Node? && StructOf(b) == Block(c, f)
    ensures OffStruct(b) + HeadEnd(c, f) <= DataSize(b)
  {
    hide U32, Block, NameEnd, NextTag, Enc, BE32;
    TagBegin(c, f.name, f.npad, f.kids, f.rest);
  }

  lemma ResolvedParts(b: bytes, at: nat, c: Ctx, f: Forest)
    requires Encodes(b, at, c, f) && f.Node?
    ensures ResolvedAround(StringsOf(b), c) && Resolved(StringsOf(b), f.kids) && Resolved(StringsOf(b), f.rest)
  {
    hide U32, CString, Block, StructOf, StringsOf, BlocksInside;
    ResolvedPlug(StringsOf(b), c, f);
  }

  /** The tree that the blob denotes when the items of the node `f` at `c` are
      `x` instead, everything else as in `b`. */
  function TreeWith(b: bytes, at: nat, c: Ctx, f: Forest, x: Tree): Tree
    requires Encodes(b, at, c, f) && f.Node?
  {
    ResolvedParts(b, at, c, f);
    Graft(StringsOf(b), c, TNode(f.name, x, Meaning(StringsOf(b), f.rest)))
  }

  function ItemsOf(b: bytes, at: nat, c: Ctx, f: Forest): Tree
    requires Encodes(b, at, c, f) && f.Node?
  {
    ResolvedParts(b, at, c, f);
    Meaning(StringsOf(b), f.kids)
  }

  /** The denotation of the whole blob. */
  function TreeOf(b: bytes, at: nat, c: Ctx, f: Forest): Tree
    requires Encodes(b, at, c, f)
  {
    Meaning(StringsOf(b), Plug(c, f))
  }

  lemma {:induction false} UpdatedTree(b: bytes, r: bytes, at: nat, c: Ctx, f: Forest, k: Forest)
    requires Encodes(b, at, c, f) && f.Node? && NodeUpdated(b, r, at, c, f, k)
    ensures Resolved(StringsOf(r), k)
    ensures TreeOf(r, at, c, f.(kids := k)) == TreeWith(b, at, c, f, Meaning(StringsOf(r), k))
  {
    hide U32, CString, Block, StructOf, StringsOf, Prefix, BlocksInside, HeaderOf;
    var t, u := StringsOf(b), StringsOf(r);
    ResolvedParts(b, at, c, f);
    ResolvedPlug(u, c, f.(kids := k));
    MeaningExtends(t, u, f.rest);
    GraftExtends(t, u, c, Meaning(u, f.(kids := k)));
  }

  /** fdt_setprop refines the update of a tree. It succeeds exactly when the
      blob has the room. Then the blob encodes the same tree except that this
      one node's first property of that name has the value, or the node has a
      new first property; the header, the reservation map and all earlier
      strings are as before. Otherwise it reports NOSPACE and every block and
      the header are as before, a string added on the way taken back. */
  lemma {:induction false} SetPropRefines(b: bytes, at: nat, c: Ctx, f: Forest, name: bytes, val: bytes)
    returns (k: Forest)
    requires Encodes(b, at, c, f) && f.Node? && |val| <= INT_MAX - 16 && 0 !in name
    ensures var r := SetProp(b, at, Pos(c), name, val);
            && r.err == (if DataSize(b) + Growth(b, c, f, name, val) <= TotalSize(b) then 0 else ERR_NOSPACE)
            && (r.err != 0 ==> Untouched(b, r.blob) && Encodes(r.blob, at, c, f))
            && (r.err == 0 ==>
                  && NodeUpdated(b, r.blob, at, c, f, k)
                  && TreeOf(r.blob, at, c, f.(kids := k))
                  == TreeWith(b, at, c, f, WithProp(ItemsOf(b, at, c, f), name, val)))
  {
    hide U32, CString, Block, StructOf, StringsOf, Prefix, Editable, HeaderOf, SetProp, PropIn, Growth, Plug;
    hide Resolved, WF, CtxWF, Meaning, DataSize, Probe, Magic;
    ResolvedParts(b, at, c, f);
    EncodesIs(b, at, c, f);
    PropInHas(f.kids, HeadEnd(c, f), StringsOf(b), name);
    k := f.kids;
    var r := SetProp(b, at, Pos(c), name, val);
    if PropIn(f.kids, HeadEnd(c, f), StringsOf(b), name) >= 0 {
      SetPropFitsHit(b, at, c, f, name, val);
      if r.err == 0 {
        k := SetPropHit(b, at, c, f, name, val);
        UpdatedTree(b, r.blob, at, c, f, k);
      }
    } else {
      SetPropFitsMiss(b, at, c, f, name, val);
      if r.err == 0 {
        k := SetPropMiss(b, at, c, f, name, val);
        UpdatedTree(b, r.blob, at, c, f, k);
      }
    }
    if r.err != 0 { UntouchedEncodes(b, r.blob, at, c, f); }
  }

  lemma EncodesIs(b: bytes, at: nat, c: Ctx, f: Forest)
    requires Encodes(b, at, c, f)
    ensures Editable(b) && Given(b) && Probe(b, at) >= 0 && CtxWF(c) && WF(f) && (f.Node? ==> WF(f.kids))
    ensures StructOf(b) == Block(c, f)
  {
    hide U32, CString, Block;
  }
}
