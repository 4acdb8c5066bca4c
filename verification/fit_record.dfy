/** src/chainload/fit.c: what the metadata of the loaded images do to the tree of
    the control DTB. */
module FitRecord {
  import opened Bytes
  import opened FdtFormat
  import opened FdtWalk
  import opened FdtNodes
  import opened FdtRead
  import opened FdtTree
  import opened FdtAncestors
  import opened FdtLookup
  import opened FdtSplice
  import opened FdtEdit
  import opened FdtUpdate
  import opened FdtMeaning
  import opened FdtSetProp
  import opened FdtAddNode
  import opened FitImage
  import opened FitPlan
  import opened FitLoad
  import FdtCheck
  import FdtPack

  // ----- on trees

  predicate HasChild(x: Tree, name: bytes) {
    match x
    case TNil => false
    case TProp(_, _, r) => HasChild(r, name)
    case TNode(n, _, r) => NameMatch(n, name) || HasChild(r, name)
  }

  /** The items of the first child that matches the name. */
  function ChildItems(x: Tree, name: bytes): Tree {
    match x
    case TNil => TNil
    case TProp(_, _, r) => ChildItems(r, name)
    case TNode(n, k, r) => if NameMatch(n, name) then k else ChildItems(r, name)
  }

  /** The same child with the items `y`. */
  function Replaced(x: Tree, name: bytes, y: Tree): Tree {
    match x
    case TNil => TNil
    case TProp(n, v, r) => TProp(n, v, Replaced(r, name, y))
    case TNode(n, k, r) => if NameMatch(n, name) then TNode(n, y, r) else TNode(n, k, Replaced(r, name, y))
  }

  /** A new child behind the properties. */
  function Inserted(x: Tree, name: bytes, y: Tree): Tree {
    match x
    case TProp(n, v, r) => TProp(n, v, Inserted(r, name, y))
    case _ => TNode(name, y, x)
  }

  function SetChild(x: Tree, name: bytes, y: Tree): Tree {
    if HasChild(x, name) then Replaced(x, name, y) else Inserted(x, name, y)
  }

  function WithIf(x: Tree, wanted: bool, name: string, val: bytes): Tree {
    if wanted then WithProp(x, Ascii(name), val) else x
  }

  function ImageProps(y: Tree, x: Image): Tree {
    WithIf(WithIf(WithIf(WithIf(WithIf(y, true, "load-addr", Cell(x.load)), true, "size", Cell(x.size)),
                         x.explicit, "entry-point", Cell(x.entry)),
                  x.kind.Found?, "type", TextBytes(x.kind)),
           x.os.Found?, "os", TextBytes(x.os))
  }

  /** The items of the root with the metadata of the image. */
  function Recorded(items: Tree, x: Image): Tree {
    var list := ChildItems(items, Ascii("fit-images"));
    SetChild(items, Ascii("fit-images"), SetChild(list, x.name, ImageProps(ChildItems(list, x.name), x)))
  }

  // ----- finding or adding a child

  lemma {:induction false} JoinMeaning(t: bytes, a: Forest, b: Forest)
    requires Resolved(t, a) && Resolved(t, b)
    ensures Resolved(t, Append(a, b)) && Meaning(t, Append(a, b)) == Followed(Meaning(t, a), Meaning(t, b))
  {
    ResolvedAppend(t, a, b);
  }

  lemma {:induction false} JoinAssoc(a: Tree, b: Tree, c: Tree)
    ensures Followed(Followed(a, b), c) == Followed(a, Followed(b, c))
  {
    if !a.TNil? { JoinAssoc(a.rest, b, c); }
  }

  /** A tree grafted behind one more item. */
  lemma {:induction false} GraftPass(t: bytes, c: Ctx, g: Forest, z: Tree)
    requires ResolvedAround(t, c) && Resolved(t, g)
    ensures ResolvedAround(t, Pass(c, g)) && Graft(t, Pass(c, g), z) == Graft(t, c, Followed(Meaning(t, g), z))
  {
    hide CString;
    JoinMeaning(t, c.before, g);
    JoinAssoc(Meaning(t, c.before), Meaning(t, g), z);
  }

  lemma {:induction false} FindHas(t: bytes, f: Forest, base: nat, name: bytes)
    requires WF(f) && Resolved(t, f)
    ensures FindChild(f, base, name) >= 0 <==> HasChild(Meaning(t, f), name)
    decreases f
  {
    hide CString, PadLen, Enc, NameMatch;
    match f
    case Nil =>
    case Nop(r) => FindHas(t, r, base + 4, name);
    case Prop(_, v, p, r) => FindHas(t, r, base + 12 + |v| + |p|, name);
    case Node(n, p, k, r) => FindHas(t, r, base + 5 + |n| + |p| + Size(k) + 4, name);
  }

  /** One item and the rest of the list, on the side of the trees. */
  lemma ItemMeaning(t: bytes, f: Forest)
    requires Resolved(t, f)
    ensures f.Nop? ==> forall z :: Followed(Meaning(t, Nop(Nil)), z) == z
    ensures f.Prop? ==> Resolved(t, Prop(f.nameoff, f.value, f.pad, Nil))
    ensures f.Prop? ==> forall z :: Followed(Meaning(t, Prop(f.nameoff, f.value, f.pad, Nil)), z)
                                 == TProp(CString(t, ToInt(f.nameoff)).text, f.value, z)
    ensures f.Node? ==> Resolved(t, Node(f.name, f.npad, f.kids, Nil))
    ensures f.Node? ==> forall z :: Followed(Meaning(t, Node(f.name, f.npad, f.kids, Nil)), z)
                                 == TNode(f.name, Meaning(t, f.kids), z)
  {
    hide CString;
    assert forall z :: Followed(TNil, z) == z;
    match f
    case Nop(_) => assert Meaning(t, Nop(Nil)) == TNil;
    case Prop(o, v, p, _) => assert Meaning(t, Prop(o, v, p, Nil)) == TProp(CString(t, ToInt(o)).text, v, TNil);
    case Node(n, p, k, _) => assert Meaning(t, Node(n, p, k, Nil)) == TNode(n, Meaning(t, k), TNil);
    case _ =>
  }

  /** The child that the lookup finds, seen from its own position: the tree with
      other items in it is the whole with that child replaced. */
  lemma {:induction false} ChildFocus(t: bytes, c: Ctx, f: Forest, name: bytes) returns (d: Ctx, g: Forest)
    requires CtxWF(c) && WF(f) && ResolvedAround(t, c) && Resolved(t, f) && FindChild(f, Pos(c), name) >= 0
    ensures CtxWF(d) && WF(g) && g.Node? && Pos(d) == FindChild(f, Pos(c), name)
    ensures d.In? == c.In? && (c.In? && UnderRoot(c) ==> UnderRoot(d))
    ensures Block(d, g) == Block(c, f) && Plug(d, g) == Plug(c, f)
    ensures ResolvedAround(t, d) && Resolved(t, g) && Meaning(t, g.kids) == ChildItems(Meaning(t, f), name)
    ensures forall y ::
              Graft(t, d, TNode(g.name, y, Meaning(t, g.rest))) == Graft(t, c, Replaced(Meaning(t, f), name, y))
    decreases f
  {
    hide PadLen, Enc, Block, Before, After, Plug, Pass, NameMatch, BE32, CString, Graft, ResolvedAround, UnderRoot;
    hide CtxWF;
    match f {
      case Nop(r) =>
        PassItem(c, Nop(Nil), r);
        GraftAll(t, c, Nop(Nil));
        ItemMeaning(t, Nop(Nil));
        d, g := ChildFocus(t, Pass(c, Nop(Nil)), r, name);
      case Prop(o, v, p, r) =>
        PassItem(c, Prop(o, v, p, Nil), r);
        GraftAll(t, c, Prop(o, v, p, Nil));
        ItemMeaning(t, f);
        d, g := ChildFocus(t, Pass(c, Prop(o, v, p, Nil)), r, name);
      case Node(n, p, k, r) =>
        if NameMatch(n, name) {
          d, g := c, f;
        } else {
          PassItem(c, Node(n, p, k, Nil), r);
          GraftAll(t, c, Node(n, p, k, Nil));
          ItemMeaning(t, f);
          d, g := ChildFocus(t, Pass(c, Node(n, p, k, Nil)), r, name);
        }
    }
  }

  lemma {:induction false} GraftAll(t: bytes, c: Ctx, g: Forest)
    requires ResolvedAround(t, c) && Resolved(t, g)
    ensures ResolvedAround(t, Pass(c, g))
    ensures Pass(c, g).In? == c.In? && (c.In? && UnderRoot(c) ==> UnderRoot(Pass(c, g)))
    ensures forall z :: Graft(t, Pass(c, g), z) == Graft(t, c, Followed(Meaning(t, g), z))
  {
    hide CString, Graft, ResolvedAround;
    GraftPass(t, c, g, TNil);
    forall z ensures Graft(t, Pass(c, g), z) == Graft(t, c, Followed(Meaning(t, g), z)) {
      GraftPass(t, c, g, z);
    }
  }

  /** The same for a child added behind the properties. */
  lemma {:induction false} TailFocus(t: bytes, c: Ctx, f: Forest, name: bytes)
    requires CtxWF(c) && WF(f) && ResolvedAround(t, c) && Resolved(t, f)
    ensures ResolvedAround(t, TailCtx(c, f)) && Resolved(t, TailOf(f))
    ensures forall y ::
              Graft(t, TailCtx(c, f), TNode(name, y, Meaning(t, TailOf(f))))
              == Graft(t, c, Inserted(Meaning(t, f), name, y))
    decreases f
  {
    hide PadLen, Enc, Block, Before, After, Plug, Pass, BE32, CString, Graft, ResolvedAround;
    match f {
      case Nop(r) =>
        PassItem(c, Nop(Nil), r);
        GraftAll(t, c, Nop(Nil));
        ItemMeaning(t, Nop(Nil));
        TailFocus(t, Pass(c, Nop(Nil)), r, name);
      case Prop(o, v, p, r) =>
        PassItem(c, Prop(o, v, p, Nil), r);
        GraftAll(t, c, Prop(o, v, p, Nil));
        ItemMeaning(t, f);
        TailFocus(t, Pass(c, Prop(o, v, p, Nil)), r, name);
      case _ =>
    }
  }

  // ----- one routine after the other

  /** The tree with the items `y` in the node `f` at `c`, for every `y`. */
  ghost predicate Focus(b: bytes, at: nat, c: Ctx, f: Forest, r: bytes, d: Ctx, g: Forest, name: bytes)
    requires Encodes(b, at, c, f) && f.Node?
  {
    && Encodes(r, at, d, g) && g.Node? && d.In? && (UnderRoot(c) ==> UnderRoot(d))
    && ItemsOf(r, at, d, g) == ChildItems(ItemsOf(b, at, c, f), name)
    && forall y :: TreeWith(r, at, d, g, y) == TreeWith(b, at, c, f, SetChild(ItemsOf(b, at, c, f), name, y))
  }

  lemma {:induction false} EnterFocus(b: bytes, at: nat, c: Ctx, f: Forest)
    requires Encodes(b, at, c, f) && f.Node?
    ensures var i, t := In(c, f.name, f.npad, Nil, f.rest), StringsOf(b);
            && CtxWF(i) && WF(f.kids) && Block(i, f.kids) == Block(c, f) && Plug(i, f.kids) == Plug(c, f)
            && Pos(i) == HeadEnd(c, f) && ResolvedAround(t, i) && Resolved(t, f.kids)
            && ItemsOf(b, at, c, f) == Meaning(t, f.kids)
            && forall z :: Graft(t, i, z) == TreeWith(b, at, c, f, z)
  {
    hide U32, CString, Block, StructOf, StringsOf, Plug, Enc, PadLen, BE32;
    EncodesIs(b, at, c, f);
    EnterIs(c, f.name, f.npad, f.kids, f.rest);
    ResolvedParts(b, at, c, f);
  }

  /** A child that is there. */
  lemma {:induction false} PresentFocus(b: bytes, at: nat, c: Ctx, f: Forest, name: bytes) returns (d: Ctx, g: Forest)
    requires Encodes(b, at, c, f) && f.Node? && FindChild(f.kids, HeadEnd(c, f), name) >= 0
    ensures CtxWF(d) && Focus(b, at, c, f, b, d, g, name) && Pos(d) == FindChild(f.kids, HeadEnd(c, f), name)
  {
    hide U32, CString, Block, StructOf, StringsOf, Plug, Enc, PadLen, BE32, Graft, ResolvedAround, FindChild;
    hide NameMatch, BlocksInside, Prefix;
    EncodesIs(b, at, c, f);
    EnterFocus(b, at, c, f);
    var i, t := In(c, f.name, f.npad, Nil, f.rest), StringsOf(b);
    d, g := ChildFocus(t, i, f.kids, name);
    FindHas(t, f.kids, HeadEnd(c, f), name);
    assert Encodes(b, at, d, g);
    forall y ensures TreeWith(b, at, d, g, y) == TreeWith(b, at, c, f, SetChild(ItemsOf(b, at, c, f), name, y)) {
      assert TreeWith(b, at, d, g, y) == Graft(t, d, TNode(g.name, y, Meaning(t, g.rest)));
    }
  }

  /** A child that is added. */
  lemma {:induction false} AddedFocus(b: bytes, at: nat, c: Ctx, f: Forest, name: bytes) returns (d: Ctx, g: Forest)
    requires Encodes(b, at, c, f) && f.Node? && 0 !in name && FindChild(f.kids, HeadEnd(c, f), name) < 0
    requires AddSubnode(b, at, Pos(c), name).err >= 0
    ensures var r := AddSubnode(b, at, Pos(c), name);
            CtxWF(d) && Focus(b, at, c, f, r.blob, d, g, name) && r.err == Pos(d)
  {
    hide U32, CString, Block, StructOf, StringsOf, Plug, Enc, PadLen, BE32, Graft, ResolvedAround, FindChild;
    hide NameMatch, BlocksInside, Prefix, AddSubnode, Editable, HeaderOf, WF, CtxWF, TailCtx, TailOf, Encodes;
    hide Meaning, Resolved;
    EncodesIs(b, at, c, f);
    EnterFocus(b, at, c, f);
    var i, t := In(c, f.name, f.npad, Nil, f.rest), StringsOf(b);
    FindHas(t, f.kids, HeadEnd(c, f), name);
    d := AddSubnodeRefines(b, at, c, f, name);
    g := NewNode(name, TailOf(f.kids));
    var r := AddSubnode(b, at, Pos(c), name).blob;
    KeptStrings(b, r);
    TailFocus(t, i, f.kids, name);
    NoChild(t, f.kids, name);
    TailRoot(i, f.kids);
    NewFocus(r, at, d, name, TailOf(f.kids));
  }

  lemma {:induction false} NoChild(t: bytes, f: Forest, name: bytes)
    requires Resolved(t, f) && !HasChild(Meaning(t, f), name)
    ensures ChildItems(Meaning(t, f), name) == TNil
  {
    hide CString, NameMatch;
    match f
    case Nil =>
    case Nop(r) => NoChild(t, r, name);
    case Prop(_, _, _, r) => NoChild(t, r, name);
    case Node(_, _, _, r) => NoChild(t, r, name);
  }

  lemma {:induction false} TailRoot(c: Ctx, f: Forest)
    ensures TailCtx(c, f).In? == c.In? && (c.In? && UnderRoot(c) ==> UnderRoot(TailCtx(c, f)))
    decreases f
  {
    hide Append;
    match f
    case Nop(r) => TailRoot(Pass(c, Nop(Nil)), r);
    case Prop(o, v, p, r) => TailRoot(Pass(c, Prop(o, v, p, Nil)), r);
    case _ =>
  }

  lemma {:induction false} NewFocus(r: bytes, at: nat, d: Ctx, name: bytes, rest: Forest)
    requires Encodes(r, at, d, NewNode(name, rest))
    ensures ResolvedAround(StringsOf(r), d) && Resolved(StringsOf(r), rest)
    ensures ItemsOf(r, at, d, NewNode(name, rest)) == TNil
    ensures forall y :: TreeWith(r, at, d, NewNode(name, rest), y)
                     == Graft(StringsOf(r), d, TNode(name, y, Meaning(StringsOf(r), rest)))
  {
    hide U32, CString, Block, StructOf, StringsOf, Plug, Enc, PadLen, BE32, Graft, ResolvedAround, BlocksInside;
    hide Zeros;
    ResolvedParts(r, at, d, NewNode(name, rest));
  }

  /** Finding or adding the child, and what the blob is from there. */
  lemma {:induction false} EnsureFocus(b: bytes, at: nat, c: Ctx, f: Forest, name: bytes) returns (d: Ctx, g: Forest)
    requires Encodes(b, at, c, f) && f.Node? && 0 !in name && Given(b) && Ensure(b, at, Pos(c), name).err >= 0
    ensures var r := Ensure(b, at, Pos(c), name);
            CtxWF(d) && Focus(b, at, c, f, r.blob, d, g, name) && r.err == Pos(d)
  {
    hide U32, CString, Block, StructOf, StringsOf, Plug, Enc, PadLen, BE32, Focus, FindChild, AddSubnode, Encodes;
    hide CtxWF, SubnodeOffset, Given;
    EncodesIs(b, at, c, f);
    GivenMemory(b);
    LookupIs(b, at, c, f, name);
    FindChildError(f.kids, HeadEnd(c, f), name);
    if FindChild(f.kids, HeadEnd(c, f), name) >= 0 {
      d, g := PresentFocus(b, at, c, f, name);
    } else {
      d, g := AddedFocus(b, at, c, f, name);
    }
  }

  // ----- the properties of the node

  /** An update of a node leaves the rest of the tree as it was. */
  lemma {:induction false} StableFocus(b: bytes, r: bytes, at: nat, c: Ctx, f: Forest, k: Forest)
    requires Encodes(b, at, c, f) && f.Node? && NodeUpdated(b, r, at, c, f, k)
    ensures forall y :: TreeWith(r, at, c, f.(kids := k), y) == TreeWith(b, at, c, f, y)
  {
    hide U32, CString, Block, StructOf, StringsOf, Plug, Prefix, BlocksInside, HeaderOf, Graft, ResolvedAround;
    var t, u := StringsOf(b), StringsOf(r);
    ResolvedParts(b, at, c, f);
    ResolvedParts(r, at, c, f.(kids := k));
    MeaningExtends(t, u, f.rest);
    forall y ensures TreeWith(r, at, c, f.(kids := k), y) == TreeWith(b, at, c, f, y) {
      GraftExtends(t, u, c, TNode(f.name, y, Meaning(t, f.rest)));
    }
  }

  /** The node at `c`, its items now `x`, the rest of the tree as in `b`. */
  ghost predicate Holding(b: bytes, at: nat, c: Ctx, f: Forest, r: bytes, g: Forest, x: Tree)
    requires Encodes(b, at, c, f) && f.Node?
  {
    && Encodes(r, at, c, g) && g.Node? && ItemsOf(r, at, c, g) == x
    && forall y :: TreeWith(r, at, c, g, y) == TreeWith(b, at, c, f, y)
  }

  lemma {:induction false} StepHolds(b: bytes, at: nat, c: Ctx, f: Forest, r: Outcome, g: Forest, x: Tree,
                                     name: string, wanted: bool, val: bytes) returns (h: Forest)
    requires Encodes(b, at, c, f) && f.Node? && Holding(b, at, c, f, r.blob, g, x) && r.err == 0
    requires Given(r.blob) && |val| <= INT_MAX - 16 && 0 !in Ascii(name)
    requires SetField(r, at, Pos(c), name, wanted, val).err == 0
    ensures Holding(b, at, c, f, SetField(r, at, Pos(c), name, wanted, val).blob, h, WithIf(x, wanted, name, val))
  {
    hide U32, CString, Block, StructOf, StringsOf, Plug, Prefix, BlocksInside, HeaderOf, Graft, ResolvedAround;
    hide TreeWith, ItemsOf, TreeOf, Growth, Encodes, NodeUpdated, SetProp, Given, WithProp, Ascii, DataSize;
    hide FdtSetProp.Untouched;
    h := g;
    if wanted {
      EncodesIs(r.blob, at, c, g);
      var k := SetPropRefines(r.blob, at, c, g, Ascii(name), val);
      h := g.(kids := k);
      UpdatedIs(r.blob, SetProp(r.blob, at, Pos(c), Ascii(name), val).blob, at, c, g, k);
      StableFocus(r.blob, SetProp(r.blob, at, Pos(c), Ascii(name), val).blob, at, c, g, k);
      var q := SetProp(r.blob, at, Pos(c), Ascii(name), val).blob;
      SameItems(r.blob, q, at, c, g, h, WithProp(ItemsOf(r.blob, at, c, g), Ascii(name), val));
    }
  }

  lemma UpdatedIs(b: bytes, r: bytes, at: nat, c: Ctx, f: Forest, k: Forest)
    requires Editable(b) && f.Node? && NodeUpdated(b, r, at, c, f, k)
    ensures Encodes(r, at, c, f.(kids := k))
  {
    hide Encodes, HeaderOf;
  }

  /** The items of a node are determined by the whole tree. */
  lemma {:induction false} SameItems(b: bytes, r: bytes, at: nat, c: Ctx, g: Forest, h: Forest, x: Tree)
    requires Encodes(b, at, c, g) && g.Node? && Encodes(r, at, c, h) && h.Node?
    requires TreeOf(r, at, c, h) == TreeWith(b, at, c, g, x)
    requires forall y :: TreeWith(r, at, c, h, y) == TreeWith(b, at, c, g, y)
    ensures ItemsOf(r, at, c, h) == x
  {
    hide U32, CString, Block, StructOf, StringsOf, Plug, Encodes;
    EncodesIs(r, at, c, h);
    ResolvedParts(r, at, c, h);
    WholeTree(r, at, c, h);
    assert TreeWith(r, at, c, h, x) == TreeWith(r, at, c, h, ItemsOf(r, at, c, h));
    GraftInjective(StringsOf(r), c, h.name, x, ItemsOf(r, at, c, h), Meaning(StringsOf(r), h.rest));
  }

  lemma {:induction false} WholeTree(r: bytes, at: nat, c: Ctx, h: Forest)
    requires Encodes(r, at, c, h) && h.Node?
    ensures TreeOf(r, at, c, h) == TreeWith(r, at, c, h, ItemsOf(r, at, c, h))
  {
    hide U32, CString, Block, StructOf, StringsOf, Plug, BlocksInside;
    ResolvedParts(r, at, c, h);
    ResolvedPlug(StringsOf(r), c, h);
  }

  lemma {:induction false} GraftInjective(t: bytes, c: Ctx, n: bytes, x: Tree, y: Tree, z: Tree)
    requires ResolvedAround(t, c) && Graft(t, c, TNode(n, x, z)) == Graft(t, c, TNode(n, y, z))
    ensures x == y
    decreases c
  {
    hide CString;
    GraftSame(t, c, TNode(n, x, z), TNode(n, y, z));
  }

  lemma {:induction false} GraftSame(t: bytes, c: Ctx, x: Tree, y: Tree)
    requires ResolvedAround(t, c) && Graft(t, c, x) == Graft(t, c, y)
    ensures x == y
    decreases c
  {
    hide CString;
    match c
    case Top(b) => JoinSame(Meaning(t, b), x, y);
    case In(u, n, _, b, a) =>
      GraftSame(t, u, TNode(n, Followed(Meaning(t, b), x), Meaning(t, a)),
                TNode(n, Followed(Meaning(t, b), y), Meaning(t, a)));
      JoinSame(Meaning(t, b), x, y);
  }

  lemma {:induction false} JoinSame(a: Tree, x: Tree, y: Tree)
    requires Followed(a, x) == Followed(a, y)
    ensures x == y
  {
    if !a.TNil? { JoinSame(a.rest, x, y); }
  }

  // ----- record_image on the tree

  /** The tree seen from its root instead of from one of its nodes. */
  lemma {:induction false} Rooted(r: bytes, at: nat, d: Ctx, h: Forest)
    requires Encodes(r, at, d, h) && h.Node? && UnderRoot(d)
    ensures Encodes(r, at, Top(Nil), Plug(d, h)) && Plug(d, h).Node?
    ensures TreeOf(r, at, Top(Nil), Plug(d, h)) == TreeOf(r, at, d, h)
  {
    hide U32, CString, StructOf, StringsOf, Enc, PadLen, BE32, BlocksInside, Meaning, Resolved;
    EncodesIs(r, at, d, h);
    PlugEnc(d, h);
    FdtCheck.BlockOfTree(Plug(d, h));
    RootIsNode(d, h);
  }

  lemma {:induction false} RootIsNode(d: Ctx, h: Forest)
    requires UnderRoot(d) && h.Node?
    ensures Plug(d, h).Node?
    decreases d
  {
    match d
    case Top(_) =>
    case In(u, n, p, b, a) => RootIsNode(u, Node(n, p, Append(b, h), a));
  }

  lemma FieldFails(r: Outcome, at: nat, node: int, name: string, wanted: bool, val: bytes)
    requires Given(r.blob) && |val| <= INT_MAX - 16
    ensures SetField(r, at, node, name, wanted, val).err == 0 ==> r.err == 0
  {
    hide Given, SetProp;
  }

  lemma CleanNames()
    ensures 0 !in Ascii("fit-images") && 0 !in Ascii("load-addr") && 0 !in Ascii("size")
    ensures 0 !in Ascii("entry-point") && 0 !in Ascii("type") && 0 !in Ascii("os")
  {}

  /** The five properties of an image's node. */
  lemma {:induction false} PropsHold(b: bytes, at: nat, c: Ctx, f: Forest, x: Image) returns (h: Forest)
    requires Encodes(b, at, c, f) && f.Node? && Given(b) && Short(x) && Fields(b, at, Pos(c), x).err == 0
    ensures Holding(b, at, c, f, Fields(b, at, Pos(c), x).blob, h, ImageProps(ItemsOf(b, at, c, f), x))
  {
    hide U32, CString, Encodes, Given, SetField, Cell, Ascii, ItemsOf, Holding, WithIf, Pos;
    CleanNames();
    HoldingSelf(b, at, c, f);
    var o, y := Pos(c), ItemsOf(b, at, c, f);
    var a := SetField(Outcome(0, b), at, o, "load-addr", true, Cell(x.load));
    var s := SetField(a, at, o, "size", true, Cell(x.size));
    var e := SetField(s, at, o, "entry-point", x.explicit, Cell(x.entry));
    var t := SetField(e, at, o, "type", x.kind.Found?, TextBytes(x.kind));
    FieldFails(t, at, o, "os", x.os.Found?, TextBytes(x.os));
    FieldFails(e, at, o, "type", x.kind.Found?, TextBytes(x.kind));
    FieldFails(s, at, o, "entry-point", x.explicit, Cell(x.entry));
    FieldFails(a, at, o, "size", true, Cell(x.size));
    h := StepHolds(b, at, c, f, Outcome(0, b), f, y, "load-addr", true, Cell(x.load));
    y := WithIf(y, true, "load-addr", Cell(x.load));
    h := StepHolds(b, at, c, f, a, h, y, "size", true, Cell(x.size));
    y := WithIf(y, true, "size", Cell(x.size));
    h := StepHolds(b, at, c, f, s, h, y, "entry-point", x.explicit, Cell(x.entry));
    y := WithIf(y, x.explicit, "entry-point", Cell(x.entry));
    h := StepHolds(b, at, c, f, e, h, y, "type", x.kind.Found?, TextBytes(x.kind));
    y := WithIf(y, x.kind.Found?, "type", TextBytes(x.kind));
    h := StepHolds(b, at, c, f, t, h, y, "os", x.os.Found?, TextBytes(x.os));
  }

  lemma HoldingSelf(b: bytes, at: nat, c: Ctx, f: Forest)
    requires Encodes(b, at, c, f) && f.Node?
    ensures CtxWF(c) && Holding(b, at, c, f, b, f, ItemsOf(b, at, c, f))
  {
    hide U32, CString, Block, StructOf, StringsOf, Plug, BlocksInside;
  }

  /** On a control DTB that holds a tree, record_image updates the tree: the
      image's node below /fit-images, found or added, gets its properties, and
      nothing else changes. */
  lemma {:induction false} RecordRefines(b: bytes, at: nat, f: Forest, x: Image) returns (g: Forest)
    requires Encodes(b, at, Top(Nil), f) && f.Node? && Given(b) && Short(x) && 0 !in x.name
    requires RecordImage(b, at, x).err == 0
    ensures var r := RecordImage(b, at, x).blob;
            && Encodes(r, at, Top(Nil), g) && g.Node?
            && TreeOf(r, at, Top(Nil), g)
            == TreeWith(b, at, Top(Nil), f, Recorded(ItemsOf(b, at, Top(Nil), f), x))
            && ItemsOf(r, at, Top(Nil), g) == Recorded(ItemsOf(b, at, Top(Nil), f), x)
  {
    hide U32, CString, Encodes, Given, Ensure, Fields, ItemsOf, TreeWith, TreeOf, Ascii, ImageProps, SetChild;
    hide ChildItems, Plug, WF;
    CleanNames();
    var c := Top(Nil);
    var p := Ensure(b, at, 0, Ascii("fit-images"));
    var d, e := EnsureFocus(b, at, c, f, Ascii("fit-images"));
    EncodesIs(p.blob, at, d, e);
    var n := Ensure(p.blob, at, p.err, x.name);
    var k, h := EnsureFocus(p.blob, at, d, e, x.name);
    EncodesIs(n.blob, at, k, h);
    var q := PropsHold(n.blob, at, k, h, x);
    var r := RecordImage(b, at, x).blob;
    WholeTree(r, at, k, q);
    Rooted(r, at, k, q);
    g := Plug(k, q);
    RootItems(b, r, at, f, g, Recorded(ItemsOf(b, at, c, f), x));
  }

  lemma {:induction false} RootItems(b: bytes, r: bytes, at: nat, f: Forest, g: Forest, x: Tree)
    requires Encodes(b, at, Top(Nil), f) && f.Node? && Encodes(r, at, Top(Nil), g) && g.Node?
    requires TreeOf(r, at, Top(Nil), g) == TreeWith(b, at, Top(Nil), f, x)
    ensures ItemsOf(r, at, Top(Nil), g) == x
    ensures forall y :: TreeWith(r, at, Top(Nil), g, y) == TreeWith(b, at, Top(Nil), f, y)
  {
    hide U32, CString, Block, StructOf, StringsOf, BlocksInside;
    ResolvedParts(r, at, Top(Nil), g);
    ResolvedParts(b, at, Top(Nil), f);
  }

  /** The items of the root with the metadata of the first `i` images that are
      to be recorded. */
  function RecordedAll(items: Tree, images: seq<Image>, i: nat): Tree
    requires i <= |images|
  {
    if i == 0 then items
    else
      var y := RecordedAll(items, images, i - 1);
      if images[i - 1].record then Recorded(y, images[i - 1]) else y
  }

  /** The loop over the images on the tree. */
  lemma {:induction false} RecordAllRefines(b: bytes, at: nat, f: Forest, images: seq<Image>, i: nat)
    returns (g: Forest)
    requires Encodes(b, at, Top(Nil), f) && f.Node? && Given(b) && i <= |images|
    requires forall x :: x in images ==> Short(x) && 0 !in x.name
    requires RecordAll(b, at, images, i).err == 0
    ensures var r := RecordAll(b, at, images, i).blob;
            && Encodes(r, at, Top(Nil), g) && g.Node?
            && ItemsOf(r, at, Top(Nil), g) == RecordedAll(ItemsOf(b, at, Top(Nil), f), images, i)
            && forall y :: TreeWith(r, at, Top(Nil), g, y) == TreeWith(b, at, Top(Nil), f, y)
  {
    hide U32, Encodes, Given, ItemsOf, TreeWith, TreeOf, Recorded, RecordImage, Short, Resolved;
    g := f;
    if i > 0 {
      var r := RecordAll(b, at, images, i - 1);
      g := RecordAllRefines(b, at, f, images, i - 1);
      var x := images[i - 1];
      if x.record {
        var h := RecordRefines(r.blob, at, g, x);
        RootItems(r.blob, RecordImage(r.blob, at, x).blob, at, g, h, Recorded(ItemsOf(r.blob, at, Top(Nil), g), x));
        g := h;
      }
    }
  }

  /** A control DTB that was opened and probed holds the tree of the inner blob. */
  lemma {:induction false} OpenedEncodes(b: bytes, w: bytes, at: nat, f: Forest)
    requires FdtPack.Source(b, 0, b) && FdtPack.OpenResult(b, w) && |w| < INT_MAX
    requires Magic(b) == MAGIC && Probe(w, at) >= 0
    requires WF(f) && StructOf(b) == Block(Top(Nil), f) && Resolved(StringsOf(b), f)
    ensures Encodes(w, at, Top(Nil), f) && StringsOf(w) == StringsOf(b)
  {
    hide U32, CString, Block, FdtPack.RsvEnds, FdtPack.BlocksOf, Resolved;
    FdtPack.SourceInside(b, 0, b);
    FdtPack.SourceBlocks(b, 0, b);
    FdtPack.HoldsEditable(w, FdtPack.BlocksOf(b));
    assert w[..TotalSize(w)] == w;
  }

  /** A blob that the probe refuses takes no image. */
  lemma {:induction false} ProbeFails(b: bytes, at: nat, images: seq<Image>, i: nat)
    requires Given(b) && i <= |images| && (forall x :: x in images ==> Short(x)) && Probe(b, at) < 0
    ensures if exists k :: 0 <= k < i && images[k].record then RecordAll(b, at, images, i).err != 0
            else RecordAll(b, at, images, i) == Outcome(0, b)
  {
    hide Given, Short, Probe, RecordImage;
    if i > 0 {
      ProbeFails(b, at, images, i - 1);
      if images[i - 1].record { RefusesImage(b, at, images[i - 1]); }
    }
  }

  lemma RefusesImage(b: bytes, at: nat, x: Image)
    requires Given(b) && Short(x) && Probe(b, at) < 0
    ensures RecordImage(b, at, x).err < 0
  {
    hide Given, U32, Fields, AddSubnode;
    GivenMemory(b);
  }

  /** An accepted plan has an image to record: of the at least two images behind
      the first, one is not the control DTB. */
  lemma RecordsSome(b: bytes, fit: nat, p: Platform, plan: Plan)
    requires InMemory(b) && |b| < INT_MAX && Safe(b, fit, p, plan)
    ensures exists k :: 0 <= k < |plan.images| && plan.images[k].record
  {
    hide InMemory, Genuine, PolicyKept, Entries, Apart, AllClear, Clear, PathOffset;
    assert plan.images[1].role != FDT || plan.images[2].role != FDT;
    assert plan.images[1].record || plan.images[2].record;
  }

  /** The inner blob is a finished one and holds the tree with the root `f`. */
  ghost predicate InnerTree(b: bytes, plan: Plan, f: Forest)
    requires ControlDtb(b, plan)
  {
    var d := Inner(b, plan);
    && |d| >= HEADER_SIZE && BlocksInside(d) && Magic(d) == MAGIC
    && WF(f) && f.Node? && StructOf(d) == Block(Top(Nil), f) && Resolved(StringsOf(d), f)
  }

  lemma {:induction false} LoadedTree(m: bytes, b: bytes, plan: Plan, f: Forest) returns (g: Forest)
    requires ControlDtb(b, plan) && ControlReady(m, b, plan) && plan.capacity < INT_MAX && InnerTree(b, plan, f)
    requires exists k :: 0 <= k < |plan.images| && plan.images[k].record
    requires forall x :: x in plan.images ==> 0 !in x.name
    ensures InnerTree(b, plan, f) && Resolved(StringsOf(Inner(b, plan)), f.kids)
    ensures Resolved(StringsOf(Inner(b, plan)), f.rest)
    ensures var d, v := Inner(b, plan), m[plan.controlFdt..plan.controlFdt + plan.capacity];
            && Encodes(v, plan.controlFdt, Top(Nil), g) && g.Node?
            && TreeOf(v, plan.controlFdt, Top(Nil), g)
            == TNode(f.name, RecordedAll(Meaning(StringsOf(d), f.kids), plan.images, |plan.images|),
                     Meaning(StringsOf(d), f.rest))
  {
    hide U32, CString, Block, Encodes, FdtPack.RsvEnds, FdtPack.BlocksOf, Given, RecordAll, Resolved, Inner;
    hide FdtPack.Source, FdtPack.OpenResult, StructOf, StringsOf, BlocksInside, Short, WF, RecordedAll, Probe;
    var d, at, v := Inner(b, plan), plan.controlFdt, m[plan.controlFdt..plan.controlFdt + plan.capacity];
    var w :| OpenedAs(w, v, b, plan);
    InnerSource(b, 0, b, plan);
    SourceAlone(b, plan.images[plan.fdtIndex].data, d);
    GivenMemory(w);
    if Probe(w, at) < 0 {
      ProbeFails(w, at, plan.images, |plan.images|);
    }
    OpenedEncodes(d, w, at, f);
    g := RecordAllRefines(w, at, f, plan.images, |plan.images|);
    WholeTree(v, at, Top(Nil), g);
    RootTree(w, at, f, RecordedAll(ItemsOf(w, at, Top(Nil), f), plan.images, |plan.images|));
  }

  lemma SourceAlone(m: bytes, at: nat, d: bytes)
    requires FdtPack.Source(m, at, d)
    ensures FdtPack.Source(d, 0, d)
  {
    hide U32, FdtPack.RsvEnds, BlocksInside;
  }

  /** End to end, for what ChainLoad leaves behind when it succeeds: when the
      inline control DTB holds the tree with the root `f`, the loaded one holds
      the same tree with the metadata of every image that is to be recorded, and
      nothing else in it has changed. */
  lemma {:induction false} ControlHoldsTree(m: bytes, fit: nat, b: bytes, p: Platform, plan: Plan, f: Forest)
    returns (g: Forest)
    requires Booted(m, fit, b, p, plan) && InnerTree(b, plan, f)
    ensures Resolved(StringsOf(Inner(b, plan)), f.kids) && Resolved(StringsOf(Inner(b, plan)), f.rest)
    ensures plan.controlFdt >= 0 && plan.controlFdt + plan.capacity <= |m|
    ensures var d, v := Inner(b, plan), m[plan.controlFdt..plan.controlFdt + plan.capacity];
            && Encodes(v, plan.controlFdt, Top(Nil), g) && g.Node?
            && TreeOf(v, plan.controlFdt, Top(Nil), g)
            == TNode(f.name, RecordedAll(Meaning(StringsOf(d), f.kids), plan.images, |plan.images|),
                     Meaning(StringsOf(d), f.rest))
  {
    hide InnerTree, OpenedAs, Intact, Safe, InMemory, ControlDtb, RecordedAll, Inner, Encodes, Resolved;
    RecordsSome(b, fit, p, plan);
    SafePlan(b, fit, p, plan);
    g := LoadedTree(m, b, plan, f);
  }

  lemma SafePlan(b: bytes, fit: nat, p: Platform, plan: Plan)
    requires InMemory(b) && |b| < INT_MAX - DTB_SLACK && Safe(b, fit, p, plan)
    ensures plan.capacity < INT_MAX && forall x :: x in plan.images ==> 0 !in x.name
  {
    hide InMemory, Consistent, Apart, AllClear, Clear, PathOffset, SubnodeOffset, FieldOf, HashesMatch, StringProp;
    assert plan.images[plan.fdtIndex] in plan.images;
  }

  lemma {:induction false} RootTree(w: bytes, at: nat, f: Forest, y: Tree)
    requires Encodes(w, at, Top(Nil), f) && f.Node?
    ensures BlocksInside(w) && Resolved(StringsOf(w), f.kids) && Resolved(StringsOf(w), f.rest)
    ensures ItemsOf(w, at, Top(Nil), f) == Meaning(StringsOf(w), f.kids)
    ensures TreeWith(w, at, Top(Nil), f, y) == TNode(f.name, y, Meaning(StringsOf(w), f.rest))
  {
    hide U32, CString, Block, StructOf, StringsOf;
    ResolvedParts(w, at, Top(Nil), f);
  }

  // ----- reading the metadata back

  lemma {:induction false} SetChildItems(x: Tree, name: bytes, y: Tree)
    ensures ChildItems(SetChild(x, name, y), name) == y
  {
    SelfMatch(name);
    if HasChild(x, name) { ReplacedItems(x, name, y); } else { InsertedItems(x, name, y); }
  }

  lemma {:induction false} ReplacedItems(x: Tree, name: bytes, y: Tree)
    requires HasChild(x, name)
    ensures ChildItems(Replaced(x, name, y), name) == y
  {
    hide NameMatch;
    if !(x.TNode? && NameMatch(x.name, name)) { ReplacedItems(x.rest, name, y); }
  }

  lemma {:induction false} InsertedItems(x: Tree, name: bytes, y: Tree)
    requires NameMatch(name, name)
    ensures ChildItems(Inserted(x, name, y), name) == y
  {
    hide NameMatch;
    if x.TProp? { InsertedItems(x.rest, name, y); }
  }

  lemma DistinctNames()
    ensures Ascii("load-addr") != Ascii("size") && Ascii("load-addr") != Ascii("entry-point")
    ensures Ascii("load-addr") != Ascii("type") && Ascii("load-addr") != Ascii("os")
    ensures Ascii("size") != Ascii("entry-point") && Ascii("size") != Ascii("type") && Ascii("size") != Ascii("os")
    ensures Ascii("entry-point") != Ascii("type") && Ascii("entry-point") != Ascii("os")
    ensures Ascii("type") != Ascii("os")
  {
    assert Ascii("size")[0] != Ascii("type")[0];
  }

  lemma WithIfLookup(x: Tree, wanted: bool, name: string, val: bytes, other: bytes)
    ensures wanted ==> Lookup(WithIf(x, wanted, name, val), Ascii(name)) == TProp(Ascii(name), val, TNil)
    ensures other != Ascii(name) ==> Lookup(WithIf(x, wanted, name, val), other) == Lookup(x, other)
  {
    if wanted { WithPropLookup(x, Ascii(name), val, other); }
  }

  /** Below /fit-images the image's node gives back its load address, its size
      and whatever else the FIT said about it. */
  lemma {:induction false} RecordedLookup(items: Tree, x: Image)
    ensures var y := ChildItems(ChildItems(Recorded(items, x), Ascii("fit-images")), x.name);
            && Lookup(y, Ascii("load-addr")) == TProp(Ascii("load-addr"), Cell(x.load), TNil)
            && Lookup(y, Ascii("size")) == TProp(Ascii("size"), Cell(x.size), TNil)
            && (x.explicit ==> Lookup(y, Ascii("entry-point")) == TProp(Ascii("entry-point"), Cell(x.entry), TNil))
            && (x.kind.Found? ==> Lookup(y, Ascii("type")) == TProp(Ascii("type"), TextBytes(x.kind), TNil))
            && (x.os.Found? ==> Lookup(y, Ascii("os")) == TProp(Ascii("os"), TextBytes(x.os), TNil))
  {
    hide Ascii, Cell, TextBytes, ImageProps, SetChild;
    var list := ChildItems(items, Ascii("fit-images"));
    var z := ChildItems(list, x.name);
    SetChildItems(list, x.name, ImageProps(z, x));
    SetChildItems(items, Ascii("fit-images"), SetChild(list, x.name, ImageProps(z, x)));
    PropsLookup(z, x);
  }

  lemma {:induction false} PropsLookup(z: Tree, x: Image)
    ensures var y := ImageProps(z, x);
            && Lookup(y, Ascii("load-addr")) == TProp(Ascii("load-addr"), Cell(x.load), TNil)
            && Lookup(y, Ascii("size")) == TProp(Ascii("size"), Cell(x.size), TNil)
            && (x.explicit ==> Lookup(y, Ascii("entry-point")) == TProp(Ascii("entry-point"), Cell(x.entry), TNil))
            && (x.kind.Found? ==> Lookup(y, Ascii("type")) == TProp(Ascii("type"), TextBytes(x.kind), TNil))
            && (x.os.Found? ==> Lookup(y, Ascii("os")) == TProp(Ascii("os"), TextBytes(x.os), TNil))
  {
    hide Ascii, Cell, TextBytes, WithIf;
    DistinctNames();
    var a := WithIf(z, true, "load-addr", Cell(x.load));
    var s := WithIf(a, true, "size", Cell(x.size));
    var e := WithIf(s, x.explicit, "entry-point", Cell(x.entry));
    var t := WithIf(e, x.kind.Found?, "type", TextBytes(x.kind));
    forall other ensures Lookups(z, a, s, e, t, x, other) {
      WithIfLookup(z, true, "load-addr", Cell(x.load), other);
      WithIfLookup(a, true, "size", Cell(x.size), other);
      WithIfLookup(s, x.explicit, "entry-point", Cell(x.entry), other);
      WithIfLookup(e, x.kind.Found?, "type", TextBytes(x.kind), other);
      WithIfLookup(t, x.os.Found?, "os", TextBytes(x.os), other);
    }
    assert Lookups(z, a, s, e, t, x, Ascii("load-addr"));
    assert Lookups(z, a, s, e, t, x, Ascii("size"));
    assert Lookups(z, a, s, e, t, x, Ascii("entry-point"));
    assert Lookups(z, a, s, e, t, x, Ascii("type"));
    assert Lookups(z, a, s, e, t, x, Ascii("os"));
  }

  /** What one lookup finds after each of the five updates. */
  ghost predicate Lookups(z: Tree, a: Tree, s: Tree, e: Tree, t: Tree, x: Image, other: bytes) {
    var o := WithIf(t, x.os.Found?, "os", TextBytes(x.os));
    && Lookup(a, other) == (if other == Ascii("load-addr") then TProp(other, Cell(x.load), TNil) else Lookup(z, other))
    && Lookup(s, other) == (if other == Ascii("size") then TProp(other, Cell(x.size), TNil) else Lookup(a, other))
    && (other == Ascii("entry-point") && x.explicit ==> Lookup(e, other) == TProp(other, Cell(x.entry), TNil))
    && (other != Ascii("entry-point") ==> Lookup(e, other) == Lookup(s, other))
    && (other == Ascii("type") && x.kind.Found? ==> Lookup(t, other) == TProp(other, TextBytes(x.kind), TNil))
    && (other != Ascii("type") ==> Lookup(t, other) == Lookup(e, other))
    && (other == Ascii("os") && x.os.Found? ==> Lookup(o, other) == TProp(other, TextBytes(x.os), TNil))
    && (other != Ascii("os") ==> Lookup(o, other) == Lookup(t, other))
  }
}
