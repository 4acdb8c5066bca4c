/** What the walking and reading routines mean on a block that encodes a tree:
    children, siblings, parents and lookups by name. */
module FdtTree {
  import opened Bytes
  import opened FdtFormat
  import opened FdtWalk
  import opened FdtNodes
  import opened FdtRead

  // ----- children

  /** The offsets of the nodes of a list whose first item is at `base`. */
  function Children(f: Forest, base: nat): seq<nat>
    requires WF(f)
  {
    match f
    case Nil => []
    case Nop(r) => Children(r, base + 4)
    case Prop(_, v, p, r) => Children(r, base + 12 + |v| + |p|)
    case Node(n, p, k, r) => [base] + Children(r, base + 5 + |n| + |p| + Size(k) + 4)
  }

  lemma {:induction false} PreorderFirst(f: Forest, base: nat, d: int)
    requires WF(f)
    ensures Children(f, base) == [] <==> Preorder(f, base, d) == []
    ensures Children(f, base) != [] ==> Preorder(f, base, d)[0] == Visit(Children(f, base)[0], d)
  {
    hide PadLen, Enc;
    match f
    case Nil =>
    case Nop(r) => PreorderFirst(r, base + 4, d);
    case Prop(_, v, p, r) => PreorderFirst(r, base + 12 + |v| + |p|, d);
    case Node(n, p, k, r) =>
  }

  /** Everything a list contributes lies at its depth or deeper, and inside it. */
  lemma {:induction false} PreorderDeep(f: Forest, base: nat, d: int)
    requires WF(f)
    ensures forall v :: v in Preorder(f, base, d) ==> v.depth >= d && base <= v.off < base + Size(f)
    decreases f
  {
    hide PadLen, Enc;
    match f
    case Nil =>
    case Nop(r) => PreorderDeep(r, base + 4, d);
    case Prop(_, v, p, r) => PreorderDeep(r, base + 12 + |v| + |p|, d);
    case Node(n, p, k, r) =>
      var e := base + 5 + |n| + |p|;
      PreorderDeep(k, e, d + 1);
      PreorderDeep(r, e + Size(k) + 4, d);
  }

  function FirstOf(offsets: seq<nat>): int {
    if offsets == [] then ERR_NOTFOUND else offsets[0]
  }

  /** fdt_first_subnode returns the first child. */
  lemma {:induction false} FirstSubnodeIs(c: Ctx, f: Forest)
    requires CtxWF(c) && WF(f) && f.Node?
    ensures FirstSubnode(Block(c, f), Pos(c)) == FirstOf(Children(f.kids, HeadEnd(c, f)))
  {
    hide PadLen, U32, BE32, Enc, Block, Before, After, NextTag, Aligned, Preorder, Children, NextNode;
    WalkNodeBody(c, f);
    PreorderFirst(f.kids, HeadEnd(c, f), 1);
    var w := Walk(Block(c, f), Pos(c), 0);
    assert w[0] == NextNode(Block(c, f), Pos(c), 0);
  }

  lemma {:induction false} ShallowSkip(v: seq<Visit>, w: seq<Visit>)
    requires forall x :: x in v ==> x.off >= 0 && x.depth > 1
    ensures ShallowVisit(v + w) == ShallowVisit(w)
    decreases |v|
  {
    if v == [] {
      assert v + w == w;
    } else {
      assert (v + w)[1..] == v[1..] + w;
      ShallowSkip(v[1..], w);
    }
  }

  /** fdt_next_subnode returns the next sibling, whatever the child contains. */
  lemma {:induction false} NextSubnodeIs(c: Ctx, f: Forest)
    requires CtxWF(c) && WF(f) && f.Node? && c.In?
    ensures ShallowVisit(Walk(Block(c, f), Pos(c), 1)) == FirstOf(Children(f.rest, NodeEnd(c, f)))
  {
    hide PadLen, U32, BE32, Enc, Block, Before, After, NextTag, Aligned, Preorder, Children, NextNode, Walk;
    WalkSiblings(c, f);
    PreorderDeep(f.kids, HeadEnd(c, f), 2);
    PreorderFirst(f.rest, NodeEnd(c, f), 1);
    var a, b, z := Preorder(f.kids, HeadEnd(c, f), 2), Preorder(f.rest, NodeEnd(c, f), 1),
      [Visit(NodeEnd(c, f) + Size(f.rest) + 4, -1)];
    assert a + b + z == a + (b + z);
    ShallowSkip(a, b + z);
    assert b != [] ==> (b + z)[0] == b[0];
  }

  // ----- lookup by name

  /** The first node of the list, starting at `base`, that matches `name`. */
  function FindChild(f: Forest, base: nat, name: bytes): (r: int)
    requires WF(f)
    ensures r == ERR_NOTFOUND || r >= base
  {
    match f
    case Nil => ERR_NOTFOUND
    case Nop(r) => FindChild(r, base + 4, name)
    case Prop(_, v, p, r) => FindChild(r, base + 12 + |v| + |p|, name)
    case Node(n, p, k, r) =>
      if NameMatch(n, name) then base else FindChild(r, base + 5 + |n| + |p| + Size(k) + 4, name)
  }

  lemma {:induction false} MatchSkip(s: bytes, v: seq<Visit>, w: seq<Visit>, name: bytes)
    requires forall x :: x in v ==> x.off >= 0 && x.depth > 1
    requires |w| > 0
    ensures FirstMatch(s, v + w, name) == FirstMatch(s, w, name)
    decreases |v|
  {
    if v == [] {
      assert v + w == w;
    } else {
      assert (v + w)[1..] == v[1..] + w;
      MatchSkip(s, v[1..], w, name);
    }
  }

  lemma {:induction false} MatchPreorder(c: Ctx, f: Forest, w: seq<Visit>, name: bytes)
    requires CtxWF(c) && WF(f) && |w| > 0
    ensures FirstMatch(Block(c, f), Preorder(f, Pos(c), 1) + w, name)
         == if FindChild(f, Pos(c), name) >= 0 then FindChild(f, Pos(c), name)
            else FirstMatch(Block(c, f), w, name)
    decreases f, 1
  {
    hide PadLen, U32, BE32, Enc, Block, Before, After, NextTag, Aligned, Plug, NameMatch, Pass, FirstMatch;
    hide Preorder, Pos;
    if !f.Node? { PreorderItem(f, Pos(c), 1); }
    match f
    case Nil => assert [] + w == w;
    case Nop(r) =>
      PassItem(c, Nop(Nil), r);
      MatchPreorder(Pass(c, Nop(Nil)), r, w, name);
    case Prop(o, v, p, r) =>
      PassItem(c, Prop(o, v, p, Nil), r);
      MatchPreorder(Pass(c, Prop(o, v, p, Nil)), r, w, name);
    case Node(n, p, k, r) => MatchPreorderNode(c, n, p, k, r, w, name);
  }

  lemma {:induction false} MatchPreorderNode(c: Ctx, n: bytes, p: bytes, k: Forest, r: Forest, w: seq<Visit>,
      name: bytes)
    requires CtxWF(c) && WF(Node(n, p, k, r)) && |w| > 0
    ensures var f := Node(n, p, k, r);
            FirstMatch(Block(c, f), Preorder(f, Pos(c), 1) + w, name) ==
            if FindChild(f, Pos(c), name) >= 0 then FindChild(f, Pos(c), name) else FirstMatch(Block(c, f), w, name)
    decreases Node(n, p, k, r), 0
  {
    hide PadLen, U32, BE32, Enc, Block, Before, After, NextTag, Aligned, Plug, NameMatch, Pass, FirstMatch, Preorder;
    hide NameAt, NameEnd, Pos, Size, FindChild, CtxWF;
    var s, x, e := Block(c, Node(n, p, k, r)), Pos(c), Pos(c) + 5 + |n| + |p|;
    assert NameAt(s, x) == n && x + 4 <= |s| by {
      TagBegin(c, n, p, k, r);
      NameIs(s, x, n);
    }
    PreorderNode(n, p, k, r, x, 1);
    PreorderDeep(k, e, 2);
    MatchNode(s, x, Preorder(k, e, 2), Preorder(r, e + Size(k) + 4, 1), w, name);
    PassNode(c, n, p, k, r);
    MatchPreorder(Pass(c, Node(n, p, k, Nil)), r, w, name);
    FindNode(n, p, k, r, x, name);
  }

  /** The search in a list that does not begin with a node. */
  lemma FindItem(f: Forest, x: nat, name: bytes)
    requires WF(f) && !f.Node?
    ensures f.Nil? ==> FindChild(f, x, name) == ERR_NOTFOUND && Size(f) == 0
    ensures f.Nop? ==> FindChild(f, x, name) == FindChild(f.rest, x + 4, name) && Size(f) == 4 + Size(f.rest)
    ensures f.Prop? ==>
              && FindChild(f, x, name) == FindChild(f.rest, x + 12 + |f.value| + |f.pad|, name)
              && Size(f) == 12 + |f.value| + |f.pad| + Size(f.rest)
  {
    hide PadLen, Enc, BE32, NodeHead, PropText, NameMatch;
  }

  lemma FindNode(n: bytes, p: bytes, k: Forest, r: Forest, x: nat, name: bytes)
    requires WF(Node(n, p, k, r))
    ensures FindChild(Node(n, p, k, r), x, name)
         == if NameMatch(n, name) then x else FindChild(r, x + 5 + |n| + |p| + Size(k) + 4, name)
  {
    hide PadLen, Size, Enc, NameMatch;
  }

  lemma NameIs(s: bytes, o: nat, n: bytes)
    requires o + 4 + |n| <= |s| && NameEnd(s, o + 4) == o + 4 + |n| && s[o + 4..o + 4 + |n|] == n
    ensures NameAt(s, o) == n
  {
    hide NameEnd;
  }

  lemma {:induction false} MatchNode(s: bytes, x: nat, a: seq<Visit>, b: seq<Visit>, w: seq<Visit>, name: bytes)
    requires forall v :: v in a ==> v.off >= 0 && v.depth > 1
    requires x + 4 <= |s| && |w| > 0
    ensures FirstMatch(s, [Visit(x, 1)] + a + b + w, name)
         == if NameMatch(NameAt(s, x), name) then x else FirstMatch(s, b + w, name)
  {
    hide NameMatch, NameAt;
    var h := [Visit(x, 1)];
    assert h + a + b + w == h + (a + (b + w));
    assert (h + (a + (b + w)))[1..] == a + (b + w);
    MatchSkip(s, a, b + w, name);
  }

  /** fdt_subnode_offset returns the first child whose name matches. */
  lemma {:induction false} SubnodeIs(c: Ctx, f: Forest, name: bytes)
    requires CtxWF(c) && WF(f) && f.Node?
    ensures FirstMatch(Block(c, f), Trail(Block(c, f), Pos(c), 0), name)
         == FindChild(f.kids, HeadEnd(c, f), name)
  {
    hide PadLen, U32, BE32, Enc, Block, Before, After, NextTag, Aligned, Plug, NameMatch, Pass, Preorder, Walk;
    var s := Block(c, f);
    WalkNodeBody(c, f);
    var w := [Visit(NodeEnd(c, f), -1)];
    assert Trail(s, Pos(c), 0)[1..] == Preorder(f.kids, HeadEnd(c, f), 1) + w;
    EnterIs(c, f.name, f.npad, f.kids, f.rest);
    MatchPreorder(In(c, f.name, f.npad, Nil, f.rest), f.kids, w, name);
  }
}
