/** external/libfdt/fdt_ro.c and fdt_wip.c: the walk from the root down to a
    node, ancestors of a node, and the end of a node. */
module FdtAncestors {
  import opened Bytes
  import opened FdtFormat
  import opened FdtWalk
  import opened FdtNodes
  import opened FdtRead
  import opened FdtTree

  /** The tree has its root at offset 0, and `c` stands below it (or is it). */
  predicate UnderRoot(c: Ctx) {
    match c
    case Top(b) => b == Nil
    case In(u, _, _, _, _) => UnderRoot(u)
  }

  /** The nodes that the walk from the root meets before it reaches `c`. */
  function PreVisits(c: Ctx): seq<Visit>
    requires CtxWF(c)
  {
    match c
    case Top(b) => Preorder(b, 0, 0)
    case In(u, n, p, b, _) =>
      Joined(PreVisits(u), [Visit(Pos(u), Depth(u))], Preorder(b, Pos(u) + 5 + |n| + |p|, Depth(u) + 1))
  }

  function Joined(x: seq<Visit>, y: seq<Visit>, z: seq<Visit>): seq<Visit> {
    x + y + z
  }

  lemma JoinedIs(x: seq<Visit>, y: seq<Visit>, z: seq<Visit>)
    ensures Joined(x, y, z) == x + y + z
  {}

  lemma PreVisitsIn(u: Ctx, n: bytes, p: bytes, b: Forest, a: Forest)
    requires CtxWF(In(u, n, p, b, a))
    ensures PreVisits(In(u, n, p, b, a))
         == PreVisits(u) + [Visit(Pos(u), Depth(u))] + Preorder(b, Pos(u) + 5 + |n| + |p|, Depth(u) + 1)
  {
    hide PreVisits, PadLen, Enc, Before, Preorder, BE32, Size, Pos, Joined, Depth;
    PreVisitsUnfold(u, n, p, b, a);
    JoinedIs(PreVisits(u), [Visit(Pos(u), Depth(u))], Preorder(b, Pos(u) + 5 + |n| + |p|, Depth(u) + 1));
  }

  lemma PreVisitsUnfold(u: Ctx, n: bytes, p: bytes, b: Forest, a: Forest)
    requires CtxWF(In(u, n, p, b, a))
    ensures PreVisits(In(u, n, p, b, a))
         == Joined(PreVisits(u), [Visit(Pos(u), Depth(u))], Preorder(b, Pos(u) + 5 + |n| + |p|, Depth(u) + 1))
  {
    hide PadLen, Enc, Before, Preorder, BE32, Size, WF, Pos, Joined;
  }

  lemma {:induction false} SizeAppend(a: Forest, b: Forest)
    requires WF(a) && WF(b)
    ensures WF(Append(a, b)) && Size(Append(a, b)) == Size(a) + Size(b)
  {
    hide PadLen, Enc, Size, WF, Append;
    AppendEnc(a, b);
  }

  lemma {:induction false} PreorderAppend(a: Forest, b: Forest, base: nat, d: int)
    requires WF(a) && WF(b)
    ensures WF(Append(a, b)) && Size(Append(a, b)) == Size(a) + Size(b)
    ensures Preorder(Append(a, b), base, d) == Preorder(a, base, d) + Preorder(b, base + Size(a), d)
    decreases a, 1
  {
    hide PadLen, Enc, Preorder, Size, BE32;
    SizeAppend(a, b);
    if !a.Node? {
      PreorderItem(a, base, d);
      if !a.Nil? { PreorderItem(Append(a, b), base, d); }
    }
    match a
    case Nil => assert [] + Preorder(b, base, d) == Preorder(b, base, d);
    case Nop(r) => PreorderAppend(r, b, base + 4, d);
    case Prop(_, v, p, r) => PreorderAppend(r, b, base + 12 + |v| + |p|, d);
    case Node(n, p, k, r) => PreorderAppendNode(n, p, k, r, b, base, d);
  }

  lemma {:induction false} PreorderAppendNode(n: bytes, p: bytes, k: Forest, r: Forest, b: Forest, base: nat, d: int)
    requires WF(Node(n, p, k, r)) && WF(b)
    ensures var a := Node(n, p, k, r);
            && WF(Append(a, b)) && Size(Append(a, b)) == Size(a) + Size(b)
            && Preorder(Append(a, b), base, d) == Preorder(a, base, d) + Preorder(b, base + Size(a), d)
    decreases Node(n, p, k, r), 0
  {
    hide PadLen, Enc, Preorder, BE32;
    var y := base + 5 + |n| + |p| + Size(k) + 4;
    SizeAppend(r, b);
    PreorderAppend(r, b, y, d);
    PreorderNode(n, p, k, r, base, d);
    PreorderNode(n, p, k, Append(r, b), base, d);
    var h, t, z := [Visit(base, d)] + Preorder(k, base + 5 + |n| + |p|, d + 1), Preorder(r, y, d),
      Preorder(b, base + Size(Node(n, p, k, r)), d);
    assert h + t + z == h + (t + z);
  }

  /** Started at the root with depth 0, fdt_next_node reaches every node below
      it, with the node's true depth, after exactly the nodes of `PreVisits`. */
  lemma {:induction false} TrailTo(c: Ctx, f: Forest)
    requires CtxWF(c) && WF(f) && f.Node? && UnderRoot(c)
    ensures Trail(Block(c, f), 0, 0) == PreVisits(c) + Trail(Block(c, f), Pos(c), Depth(c))
    decreases c
  {
    hide PadLen, U32, BE32, Enc, Block, Before, After, NextTag, Aligned, Plug, Trail, Preorder, Joined, Append;
    match c
    case Top(b) =>
      PreorderItem(Nil, 0, 0);
      assert PreVisits(c) == [];
    case In(u, n, p, b, a) =>
      InNode(c, f);
      var g := Node(n, p, Append(b, f), a);
      TrailTo(u, g);
      TrailInto(u, n, p, b, f, a);
      PreVisitsIn(u, n, p, b, a);
      VisitsAssoc(PreVisits(u), [Visit(Pos(u), Depth(u))], Preorder(b, Pos(u) + 5 + |n| + |p|, Depth(u) + 1),
                  Trail(Block(c, f), Pos(c), Depth(c)));
  }

  /** `f` standing at `c`, seen as part of the node that encloses it. */
  lemma {:induction false} InNode(c: Ctx, f: Forest)
    requires CtxWF(c) && WF(f) && c.In?
    ensures var g := Node(c.name, c.npad, Append(c.before, f), c.after);
            && WF(g) && Block(c.up, g) == Block(c, f) && Plug(c.up, g) == Plug(c, f)
  {
    hide PadLen, BE32, NodeHead, PropText, Before, After;
    AppendEnc(c.before, f);
    InBlock(c.up, c.name, c.npad, c.before, f, c.after);
  }

  lemma {:induction false} TrailInto(u: Ctx, n: bytes, p: bytes, b: Forest, f: Forest, a: Forest)
    requires CtxWF(In(u, n, p, b, a)) && WF(f) && f.Node? && WF(Node(n, p, Append(b, f), a))
    ensures var c := In(u, n, p, b, a);
            var s := Block(u, Node(n, p, Append(b, f), a));
            Trail(s, Pos(u), Depth(u)) ==
            [Visit(Pos(u), Depth(u))] + Preorder(b, Pos(u) + 5 + |n| + |p|, Depth(u) + 1) + Trail(s, Pos(c), Depth(c))
  {
    hide PadLen, U32, BE32, Enc, Block, Before, After, NextTag, Aligned, Plug, Preorder, Walk, WalkFrom, Append, Size;
    var c, d, g := In(u, n, p, b, a), Depth(u), Node(n, p, Append(b, f), a);
    var s, e := Block(u, g), Pos(u) + 5 + |n| + |p|;
    InNode(c, f);
    PreorderAppend(b, f, e, d + 1);
    var w := WalkFrom(s, e + Size(Append(b, f)), d);
    assert Walk(s, Pos(u), d) == Preorder(Append(b, f), e, d + 1) + w by {
      WalkStart(u, g, d);
    }
    assert WalkFrom(s, Pos(c), d) == Preorder(f, Pos(c), d + 1) + w by {
      WalkPreorder(c, f, d);
    }
    TrailAt(c, f, d);
    VisitsAssoc([Visit(Pos(u), d)], Preorder(b, e, d + 1), Preorder(f, Pos(c), d + 1), w);
  }

  lemma VisitsAssoc(v: seq<Visit>, x: seq<Visit>, y: seq<Visit>, w: seq<Visit>)
    ensures v + (x + y + w) == v + x + (y + w) == v + x + y + w
  {}

  lemma {:induction false} TrailAt(c: Ctx, f: Forest, d: nat)
    requires CtxWF(c) && WF(f) && f.Node?
    ensures WalkFrom(Block(c, f), Pos(c), d) == Trail(Block(c, f), Pos(c), d + 1)
  {
    hide PadLen, U32, BE32, Enc, Block, Before, After, NextTag, Aligned, Plug, Preorder, Walk;
    TagBegin(c, f.name, f.npad, f.kids, f.rest);
    PosAligned(c);
    WalkIsFrom(Block(c, f), Pos(c), d + 1);
  }

  // ----- the end of a node

  /** The loop of fdt_node_end_offset_: the last visit. */
  function LastOff(w: seq<Visit>): int
    requires |w| > 0
  {
    w[|w| - 1].off
  }

  method FindNodeEnd(b: bytes, start: int) returns (offset: int)
    requires InMemory(b) && start <= INT_MAX
    ensures offset == LastOff(Trail(StructOf(b), start, 0))
  {
    hide NextTag, Aligned, NextNode, StructOf, Trail;
    ghost var s := StructOf(b);
    var depth := 0;
    offset := start;
    while offset >= 0 && depth >= 0
      invariant offset <= INT_MAX
      invariant LastOff(Trail(s, start, 0)) == LastOff(Trail(s, offset, depth))
      decreases TrailMeasure(s, offset, depth)
    {
      TrailStep(s, offset, depth);
      offset, depth := FindNextNode(b, offset, depth);
    }
    assert Trail(s, offset, depth) == [Visit(offset, depth)] by { TrailDone(s, offset, depth); }
  }

  lemma TrailDone(s: bytes, o: int, d: int)
    requires o < 0 || d < 0
    ensures Trail(s, o, d) == [Visit(o, d)]
  {}

  /** fdt_node_end_offset_ returns the offset just past the node's end tag. */
  lemma {:induction false} NodeEndIs(c: Ctx, f: Forest)
    requires CtxWF(c) && WF(f) && f.Node?
    ensures LastOff(Trail(Block(c, f), Pos(c), 0)) == NodeEnd(c, f)
  {
    hide PadLen, U32, BE32, Enc, Block, Before, After, NextTag, Aligned, Plug, Preorder, Walk;
    WalkNodeBody(c, f);
  }

  // ----- ancestors

  /** The loop of fdt_supernode_atdepth_offset from the visit `v` on: the
      result, and the depth that it reports for the node itself. */
  function Supernode(s: bytes, v: Visit, node: int, want: int, best: int): Visit
    decreases |s| - v.off
  {
    var Visit(o, d) := v;
    if o < 0 || o > node then Visit(LoopError(o), -1)
    else
      var best' := if d == want then o else best;
      if o == node then Visit(if want > d then ERR_NOTFOUND else best', d)
      else if NextNode(s, o, d).off < 0 then Visit(LoopError(NextNode(s, o, d).off), -1)
      else Supernode(s, NextNode(s, o, d), node, want, best')
  }

  function LoopError(o: int): int {
    if o == ERR_NOTFOUND || o >= 0 then ERR_BADOFFSET
    else if o == ERR_BADOFFSET then ERR_BADSTRUCTURE
    else o
  }

  function SupernodeOffset(b: bytes, at: nat, node: int, want: int): Visit
    requires InMemory(b)
  {
    if Probe(b, at) < 0 then Visit(Probe(b, at), -1)
    else if want < 0 then Visit(ERR_NOTFOUND, -1)
    else Supernode(StructOf(b), Visit(0, 0), node, want, ERR_INTERNAL)
  }

  /** fdt_supernode_atdepth_offset. */
  method FindSupernode(b: bytes, at: nat, node: int, want: int) returns (offset: int, nodedepth: int)
    requires InMemory(b)
    ensures Visit(offset, nodedepth) == SupernodeOffset(b, at, node, want)
  {
    hide NextTag, Aligned, NextNode, StructOf, Trail, Probe;
    ghost var s := StructOf(b);
    nodedepth := -1;
    offset := Probe(b, at);
    if offset < 0 {
      return;
    }
    if want < 0 {
      return ERR_NOTFOUND, nodedepth;
    }
    var supernode := ERR_INTERNAL;
    var depth := 0;
    offset := 0;
    while offset >= 0 && offset <= node
      invariant offset <= INT_MAX
      invariant Supernode(s, Visit(0, 0), node, want, ERR_INTERNAL)
             == Supernode(s, Visit(offset, depth), node, want, supernode)
      invariant offset <= |s| + 3
      decreases if offset < 0 then 0 else |s| + 4 - offset
    {
      if depth == want {
        supernode := offset;
      }
      if offset == node {
        return if want > depth then ERR_NOTFOUND else supernode, depth;
      }
      NextNodeRange(s, offset, depth);
      offset, depth := FindNextNode(b, offset, depth);
    }
    offset := LoopError(offset);
  }

  lemma NextNodeRange(s: bytes, o: nat, d: int)
    ensures NextNode(s, o, d).off >= 0 ==> o < |s| && o < NextNode(s, o, d).off <= |s| + 3
  {}

  /** fdt_node_depth, and fdt_parent_offset through it. */
  method FindParent(b: bytes, at: nat, node: int) returns (parent: int)
    requires InMemory(b)
    ensures parent == ParentOffset(b, at, node)
  {
    hide SupernodeOffset, Probe;
    var root, depth := FindSupernode(b, at, node, 0);
    if root != 0 {
      return if root < 0 then root else ERR_INTERNAL;
    }
    if depth < 0 {
      return depth;
    }
    var d: int;
    parent, d := FindSupernode(b, at, node, depth - 1);
  }

  function ParentOffset(b: bytes, at: nat, node: int): int
    requires InMemory(b)
  {
    var top := SupernodeOffset(b, at, node, 0);
    if top.off != 0 then if top.off < 0 then top.off else ERR_INTERNAL
    else if top.depth < 0 then top.depth
    else SupernodeOffset(b, at, node, top.depth - 1).off
  }

  /** The last of `v` at depth `want`. */
  function LastAt(v: seq<Visit>, want: int, best: int): int {
    if v == [] then best else LastAt(v[1..], want, if v[0].depth == want then v[0].off else best)
  }

  lemma {:induction false} SupernodeTrail(s: bytes, a: seq<Visit>, v: Visit, node: Visit, want: nat, best: int)
    requires node.off >= 0 && node.depth >= want
    requires forall x :: x in a ==> 0 <= x.off < node.off && x.depth >= 0
    requires Trail(s, v.off, v.depth) == a + Trail(s, node.off, node.depth)
    ensures Supernode(s, v, node.off, want, best) == Visit(LastAt(a + [node], want, best), node.depth)
    decreases |a|
  {
    hide NextNode, Trail;
    assert Trail(s, v.off, v.depth)[0] == v;
    var best' := if v.depth == want then v.off else best;
    if a == [] {
      assert a + Trail(s, node.off, node.depth) == Trail(s, node.off, node.depth);
      assert v == node && a + [node] == [node] && [node][1..] == [];
      assert LastAt([node], want, best) == LastAt([], want, best') == best';
    } else {
      assert (a + Trail(s, node.off, node.depth))[0] == a[0] == v;
      TrailStep(s, v.off, v.depth);
      var w := NextNode(s, v.off, v.depth);
      assert (a + Trail(s, node.off, node.depth))[1..] == a[1..] + Trail(s, node.off, node.depth);
      assert (a + [node])[1..] == a[1..] + [node];
      assert Trail(s, w.off, w.depth)[0] == w;
      assert w.off >= 0 by {
        if |a| > 1 { assert w == a[1]; } else { assert w == Trail(s, node.off, node.depth)[0]; }
      }
      SupernodeTrail(s, a[1..], w, node, want, best');
    }
  }

  /** The offset of the ancestor of `c` at depth `d`. */
  function AncestorPos(c: Ctx, d: nat): nat
    requires CtxWF(c) && d <= Depth(c)
  {
    if d == Depth(c) then Pos(c) else AncestorPos(c.up, d)
  }

  lemma {:induction false} LastAtAppend(a: seq<Visit>, b: seq<Visit>, want: int, best: int)
    ensures LastAt(a + b, want, best) == LastAt(b, want, LastAt(a, want, best))
    decreases |a|
  {
    if a == [] {
      assert a + b == b;
    } else {
      assert (a + b)[1..] == a[1..] + b;
      LastAtAppend(a[1..], b, want, if a[0].depth == want then a[0].off else best);
    }
  }

  lemma {:induction false} LastAtDeeper(a: seq<Visit>, want: int, best: int)
    requires forall x :: x in a ==> x.depth > want
    ensures LastAt(a, want, best) == best
    decreases |a|
  {
    if a != [] { LastAtDeeper(a[1..], want, best); }
  }

  /** The nodes met before `c` lie before it. */
  lemma {:induction false} PreVisitsBefore(c: Ctx)
    requires CtxWF(c)
    ensures forall x :: x in PreVisits(c) ==> 0 <= x.off < Pos(c) && x.depth >= 0
  {
    hide PadLen, Enc, Before, Preorder;
    match c
    case Top(b) => PreorderDeep(b, 0, 0);
    case In(u, n, p, b, _) =>
      PreVisitsBefore(u);
      PreorderDeep(b, Pos(u) + 5 + |n| + |p|, Depth(u) + 1);
  }

  lemma {:induction false} LastAtAncestor(c: Ctx, want: nat, best: int)
    requires CtxWF(c) && UnderRoot(c) && want <= Depth(c)
    ensures LastAt(PreVisits(c) + [Visit(Pos(c), Depth(c))], want, best) == AncestorPos(c, want)
  {
    hide PadLen, Enc, Before, Preorder, Pos;
    var z := [Visit(Pos(c), Depth(c))];
    LastAtAppend(PreVisits(c), z, want, best);
    var m := LastAt(PreVisits(c), want, best);
    assert z[1..] == [] && LastAt(z, want, m) == LastAt([], want, if Depth(c) == want then Pos(c) else m);
    if want < Depth(c) {
      var In(u, n, p, b, _) := c;
      var y := Preorder(b, Pos(u) + 5 + |n| + |p|, Depth(u) + 1);
      PreorderDeep(b, Pos(u) + 5 + |n| + |p|, Depth(u) + 1);
      LastAtAppend(PreVisits(u) + [Visit(Pos(u), Depth(u))], y, want, best);
      LastAtDeeper(y, want, LastAt(PreVisits(u) + [Visit(Pos(u), Depth(u))], want, best));
      LastAtAncestor(u, want, best);
    }
  }

  /** fdt_supernode_atdepth_offset finds the ancestor at every depth up to the
      node's own, and reports the node's depth. */
  lemma {:induction false} SupernodeIs(c: Ctx, f: Forest, want: nat)
    requires CtxWF(c) && WF(f) && f.Node? && UnderRoot(c) && want <= Depth(c)
    ensures Supernode(Block(c, f), Visit(0, 0), Pos(c), want, ERR_INTERNAL) == Visit(AncestorPos(c, want), Depth(c))
  {
    hide PadLen, U32, BE32, Enc, Block, Before, After, NextTag, Aligned, Plug, Preorder, Trail, NextNode, PreVisits;
    TrailTo(c, f);
    PreVisitsBefore(c);
    SupernodeTrail(Block(c, f), PreVisits(c), Visit(0, 0), Visit(Pos(c), Depth(c)), want, ERR_INTERNAL);
    LastAtAncestor(c, want, ERR_INTERNAL);
  }

  lemma {:induction false} RootPos(c: Ctx)
    requires CtxWF(c) && UnderRoot(c)
    ensures AncestorPos(c, 0) == 0
  {
    hide PadLen, Before;
    if c.In? { RootPos(c.up); }
  }

  /** fdt_parent_offset inverts "is a child of"; the root has no parent. */
  lemma {:induction false} ParentIs(b: bytes, at: nat, c: Ctx, f: Forest)
    requires InMemory(b) && Probe(b, at) >= 0
    requires CtxWF(c) && WF(f) && f.Node? && UnderRoot(c) && StructOf(b) == Block(c, f)
    ensures ParentOffset(b, at, Pos(c)) == if c.In? then Pos(c.up) else ERR_NOTFOUND
  {
    hide PadLen, U32, BE32, Enc, Block, Before, After, NextTag, Aligned, Plug, Probe, Pos, InMemory;
    SupernodeIs(c, f, 0);
    RootPos(c);
    if c.In? {
      SupernodeIs(c, f, Depth(c) - 1);
    }
  }
}
