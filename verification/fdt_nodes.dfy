/** external/libfdt/fdt.c: walking from node to node, and what the walk visits. */
module FdtNodes {
  import opened Bytes
  import opened FdtFormat
  import opened FdtWalk

  /** A node offset (or a negative error) with the running depth counter. */
  datatype Visit = Visit(off: int, depth: int)

  function CheckNode(s: bytes, o: int): (r: int)
    ensures r >= 0 ==> r == NextTag(s, o).next && o >= 0 && Aligned(o) && NextTag(s, o).tag == BEGIN_NODE
  {
    if o < 0 || !Aligned(o) || NextTag(s, o).tag != BEGIN_NODE then ERR_BADOFFSET else NextTag(s, o).next
  }

  lemma AlignedNext(s: bytes, o: int)
    ensures Aligned(o) && NextTag(s, o).tag == END_NODE ==> NextTag(s, o).next == o + 4 <= |s|
    ensures Aligned(o) && NextTag(s, o).tag == BEGIN_NODE ==> o + 4 <= |s|
  {
    hide U32;
  }

  /** The do-while of fdt_next_node: from tag to tag until a node begins, or
      the counter drops below zero, or the block ends. */
  function Scan(s: bytes, o: int, d: int): (r: Visit)
    ensures r.off >= 0 && r.depth >= 0 ==> NextTag(s, r.off).tag == BEGIN_NODE
    ensures r.off >= 0 ==> r.off >= o
    ensures Aligned(o) && r.off >= 0 ==> Aligned(r.off)
    ensures r.off <= |s| + 3 || r.off == o
    ensures Aligned(o) && r.off >= 0 ==> r.off <= |s|
    decreases |s| - o
  {
    var t := NextTag(s, o);
    AlignedNext(s, o);
    if t.tag == BEGIN_NODE then Visit(o, d + 1)
    else if t.tag == END then Visit(if t.next >= 0 then ERR_NOTFOUND else t.next, d)
    else if t.tag == END_NODE then
      if d - 1 < 0 then Visit(t.next, d - 1) else Scan(s, t.next, d - 1)
    else Scan(s, t.next, d)
  }

  function NextNode(s: bytes, o: int, d: int): Visit {
    if o < 0 then Scan(s, 0, d)
    else if CheckNode(s, o) < 0 then Visit(CheckNode(s, o), d)
    else Scan(s, CheckNode(s, o), d)
  }

  /** What repeated calls of fdt_next_node return, starting from the node at
      `o` with counter `d`; the last entry is the error or the end of the level
      that stops the repetition. */
  function Walk(s: bytes, o: nat, d: int): (w: seq<Visit>)
    ensures |w| > 0
    ensures w[|w| - 1].off < 0 || w[|w| - 1].depth < 0
    decreases |s| - o
  {
    var v := NextNode(s, o, d);
    if v.off < 0 || v.depth < 0 then [v] else [v] + Walk(s, v.off, v.depth)
  }

  /** The visits of a C loop that starts at `o` and advances with
      fdt_next_node while both the offset and the counter are non-negative. */
  function Trail(s: bytes, o: int, d: int): (w: seq<Visit>)
    ensures |w| > 0 && w[0] == Visit(o, d)
  {
    [Visit(o, d)] + if o < 0 || d < 0 then [] else Walk(s, o, d)
  }

  lemma TrailStep(s: bytes, o: nat, d: nat)
    ensures var v := NextNode(s, o, d);
            && Trail(s, o, d)[1..] == Trail(s, v.off, v.depth)
            && (v.off >= 0 && v.depth >= 0 ==> o < v.off && v.off + 4 <= |s| && NextTag(s, v.off).tag == BEGIN_NODE)
            && v.off <= |s| + 3
  {}

  /** Bounds the rest of such a loop. */
  function TrailMeasure(s: bytes, o: int, d: int): nat {
    if o < 0 || d < 0 then 0 else if o <= |s| then |s| - o + 2 else 1
  }

  /** The same from an arbitrary tag. */
  function WalkFrom(s: bytes, o: int, d: int): (w: seq<Visit>)
    ensures |w| > 0
    decreases |s| - o
  {
    var v := Scan(s, o, d);
    if v.off < 0 || v.depth < 0 then [v] else [v] + WalkFrom(s, NextTag(s, v.off).next, v.depth)
  }

  lemma {:induction false} WalkIsFrom(s: bytes, o: nat, d: int)
    requires CheckNode(s, o) >= 0
    ensures Walk(s, o, d) == WalkFrom(s, NextTag(s, o).next, d)
    decreases |s| - o
  {
    hide Aligned, NextTag;
    var v := NextNode(s, o, d);
    if v.off >= 0 && v.depth >= 0 {
      WalkIsFrom(s, v.off, v.depth);
    }
  }

  method CheckNodeOffset(b: bytes, offset: int) returns (r: int)
    requires InMemory(b) && offset <= INT_MAX
    ensures r == CheckNode(StructOf(b), offset)
  {
    hide InMemory, StructOf;
    if offset < 0 || !Aligned(offset) {
      return ERR_BADOFFSET;
    }
    var tag, next := ReadTag(b, offset);
    if tag != BEGIN_NODE {
      return ERR_BADOFFSET;
    }
    return next;
  }

  /** fdt_next_node. */
  method FindNextNode(b: bytes, start: int, startdepth: int) returns (offset: int, depth: int)
    requires InMemory(b) && start <= INT_MAX
    ensures Visit(offset, depth) == NextNode(StructOf(b), start, startdepth)
  {
    hide InMemory, NextTag, Aligned;
    ghost var s := StructOf(b);
    var nextoffset := 0;
    offset, depth := start, startdepth;
    if offset >= 0 {
      nextoffset := CheckNodeOffset(b, offset);
      if nextoffset < 0 {
        return nextoffset, depth;
      }
    }
    while true
      invariant 0 <= nextoffset <= INT_MAX
      invariant NextNode(s, start, startdepth) == Scan(s, nextoffset, depth)
      decreases |s| - nextoffset
    {
      offset := nextoffset;
      var tag: u32;
      tag, nextoffset := ReadTag(b, offset);
      if tag == BEGIN_NODE {
        depth := depth + 1;
        return;
      } else if tag == END_NODE {
        depth := depth - 1;
        if depth < 0 {
          return nextoffset, depth;
        }
      } else if tag == END {
        return if nextoffset >= 0 then ERR_NOTFOUND else nextoffset, depth;
      }
    }
  }

  /** fdt_first_subnode and fdt_next_subnode, as functions of the walk. */
  function FirstSubnode(s: bytes, o: int): int {
    var v := NextNode(s, o, 0);
    if v.off < 0 || v.depth != 1 then ERR_NOTFOUND else v.off
  }

  function ShallowVisit(w: seq<Visit>): int {
    if w == [] || w[0].off < 0 || w[0].depth < 1 then ERR_NOTFOUND
    else if w[0].depth > 1 then ShallowVisit(w[1..])
    else w[0].off
  }

  method FindFirstSubnode(b: bytes, offset: int) returns (r: int)
    requires InMemory(b) && offset <= INT_MAX
    ensures r == FirstSubnode(StructOf(b), offset)
  {
    hide InMemory, NextTag, StructOf;
    var o, depth := FindNextNode(b, offset, 0);
    r := if o < 0 || depth != 1 then ERR_NOTFOUND else o;
  }

  method FindNextSubnode(b: bytes, start: int) returns (offset: int)
    requires InMemory(b) && 0 <= start <= INT_MAX
    ensures offset == ShallowVisit(Walk(StructOf(b), start, 1))
  {
    hide InMemory, NextTag, NextNode;
    ghost var s := StructOf(b);
    var depth := 1;
    offset := start;
    assert Trail(s, start, 1)[1..] == Walk(s, start, 1);
    while true
      invariant 0 <= offset <= INT_MAX && depth >= 0
      invariant ShallowVisit(Walk(s, start, 1)) == ShallowVisit(Trail(s, offset, depth)[1..])
      decreases TrailMeasure(s, offset, depth)
    {
      TrailStep(s, offset, depth);
      offset, depth := FindNextNode(b, offset, depth);
      if offset < 0 || depth < 1 {
        return ERR_NOTFOUND;
      }
      if depth <= 1 {
        return;
      }
    }
  }

  // ----- reading the tags of a block that encodes a tree

  lemma {:induction false} SizeAligned(f: Forest)
    requires WF(f)
    ensures Aligned(Size(f))
    decreases f
  {
    hide PadLen, Align4, Aligned, Enc;
    PadAligned(0);
    match f
    case Nil =>
    case Nop(r) =>
      SizeAligned(r);
      AlignedSum(4, Size(r));
    case Prop(o, v, p, r) =>
      SizeAligned(r);
      PadAligned(|v|);
      AlignedSum(12, |v| + |p|);
      AlignedSum(12 + |v| + |p|, Size(r));
    case Node(n, p, k, r) =>
      SizeAligned(k);
      SizeAligned(r);
      PadAligned(|n| + 1);
      AlignedSum(8, |n| + 1 + |p|);
      AlignedSum(8 + |n| + 1 + |p|, Size(k));
      AlignedSum(9 + |n| + |p| + Size(k), Size(r));
  }

  lemma PadAligned(n: int)
    ensures Aligned(n + PadLen(n)) && Aligned(0) && Aligned(4) && Aligned(8) && Aligned(12)
  {}

  lemma {:induction false} PosAligned(c: Ctx)
    requires CtxWF(c)
    ensures Aligned(Pos(c))
  {
    hide PadLen, Align4, Aligned, Enc, Before;
    SizeAligned(c.before);
    if c.In? {
      PosAligned(c.up);
      PadAligned(|c.name| + 1);
      AlignedSum(4, |c.name| + 1 + |c.npad|);
      AlignedSum(Pos(c.up), 5 + |c.name| + |c.npad|);
      AlignedSum(Pos(c.up) + 5 + |c.name| + |c.npad|, Size(c.before));
    }
  }

  lemma BlockFrom(c: Ctx, f: Forest)
    requires CtxWF(c) && WF(f)
    ensures Pos(c) <= |Block(c, f)| && Block(c, f)[Pos(c)..] == Enc(f) + After(c)
    ensures Block(c, f)[..Pos(c)] == Before(c)
  {
    hide PadLen, BE32, NodeHead, PropText, Enc, Before, After, WF, CtxWF;
    var x, y, z := Before(c), Enc(f), After(c);
    Assoc(x, y, z);
    assert (x + (y + z))[|x|..] == y + z;
    assert (x + (y + z))[..|x|] == x;
  }

  lemma {:induction false} TagNop(c: Ctx, r: Forest)
    requires CtxWF(c) && WF(r)
    ensures NextTag(Block(c, Nop(r)), Pos(c)) == Step(NOP, Pos(c) + 4)
  {
    hide PadLen, BE32, U32, Align4, Aligned;
    BlockFrom(c, Nop(r));
    PosAligned(c);
    AlignFrom(Pos(c), 4);
    Assoc(BE32(NOP), Enc(r), After(c));
    PeelU32(Block(c, Nop(r)), Pos(c), NOP, Enc(r) + After(c));
  }

  lemma {:induction false} TagEndNode(c: Ctx)
    requires CtxWF(c) && c.In?
    ensures NextTag(Block(c, Nil), Pos(c)) == Step(END_NODE, Pos(c) + 4)
  {
    hide PadLen, BE32, U32, Align4, Aligned;
    BlockFrom(c, Nil);
    PosAligned(c);
    AlignFrom(Pos(c), 4);
    Assoc(BE32(END_NODE), Enc(c.after), After(c.up));
    assert Enc(Nil) + After(c) == After(c);
    PeelU32(Block(c, Nil), Pos(c), END_NODE, Enc(c.after) + After(c.up));
  }

  lemma {:induction false} TagEnd(c: Ctx)
    requires CtxWF(c) && c.Top?
    ensures NextTag(Block(c, Nil), Pos(c)) == Step(END, Pos(c) + 4)
    ensures |Block(c, Nil)| == Pos(c) + 4
  {
    hide PadLen, BE32, U32, Align4, Aligned;
    BlockFrom(c, Nil);
    PosAligned(c);
    AlignFrom(Pos(c), 4);
    assert Enc(Nil) + After(c) == BE32(END) + [];
    PeelU32(Block(c, Nil), Pos(c), END, []);
  }

  lemma PropWords(s: bytes, x: nat, o: u32, v: bytes, p: bytes, rest: bytes)
    requires x <= |s| && |v| <= INT_MAX
    requires s[x..] == BE32(PROP) + (BE32(|v|) + (BE32(o) + (v + (p + rest))))
    ensures x + 12 + |v| + |p| + |rest| == |s|
    ensures U32(s, x) == PROP && U32(s, x + 4) == |v| && U32(s, x + 8) == o
    ensures s[x + 12..x + 12 + |v|] == v
  {
    hide U32, BE32;
    PeelU32(s, x, PROP, BE32(|v|) + (BE32(o) + (v + (p + rest))));
    PeelU32(s, x + 4, |v|, BE32(o) + (v + (p + rest)));
    PeelU32(s, x + 8, o, v + (p + rest));
    Peel(s, x + 12, v, p + rest);
  }

  lemma PropStep(s: bytes, x: nat, n: nat, pad: nat)
    requires Aligned(x) && x + 12 + n + pad <= |s| && pad == PadLen(n)
    requires U32(s, x) == PROP && U32(s, x + 4) == n
    ensures NextTag(s, x) == Step(PROP, x + 12 + n + pad)
  {
    hide U32, Aligned, Align4, PadLen;
    PadAligned(0);
    AlignedSum(x, 12);
    AlignFrom(x + 12, n);
  }

  /** The words and the data of a property, as fdt_get_property sees them. */
  lemma {:induction false} TagProp(c: Ctx, o: u32, v: bytes, p: bytes, r: Forest)
    requires CtxWF(c) && WF(Prop(o, v, p, r))
    ensures var s := Block(c, Prop(o, v, p, r));
            && NextTag(s, Pos(c)) == Step(PROP, Pos(c) + 12 + |v| + |p|)
            && Pos(c) + 12 + |v| + |p| <= |s|
            && U32(s, Pos(c) + 4) == |v| && U32(s, Pos(c) + 8) == o
            && s[Pos(c) + 12..Pos(c) + 12 + |v|] == v
  {
    hide PadLen, BE32, U32, Align4, Aligned, NextTag, PropText, After, Before;
    var f := Prop(o, v, p, r);
    var s, x := Block(c, f), Pos(c);
    BlockFrom(c, f);
    PosAligned(c);
    PropFrom(o, v, p, Enc(r), After(c));
    PropWords(s, x, o, v, p, Enc(r) + After(c));
    PropStep(s, x, |v|, |p|);
  }

  lemma PropFrom(o: u32, v: bytes, p: bytes, r: bytes, a: bytes)
    requires |v| <= INT_MAX
    ensures PropText(o, v, p) + r + a == BE32(PROP) + (BE32(|v|) + (BE32(o) + (v + (p + (r + a)))))
  {
    hide BE32;
    var t, l, n := BE32(PROP), BE32(|v|), BE32(o);
    Assoc(t + l + n + v + p, r, a);
    var ra := r + a;
    Assoc(t + l + n + v, p, ra);
    Assoc(t + l + n, v, p + ra);
    Assoc(t + l, n, v + (p + ra));
    Assoc(t, l, n + (v + (p + ra)));
  }

  lemma HeadFrom(n: bytes, p: bytes, k: bytes, e: bytes, r: bytes, a: bytes)
    ensures NodeHead(n, p) + k + e + r + a == BE32(BEGIN_NODE) + (n + ([0] + (p + (k + e + r + a))))
  {
    hide BE32;
    var t := BE32(BEGIN_NODE);
    var h := NodeHead(n, p);
    Assoc(h, k, e);
    Assoc(h, k + e, r);
    Assoc(h, k + e + r, a);
    var x := k + e + r + a;
    Assoc(t + n + [0], p, x);
    Assoc(t + n, [0], p + x);
    Assoc(t, n, [0] + (p + x));
  }

  lemma HeadWords(s: bytes, x: nat, n: bytes, p: bytes, rest: bytes)
    requires x <= |s| && 0 !in n
    requires s[x..] == BE32(BEGIN_NODE) + (n + ([0] + (p + rest)))
    ensures x + 5 + |n| + |p| + |rest| == |s|
    ensures U32(s, x) == BEGIN_NODE && NameEnd(s, x + 4) == x + 4 + |n|
    ensures s[x + 4..x + 4 + |n|] == n
  {
    hide U32, BE32;
    PeelU32(s, x, BEGIN_NODE, n + ([0] + (p + rest)));
    Peel(s, x + 4, n, [0] + (p + rest));
    Peel(s, x + 4 + |n|, [0], p + rest);
    NameEndIs(s, x + 4, n);
  }

  lemma HeadStep(s: bytes, x: nat, n: nat, pad: nat)
    requires Aligned(x) && x + 5 + n + pad <= |s| && pad == PadLen(n + 1)
    requires U32(s, x) == BEGIN_NODE && NameEnd(s, x + 4) == x + 4 + n
    ensures NextTag(s, x) == Step(BEGIN_NODE, x + 5 + n + pad)
  {
    hide U32, Aligned, Align4, PadLen, NameEnd;
    PadAligned(0);
    AlignedSum(x, 4);
    AlignFrom(x + 4, n + 1);
  }

  /** The tag and the name of a node, as fdt_get_name sees them. */
  lemma {:induction false} TagBegin(c: Ctx, n: bytes, p: bytes, k: Forest, r: Forest)
    requires CtxWF(c) && WF(Node(n, p, k, r))
    ensures var s := Block(c, Node(n, p, k, r));
            && NextTag(s, Pos(c)) == Step(BEGIN_NODE, Pos(c) + 5 + |n| + |p|)
            && Pos(c) + 5 + |n| + |p| <= |s|
            && NameEnd(s, Pos(c) + 4) == Pos(c) + 4 + |n|
            && s[Pos(c) + 4..Pos(c) + 4 + |n|] == n
  {
    hide PadLen, BE32, U32, Align4, Aligned, NextTag, NodeHead, After, Before, NameEnd;
    var f := Node(n, p, k, r);
    var s, x := Block(c, f), Pos(c);
    BlockFrom(c, f);
    PosAligned(c);
    HeadFrom(n, p, Enc(k), BE32(END_NODE), Enc(r), After(c));
    HeadWords(s, x, n, p, Enc(k) + BE32(END_NODE) + Enc(r) + After(c));
    HeadStep(s, x, |n|, |p|);
  }

  lemma NameEndIs(s: bytes, o: nat, n: bytes)
    requires o + |n| < |s| && s[o..o + |n|] == n && 0 !in n && s[o + |n|] == 0
    ensures NameEnd(s, o) == o + |n|
  {
    assert forall i :: o <= i < o + |n| ==> s[i] == n[i - o] && n[i - o] in n;
  }

  // ----- the walk visits the tree in preorder

  function NodeVisits(v: Visit, kids: seq<Visit>, rest: seq<Visit>): seq<Visit> {
    [v] + kids + rest
  }

  function Preorder(f: Forest, base: nat, d: int): seq<Visit>
    requires WF(f)
  {
    match f
    case Nil => []
    case Nop(r) => Preorder(r, base + 4, d)
    case Prop(_, v, p, r) => Preorder(r, base + 12 + |v| + |p|, d)
    case Node(n, p, k, r) =>
      var first := base + 5 + |n| + |p|;
      NodeVisits(Visit(base, d), Preorder(k, first, d + 1), Preorder(r, first + Size(k) + 4, d))
  }

  /** From any position, the walk lists the nodes of the items standing there,
      each with its depth, and goes on behind them. */
  lemma {:induction false} WalkPreorder(c: Ctx, f: Forest, d: nat)
    requires CtxWF(c) && WF(f)
    ensures WalkFrom(Block(c, f), Pos(c), d)
         == Preorder(f, Pos(c), d + 1) + WalkFrom(Block(c, f), Pos(c) + Size(f), d)
    decreases f, 2
  {
    hide PadLen, U32, BE32, Enc, Block, Before, After, NextTag, Aligned, Plug, WalkFrom, Pass, CtxWF, Preorder, Pos;
    hide Size;
    match f
    case Nil =>
      PreorderItem(Nil, Pos(c), d + 1);
    case Nop(r) =>
      SkipNop(c, r, d);
      WalkPreorder(Pass(c, Nop(Nil)), r, d);
    case Prop(o, v, p, r) =>
      SkipProp(c, o, v, p, r, d);
      WalkPreorder(Pass(c, Prop(o, v, p, Nil)), r, d);
    case Node(n, p, k, r) =>
      WalkPreorderNode(c, n, p, k, r, d);
  }

  /** The preorder of a list that does not begin with a node. */
  lemma PreorderItem(f: Forest, x: nat, d: int)
    requires WF(f) && !f.Node?
    ensures f.Nil? ==> Preorder(f, x, d) == [] && Size(f) == 0
    ensures f.Nop? ==> Preorder(f, x, d) == Preorder(f.rest, x + 4, d) && Size(f) == 4 + Size(f.rest)
    ensures f.Prop? ==>
              && Preorder(f, x, d) == Preorder(f.rest, x + 12 + |f.value| + |f.pad|, d)
              && Size(f) == 12 + |f.value| + |f.pad| + Size(f.rest)
  {
    hide PadLen, Enc, BE32, NodeHead, PropText, NodeVisits;
  }

  /** What the walk makes of an item that is no node. */
  lemma SkipNop(c: Ctx, r: Forest, d: nat)
    requires CtxWF(c) && WF(r)
    ensures var i, x := Pass(c, Nop(Nil)), Pos(c);
            && CtxWF(i) && Pos(i) == x + 4 && Block(i, r) == Block(c, Nop(r)) && Size(Nop(r)) == 4 + Size(r)
            && Preorder(Nop(r), x, d + 1) == Preorder(r, x + 4, d + 1)
            && WalkFrom(Block(c, Nop(r)), x, d) == WalkFrom(Block(c, Nop(r)), x + 4, d)
  {
    hide PadLen, U32, BE32, Enc, Block, Before, After, NextTag, Aligned, Plug, WalkFrom, Pass, CtxWF, Pos, NodeVisits;
    TagNop(c, r);
    WalkSkip(Block(c, Nop(r)), Pos(c), d);
    PassItem(c, Nop(Nil), r);
  }

  lemma SkipProp(c: Ctx, o: u32, v: bytes, p: bytes, r: Forest, d: nat)
    requires CtxWF(c) && WF(Prop(o, v, p, r))
    ensures var f, i, x := Prop(o, v, p, r), Pass(c, Prop(o, v, p, Nil)), Pos(c);
            var y := x + 12 + |v| + |p|;
            && CtxWF(i) && Pos(i) == y && Block(i, r) == Block(c, f) && x + Size(f) == y + Size(r)
            && Preorder(f, x, d + 1) == Preorder(r, y, d + 1)
            && WalkFrom(Block(c, f), x, d) == WalkFrom(Block(c, f), y, d)
  {
    hide PadLen, U32, BE32, Enc, Block, Before, After, NextTag, Aligned, Plug, WalkFrom, Pass, CtxWF, Pos, NodeVisits;
    TagProp(c, o, v, p, r);
    WalkSkip(Block(c, Prop(o, v, p, r)), Pos(c), d);
    PassItem(c, Prop(o, v, p, Nil), r);
  }

  lemma WalkSkip(s: bytes, x: nat, d: int)
    requires NextTag(s, x).tag == PROP || NextTag(s, x).tag == NOP
    ensures WalkFrom(s, x, d) == WalkFrom(s, NextTag(s, x).next, d)
  {
    hide NextTag;
  }

  /** A list that begins with the single item `g`, read from behind it. */
  lemma {:induction false} PassItem(c: Ctx, g: Forest, r: Forest)
    requires CtxWF(c) && WF(g) && WF(r) && !g.Nil? && g.rest == Nil
    ensures var d := Pass(c, g);
            && CtxWF(d) && WF(g.(rest := r)) && Pos(d) == Pos(c) + Size(g)
            && Block(d, r) == Block(c, g.(rest := r))
            && Plug(d, r) == Plug(c, g.(rest := r))
            && Depth(d) == Depth(c)
  {
    hide PadLen, BE32, Enc, Block, Before, After, Plug;
    PassIs(c, g, r);
  }

  lemma PassKind(c: Ctx, g: Forest)
    ensures Pass(c, g).In? == c.In?
  {}

  /** The list behind its first item. */
  lemma {:induction false} PassNop(c: Ctx, r: Forest)
    requires CtxWF(c) && WF(r)
    ensures var d := Pass(c, Nop(Nil));
            CtxWF(d) && Pos(d) == Pos(c) + 4 && Block(d, r) == Block(c, Nop(r))
  {
    hide PadLen, BE32, Enc, Block, Before, After, Plug, Pass, CtxWF, Pos;
    PassItem(c, Nop(Nil), r);
  }

  lemma {:induction false} PassProp(c: Ctx, o: u32, v: bytes, p: bytes, r: Forest)
    requires CtxWF(c) && WF(Prop(o, v, p, r))
    ensures var d := Pass(c, Prop(o, v, p, Nil));
            CtxWF(d) && Pos(d) == Pos(c) + 12 + |v| + |p| && Block(d, r) == Block(c, Prop(o, v, p, r))
  {
    hide PadLen, BE32, Enc, Block, Before, After, Plug, Pass, CtxWF, Pos;
    PassItem(c, Prop(o, v, p, Nil), r);
  }

  lemma {:induction false} PassNode(c: Ctx, n: bytes, p: bytes, k: Forest, r: Forest)
    requires CtxWF(c) && WF(Node(n, p, k, r))
    ensures var d := Pass(c, Node(n, p, k, Nil));
            && CtxWF(d) && Pos(d) == Pos(c) + 5 + |n| + |p| + Size(k) + 4 && Block(d, r) == Block(c, Node(n, p, k, r))
  {
    hide PadLen, BE32, Enc, Block, Before, After, Plug, Pass, CtxWF, Pos;
    PassItem(c, Node(n, p, k, Nil), r);
  }

  lemma {:induction false} WalkPreorderNode(c: Ctx, n: bytes, p: bytes, k: Forest, r: Forest, d: nat)
    requires CtxWF(c) && WF(Node(n, p, k, r))
    ensures WalkFrom(Block(c, Node(n, p, k, r)), Pos(c), d)
         == Preorder(Node(n, p, k, r), Pos(c), d + 1)
          + WalkFrom(Block(c, Node(n, p, k, r)), Pos(c) + Size(Node(n, p, k, r)), d)
    decreases Node(n, p, k, r), 1
  {
    hide PadLen, U32, BE32, Enc, Block, Before, After, NextTag, Aligned, Plug, Pass, WalkFrom, Preorder, CtxWF, Pos;
    hide Size, NameEnd;
    var f := Node(n, p, k, r);
    var s, x := Block(c, f), Pos(c);
    var e := x + 5 + |n| + |p|;
    var y := e + Size(k);
    SizeNode(n, p, k, r);
    TagBegin(c, n, p, k, r);
    WalkKids(c, f, d + 1);
    WalkOut(c, n, p, k, r, d + 1);
    WalkRest(c, f, d);
    PreorderNode(n, p, k, r, x, d + 1);
    WalkNode(s, x, d, e, Preorder(k, e, d + 2), y, Preorder(r, y + 4, d + 1), x + Size(f));
  }

  /** The same for the items of a node, and for the items behind it. */
  lemma {:induction false} WalkKids(c: Ctx, f: Forest, d: nat)
    requires CtxWF(c) && WF(f) && f.Node?
    ensures WF(f.kids)
    ensures var s, e := Block(c, f), Pos(c) + 5 + |f.name| + |f.npad|;
            WalkFrom(s, e, d) == Preorder(f.kids, e, d + 1) + WalkFrom(s, e + Size(f.kids), d)
    decreases f, 0
  {
    hide PadLen, U32, BE32, Enc, Block, Before, After, NextTag, Aligned, Plug, Pass, WalkFrom, Preorder;
    EnterIs(c, f.name, f.npad, f.kids, f.rest);
    WalkPreorder(In(c, f.name, f.npad, Nil, f.rest), f.kids, d);
  }

  lemma {:induction false} WalkRest(c: Ctx, f: Forest, d: nat)
    requires CtxWF(c) && WF(f) && f.Node?
    ensures WF(f.kids) && WF(f.rest)
    ensures var s, e := Block(c, f), NodeEnd(c, f);
            WalkFrom(s, e, d) == Preorder(f.rest, e, d + 1) + WalkFrom(s, e + Size(f.rest), d)
    decreases f, 0
  {
    hide PadLen, U32, BE32, Enc, Block, Before, After, NextTag, Aligned, Plug, WalkFrom, Preorder, Walk, Pass;
    var g := Node(f.name, f.npad, f.kids, Nil);
    PassItem(c, g, f.rest);
    WalkPreorder(Pass(c, g), f.rest, d);
  }

  lemma PreorderNode(n: bytes, p: bytes, k: Forest, r: Forest, x: nat, d: int)
    requires WF(Node(n, p, k, r))
    ensures Preorder(Node(n, p, k, r), x, d)
         == [Visit(x, d)] + Preorder(k, x + 5 + |n| + |p|, d + 1)
          + Preorder(r, x + 5 + |n| + |p| + Size(k) + 4, d)
  {
    hide Preorder, PadLen, Size, Enc, BE32, NodeHead, PropText, NodeVisits;
    NodeUnfold(n, p, k, r, x, d);
    NodeVisitsIs(Visit(x, d), Preorder(k, x + 5 + |n| + |p|, d + 1), Preorder(r, x + 5 + |n| + |p| + Size(k) + 4, d));
  }

  lemma NodeVisitsIs(v: Visit, kids: seq<Visit>, rest: seq<Visit>)
    ensures NodeVisits(v, kids, rest) == [v] + kids + rest
  {}

  lemma NodeUnfold(n: bytes, p: bytes, k: Forest, r: Forest, x: nat, d: int)
    requires WF(Node(n, p, k, r))
    ensures Preorder(Node(n, p, k, r), x, d)
         == NodeVisits(Visit(x, d), Preorder(k, x + 5 + |n| + |p|, d + 1),
                       Preorder(r, x + 5 + |n| + |p| + Size(k) + 4, d))
  {
    hide PadLen, Size, Enc, BE32, NodeHead, PropText, NodeVisits;
  }

  lemma WalkNode(s: bytes, x: nat, d: nat, e: nat, kids: seq<Visit>, ek: nat, rest: seq<Visit>, y: nat)
    requires NextTag(s, x) == Step(BEGIN_NODE, e)
    requires WalkFrom(s, e, d + 1) == kids + WalkFrom(s, ek, d + 1)
    requires WalkFrom(s, ek, d + 1) == WalkFrom(s, ek + 4, d)
    requires WalkFrom(s, ek + 4, d) == rest + WalkFrom(s, y, d)
    ensures WalkFrom(s, x, d) == [Visit(x, d + 1)] + kids + rest + WalkFrom(s, y, d)
  {
    hide NextTag;
    assert WalkFrom(s, x, d) == [Visit(x, d + 1)] + WalkFrom(s, e, d + 1);
  }

  /** At the end of a node's items the walk leaves the node. */
  lemma {:induction false} WalkOut(c: Ctx, n: bytes, p: bytes, k: Forest, r: Forest, d: nat)
    requires CtxWF(c) && WF(Node(n, p, k, r))
    ensures var s, e := Block(c, Node(n, p, k, r)), Pos(c) + 5 + |n| + |p| + Size(k);
            && NextTag(s, e) == Step(END_NODE, e + 4)
            && WalkFrom(s, e, d) == if d == 0 then [Visit(e + 4, -1)] else WalkFrom(s, e + 4, d - 1)
  {
    hide PadLen, U32, BE32, Enc, Block, Before, After, NextTag, Aligned, Plug;
    EnterIs(c, n, p, k, r);
    var i := In(c, n, p, Nil, r);
    PassIs(i, k, Nil);
    AppendNil(k);
    TagEndNode(Pass(i, k));
  }

  function HeadEnd(c: Ctx, f: Forest): nat
    requires CtxWF(c) && f.Node?
  {
    Pos(c) + 5 + |f.name| + |f.npad|
  }

  function NodeEnd(c: Ctx, f: Forest): nat
    requires CtxWF(c) && WF(f) && f.Node?
  {
    HeadEnd(c, f) + Size(f.kids) + 4
  }

  /** Started at a node with counter 0, fdt_next_node visits exactly the nodes
      below it, in order and with their depths, and then returns the offset
      behind the node's end tag with the counter at -1. */
  lemma {:induction false} WalkNodeBody(c: Ctx, f: Forest)
    requires CtxWF(c) && WF(f) && f.Node?
    ensures Walk(Block(c, f), Pos(c), 0) == Preorder(f.kids, HeadEnd(c, f), 1) + [Visit(NodeEnd(c, f), -1)]
  {
    hide PadLen, U32, BE32, Enc, Block, Before, After, NextTag, Aligned, Plug, WalkFrom, Preorder, Walk;
    WalkStart(c, f, 0);
    WalkOut(c, f.name, f.npad, f.kids, f.rest, 0);
  }

  /** Started at a child with counter 1, it visits the nodes below the child at
      depth 2 and deeper, then the later siblings at depth 1 with theirs. */
  lemma {:induction false} WalkSiblings(c: Ctx, f: Forest)
    requires CtxWF(c) && WF(f) && f.Node? && c.In?
    ensures Walk(Block(c, f), Pos(c), 1)
         == Preorder(f.kids, HeadEnd(c, f), 2) + Preorder(f.rest, NodeEnd(c, f), 1)
          + [Visit(NodeEnd(c, f) + Size(f.rest) + 4, -1)]
  {
    hide PadLen, U32, BE32, Enc, Block, Before, After, NextTag, Aligned, Plug, WalkFrom, Preorder, Walk, Pass, WF;
    hide CtxWF;
    var s, e := Block(c, f), NodeEnd(c, f);
    WalkStart(c, f, 1);
    WalkOut(c, f.name, f.npad, f.kids, f.rest, 1);
    WalkRest(c, f, 0);
    LevelEnd(c, f);
    var a, b, z := Preorder(f.kids, HeadEnd(c, f), 2), Preorder(f.rest, e, 1), [Visit(e + Size(f.rest) + 4, -1)];
    assert a + (b + z) == a + b + z;
  }

  lemma {:induction false} WalkStart(c: Ctx, f: Forest, d: nat)
    requires CtxWF(c) && WF(f) && f.Node?
    ensures CheckNode(Block(c, f), Pos(c)) == HeadEnd(c, f)
    ensures Walk(Block(c, f), Pos(c), d)
         == Preorder(f.kids, HeadEnd(c, f), d + 1) + WalkFrom(Block(c, f), HeadEnd(c, f) + Size(f.kids), d)
  {
    hide PadLen, U32, BE32, Enc, Block, Before, After, NextTag, Aligned, Plug, WalkFrom, Preorder, Walk;
    var Node(n, p, k, r) := f;
    TagBegin(c, n, p, k, r);
    PosAligned(c);
    WalkIsFrom(Block(c, f), Pos(c), d);
    EnterIs(c, n, p, k, r);
    WalkPreorder(In(c, n, p, Nil, r), k, d);
  }

  /** The end of the level on which the node `f` stands. */
  lemma {:induction false} LevelEnd(c: Ctx, f: Forest)
    requires CtxWF(c) && WF(f) && f.Node? && c.In?
    ensures WalkFrom(Block(c, f), NodeEnd(c, f) + Size(f.rest), 0) == [Visit(NodeEnd(c, f) + Size(f.rest) + 4, -1)]
  {
    hide PadLen, U32, BE32, Enc, Block, Before, After, NextTag, Aligned, Plug;
    PassIs(c, f, Nil);
    AppendNil(f);
    TagEndNode(Pass(c, f));
  }
}
