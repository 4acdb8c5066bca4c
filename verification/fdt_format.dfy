/** The structure block of a flattened device tree: the Devicetree
    Specification v0.4, section 5.4.

    A block is described by a `Forest`, the list of items at one nesting level.
    Every byte of the block is in the description, padding included, so a
    forest has exactly one encoding; `Meaning` then drops what a reader of the
    tree cannot see (padding and NOP tags) and resolves property names. */
module FdtFormat {
  import opened Bytes

  const BEGIN_NODE: u32 := 1
  const END_NODE: u32 := 2
  const PROP: u32 := 3
  const NOP: u32 := 4
  const END: u32 := 9

  datatype Forest =
    | Nil
    | Nop(rest: Forest)
    | Prop(nameoff: u32, value: bytes, pad: bytes, rest: Forest)
    | Node(name: bytes, npad: bytes, kids: Forest, rest: Forest)

  predicate WF(f: Forest) {
    hide PadLen, BE32, NodeHead, PropText; match f
    case Nil => true
    case Nop(r) => WF(r)
    case Prop(_, v, p, r) => |v| <= INT_MAX && |p| == PadLen(|v|) && WF(r)
    case Node(n, p, k, r) => 0 !in n && |p| == PadLen(|n| + 1) && WF(k) && WF(r)
  }

  /** The bytes of a node up to its first item. */
  function NodeHead(name: bytes, npad: bytes): (s: bytes)
    ensures |s| == 5 + |name| + |npad|
  {
    BE32(BEGIN_NODE) + name + [0] + npad
  }

  function PropText(nameoff: u32, value: bytes, pad: bytes): (s: bytes)
    requires |value| <= INT_MAX
    ensures |s| == 12 + |value| + |pad|
  {
    BE32(PROP) + BE32(|value|) + BE32(nameoff) + value + pad
  }

  function Enc(f: Forest): bytes
    requires WF(f)
  {
    hide PadLen, BE32, NodeHead, PropText; match f
    case Nil => []
    case Nop(r) => BE32(NOP) + Enc(r)
    case Prop(o, v, p, r) => PropText(o, v, p) + Enc(r)
    case Node(n, p, k, r) => NodeHead(n, p) + Enc(k) + BE32(END_NODE) + Enc(r)
  }

  function Size(f: Forest): (n: nat)
    requires WF(f)
    ensures n == |Enc(f)|
  {
    hide PadLen, BE32, NodeHead, PropText; match f
    case Nil => 0
    case Nop(r) => 4 + Size(r)
    case Prop(o, v, p, r) => 12 + |v| + |p| + Size(r)
    case Node(n, p, k, r) => 5 + |n| + |p| + Size(k) + 4 + Size(r)
  }

  lemma SizeNode(n: bytes, p: bytes, k: Forest, r: Forest)
    requires WF(Node(n, p, k, r))
    ensures Size(Node(n, p, k, r)) == 5 + |n| + |p| + Size(k) + 4 + Size(r)
  {
    hide PadLen, Enc;
  }

  lemma NodeWF(n: bytes, p: bytes, k: Forest, r: Forest)
    requires 0 !in n && |p| == PadLen(|n| + 1) && WF(k) && WF(r)
    ensures WF(Node(n, p, k, r))
  {}

  function Append(a: Forest, b: Forest): Forest {
    hide PadLen, BE32, NodeHead, PropText; match a
    case Nil => b
    case Nop(r) => Nop(Append(r, b))
    case Prop(o, v, p, r) => Prop(o, v, p, Append(r, b))
    case Node(n, p, k, r) => Node(n, p, k, Append(r, b))
  }

  lemma {:induction false} AppendEnc(a: Forest, b: Forest)
    requires WF(a) && WF(b)
    ensures WF(Append(a, b)) && Enc(Append(a, b)) == Enc(a) + Enc(b)
  {
    hide PadLen, BE32, NodeHead, PropText;
    match a
    case Nil => assert Enc(a) + Enc(b) == Enc(b);
    case Nop(r) =>
      AppendEnc(r, b);
      Assoc(BE32(NOP), Enc(r), Enc(b));
    case Prop(o, v, p, r) =>
      AppendEnc(r, b);
      Assoc(PropText(o, v, p), Enc(r), Enc(b));
    case Node(n, p, k, r) =>
      AppendEnc(r, b);
      Assoc(NodeHead(n, p) + Enc(k) + BE32(END_NODE), Enc(r), Enc(b));
  }

  lemma AppendAssoc(a: Forest, b: Forest, c: Forest)
    ensures Append(Append(a, b), c) == Append(a, Append(b, c))
  {}

  lemma AppendNil(a: Forest)
    ensures Append(a, Nil) == a
  {}

  /** Where in a block a list of items starts: the items before it at its own
      level and, outwards, the open nodes around it. */
  datatype Ctx =
    | Top(before: Forest)
    | In(up: Ctx, name: bytes, npad: bytes, before: Forest, after: Forest)

  predicate CtxWF(c: Ctx) {
    hide PadLen, BE32, NodeHead, PropText; match c
    case Top(b) => WF(b)
    case In(u, n, p, b, a) =>
      CtxWF(u) && 0 !in n && |p| == PadLen(|n| + 1) && WF(b) && WF(a)
  }

  function Depth(c: Ctx): nat {
    if c.Top? then 0 else 1 + Depth(c.up)
  }

  /** The whole list of items with `f` standing at `c`. */
  function Plug(c: Ctx, f: Forest): Forest {
    hide PadLen, BE32, NodeHead, PropText; match c
    case Top(b) => Append(b, f)
    case In(u, n, p, b, a) => Plug(u, Node(n, p, Append(b, f), a))
  }

  function Before(c: Ctx): bytes
    requires CtxWF(c)
  {
    hide PadLen, BE32, NodeHead, PropText; match c
    case Top(b) => Enc(b)
    case In(u, n, p, b, _) => Before(u) + NodeHead(n, p) + Enc(b)
  }

  function After(c: Ctx): bytes
    requires CtxWF(c)
  {
    hide PadLen, BE32, NodeHead, PropText; match c
    case Top(_) => BE32(END)
    case In(u, _, _, _, a) => BE32(END_NODE) + Enc(a) + After(u)
  }

  /** The offset, from the start of the block, of the items standing at `c`. */
  function Pos(c: Ctx): (o: nat)
    requires CtxWF(c)
    ensures o == |Before(c)|
  {
    hide PadLen, BE32, NodeHead, PropText; match c
    case Top(b) => Size(b)
    case In(u, n, p, b, _) => Pos(u) + 5 + |n| + |p| + Size(b)
  }

  /** The structure block of the tree with `f` standing at `c`. */
  function Block(c: Ctx, f: Forest): bytes
    requires CtxWF(c) && WF(f)
  {
    Before(c) + Enc(f) + After(c)
  }

  lemma PlugWF(c: Ctx, f: Forest)
    ensures CtxWF(c) && WF(f) <==> WF(Plug(c, f))
  {
    hide PadLen, BE32, NodeHead, PropText; match c
    case Top(b) => AppendWF(b, f);
    case In(u, n, p, b, a) =>
      AppendWF(b, f);
      PlugWF(u, Node(n, p, Append(b, f), a));
  }

  lemma AppendWF(a: Forest, b: Forest)
    ensures WF(a) && WF(b) <==> WF(Append(a, b))
  {}

  /** Encoding the whole tree and encoding around a position agree. */
  lemma {:induction false} PlugEnc(c: Ctx, f: Forest)
    requires CtxWF(c) && WF(f)
    ensures WF(Plug(c, f)) && Enc(Plug(c, f)) + BE32(END) == Block(c, f)
  {
    hide PadLen, BE32, NodeHead, PropText;
    AppendEnc(c.before, f);
    match c
    case Top(b) =>
    case In(u, n, p, b, a) =>
      PlugEnc(u, Node(n, p, Append(b, f), a));
      InBlock(u, n, p, b, f, a);
  }

  /** A node standing at `u`, read as a whole or around its own items. */
  lemma {:induction false} InBlock(u: Ctx, n: bytes, p: bytes, b: Forest, f: Forest, a: Forest)
    requires CtxWF(In(u, n, p, b, a)) && WF(f) && WF(Append(b, f))
    requires Enc(Append(b, f)) == Enc(b) + Enc(f)
    ensures Block(u, Node(n, p, Append(b, f), a)) == Block(In(u, n, p, b, a), f)
  {
    hide PadLen, BE32, NodeHead, PropText, Append;
    var h, e := NodeHead(n, p), BE32(END_NODE);
    var u0, b0, f0, a0, u1 := Before(u), Enc(b), Enc(f), Enc(a), After(u);
    calc {
      Block(u, Node(n, p, Append(b, f), a));
      u0 + (h + (b0 + f0) + e + a0) + u1;
      { Assoc(h, b0, f0); }
      u0 + (h + b0 + f0 + e + a0) + u1;
      { Assoc4(h + b0, f0, e, a0); }
      u0 + (h + b0 + (f0 + e + a0)) + u1;
      { Assoc4(u0, h + b0, f0 + e + a0, u1); }
      u0 + (h + b0) + (f0 + e + a0 + u1);
      { Assoc(u0, h, b0); Assoc4(f0, e, a0, u1); }
      u0 + h + b0 + (f0 + (e + a0 + u1));
      { Assoc(u0 + h + b0, f0, e + a0 + u1); }
      Block(In(u, n, p, b, a), f);
    }
  }

  /** Move the items `g` from the front of the list at `c` behind the position. */
  function Pass(c: Ctx, g: Forest): Ctx {
    hide PadLen, BE32, NodeHead, PropText; match c
    case Top(b) => Top(Append(b, g))
    case In(u, n, p, b, a) => In(u, n, p, Append(b, g), a)
  }

  lemma {:induction false} PassIs(c: Ctx, g: Forest, f: Forest)
    requires CtxWF(c) && WF(g) && WF(f)
    ensures CtxWF(Pass(c, g)) && WF(Append(g, f))
    ensures Before(Pass(c, g)) == Before(c) + Enc(g) && After(Pass(c, g)) == After(c)
    ensures Depth(Pass(c, g)) == Depth(c)
    ensures Pos(Pass(c, g)) == Pos(c) + Size(g)
    ensures Plug(Pass(c, g), f) == Plug(c, Append(g, f))
    ensures Block(Pass(c, g), f) == Block(c, Append(g, f))
  {
    hide PadLen, BE32, NodeHead, PropText;
    AppendEnc(c.before, g);
    AppendEnc(g, f);
    AppendAssoc(c.before, g, f);
    if c.In? {
      Assoc(Before(c.up) + NodeHead(c.name, c.npad), Enc(c.before), Enc(g));
    }
    Assoc(Before(c), Enc(g), Enc(f));
  }

  /** Entering a node keeps the block. */
  lemma {:induction false} EnterIs(c: Ctx, n: bytes, p: bytes, k: Forest, r: Forest)
    requires CtxWF(c) && WF(Node(n, p, k, r))
    ensures var d := In(c, n, p, Nil, r);
            && CtxWF(d) && Pos(d) == Pos(c) + 5 + |n| + |p|
            && Before(d) == Before(c) + NodeHead(n, p)
            && Plug(d, k) == Plug(c, Node(n, p, k, r))
            && Block(d, k) == Block(c, Node(n, p, k, r))
  {
    hide PadLen, BE32, NodeHead, PropText;
    assert Append(Nil, k) == k && Enc(k) == Enc(Nil) + Enc(k);
    InBlock(c, n, p, Nil, k, r);
    assert Before(c) + NodeHead(n, p) + Enc(Nil) == Before(c) + NodeHead(n, p);
  }

  /** The position after the node that encloses `c`, once its items are passed. */
  function Leave(c: Ctx): Ctx
    requires c.In?
  {
    Pass(c.up, Node(c.name, c.npad, c.before, Nil))
  }

  /** Leaving a node keeps the block. */
  lemma {:induction false} LeaveIs(c: Ctx)
    requires CtxWF(c) && c.In?
    ensures CtxWF(Leave(c)) && Pos(Leave(c)) == Pos(c) + 4
    ensures Plug(Leave(c), c.after) == Plug(c, Nil)
    ensures Block(Leave(c), c.after) == Block(c, Nil)
    ensures Before(Leave(c)) == Before(c) + BE32(END_NODE)
    ensures After(c) == BE32(END_NODE) + Enc(c.after) + After(Leave(c))
    ensures Depth(Leave(c)) + 1 == Depth(c)
  {
    hide PadLen, BE32, NodeHead, PropText;
    var g := Node(c.name, c.npad, c.before, Nil);
    PassIs(c.up, g, c.after);
    AppendEnc(c.before, Nil);
    AppendNil(c.before);
    InBlock(c.up, c.name, c.npad, c.before, Nil, c.after);
    assert Enc(g) == NodeHead(c.name, c.npad) + Enc(c.before) + BE32(END_NODE);
    Assoc4(Before(c.up), NodeHead(c.name, c.npad), Enc(c.before), BE32(END_NODE));
  }
}
