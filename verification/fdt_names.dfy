/** external/libfdt/fdt_ro.c: which node a name stands for, told from the names
    of the children alone. */
module FdtNames {
  import opened Bytes
  import opened FdtFormat
  import opened FdtWalk
  import opened FdtNodes
  import opened FdtRead
  import opened FdtTree
  import opened FdtAncestors
  import opened FdtLookup
  import FdtPaths
  import opened FdtSplice
  import opened FdtUpdate
  import opened FdtMeaning
  import opened FdtSetProp
  import opened FdtAddNode

  const AT: byte := 64

  /** A node name without its unit address. */
  function Base(name: bytes): bytes {
    if name == [] || name[0] == AT then [] else [name[0]] + Base(name[1..])
  }

  /** A node answers to its full name, and without a unit address to the part
      before its own. */
  predicate Answers(have: bytes, want: bytes) {
    have == want || (AT !in want && Base(have) == want)
  }

  lemma {:induction false} BaseIs(name: bytes)
    ensures |Base(name)| <= |name| && name[..|Base(name)|] == Base(name) && AT !in Base(name)
    ensures |Base(name)| < |name| ==> name[|Base(name)|] == AT
  {
    if name != [] && name[0] != AT {
      BaseIs(name[1..]);
      var k := |Base(name[1..])|;
      assert name[..k + 1] == [name[0]] + name[1..][..k];
    }
  }

  lemma {:induction false} BaseOf(name: bytes, k: nat)
    requires k <= |name| && AT !in name[..k] && (k < |name| ==> name[k] == AT)
    ensures Base(name) == name[..k]
    decreases k
  {
    if k > 0 {
      assert name[0] == name[..k][0];
      assert name[1..][..k - 1] == name[..k][1..];
      BaseOf(name[1..], k - 1);
      assert name[..k] == [name[0]] + name[1..][..k - 1];
    }
  }

  /** The comparison of fdt_nodename_eq_. */
  lemma NameMatchIs(have: bytes, want: bytes)
    ensures NameMatch(have, want) <==> Answers(have, want)
  {
    BaseIs(have);
    if NameMatch(have, want) && |have| > |want| {
      BaseOf(have, |want|);
    }
    if have == want {
      assert have[..|want|] == want;
    }
  }

  /** Without unit addresses a node answers to its name only. */
  lemma PlainAnswers(have: bytes, want: bytes)
    requires AT !in have
    ensures Answers(have, want) <==> have == want
  {
    BaseOf(have, |have|);
    assert have[..|have|] == have;
  }

  /** The names of the nodes of a list, in order. */
  function Named(f: Forest): seq<bytes> {
    match f
    case Nil => []
    case Nop(r) => Named(r)
    case Prop(_, _, _, r) => Named(r)
    case Node(n, _, _, r) => [n] + Named(r)
  }

  lemma {:induction false} OneOffsetEach(f: Forest, base: nat)
    requires WF(f)
    ensures |Children(f, base)| == |Named(f)|
    decreases f
  {
    hide PadLen, Enc, Size;
    match f
    case Nil =>
    case Nop(r) => OneOffsetEach(r, base + 4);
    case Prop(_, v, p, r) => OneOffsetEach(r, base + 12 + |v| + |p|);
    case Node(n, p, k, r) => OneOffsetEach(r, base + 5 + |n| + |p| + Size(k) + 4);
  }

  /** The position of the first name that answers; the length if none does. */
  function FirstAnswer(names: seq<bytes>, want: bytes): (i: nat)
    ensures i <= |names| && (i < |names| ==> Answers(names[i], want))
    ensures forall j :: 0 <= j < i ==> !Answers(names[j], want)
  {
    if names == [] || Answers(names[0], want) then 0 else
      var i := FirstAnswer(names[1..], want);
      assert forall j :: 0 < j < i + 1 ==> names[j] == names[1..][j - 1];
      i + 1
  }

  predicate IsFirst(names: seq<bytes>, want: bytes, i: nat)
    requires i < |names|
  {
    Answers(names[i], want) && forall j :: 0 <= j < i ==> !Answers(names[j], want)
  }

  lemma {:induction false} FindIs(f: Forest, base: nat, want: bytes)
    requires WF(f)
    ensures |Children(f, base)| == |Named(f)|
    ensures var i := FirstAnswer(Named(f), want);
            FindChild(f, base, want) == if i < |Named(f)| then Children(f, base)[i] else ERR_NOTFOUND
    decreases f
  {
    hide PadLen, Enc, Size, Answers, NameMatch;
    OneOffsetEach(f, base);
    match f
    case Nil =>
    case Nop(r) => FindIs(r, base + 4, want);
    case Prop(_, v, p, r) => FindIs(r, base + 12 + |v| + |p|, want);
    case Node(n, p, k, r) =>
      NameMatchIs(n, want);
      FindIs(r, base + 5 + |n| + |p| + Size(k) + 4, want);
      assert Named(f)[1..] == Named(r);
  }

  lemma {:induction false} NoMatchIs(f: Forest, want: bytes)
    ensures NoMatch(f, want) <==> forall n :: n in Named(f) ==> !Answers(n, want)
  {
    hide Answers, NameMatch;
    match f
    case Nil =>
    case Nop(r) => NoMatchIs(r, want);
    case Prop(_, _, _, r) => NoMatchIs(r, want);
    case Node(n, _, _, r) =>
      NameMatchIs(n, want);
      NoMatchIs(r, want);
  }

  /** fdt_subnode_offset returns the first child that is called `want`, or whose
      name before its unit address is `want` when `want` has none; and NOTFOUND
      when there is no such child. */
  lemma {:induction false} SubnodeByName(b: bytes, at: nat, c: Ctx, f: Forest, want: bytes)
    requires InMemory(b) && Probe(b, at) >= 0 && CtxWF(c) && WF(f) && f.Node? && StructOf(b) == Block(c, f)
    ensures var offsets, names := Children(f.kids, HeadEnd(c, f)), Named(f.kids);
            && |offsets| == |names|
            && (forall i :: 0 <= i < |names| && IsFirst(names, want, i) ==>
                  SubnodeOffset(b, at, Pos(c), want) == offsets[i])
            && ((forall n :: n in names ==> !Answers(n, want)) ==> SubnodeOffset(b, at, Pos(c), want) == ERR_NOTFOUND)
  {
    hide PadLen, Enc, Size, Answers, NameMatch, Block, StructOf, InMemory, Probe, SubnodeOffset, Children, Named, CtxWF;
    LookupIs(b, at, c, f, want);
    FindIs(f.kids, HeadEnd(c, f), want);
    var names, i := Named(f.kids), FirstAnswer(Named(f.kids), want);
    if i < |names| { assert names[i] in names; }
  }

  /** Among children with distinct names and no unit addresses it is the child
      of exactly that name. */
  lemma {:induction false} SubnodeExact(b: bytes, at: nat, c: Ctx, f: Forest, want: bytes, i: nat)
    requires InMemory(b) && Probe(b, at) >= 0 && CtxWF(c) && WF(f) && f.Node? && StructOf(b) == Block(c, f)
    requires forall n :: n in Named(f.kids) ==> AT !in n
    requires forall j, k :: 0 <= j < k < |Named(f.kids)| ==> Named(f.kids)[j] != Named(f.kids)[k]
    ensures |Children(f.kids, HeadEnd(c, f))| == |Named(f.kids)|
    ensures i < |Named(f.kids)| && Named(f.kids)[i] == want ==>
              SubnodeOffset(b, at, Pos(c), want) == Children(f.kids, HeadEnd(c, f))[i]
    ensures want !in Named(f.kids) ==> SubnodeOffset(b, at, Pos(c), want) == ERR_NOTFOUND
  {
    hide PadLen, Enc, Size, Answers, NameMatch, Block, StructOf, InMemory, Probe, SubnodeOffset, Children, Named, CtxWF;
    SubnodeByName(b, at, c, f, want);
    var names := Named(f.kids);
    forall n | n in names ensures Answers(n, want) <==> n == want {
      PlainAnswers(n, want);
    }
    if i < |names| && names[i] == want {
      forall j | 0 <= j < i ensures !Answers(names[j], want) {
        assert names[j] in names;
      }
      assert names[i] in names;
    }
  }

  /** fdt_add_subnode refuses a name exactly when a child answers to it. */
  lemma {:induction false} AddByName(b: bytes, at: nat, c: Ctx, f: Forest, name: bytes)
    requires Encodes(b, at, c, f) && f.Node? && 0 !in name
    ensures AddSubnode(b, at, Pos(c), name).err == ERR_EXISTS <==> exists n :: n in Named(f.kids) && Answers(n, name)
  {
    hide PadLen, Enc, Size, Answers, NameMatch, Block, StructOf, InMemory, Probe, Children, Named, CtxWF, Encodes;
    hide AddSubnode, FindChild, WF, TreeOf, TreeWith, ItemsOf, Kept, FirstAnswer;
    EncodesIs(b, at, c, f);
    var d := AddSubnodeRefines(b, at, c, f, name);
    ExistsByName(f.kids, HeadEnd(c, f), name);
  }

  lemma {:induction false} ExistsByName(f: Forest, base: nat, name: bytes)
    requires WF(f)
    ensures FindChild(f, base, name) >= 0 <==> exists n :: n in Named(f) && Answers(n, name)
  {
    hide PadLen, Enc, Size, Answers, NameMatch, Children, Named, FindChild, WF;
    FindIs(f, base, name);
    var names, i := Named(f), FirstAnswer(Named(f), name);
    if i < |names| {
      assert names[i] in names;
    }
  }

  /** The condition under which a path leads back to its node, in names. */
  predicate FirstOfName(c: Ctx, f: Forest)
    requires f.Node?
  {
    match c
    case Top(_) => true
    case In(u, n, p, b, a) =>
      (forall m :: m in Named(b) ==> !Answers(m, f.name)) && FirstOfName(u, Node(n, p, Append(b, f), a))
  }

  lemma {:induction false} DirectIs(c: Ctx, f: Forest)
    requires f.Node?
    ensures Direct(c, f) <==> FirstOfName(c, f)
    decreases c
  {
    hide NoMatch, Named, Answers, Append;
    match c
    case Top(_) =>
    case In(u, n, p, b, a) =>
      NoMatchIs(b, f.name);
      DirectIs(u, Node(n, p, Append(b, f), a));
  }

  /** The path round trip with its condition on names: on every level from the
      root down to the node, no earlier sibling answers to the step's name. */
  lemma {:induction false} PathByNames(b: bytes, at: nat, c: Ctx, f: Forest)
    requires InMemory(b) && Probe(b, at) >= 0 && CtxWF(c) && WF(f) && f.Node? && StructOf(b) == Block(c, f)
    requires UnderRoot(c) && ProperNames(c, f)
    ensures PathOffset(b, at, FdtPaths.PathOf(c, f)) == Pos(c) <==> FirstOfName(c, f)
  {
    hide Direct, FirstOfName, PathOffset, FdtPaths.PathOf, Block, StructOf, InMemory, Probe, Pos, CtxWF, WF;
    PathRoundTrip(b, at, c, f);
    DirectIs(c, f);
  }
}
