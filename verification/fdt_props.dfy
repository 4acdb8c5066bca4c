/** external/libfdt/fdt_ro.c: the properties of a node. */
module FdtProps {
  import opened Bytes
  import opened FdtFormat
  import opened FdtWalk
  import opened FdtNodes
  import opened FdtRead

  /** nextprop_: skip NOPs up to a property. */
  function NextPropFrom(s: bytes, o: int): (r: int)
    ensures r >= 0 ==> r >= o && NextTag(s, r).tag == PROP
    ensures r >= 0 && Aligned(o) ==> Aligned(r)
    ensures r <= |s|
    decreases |s| - o
  {
    var t := NextTag(s, o);
    if t.tag == END then if t.next >= 0 then ERR_BADSTRUCTURE else t.next
    else if t.tag == PROP then o
    else if t.tag == NOP then NextPropFrom(s, t.next)
    else ERR_NOTFOUND
  }

  function CheckProp(s: bytes, o: int): (r: int)
    ensures r >= 0 ==> r == NextTag(s, o).next
  {
    if o < 0 || !Aligned(o) || NextTag(s, o).tag != PROP then ERR_BADOFFSET else NextTag(s, o).next
  }

  function FirstProp(s: bytes, node: int): int {
    if CheckNode(s, node) < 0 then CheckNode(s, node) else NextPropFrom(s, CheckNode(s, node))
  }

  function NextProp(s: bytes, o: int): int {
    if CheckProp(s, o) < 0 then CheckProp(s, o) else NextPropFrom(s, CheckProp(s, o))
  }

  /** The name of the property at `o`. */
  function PropName(b: bytes, at: nat, o: nat): Text
    requires InMemory(b) && o + 12 <= |StructOf(b)|
  {
    GetString(b, at, ToInt(U32(StructOf(b), o + 8)))
  }

  /** The loop of fdt_get_property_namelen_ from the property at `o`. */
  function PropFrom(b: bytes, at: nat, o: int, name: bytes): (r: int)
    requires InMemory(b)
    requires o >= 0 ==> NextTag(StructOf(b), o).tag == PROP
    ensures r >= 0 ==> NextTag(StructOf(b), r).tag == PROP
    ensures r >= 0 ==> r + 12 + U32(StructOf(b), r + 4) <= |StructOf(b)| && PropName(b, at, r) == Found(name)
    ensures r >= 0 ==> r >= o && (Aligned(o) ==> Aligned(r))
    decreases |StructOf(b)| - o
  {
    var s := StructOf(b);
    if o < 0 then o
    else if PropName(b, at, o) == Found(name) then o
    else if NextProp(s, o) < 0 then NextProp(s, o)
    else PropFrom(b, at, NextProp(s, o), name)
  }

  lemma FirstPropRange(s: bytes, node: int)
    ensures var o := FirstProp(s, node);
            o >= 0 ==> o >= 5 && Aligned(o) && NextTag(s, o).tag == PROP
  {
    hide U32, Aligned, NextPropFrom;
  }

  /** The offset of the property `name` of the node at `node`. */
  function PropOffset(b: bytes, at: nat, node: int, name: bytes): (r: int)
    requires InMemory(b)
    ensures r >= 0 ==> NextTag(StructOf(b), r).tag == PROP
    ensures r >= 0 ==> r + 12 + U32(StructOf(b), r + 4) <= |StructOf(b)| && PropName(b, at, r) == Found(name)
    ensures r >= 0 ==> r >= 5 && Aligned(r)
  {
    hide U32, Aligned, NextTag, PropName, PropFrom, StructOf, CheckNode, NextPropFrom, InMemory;
    FirstPropRange(StructOf(b), node);
    PropFrom(b, at, FirstProp(StructOf(b), node), name)
  }

  function PropValue(s: bytes, o: nat): bytes
    requires o + 8 <= |s| && o + 12 + U32(s, o + 4) <= |s|
  {
    s[o + 12..o + 12 + U32(s, o + 4)]
  }

  method FindNextProp(b: bytes, start: int) returns (offset: int)
    requires InMemory(b) && start <= INT_MAX
    ensures offset == NextPropFrom(StructOf(b), start)
  {
    hide NextTag, Aligned;
    ghost var s := StructOf(b);
    offset := start;
    while true
      invariant offset <= INT_MAX && NextPropFrom(s, start) == NextPropFrom(s, offset)
      decreases |s| - offset
    {
      var tag, next := ReadTag(b, offset);
      if tag == END {
        return if next >= 0 then ERR_BADSTRUCTURE else next;
      } else if tag == PROP {
        return;
      }
      offset := next;
      if tag != NOP {
        return ERR_NOTFOUND;
      }
    }
  }

  /** fdt_get_property_namelen_: where the property is. */
  method FindProp(b: bytes, at: nat, node: int, name: bytes) returns (offset: int)
    requires InMemory(b) && node <= INT_MAX
    ensures offset == PropOffset(b, at, node, name)
  {
    hide NextTag, Aligned, GetString, U32;
    ghost var s := StructOf(b);
    offset := CheckNodeOffset(b, node);
    if offset >= 0 {
      offset := FindNextProp(b, offset);
    }
    while offset >= 0
      invariant offset <= INT_MAX && (offset >= 0 ==> NextTag(s, offset).tag == PROP)
      invariant offset <= |s|
      invariant PropOffset(b, at, node, name) == PropFrom(b, at, offset, name)
      decreases if offset < 0 then 0 else |s| - offset + 1
    {
      PropThere(s, offset);
      StructWord(b, offset + 8);
      var have := GetString(b, at, ToInt(U32(b, OffStruct(b) + offset + 8)));
      if have == Found(name) {
        return;
      }
      if !Aligned(offset) {
        offset := ERR_BADOFFSET;
      } else {
        var tag, next := ReadTag(b, offset);
        offset := FindNextProp(b, next);
      }
    }
  }

  lemma PropThere(s: bytes, o: nat)
    requires NextTag(s, o).tag == PROP
    ensures o + 12 + U32(s, o + 4) <= |s|
  {
    hide U32;
  }

  // ----- on an encoded tree

  /** The offset of the first property called `name` among the items that a
      lookup inspects: those before the first node of the list. */
  function PropIn(f: Forest, base: nat, strings: bytes, name: bytes): int
    requires WF(f)
  {
    match f
    case Nil => ERR_NOTFOUND
    case Nop(r) => PropIn(r, base + 4, strings, name)
    case Prop(o, v, p, r) =>
      if CString(strings, ToInt(o)) == Found(name) then base
      else PropIn(r, base + 12 + |v| + |p|, strings, name)
    case Node(_, _, _, _) => ERR_NOTFOUND
  }

  lemma {:induction false} FirstPropIs(b: bytes, at: nat, c: Ctx, f: Forest, name: bytes)
    requires BlocksInside(b) && Probe(b, at) >= 0 && Magic(b) == MAGIC
    requires CtxWF(c) && WF(f) && c.In? && StructOf(b) == Block(c, f)
    ensures PropFrom(b, at, NextPropFrom(StructOf(b), Pos(c)), name) == PropIn(f, Pos(c), StringsOf(b), name)
    decreases f
  {
    hide PadLen, U32, BE32, Enc, Block, Before, After, NextTag, Aligned, Plug, Pass, NameEnd, GetString, CString;
    hide BlocksInside, StructOf;
    hide Probe, Magic, StringsOf, Pos, CtxWF, Size;
    match f
    case Nil => TagEndNode(c);
    case Nop(r) =>
      TagNop(c, r);
      PassNop(c, r);
      PassKind(c, Nop(Nil));
      FirstPropIs(b, at, Pass(c, Nop(Nil)), r, name);
    case Prop(o, v, p, r) =>
      TagProp(c, o, v, p, r);
      PosAligned(c);
      assert ToInt(o) <= INT_MAX;
      GetStringIs(b, at, ToInt(o));
      PassProp(c, o, v, p, r);
      PassKind(c, Prop(o, v, p, Nil));
      FirstPropIs(b, at, Pass(c, Prop(o, v, p, Nil)), r, name);
    case Node(n, p, k, r) => TagBegin(c, n, p, k, r);
  }

  /** fdt_get_property finds the first property of that name that stands before
      the node's first child, and its value is the one encoded there. */
  lemma {:induction false} PropOffsetIs(b: bytes, at: nat, c: Ctx, f: Forest, name: bytes)
    requires BlocksInside(b) && Probe(b, at) >= 0 && Magic(b) == MAGIC
    requires CtxWF(c) && WF(f) && f.Node? && StructOf(b) == Block(c, f)
    ensures PropOffset(b, at, Pos(c), name) == PropIn(f.kids, HeadEnd(c, f), StringsOf(b), name)
  {
    hide PadLen, U32, BE32, Enc, Block, Before, After, NextTag, Aligned, Plug, NameEnd, GetString, CString;
    hide BlocksInside, StructOf, Probe, Magic, StringsOf, PropIn, NextPropFrom;
    WalkStart(c, f, 0);
    EnterIs(c, f.name, f.npad, f.kids, f.rest);
    FirstPropIs(b, at, In(c, f.name, f.npad, Nil, f.rest), f.kids, name);
  }
}
