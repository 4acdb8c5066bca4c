/** A client of the sequential writer that emits a whole tree, and the round
    trip from the tree to a finished blob and back. */
module FdtEmit {
  import opened Bytes
  import opened FdtFormat
  import opened FdtWalk
  import opened FdtRead
  import opened FdtSplice
  import opened FdtEdit
  import opened FdtUpdate
  import opened FdtMeaning
  import opened FdtWriter
  import opened FdtFinish
  import opened FdtCheck

  /** A draft in the middle of a tree. */
  predicate Ready(b: bytes) {
    Writable(b) && DraftOf(b).inStruct
  }

  lemma ReadyHanded(b: bytes)
    requires Ready(b)
    ensures Handed(b)
  {}

  /** The names are C strings and the lengths fit a C int. */
  predicate Printable(x: Tree) {
    match x
    case TNil => true
    case TProp(n, v, r) => 0 !in n && |v| <= INT_MAX - 16 && Printable(r)
    case TNode(n, k, r) => 0 !in n && Printable(k) && Printable(r)
  }

  lemma StepsReady(b: bytes, name: bytes, val: bytes)
    requires Ready(b) && |val| <= INT_MAX - 16
    ensures Handed(b) && Ready(Begin(b, name).blob) && Ready(EndNode(b).blob) && Ready(Property(b, name, val).blob)
  {
    hide Begin, EndNode, Property, DraftSize, NamesAfter, NodeHead, PropText, BE32, Align4, PadLen;
    var p := BeginIs(b, name);
    EndNodeIs(b);
    var q := PropertyIs(b, name, val);
  }

  /** The calls that emit the items of a tree, up to the first that fails. */
  function Emit(b: bytes, x: Tree): (r: Outcome)
    requires Ready(b) && Printable(x)
    ensures Ready(r.blob)
    decreases x
  {
    hide Ready, Begin, EndNode, Property; match x
    case TNil => Outcome(0, b)
    case TProp(n, v, rest) =>
      StepsReady(b, n, v);
      var p := Property(b, n, v);
      if p.err != 0 then p else Emit(p.blob, rest)
    case TNode(n, k, rest) =>
      StepsReady(b, n, []);
      var p := Begin(b, n);
      if p.err != 0 then p else
      var q := Emit(p.blob, k);
      if q.err != 0 then q else
      StepsReady(q.blob, n, []);
      var e := EndNode(q.blob);
      if e.err != 0 then e else Emit(e.blob, rest)
  }

  // ----- how much room a tree takes

  function BodySize(x: Tree): nat {
    match x
    case TNil => 0
    case TProp(_, v, r) => 12 + |v| + PadLen(|v|) + BodySize(r)
    case TNode(n, k, r) => 5 + |n| + PadLen(|n| + 1) + BodySize(k) + 4 + BodySize(r)
  }

  /** The strings after the items of a tree, each new name below the others. */
  function Names(flags: u32, t: bytes, x: Tree): (u: bytes)
    ensures |u| >= |t| && u[|u| - |t|..] == t
    decreases x
  {
    match x
    case TNil => t
    case TProp(n, _, r) => Names(flags, NamesAfter(flags, t, n), r)
    case TNode(_, k, r) => Names(flags, Names(flags, t, k), r)
  }

  // ----- names counted back from the end of the strings

  function BackString(t: bytes, o: u32): Text {
    CString(t, |t| + ToInt(o))
  }

  predicate BackResolved(t: bytes, f: Forest) {
    match f
    case Nil => true
    case Nop(r) => BackResolved(t, r)
    case Prop(o, _, _, r) => ToInt(o) < 0 && BackString(t, o).Found? && BackResolved(t, r)
    case Node(_, _, k, r) => BackResolved(t, k) && BackResolved(t, r)
  }

  function BackMeaning(t: bytes, f: Forest): Tree
    requires BackResolved(t, f)
  {
    match f
    case Nil => TNil
    case Nop(r) => BackMeaning(t, r)
    case Prop(o, v, _, r) => TProp(BackString(t, o).text, v, BackMeaning(t, r))
    case Node(n, _, k, r) => TNode(n, BackMeaning(t, k), BackMeaning(t, r))
  }

  lemma CStringBelow(u: bytes, s: bytes, t: bytes, i: nat)
    requires u == s + t
    ensures CString(u, |s| + i) == CString(t, i)
  {
    if i < |t| {
      NameEndBelow(u, s, t, i);
      var e := NameEnd(t, i);
      assert u[|s| + i..|s| + e] == t[i..e];
    }
  }

  lemma {:induction false} NameEndBelow(u: bytes, s: bytes, t: bytes, i: nat)
    requires u == s + t && i <= |t|
    ensures NameEnd(u, |s| + i) == |s| + NameEnd(t, i)
    decreases |t| - i
  {
    if i < |t| {
      assert u[|s| + i] == t[i];
      if t[i] != 0 { NameEndBelow(u, s, t, i + 1); }
    }
  }

  /** Strings added below leave every name as it was. */
  lemma {:induction false} BackExtends(s: bytes, t: bytes, u: bytes, f: Forest)
    requires u == s + t && BackResolved(t, f)
    ensures BackResolved(u, f) && BackMeaning(u, f) == BackMeaning(t, f)
  {
    hide CString;
    match f
    case Nil =>
    case Nop(r) => BackExtends(s, t, u, r);
    case Prop(o, _, _, r) =>
      BackInside(t, o);
      CStringBelow(u, s, t, |t| + ToInt(o));
      BackExtends(s, t, u, r);
    case Node(_, _, k, r) =>
      BackExtends(s, t, u, k);
      BackExtends(s, t, u, r);
  }

  lemma BackInside(t: bytes, o: u32)
    requires BackString(t, o).Found?
    ensures |t| + ToInt(o) >= 0
  {}

  /** After the relocation each name is counted from the start of the strings
      and is the same string. */
  lemma {:induction false} RelocateMeans(t: bytes, f: Forest)
    requires BackResolved(t, f) && |t| <= INT_MAX
    ensures Resolved(t, Relocate(f, |t|)) && Meaning(t, Relocate(f, |t|)) == BackMeaning(t, f)
  {
    hide CString;
    match f
    case Nil =>
    case Nop(r) => RelocateMeans(t, r);
    case Prop(o, _, _, r) =>
      BackInside(t, o);
      ShiftedBack(o, |t|);
      RelocateMeans(t, r);
    case Node(_, _, k, r) =>
      RelocateMeans(t, k);
      RelocateMeans(t, r);
  }

  lemma ShiftedBack(o: u32, n: nat)
    requires ToInt(o) < 0 && n <= INT_MAX && n + ToInt(o) >= 0
    ensures ToInt(Shifted(o, n)) == n + ToInt(o)
  {
    assert (o + n) % TWO32 == o + n - TWO32;
  }

  /** In the unfinished blob fdt_get_string finds the same string. */
  lemma BackGetString(b: bytes, at: nat, o: u32)
    requires Ready(b) && InMemory(b) && Probe(b, at) >= 0
    requires ToInt(o) < 0 && |DraftOf(b).names| + ToInt(o) >= 0
    ensures GetString(b, at, ToInt(o)) == BackString(DraftOf(b).names, o)
  {
    hide U32, NameEnd, CString, Probe, Writable, DraftOf, InMemory, GetString, ToInt;
    var i, t := ToInt(o), DraftOf(b).names;
    DraftIs(b);
    ReadyTotal(b, at);
    BackRange(b, at, i);
    TailSlice(b, |t|, |t| + i);
    CStringTail(t, |t| + i);
  }

  lemma TailSlice(b: bytes, n: nat, k: nat)
    requires k <= n <= |b|
    ensures b[|b| - n..|b|][k..] == b[|b| - n + k..|b|]
  {
    SliceSlice(b, |b| - n, |b|, k, n);
  }

  /** Of a draft, fdt_get_string reads up to the end of the buffer. */
  lemma BackRange(b: bytes, at: nat, i: int)
    requires Ready(b) && InMemory(b) && Probe(b, at) >= 0 && i < 0 && |DraftOf(b).names| + i >= 0
    ensures |b| + i >= 0 && GetString(b, at, i) == CString(b[|b| + i..|b|], 0)
  {
    hide U32, NameEnd, CString, Probe, Writable, DraftOf, InMemory;
    DraftIs(b);
    ReadyTotal(b, at);
    assert (i + OffStrings(b)) % TWO32 == |b| + i;
    assert b[|b| + i..|b| + i + -i] == b[|b| + i..|b|];
  }

  lemma ReadyTotal(b: bytes, at: nat)
    requires Ready(b)
    ensures |b| >= HEADER_SIZE && TotalSize(b) == |b| && Magic(b) == SW_MAGIC && OffStrings(b) == |b|
    ensures SizeStrings(b) == |DraftOf(b).names| && DraftOf(b).names == b[|b| - SizeStrings(b)..|b|]
    ensures |b| < INT_MAX && (Probe(b, at) >= 0 ==> Probe(b, at) == |b|)
  {
    hide U32;
  }

  /** A property name is the same string before fdt_finish, when its offset is
      negative, and after, when it is relocated. */
  lemma NameSurvivesFinish(b: bytes, w: bytes, at: nat, o: u32)
    requires Ready(b) && InMemory(b) && Probe(b, at) >= 0
    requires BlocksInside(w) && Probe(w, at) >= 0 && Magic(w) == MAGIC && StringsOf(w) == DraftOf(b).names
    requires ToInt(o) < 0 && |DraftOf(b).names| + ToInt(o) >= 0
    ensures GetString(w, at, ToInt(Shifted(o, |DraftOf(b).names|))) == GetString(b, at, ToInt(o))
  {
    hide U32, CString, GetString, Shifted, ToInt;
    DraftIs(b);
    BackGetString(b, at, o);
    ShiftedBack(o, |DraftOf(b).names|);
    GetStringIs(w, at, |DraftOf(b).names| + ToInt(o));
  }

  // ----- emitting

  predicate NoNops(f: Forest) {
    match f
    case Nil => true
    case Nop(_) => false
    case Prop(_, _, _, r) => NoNops(r)
    case Node(_, _, k, r) => NoNops(k) && NoNops(r)
  }

  /** From the draft `d` to the draft `e` the items `f` were appended, which are
      those of the tree `x` once names are counted back. */
  ghost predicate Emitted(d: Draft, e: Draft, x: Tree, f: Forest) {
    var t := Names(d.flags, d.names, x);
    && WF(f) && |Enc(f)| == BodySize(x) && e == d.(body := d.body + Enc(f), names := t)
    && NoNops(f) && BackResolved(t, f) && BackMeaning(t, f) == x
  }

  lemma EmittedSize(d: Draft, e: Draft, x: Tree, f: Forest)
    requires Emitted(d, e, x, f)
    ensures |e.body| == |d.body| + BodySize(x) && e.names == Names(d.flags, d.names, x)
    ensures e.flags == d.flags && e.size == d.size && e.rsv == d.rsv && e.inStruct == d.inStruct
  {
    hide Enc, Names, BodySize, WF, NoNops, BackResolved, BackMeaning;
  }

  /** The bytes that the draft and the tree take together. */
  function FullSize(d: Draft, x: Tree): nat {
    RSV_OFFSET + |d.rsv| + |d.body| + BodySize(x) + |Names(d.flags, d.names, x)|
  }

  /** The items of a tree are appended as one list of items whose names, counted
      back, are those of the tree; there is no other failure than lack of room. */
  lemma {:induction false} EmitIs(b: bytes, x: Tree) returns (f: Forest)
    requires Ready(b) && Printable(x)
    ensures Emit(b, x).err == 0 <==> FullSize(DraftOf(b), x) <= |b|
    ensures Emit(b, x).err == 0 ==> Emitted(DraftOf(b), DraftOf(Emit(b, x).blob), x, f)
    decreases x
  {
    hide Begin, EndNode, Property, NamesAfter, NodeHead, PropText, BE32, Align4, PadLen, BackString, DraftOf;
    hide Writable, ToInt, NameIndex;
    match x
    case TNil =>
      f := Nil;
      DraftIs(b);
      assert Enc(Nil) == [] && DraftOf(b).body + [] == DraftOf(b).body;
    case TProp(n, v, rest) => f := EmitProp(b, n, v, rest);
    case TNode(n, k, rest) => f := EmitNode(b, n, k, rest);
  }

  lemma {:induction false} EmitProp(b: bytes, n: bytes, v: bytes, rest: Tree) returns (f: Forest)
    requires Ready(b) && Printable(TProp(n, v, rest))
    ensures var x := TProp(n, v, rest);
            && (Emit(b, x).err == 0 <==> FullSize(DraftOf(b), x) <= |b|)
            && (Emit(b, x).err == 0 ==> Emitted(DraftOf(b), DraftOf(Emit(b, x).blob), x, f))
    decreases TProp(n, v, rest), 0
  {
    hide Begin, EndNode, Property, NamesAfter, NodeHead, PropText, BE32, Align4, PadLen, BackString, DraftOf;
    hide Writable, ToInt, NameIndex, Emit, Names, BodySize, Printable, Enc, WF, BackResolved, BackMeaning, NoNops;
    hide Emitted;
    EmitPropStep(b, n, v, rest);
    PropSizes(DraftOf(b).flags, DraftOf(b).names, n, v, rest);
    StepsReady(b, n, v);
    DraftIs(b);
    AlignIsPad(|v|);
    var d := DraftOf(b);
    var pad := PropertyIs(b, n, v);
    var p := Property(b, n, v);
    f := Nil;
    if p.err == 0 {
      var g := EmitIs(p.blob, rest);
      if Emit(p.blob, rest).err == 0 {
        f := PropDone(d, DraftOf(p.blob), DraftOf(Emit(p.blob, rest).blob), n, v, pad, g, rest);
      }
    }
  }

  lemma PropDone(d: Draft, d1: Draft, d2: Draft, n: bytes, v: bytes, pad: bytes, g: Forest, rest: Tree)
    returns (f: Forest)
    requires 0 !in n && |v| <= INT_MAX && |pad| == PadLen(|v|) && Emitted(d1, d2, rest, g)
    requires var t := NamesAfter(d.flags, d.names, n);
             && |t| < INT_MAX
             && d1 == d.(names := t, body := d.body + PropText(TWO32 - (|t| - NameIndex(d.flags, d.names, n)), v, pad))
    ensures Emitted(d, d2, TProp(n, v, rest), f)
  {
    hide NamesAfter, NameIndex, PropText, BE32, PadLen, BackString, ToInt, Enc, WF, BackResolved, BackMeaning;
    hide NoNops, Names, BodySize;
    PropSizes(d.flags, d.names, n, v, rest);
    var t, i := NamesAfter(d.flags, d.names, n), NameIndex(d.flags, d.names, n);
    var o: u32 := TWO32 - (|t| - i);
    f := Prop(o, v, pad, g);
    Assoc(d.body, PropText(o, v, pad), Enc(g));
    BackName(d.flags, d.names, n, Names(d.flags, t, rest));
    PropForest(Names(d.flags, t, rest), o, v, pad, g, n);
  }

  lemma EmitPropStep(b: bytes, n: bytes, v: bytes, rest: Tree)
    requires Ready(b) && Printable(TProp(n, v, rest))
    ensures 0 !in n && |v| <= INT_MAX - 16 && Printable(rest) && Handed(b) && Ready(Property(b, n, v).blob)
    ensures var p := Property(b, n, v);
            Emit(b, TProp(n, v, rest)) == if p.err != 0 then p else Emit(p.blob, rest)
  {
    hide Property, NamesAfter, PadLen;
    StepsReady(b, n, v);
  }

  lemma PropForest(t: bytes, o: u32, v: bytes, pad: bytes, g: Forest, n: bytes)
    requires WF(g) && |v| <= INT_MAX && |pad| == PadLen(|v|) && BackResolved(t, g) && NoNops(g)
    requires ToInt(o) < 0 && BackString(t, o) == Found(n)
    ensures var f := Prop(o, v, pad, g);
            && WF(f) && NoNops(f) && Enc(f) == PropText(o, v, pad) + Enc(g) && |Enc(f)| == 12 + |v| + |pad| + |Enc(g)|
            && BackResolved(t, f) && BackMeaning(t, f) == TProp(n, v, BackMeaning(t, g))
  {
    hide PadLen, BackString, ToInt;
  }

  /** The name just written, among the strings in the end. */
  lemma BackName(flags: u32, names: bytes, n: bytes, u: bytes)
    requires 0 !in n
    requires var t := NamesAfter(flags, names, n); |t| < INT_MAX && |u| >= |t| && u[|u| - |t|..] == t
    ensures var o := TWO32 - (|NamesAfter(flags, names, n)| - NameIndex(flags, names, n));
            ToInt(o) < 0 && BackString(u, o) == Found(n)
  {
    hide NamesAfter, NameIndex, CString;
    NameIndexIs(flags, names, n);
    var t := NamesAfter(flags, names, n);
    assert u == u[..|u| - |t|] + t;
    CStringBelow(u, u[..|u| - |t|], t, NameIndex(flags, names, n));
  }

  lemma {:induction false} EmitNode(b: bytes, n: bytes, k: Tree, rest: Tree) returns (f: Forest)
    requires Ready(b) && Printable(TNode(n, k, rest))
    ensures var x := TNode(n, k, rest);
            && (Emit(b, x).err == 0 <==> FullSize(DraftOf(b), x) <= |b|)
            && (Emit(b, x).err == 0 ==> Emitted(DraftOf(b), DraftOf(Emit(b, x).blob), x, f))
    decreases TNode(n, k, rest), 0
  {
    hide Begin, EndNode, Property, NamesAfter, NodeHead, PropText, BE32, Align4, PadLen, BackString, DraftOf;
    hide Writable, ToInt, NameIndex, Emit, Names, BodySize, Printable, Enc, WF, BackResolved, BackMeaning, NoNops;
    hide Emitted;
    EmitNodeStep(b, n, k, rest);
    NodeSizes(DraftOf(b).flags, DraftOf(b).names, n, k, rest);
    DraftIs(b);
    AlignIsPad(|n| + 1);
    var d := DraftOf(b);
    var pad := BeginIs(b, n);
    var p := Begin(b, n);
    f := Nil;
    if p.err == 0 {
      var g := EmitIs(p.blob, k);
      var q := Emit(p.blob, k);
      if q.err == 0 {
        EmittedSize(DraftOf(p.blob), DraftOf(q.blob), k, g);
        StepsReady(q.blob, n, []);
        DraftIs(q.blob);
        EndNodeIs(q.blob);
        var e := EndNode(q.blob);
        if e.err == 0 {
          var h := EmitIs(e.blob, rest);
          if Emit(e.blob, rest).err == 0 {
            f := Node(n, pad, g, h);
            NodeDone(d, DraftOf(p.blob), DraftOf(q.blob), DraftOf(e.blob), DraftOf(Emit(e.blob, rest).blob), n, pad,
                g, h, k, rest);
          }
        }
      }
    }
  }

  lemma PropSizes(flags: u32, t: bytes, n: bytes, v: bytes, rest: Tree)
    ensures Names(flags, t, TProp(n, v, rest)) == Names(flags, NamesAfter(flags, t, n), rest)
    ensures BodySize(TProp(n, v, rest)) == 12 + |v| + PadLen(|v|) + BodySize(rest)
  {
    hide PadLen, NamesAfter;
  }

  lemma NodeSizes(flags: u32, t: bytes, n: bytes, k: Tree, rest: Tree)
    ensures Names(flags, t, TNode(n, k, rest)) == Names(flags, Names(flags, t, k), rest)
    ensures BodySize(TNode(n, k, rest)) == 5 + |n| + PadLen(|n| + 1) + BodySize(k) + 4 + BodySize(rest)
  {
    hide PadLen;
  }

  /** The pieces of a node, put together. */
  lemma NodeDone(d: Draft, d1: Draft, d2: Draft, d3: Draft, d4: Draft, n: bytes, pad: bytes, g: Forest, h: Forest,
      k: Tree, rest: Tree)
    requires 0 !in n && |pad| == PadLen(|n| + 1) && Emitted(d1, d2, k, g) && Emitted(d3, d4, rest, h)
    requires d1 == d.(body := d.body + NodeHead(n, pad)) && d3 == d2.(body := d2.body + BE32(END_NODE))
    ensures Emitted(d, d4, TNode(n, k, rest), Node(n, pad, g, h))
  {
    hide NodeHead, BE32, PadLen, BackString, ToInt, Enc, WF, BackResolved, BackMeaning, NoNops, Names, BodySize;
    NodeSizes(d.flags, d.names, n, k, rest);
    NodeText(d.body, NodeHead(n, pad), Enc(g), BE32(END_NODE), Enc(h));
    var t := Names(d.flags, d.names, k);
    var u := Names(d.flags, t, rest);
    assert u == u[..|u| - |t|] + t;
    BackExtends(u[..|u| - |t|], t, u, g);
    NodeForest(u, n, pad, g, h);
  }

  lemma EmitNodeStep(b: bytes, n: bytes, k: Tree, rest: Tree)
    requires Ready(b) && Printable(TNode(n, k, rest))
    ensures 0 !in n && Printable(k) && Printable(rest) && Handed(b) && Ready(Begin(b, n).blob)
    ensures var p := Begin(b, n);
            var q := Emit(p.blob, k);
            && Handed(q.blob) && Ready(EndNode(q.blob).blob)
            && var e := EndNode(q.blob);
            Emit(b, TNode(n, k, rest)) == if p.err != 0 then p else if q.err != 0 then q else
              if e.err != 0 then e else Emit(e.blob, rest)
  {
    hide Begin, EndNode, PadLen;
    StepsReady(b, n, []);
    StepsReady(Emit(Begin(b, n).blob, k).blob, n, []);
  }

  lemma NodeForest(t: bytes, n: bytes, pad: bytes, g: Forest, h: Forest)
    requires WF(g) && WF(h) && 0 !in n && |pad| == PadLen(|n| + 1)
    requires BackResolved(t, g) && BackResolved(t, h) && NoNops(g) && NoNops(h)
    ensures var f := Node(n, pad, g, h);
            && WF(f) && NoNops(f) && Enc(f) == NodeHead(n, pad) + Enc(g) + BE32(END_NODE) + Enc(h)
            && |Enc(f)| == 5 + |n| + |pad| + |Enc(g)| + 4 + |Enc(h)|
            && BackResolved(t, f) && BackMeaning(t, f) == TNode(n, BackMeaning(t, g), BackMeaning(t, h))
  {
    hide PadLen, BackString, ToInt, BE32;
  }

  lemma NodeText(a: bytes, h: bytes, g: bytes, e: bytes, r: bytes)
    ensures a + h + g + e + r == a + (h + g + e + r)
  {
    Assoc4(a, h, g, e);
    Assoc(a, h + g + e, r);
  }

  // ----- the whole blob

  datatype Reservation = Reservation(addr: u64, size: u64)

  function RsvBytes(rsv: seq<Reservation>): (s: bytes)
    ensures |s| == 16 * |rsv|
  {
    if rsv == [] then []
    else (BE64(rsv[0].addr) + BE64(rsv[0].size)) + RsvBytes(rsv[1..])
  }

  function ReserveAll(b: bytes, rsv: seq<Reservation>): (r: Outcome)
    requires Writable(b) && !DraftOf(b).inStruct
    ensures Writable(r.blob) && !DraftOf(r.blob).inStruct
    decreases |rsv|
  {
    hide Writable, Reserve, DraftOf; if rsv == [] then Outcome(0, b)
    else
      ReserveIs(b, rsv[0].addr, rsv[0].size);
      var p := Reserve(b, rsv[0].addr, rsv[0].size);
      if p.err != 0 then p else ReserveAll(p.blob, rsv[1..])
  }

  lemma {:induction false} ReserveAllIs(b: bytes, rsv: seq<Reservation>)
    requires Writable(b) && !DraftOf(b).inStruct
    ensures var r, d := ReserveAll(b, rsv), DraftOf(b);
            && |r.blob| == |b|
            && (r.err == 0 <==> DraftSize(d) + 16 * |rsv| <= |b|)
            && (r.err == 0 ==> DraftOf(r.blob) == d.(rsv := d.rsv + RsvBytes(rsv)))
    decreases |rsv|
  {
    hide Reserve, BE64, Writable, DraftOf;
    DraftIs(b);
    var d := DraftOf(b);
    if rsv == [] {
      assert d.rsv + [] == d.rsv;
    } else {
      ReserveIs(b, rsv[0].addr, rsv[0].size);
      var p := Reserve(b, rsv[0].addr, rsv[0].size);
      if p.err == 0 {
        ReserveAllIs(p.blob, rsv[1..]);
        Assoc(d.rsv, BE64(rsv[0].addr) + BE64(rsv[0].size), RsvBytes(rsv[1..]));
      }
    }
  }

  /** fdt_create, the reservations, fdt_finish_reservemap, the tree, fdt_finish;
      up to the first call that fails. */
  function WriteTree(n: nat, flags: u32, rsv: seq<Reservation>, x: Tree): Outcome
    requires n < INT_MAX && Printable(x)
  {
    hide Create, ReserveAll, Writable, DraftOf, EndReserve, Emit, Finish, Printable;
    CreateIs(n, flags);
    var c := Create(n, flags);
    if c.err != 0 then c else
    var a := ReserveAll(c.blob, rsv);
    if a.err != 0 then a else
    EndReserveIs(a.blob);
    WritableHanded(a.blob);
    var m := EndReserve(a.blob);
    if m.err != 0 then m else
    var e := Emit(m.blob, x);
    if e.err != 0 then e else
    ReadyHanded(e.blob);
    Finish(e.blob)
  }

  lemma WritableHanded(b: bytes)
    requires Writable(b)
    ensures Handed(b)
  {}

  /** The bytes that the finished blob takes. */
  function Needed(flags: u32, rsv: seq<Reservation>, x: Tree): nat {
    RSV_OFFSET + 16 * (|rsv| + 1) + BodySize(x) + 4 + |Names(flags, [], x)|
  }

  /** `w` is the blob of the tree `x` with the reservations `rsv`. */
  ghost predicate Written(w: bytes, rsv: seq<Reservation>, x: Tree, f: Forest) {
    && Editable(w) && Magic(w) == MAGIC && LastComp(w) == 16
    && OffRsv(w) == RSV_OFFSET && OffStruct(w) == RSV_OFFSET + 16 * (|rsv| + 1)
    && w[RSV_OFFSET..OffStruct(w)] == RsvBytes(rsv) + (BE64(0) + BE64(0))
    && WF(f) && NoNops(f) && StructOf(w) == Block(Top(Nil), f)
    && Resolved(StringsOf(w), f) && Meaning(StringsOf(w), f) == x
  }

  /** Writing and reading back: a tree is written exactly when it fits, and the
      finished blob holds that tree, whether names are shared or not. */
  lemma {:induction false} WriteReadRoundTrip(n: nat, flags: u32, rsv: seq<Reservation>, x: Tree) returns (f: Forest)
    requires n < INT_MAX && flags <= 1 && Printable(x)
    ensures var r := WriteTree(n, flags, rsv, x);
            && (r.err == 0 <==> Needed(flags, rsv, x) <= n)
            && (r.err == 0 ==>
                  && |r.blob| == n >= HEADER_SIZE && TotalSize(r.blob) == Needed(flags, rsv, x) <= n
                  && Written(r.blob[..TotalSize(r.blob)], rsv, x, f))
  {
    hide U32, Create, ReserveAll, Writable, DraftOf, EndReserve, Emit, Finish, Printable, BE64, Enc, Block;
    hide RsvBytes, StructOf, StringsOf, Editable, CString, BackResolved, BackMeaning, Names, BodySize, Relocate;
    f := Nil;
    CreateIs(n, flags);
    var c := Create(n, flags);
    if c.err == 0 {
      ReserveAllIs(c.blob, rsv);
      var a := ReserveAll(c.blob, rsv);
      if a.err == 0 {
        EndReserveIs(a.blob);
        WritableHanded(a.blob);
        var m := EndReserve(a.blob);
        if m.err == 0 {
          f := WriteBody(n, flags, m.blob, x);
          assert [] + RsvBytes(rsv) == RsvBytes(rsv);
        }
      }
    }
  }

  lemma {:induction false} WriteBody(n: nat, flags: u32, b: bytes, x: Tree) returns (f: Forest)
    requires Ready(b) && Printable(x) && |b| == n
    requires DraftOf(b).body == [] && DraftOf(b).names == [] && DraftOf(b).flags == flags
    ensures var e, d := Emit(b, x), DraftOf(b);
            && (e.err == 0 && Finish(e.blob).err == 0 <==>
                  DraftSize(d) + BodySize(x) + 4 + |Names(flags, [], x)| <= n)
            && Handed(e.blob)
            && (e.err == 0 && Finish(e.blob).err == 0 ==>
                  var r := Finish(e.blob).blob;
                  && |r| == n >= HEADER_SIZE
                  && TotalSize(r) == DraftSize(d) + BodySize(x) + 4 + |Names(flags, [], x)| <= n
                  && var w := r[..TotalSize(r)];
                  && Editable(w) && Magic(w) == MAGIC && LastComp(w) == 16 && OffRsv(w) == RSV_OFFSET
                     && OffStruct(w) == RSV_OFFSET + |d.rsv|
                  && w[RSV_OFFSET..OffStruct(w)] == d.rsv
                  && WF(f) && NoNops(f) && StructOf(w) == Block(Top(Nil), f)
                  && Resolved(StringsOf(w), f) && Meaning(StringsOf(w), f) == x)
  {
    hide U32, Writable, DraftOf, Emit, Finish, Printable, Enc, Block, StructOf, StringsOf, Editable, CString;
    hide BackResolved, BackMeaning, Names, BodySize, Relocate;
    var g := EmitIs(b, x);
    var e := Emit(b, x);
    f := Nil;
    ReadyHanded(e.blob);
    DraftIs(b);
    if e.err == 0 {
      DraftIs(e.blob);
      assert [] + Enc(g) == Enc(g);
      FinishIs(e.blob, g);
      var t := Names(flags, [], x);
      if Finish(e.blob).err == 0 {
        f := Relocate(g, |t|);
        RelocateMeans(t, g);
        RelocateNops(g, |t|);
      }
    }
  }

  lemma {:induction false} RelocateNops(f: Forest, k: u32)
    requires NoNops(f)
    ensures NoNops(Relocate(f, k))
  {
    match f
    case Nil =>
    case Prop(_, _, _, r) => RelocateNops(r, k);
    case Node(_, _, x, r) => RelocateNops(x, k); RelocateNops(r, k);
  }

  /** De-duplication changes the bytes, not the tree, and never needs more room. */
  lemma {:induction false} DedupNoLarger(t: bytes, u: bytes, x: Tree)
    requires |t| <= |u|
    ensures |Names(0, t, x)| <= |Names(1, u, x)|
    decreases x
  {
    hide FindString;
    match x
    case TNil =>
    case TProp(n, _, r) => DedupNoLarger(NamesAfter(0, t, n), NamesAfter(1, u, n), r);
    case TNode(_, k, r) =>
      DedupNoLarger(t, u, k);
      DedupNoLarger(Names(0, t, k), Names(1, u, k), r);
  }

  // ----- the checker accepts what was written

  /** Properties, then at most one node, nameless and last. */
  predicate TopTree(x: Tree) {
    match x
    case TNil => true
    case TProp(_, _, r) => TopTree(r)
    case TNode(n, _, r) => n == [] && r == TNil
  }

  lemma {:induction false} TopShapeOf(t: bytes, f: Forest)
    requires Resolved(t, f) && NoNops(f) && TopTree(Meaning(t, f))
    ensures TopShape(f)
  {
    hide CString;
    match f
    case Prop(_, _, _, r) => TopShapeOf(t, r);
    case _ =>
  }

  lemma {:induction false} NamedOf(b: bytes, at: nat, f: Forest)
    requires BlocksInside(b) && Probe(b, at) >= 0 && Magic(b) == MAGIC && Resolved(StringsOf(b), f)
    ensures PropsNamed(b, at, f)
  {
    hide U32, CString, StringsOf, GetString, Probe;
    match f
    case Nil =>
    case Nop(r) => NamedOf(b, at, r);
    case Prop(o, _, _, r) =>
      GetStringIs(b, at, ToInt(o));
      NamedOf(b, at, r);
    case Node(_, _, k, r) =>
      NamedOf(b, at, k);
      NamedOf(b, at, r);
  }

  lemma {:induction false} RsvTerminated(b: bytes, n: nat, i: nat)
    requires InMemory(b) && OffRsv(b) + 16 * (n + 1) <= TotalSize(b) && i <= n
    requires U32(b, OffRsv(b) + 16 * n + 8) == 0 && U32(b, OffRsv(b) + 16 * n + 12) == 0
    ensures RsvCount(b, i) >= 0
    decreases n - i
  {
    hide U32;
    var x := OffRsv(b) + i * 16;
    assert x % TWO32 == x;
    if i < n { RsvTerminated(b, n, i + 1); }
  }

  /** A written tree with one nameless root passes the full check. */
  lemma {:induction false} WrittenChecks(w: bytes, at: nat, rsv: seq<Reservation>, x: Tree, f: Forest)
    requires Written(w, rsv, x, f) && TopTree(x) && at % 8 == 0
    ensures CheckFull(w, at) == 0 && Encodes(w, at, Top(Nil), f)
  {
    hide U32, CString, StringsOf, StructOf, GetString, Block, Enc, BE64, RsvBytes, CheckTags, RsvCount, PropsNamed;
    hide TopShape, Resolved, Meaning, WF, NoNops;
    CheckFullIs(w, at);
    TopBlock(f);
    TopShapeOf(StringsOf(w), f);
    NamedOf(w, at, f);
    RsvZero(w, RsvBytes(rsv));
    RsvTerminated(w, |rsv|, 0);
    CheckBlockIs(40, TotalSize(w), OffStruct(w), SizeStruct(w));
    CheckBlockIs(40, TotalSize(w), OffStrings(w), SizeStrings(w));
    assert Grammatical(w, at, f);
  }

  lemma RsvZero(w: bytes, a: bytes)
    requires |w| >= RSV_OFFSET + |a| + 16
    requires w[RSV_OFFSET..RSV_OFFSET + |a| + 16] == a + (BE64(0) + BE64(0))
    ensures U32(w, RSV_OFFSET + |a| + 8) == 0 && U32(w, RSV_OFFSET + |a| + 12) == 0
  {
    hide U32, BE32;
    var s, k, z := w[RSV_OFFSET..RSV_OFFSET + |a| + 16], |a|, BE32(0);
    assert BE64(0) == z + z;
    assert s == (a + (z + z)) + z + z;
    assert s[k + 8..k + 12] == z && s[k + 12..k + 16] == z;
    SliceSlice(w, RSV_OFFSET, RSV_OFFSET + k + 16, k + 8, k + 12);
    SliceSlice(w, RSV_OFFSET, RSV_OFFSET + k + 16, k + 12, k + 16);
    U32Of(w, RSV_OFFSET + k + 8, 0);
    U32Of(w, RSV_OFFSET + k + 12, 0);
  }
}
