/** external/libfdt/fdt_ro.c: fdt_get_path and fdt_path_offset, and how they
    invert each other. */
module FdtPaths {
  import opened Bytes
  import opened FdtFormat
  import opened FdtWalk
  import opened FdtNodes
  import opened FdtRead
  import opened FdtTree
  import opened FdtAncestors

  const SLASH: byte := 47

  /** The names joined the way fdt_get_path lays them out: a '/' after each. */
  function Join(names: seq<bytes>): (t: bytes)
    ensures names != [] ==> |t| > 0 && t[|t| - 1] == SLASH
    ensures names == [] ==> t == []
  {
    if names == [] then [] else Join(names[..|names| - 1]) + names[|names| - 1] + [SLASH]
  }

  lemma JoinSnoc(names: seq<bytes>, n: bytes)
    ensures Join(names + [n]) == Join(names) + n + [SLASH]
  {
    assert (names + [n])[..|names|] == names;
  }

  /** The names of the nodes around a position, outermost first. */
  function Chain(c: Ctx): (names: seq<bytes>)
    ensures |names| == Depth(c)
  {
    match c
    case Top(_) => []
    case In(u, n, _, _, _) => Chain(u) + [n]
  }

  /** The full path of the node `f` at `c`; the root's is "/". */
  function PathOf(c: Ctx, f: Forest): bytes
    requires f.Node?
  {
    var t := Join(Chain(c) + [f.name]);
    if |t| > 1 then t[..|t| - 1] else t
  }

  predicate SlashFree(f: Forest) {
    match f
    case Nil => true
    case Nop(r) => SlashFree(r)
    case Prop(_, _, _, r) => SlashFree(r)
    case Node(n, _, k, r) => SLASH !in n && SlashFree(k) && SlashFree(r)
  }

  // ----- what the buffer holds while fdt_get_path walks

  /** The names the buffer keeps when the walk stands at depth `d`. */
  function Cut(names: seq<bytes>, d: nat): seq<bytes> {
    if |names| > d then names[..d] else names
  }

  /** One visit: drop the names deeper than the node, and append the node's
      name when the buffer holds all its ancestors and has room for it. */
  function PathStep(names: seq<bytes>, d: nat, n: bytes, room: int): seq<bytes> {
    var k := Cut(names, d);
    if |k| >= d && |Join(k)| + |n| + 1 <= room then k + [n] else k
  }

  datatype Named = Named(depth: nat, name: bytes)

  /** The nodes of a list in preorder, with their names. */
  function Names(f: Forest, d: nat): seq<Named> {
    match f
    case Nil => []
    case Nop(r) => Names(r, d)
    case Prop(_, _, _, r) => Names(r, d)
    case Node(n, _, k, r) => [Named(d, n)] + Names(k, d + 1) + Names(r, d)
  }

  function PathFold(w: seq<Named>, names: seq<bytes>, room: int): seq<bytes>
    decreases |w|
  {
    if w == [] then names else PathFold(w[1..], PathStep(names, w[0].depth, w[0].name, room), room)
  }

  lemma {:induction false} PathFoldAppend(v: seq<Named>, w: seq<Named>, names: seq<bytes>, room: int)
    ensures PathFold(v + w, names, room) == PathFold(w, PathFold(v, names, room), room)
    decreases |v|
  {
    hide PathStep;
    if v == [] {
      assert v + w == w;
    } else {
      assert (v + w)[1..] == v[1..] + w;
      PathFoldAppend(v[1..], w, PathStep(names, v[0].depth, v[0].name, room), room);
    }
  }

  /** The longest run of the names that fits, from the outermost on. */
  function Greedy(names: seq<bytes>, room: int): (g: seq<bytes>)
    ensures |g| <= |names| && g == names[..|g|]
    ensures |Join(g)| <= room || g == []
  {
    if names == [] then [] else
    var init, last := names[..|names| - 1], names[|names| - 1];
    var g := Greedy(init, room);
    if |g| == |init| && |Join(g)| + |last| + 1 <= room then
      JoinSnoc(g, last);
      g + [last]
    else g
  }

  lemma GreedySnoc(names: seq<bytes>, n: bytes, room: int)
    ensures Greedy(names + [n], room) ==
      (var g := Greedy(names, room);
       if |g| == |names| && |Join(g)| + |n| + 1 <= room then g + [n] else g)
  {
    assert (names + [n])[..|names|] == names;
  }

  /** It is everything exactly when everything fits. */
  lemma {:induction false} GreedyAll(names: seq<bytes>, room: int)
    ensures names != [] ==> (Greedy(names, room) == names <==> |Join(names)| <= room)
  {
    if names != [] {
      var init, last := names[..|names| - 1], names[|names| - 1];
      assert names == init + [last];
      GreedySnoc(init, last, room);
      JoinSnoc(init, last);
      GreedyAll(init, room);
    }
  }

  lemma CutCut(g: seq<bytes>, d: nat)
    ensures Cut(Cut(g, d + 1), d) == Cut(g, d)
  {}

  /** Visiting a node extends the buffer as far as the room allows. */
  lemma StepCut(names: seq<bytes>, chain: seq<bytes>, n: bytes, room: int)
    requires Cut(names, |chain|) == Greedy(chain, room)
    ensures var g := PathStep(names, |chain|, n, room);
            && g == Greedy(chain + [n], room)
            && Cut(g, |chain| + 1) == g && Cut(g, |chain|) == Greedy(chain, room)
  {
    hide Join;
    GreedySnoc(chain, n, room);
  }

  /** Walking through a whole list leaves the names of its ancestors in the
      buffer as they were. */
  lemma {:induction false} FoldForest(f: Forest, chain: seq<bytes>, names: seq<bytes>, room: int)
    requires Cut(names, |chain|) == Greedy(chain, room)
    ensures Cut(PathFold(Names(f, |chain|), names, room), |chain|) == Greedy(chain, room)
    decreases f
  {
    hide Greedy, Cut, PathStep;
    match f
    case Nil =>
    case Nop(r) => FoldForest(r, chain, names, room);
    case Prop(o, v, p, r) => FoldForest(r, chain, names, room);
    case Node(n, p, k, r) =>
      var d := |chain|;
      StepCut(names, chain, n, room);
      var g1 := PathStep(names, d, n, room);
      FoldForest(k, chain + [n], g1, room);
      var g2 := PathFold(Names(k, d + 1), g1, room);
      CutCut(g2, d);
      FoldForest(r, chain, g2, room);
      FoldOne(Named(d, n), names, room);
      PathFoldAppend([Named(d, n)], Names(k, d + 1), names, room);
      PathFoldAppend([Named(d, n)] + Names(k, d + 1), Names(r, d), names, room);
  }

  lemma FoldOne(v: Named, names: seq<bytes>, room: int)
    ensures PathFold([v], names, room) == PathStep(names, v.depth, v.name, room)
  {
    hide PathStep;
    assert [v][1..] == [];
    assert PathFold([], PathStep(names, v.depth, v.name, room), room) == PathStep(names, v.depth, v.name, room);
  }

  /** The names that go with `PreVisits`. */
  function PreNames(c: Ctx): seq<Named> {
    match c
    case Top(b) => Names(b, 0)
    case In(u, n, _, b, _) => PreNames(u) + [Named(Depth(u), n)] + Names(b, Depth(u) + 1)
  }

  /** Whatever the walk has seen before a node, the buffer then holds as many
      names of the node's ancestors as fit, and possibly deeper ones. */
  lemma {:induction false} FoldTo(c: Ctx, room: int)
    requires UnderRoot(c)
    ensures Cut(PathFold(PreNames(c), [], room), Depth(c)) == Greedy(Chain(c), room)
  {
    hide Greedy, Cut, PathStep, PathFold;
    match c
    case Top(b) =>
      assert PreNames(c) == [];
      NothingYet(room);
    case In(u, n, p, b, a) =>
      FoldTo(u, room);
      var d := Depth(u);
      var g := PathFold(PreNames(u), [], room);
      StepCut(g, Chain(u), n, room);
      FoldOne(Named(d, n), g, room);
      PathFoldAppend(PreNames(u), [Named(d, n)], [], room);
      FoldForest(b, Chain(c), PathStep(g, d, n, room), room);
      PathFoldAppend(PreNames(u) + [Named(d, n)], Names(b, d + 1), [], room);
  }

  lemma NothingYet(room: int)
    ensures Cut(PathFold([], [], room), 0) == Greedy([], room)
  {}

  /** After the node itself, the buffer holds the whole path exactly when the
      path fits. */
  lemma {:induction false} FoldAt(c: Ctx, name: bytes, room: int)
    requires UnderRoot(c)
    ensures var g := PathStep(PathFold(PreNames(c), [], room), Depth(c), name, room);
            && |g| <= Depth(c) + 1
            && (|g| == Depth(c) + 1 <==> |Join(Chain(c) + [name])| <= room)
            && (|g| == Depth(c) + 1 ==> g == Chain(c) + [name])
  {
    hide Greedy, PathStep, PathFold, Join;
    FoldTo(c, room);
    StepCut(PathFold(PreNames(c), [], room), Chain(c), name, room);
    GreedyAll(Chain(c) + [name], room);
  }

  // ----- the visits of the walk carry these names

  predicate Reads(s: bytes, w: seq<Visit>, m: seq<Named>) {
    && |w| == |m|
    && forall i :: 0 <= i < |w| ==> ReadsOne(s, w[i], m[i])
  }

  predicate ReadsOne(s: bytes, v: Visit, m: Named) {
    v.depth == m.depth && v.off >= 0 && NextTag(s, v.off).tag == BEGIN_NODE && NameAt(s, v.off) == m.name
  }

  lemma ReadsAppend(s: bytes, v: seq<Visit>, w: seq<Visit>, m: seq<Named>, n: seq<Named>)
    requires Reads(s, v, m) && Reads(s, w, n)
    ensures Reads(s, v + w, m + n)
  {
    hide ReadsOne;
  }

  lemma ReadsPrefix(s: bytes, v: seq<Visit>, w: seq<Visit>, m: seq<Named>, n: seq<Named>)
    requires Reads(s, v + w, m + n) && |v| == |m|
    ensures Reads(s, v, m)
  {
    hide ReadsOne;
    forall i | 0 <= i < |v| ensures ReadsOne(s, v[i], m[i]) {
      assert (v + w)[i] == v[i] && (m + n)[i] == m[i];
    }
  }

  lemma ReadsSize(s: bytes, w: seq<Visit>, m: seq<Named>)
    requires Reads(s, w, m)
    ensures |w| == |m|
  {}

  lemma ReadsNone(s: bytes)
    ensures Reads(s, [], [])
  {}

  lemma ReadsNode(c: Ctx, n: bytes, p: bytes, k: Forest, r: Forest, d: nat)
    requires CtxWF(c) && WF(Node(n, p, k, r))
    ensures Reads(Block(c, Node(n, p, k, r)), [Visit(Pos(c), d)], [Named(d, n)])
  {
    hide PadLen, U32, BE32, Enc, Block, Before, After, NextTag, Aligned, NameEnd;
    TagBegin(c, n, p, k, r);
  }

  lemma {:induction false} ReadsPreorder(c: Ctx, f: Forest, d: nat)
    requires CtxWF(c) && WF(f)
    ensures Reads(Block(c, f), Preorder(f, Pos(c), d), Names(f, d))
    decreases f, 1
  {
    hide PadLen, U32, BE32, Enc, Block, Before, After, NextTag, Aligned, Plug, Pass, NameEnd, Reads, Preorder, Pos;
    var s := Block(c, f);
    ReadsNone(s);
    if !f.Node? { PreorderItem(f, Pos(c), d); }
    match f
    case Nil =>
    case Nop(r) =>
      PassItem(c, Nop(Nil), r);
      ReadsPreorder(Pass(c, Nop(Nil)), r, d);
    case Prop(o, v, p, r) =>
      PassItem(c, Prop(o, v, p, Nil), r);
      ReadsPreorder(Pass(c, Prop(o, v, p, Nil)), r, d);
    case Node(n, p, k, r) => ReadsPreorderNode(c, n, p, k, r, d);
  }

  lemma {:induction false} ReadsPreorderNode(c: Ctx, n: bytes, p: bytes, k: Forest, r: Forest, d: nat)
    requires CtxWF(c) && WF(Node(n, p, k, r))
    ensures Reads(Block(c, Node(n, p, k, r)), Preorder(Node(n, p, k, r), Pos(c), d), Names(Node(n, p, k, r), d))
    decreases Node(n, p, k, r), 0
  {
    hide PadLen, U32, BE32, Enc, Block, Before, After, NextTag, Aligned, Plug, Pass, NameEnd, Reads, Preorder, Size;
    hide CtxWF;
    var s, x, e := Block(c, Node(n, p, k, r)), Pos(c), Pos(c) + 5 + |n| + |p|;
    var u, v, m := Preorder(k, e, d + 1), Preorder(r, e + Size(k) + 4, d), Names(k, d + 1);
    ReadsNode(c, n, p, k, r, d);
    assert Reads(s, u, m) by {
      EnterIs(c, n, p, k, r);
      ReadsPreorder(In(c, n, p, Nil, r), k, d + 1);
    }
    ReadsAppend(s, [Visit(x, d)], u, [Named(d, n)], m);
    PassNode(c, n, p, k, r);
    ReadsPreorder(Pass(c, Node(n, p, k, Nil)), r, d);
    ReadsAppend(s, [Visit(x, d)] + u, v, [Named(d, n)] + m, Names(r, d));
    PreorderNode(n, p, k, r, x, d);
  }

  lemma {:induction false} NamesAppend(a: Forest, b: Forest, d: nat)
    ensures Names(Append(a, b), d) == Names(a, d) + Names(b, d)
    decreases a
  {
    match a
    case Nil =>
    case Nop(r) => NamesAppend(r, b, d);
    case Prop(_, _, _, r) => NamesAppend(r, b, d);
    case Node(n, _, k, r) =>
      NamesAppend(r, b, d);
      var h := [Named(d, n)] + Names(k, d + 1);
      assert h + Names(r, d) + Names(b, d) == h + (Names(r, d) + Names(b, d));
  }

  lemma {:induction false} ReadsPre(c: Ctx, f: Forest)
    requires CtxWF(c) && WF(f) && f.Node? && UnderRoot(c)
    ensures Reads(Block(c, f), PreVisits(c), PreNames(c))
    decreases c
  {
    hide PadLen, U32, BE32, Enc, Block, Before, After, NextTag, Aligned, Plug, NameEnd, Reads, Names, Preorder;
    var s := Block(c, f);
    match c
    case Top(b) =>
      ReadsNone(s);
      NilLists();
    case In(u, n, p, b, a) =>
      InNode(c, f);
      var l, e, d := Append(b, f), Pos(u) + 5 + |n| + |p|, Depth(u);
      ReadsPre(u, Node(n, p, l, a));
      ReadsNode(u, n, p, l, a, d);
      ReadsAppend(s, PreVisits(u), [Visit(Pos(u), d)], PreNames(u), [Named(d, n)]);
      assert Reads(s, Preorder(l, e, d + 1), Names(l, d + 1)) by {
        EnterIs(u, n, p, l, a);
        ReadsPreorder(In(u, n, p, Nil, a), l, d + 1);
      }
      PreorderAppend(b, f, e, d + 1);
      NamesAppend(b, f, d + 1);
      SameLength(b, e, d + 1);
      ReadsPrefix(s, Preorder(b, e, d + 1), Preorder(f, e + Size(b), d + 1), Names(b, d + 1), Names(f, d + 1));
      ReadsAppend(s, PreVisits(u) + [Visit(Pos(u), d)], Preorder(b, e, d + 1),
        PreNames(u) + [Named(d, n)], Names(b, d + 1));
  }

  lemma NilLists()
    ensures Preorder(Nil, 0, 0) == [] && Names(Nil, 0) == []
  {}

  lemma {:induction false} SameLength(f: Forest, base: nat, d: nat)
    requires WF(f)
    ensures |Preorder(f, base, d)| == |Names(f, d)|
    decreases f
  {
    hide PadLen, Enc;
    match f
    case Nil =>
    case Nop(r) => SameLength(r, base + 4, d);
    case Prop(_, v, p, r) => SameLength(r, base + 12 + |v| + |p|, d);
    case Node(n, p, k, r) =>
      SameLength(k, base + 5 + |n| + |p|, d + 1);
      SameLength(r, base + 5 + |n| + |p| + Size(k) + 4, d);
  }

  // ----- fdt_get_path

  lemma {:induction false} PreDeep(c: Ctx)
    requires CtxWF(c) && UnderRoot(c)
    ensures c.In? ==> PreVisits(c) != [] && PreVisits(c)[0] == Visit(0, 0)
    ensures c.Top? ==> PreVisits(c) == []
    ensures forall j :: 1 <= j < |PreVisits(c)| ==> PreVisits(c)[j].depth >= 1
  {
    hide PadLen, Enc, Before, Preorder;
    match c
    case Top(b) => NilLists();
    case In(u, n, p, b, _) =>
      PreDeep(u);
      var x := Preorder(b, Pos(u) + 5 + |n| + |p|, Depth(u) + 1);
      PreorderDeep(b, Pos(u) + 5 + |n| + |p|, Depth(u) + 1);
      forall j | 0 <= j < |x| ensures x[j].depth >= 1 { assert x[j] in x; }
      if u.Top? { RootPos(u); }
  }

  /** Everything `PreVisits` names is free of '/' when the whole tree is. */
  lemma {:induction false} PreSlashFree(c: Ctx, f: Forest)
    requires UnderRoot(c) && SlashFree(Plug(c, f)) && f.Node?
    ensures forall x :: x in PreNames(c) ==> SLASH !in x.name
    ensures SlashFree(f)
    decreases c
  {
    match c
    case Top(b) =>
    case In(u, n, p, b, a) =>
      PreSlashFree(u, Node(n, p, Append(b, f), a));
      SlashFreeAppend(b, f);
      NamesSlashFree(b, Depth(u) + 1);
  }

  lemma SlashFreeAppend(a: Forest, b: Forest)
    ensures SlashFree(Append(a, b)) <==> SlashFree(a) && SlashFree(b)
  {}

  lemma NamesSlashFree(f: Forest, d: nat)
    requires SlashFree(f)
    ensures forall x :: x in Names(f, d) ==> SLASH !in x.name
  {}

  /** The do-while that steps back over the last name in the buffer. */
  method DropName(buf: array<byte>, p: nat, ghost init: seq<bytes>, ghost last: bytes) returns (q: nat)
    requires init != [] && SLASH !in last
    requires p <= buf.Length && buf[..p] == Join(init + [last])
    ensures q <= p && buf[..q] == Join(init)
  {
    JoinSnoc(init, last);
    ghost var j := Join(init);
    assert j + last + [SLASH] == j + (last + [SLASH]);
    forall i | |j| <= i < |j| + |last| ensures buf[i] != SLASH {
      assert buf[..p][i] == last[i - |j|] && last[i - |j|] in last;
    }
    q := p - 1;
    while buf[q - 1] != SLASH
      invariant |j| <= q <= |j| + |last|
      invariant buf[..p] == j + last + [SLASH]
      decreases q
    {
      assert q > |j| by { assert buf[..p][q - 1] == buf[q - 1]; }
      q := q - 1;
    }
    assert buf[..q] == buf[..p][..q] == j;
  }

  /** The loop around it: names deeper than `depth` are dropped. */
  method DropTo(buf: array<byte>, p0: nat, pdepth0: nat, depth: nat, ghost names: seq<bytes>)
    returns (p: nat, pdepth: nat)
    requires p0 <= buf.Length && buf[..p0] == Join(names) && pdepth0 == |names|
    requires forall n :: n in names ==> SLASH !in n
    requires pdepth0 > depth ==> depth >= 1
    ensures p <= p0 && buf[..p] == Join(Cut(names, depth)) && pdepth == |Cut(names, depth)|
  {
    hide Join;
    p, pdepth := p0, pdepth0;
    assert names[..pdepth] == names;
    while pdepth > depth
      invariant p <= p0 && pdepth <= pdepth0
      invariant pdepth0 > depth ==> pdepth >= depth
      invariant pdepth0 <= depth ==> pdepth == pdepth0
      invariant buf[..p] == Join(names[..pdepth])
    {
      assert names[..pdepth] == names[..pdepth - 1] + [names[pdepth - 1]];
      p := DropName(buf, p, names[..pdepth - 1], names[pdepth - 1]);
      pdepth := pdepth - 1;
    }
  }

  lemma PathFits(c: Ctx, f: Forest, room: int)
    requires f.Node? && room >= 2
    ensures |Join(Chain(c) + [f.name])| <= room <==> |PathOf(c, f)| + 1 <= room
  {}

  /** The memcpy of a name and the '/' behind it. */
  method PutName(buf: array<byte>, p: nat, name: bytes, ghost names: seq<bytes>) returns (q: nat)
    requires p + |name| + 1 <= buf.Length && buf[..p] == Join(names)
    modifies buf
    ensures q == p + |name| + 1 && buf[..q] == Join(names + [name])
    ensures buf[q..] == old(buf[q..])
  {
    q := p;
    ghost var j := Join(names);
    for i := 0 to |name|
      invariant q == p + i
      invariant buf[..q] == j + name[..i]
      invariant buf[p + |name| + 1..] == old(buf[p + |name| + 1..])
    {
      buf[q] := name[i];
      q := q + 1;
      assert buf[..q] == buf[..q - 1] + [name[i]];
      assert j + name[..i] + [name[i]] == j + name[..i + 1];
    }
    buf[q] := SLASH;
    q := q + 1;
    assert name[..|name|] == name;
    assert buf[..q] == buf[..q - 1] + [SLASH];
    JoinSnoc(names, name);
  }

  /** One turn of the loop of fdt_get_path, on the buffer. */
  method EnterName(buf: array<byte>, p0: nat, pdepth0: nat, depth: nat, name: bytes, buflen: nat,
      ghost names: seq<bytes>)
    returns (p: nat, pdepth: nat)
    requires p0 <= buflen <= buf.Length && buf[..p0] == Join(names) && pdepth0 == |names|
    requires SlashFreeNames(names) && SLASH !in name
    requires pdepth0 > depth ==> depth >= 1
    modifies buf
    ensures p <= buflen && buf[..p] == Join(PathStep(names, depth, name, buflen))
    ensures pdepth == |PathStep(names, depth, name, buflen)| && SlashFreeNames(PathStep(names, depth, name, buflen))
    ensures buf[buflen..] == old(buf[buflen..])
  {
    hide Join;
    p, pdepth := DropTo(buf, p0, pdepth0, depth, names);
    if pdepth >= depth && p + |name| + 1 <= buflen {
      ghost var k := Cut(names, depth);
      ghost var was := buf[..];
      p := PutName(buf, p, name, k);
      pdepth := pdepth + 1;
      assert buf[buflen..] == buf[p..][buflen - p..] == was[p..][buflen - p..] == was[buflen..];
    }
  }

  predicate SlashFreeNames(names: seq<bytes>) {
    forall n :: n in names ==> SLASH !in n
  }

  /** The end of fdt_get_path: a '/' too many goes, except for the root. */
  method EndPath(buf: array<byte>, p: nat, buflen: nat, ghost c: Ctx, ghost f: Forest)
    requires f.Node? && p <= buflen <= buf.Length && buflen >= 2
    requires buf[..p] == Join(Chain(c) + [f.name])
    modifies buf
    ensures |PathOf(c, f)| < buf.Length && buf[..|PathOf(c, f)|] == PathOf(c, f) && buf[|PathOf(c, f)|] == 0
    ensures buf[buflen..] == old(buf[buflen..])
  {
    hide Join;
    var q := if p > 1 then p - 1 else p;
    assert buf[..q] == buf[..p][..q] == PathOf(c, f);
    ghost var was := buf[..];
    buf[q] := 0;
    assert buf[..q] == was[..q];
    assert buf[buflen..] == was[buflen..];
  }

  /** fdt_get_path. */
  method GetPath(b: bytes, at: nat, node: nat, buf: array<byte>, buflen: int, ghost c: Ctx, ghost f: Forest)
    returns (r: int)
    requires InMemory(b) && buflen <= buf.Length
    requires CtxWF(c) && WF(f) && f.Node? && UnderRoot(c) && SlashFree(Plug(c, f))
    requires StructOf(b) == Block(c, f) && node == Pos(c)
    modifies buf
    ensures Probe(b, at) < 0 ==> r == Probe(b, at)
    ensures Probe(b, at) >= 0 ==> r == if |PathOf(c, f)| + 1 <= buflen then 0 else ERR_NOSPACE
    ensures r == 0 ==> |PathOf(c, f)| < buf.Length && buf[..|PathOf(c, f)|] == PathOf(c, f) && buf[|PathOf(c, f)|] == 0
    ensures buf[if buflen < 0 then 0 else buflen..] == old(buf[if buflen < 0 then 0 else buflen..])
  {
    hide Probe, StructOf, Block, NextTag, NextNode, Trail, Enc, PadLen, Before, After, PathFold, Join, PreVisits;
    hide PreNames, Aligned, Greedy, PathStep, WF, CtxWF, SlashFree, PathOf, NameAt;
    hide Plug, Joined, Reads;
    var probe := Probe(b, at);
    if probe < 0 {
      return probe;
    }
    PathFits(c, f, if buflen < 2 then 2 else buflen);
    JoinLong(c, f);
    if buflen < 2 {
      return ERR_NOSPACE;
    }
    ghost var s := StructOf(b);
    var pdepth, p, offset, depth := 0, 0, 0, 0;
    ghost var m, i := PreNames(c), 0;
    ghost var names: seq<bytes> := PathFold(m[..0], [], buflen);
    TrailTo(c, f);
    ReadsPre(c, f);
    ReadsSize(s, PreVisits(c), m);
    PreDeep(c);
    PreSlashFree(c, f);
    PreVisitsBefore(c);
    NothingFolded(m, buflen);
    assert PreVisits(c)[0..] == PreVisits(c);
    while true
      invariant 0 <= p <= buflen && pdepth == |names| && 0 <= offset <= INT_MAX && 0 <= depth
      invariant i <= |m|
      invariant names == PathFold(m[..i], [], buflen) && SlashFreeNames(names)
      invariant buf[..p] == Join(names)
      invariant Trail(s, offset, depth) == PreVisits(c)[i..] + Trail(s, Pos(c), Depth(c))
      invariant i == 0 ==> depth == 0 && pdepth == 0
      invariant buf[buflen..] == old(buf[buflen..])
      decreases |m| - i
    {
      VisitHere(s, c, f, i, offset, depth);
      var name := NodeName(b, offset);
      p, pdepth := EnterName(buf, p, pdepth, depth, name, buflen, names);
      names := PathStep(names, depth, name, buflen);
      if offset == node {
        assert m[..i] == m;
        FoldAt(c, f.name, buflen);
        if pdepth < depth + 1 {
          return ERR_NOSPACE;
        }
        EndPath(buf, p, buflen, c, f);
        return 0;
      }
      FoldNext(m, i, buflen);
      TrailStep(s, offset, depth);
      assert PreVisits(c)[i..][1..] == PreVisits(c)[i + 1..];
      offset, depth := FindNextNode(b, offset, depth);
      i := i + 1;
      NextHere(s, c, i, offset, depth);
    }
  }

  lemma FoldNext(m: seq<Named>, i: nat, room: int)
    requires i < |m|
    ensures PathFold(m[..i + 1], [], room) == PathStep(PathFold(m[..i], [], room), m[i].depth, m[i].name, room)
  {
    hide PathStep;
    assert m[..i + 1] == m[..i] + [m[i]];
    PathFoldAppend(m[..i], [m[i]], [], room);
    FoldOne(m[i], PathFold(m[..i], [], room), room);
  }


  lemma JoinLong(c: Ctx, f: Forest)
    requires f.Node?
    ensures |Join(Chain(c) + [f.name])| >= 1 && |PathOf(c, f)| >= 1
  {}

  lemma NothingFolded(m: seq<Named>, room: int)
    ensures PathFold(m[..0], [], room) == [] && Join([]) == []
  {}

  lemma NextHere(s: bytes, c: Ctx, i: nat, o: int, d: int)
    requires CtxWF(c) && UnderRoot(c) && 0 < i <= |PreVisits(c)|
    requires Trail(s, o, d) == PreVisits(c)[i..] + Trail(s, Pos(c), Depth(c))
    ensures o >= 0 && d >= 0 && (i < |PreVisits(c)| ==> PreVisits(c)[i] == Visit(o, d) && o < Pos(c))
    ensures d == 0 ==> i == |PreVisits(c)| && Depth(c) == 0
  {
    hide PadLen, Enc, Before, PreVisits, Walk, NextNode, Pos;
    PreVisitsBefore(c);
    PreDeep(c);
    assert Trail(s, o, d)[0] == Visit(o, d);
    if i == |PreVisits(c)| {
      assert PreVisits(c)[i..] == [];
      assert Trail(s, Pos(c), Depth(c))[0] == Visit(Pos(c), Depth(c));
    } else {
      assert PreVisits(c)[i..][0] == PreVisits(c)[i];
      assert PreVisits(c)[i] in PreVisits(c);
    }
  }

  /** The node that the loop has reached is the next of the visits, or `f`. */
  lemma VisitHere(s: bytes, c: Ctx, f: Forest, i: nat, o: nat, d: nat)
    requires CtxWF(c) && WF(f) && f.Node? && UnderRoot(c) && s == Block(c, f)
    requires Reads(s, PreVisits(c), PreNames(c)) && i <= |PreVisits(c)|
    requires Trail(s, o, d) == PreVisits(c)[i..] + Trail(s, Pos(c), Depth(c))
    ensures NextTag(s, o).tag == BEGIN_NODE && o + 4 <= |s|
    ensures i == |PreVisits(c)| ==> o == Pos(c) && d == Depth(c) && NameAt(s, o) == f.name
    ensures i < |PreVisits(c)| ==>
              o < Pos(c) && PreNames(c)[i] == Named(d, NameAt(s, o)) && PreNames(c)[i] in PreNames(c)
  {
    hide PadLen, U32, BE32, Enc, Block, Before, After, NextTag, Aligned, NameEnd, PreVisits, PreNames, NextNode;
    var v := PreVisits(c);
    PreVisitsBefore(c);
    assert Trail(s, o, d)[0] == Visit(o, d);
    if i == |v| {
      assert v[i..] == [];
      assert Trail(s, Pos(c), Depth(c))[0] == Visit(Pos(c), Depth(c));
      TagBegin(c, f.name, f.npad, f.kids, f.rest);
    } else {
      assert v[i..][0] == v[i] && v[i] in v;
      assert ReadsOne(s, v[i], PreNames(c)[i]);
    }
  }
}
