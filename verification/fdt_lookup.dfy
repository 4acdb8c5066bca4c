/** external/libfdt/fdt_ro.c: fdt_path_offset, and when it inverts fdt_get_path. */
module FdtLookup {
  import opened Bytes
  import opened FdtFormat
  import opened FdtWalk
  import opened FdtNodes
  import opened FdtRead
  import opened FdtTree
  import opened FdtAncestors
  import opened FdtPaths

  function SkipSlashes(path: bytes, p: nat): (q: nat)
    requires p <= |path|
    ensures p <= q <= |path| && (q < |path| ==> path[q] != SLASH)
    decreases |path| - p
  {
    if p < |path| && path[p] == SLASH then SkipSlashes(path, p + 1) else p
  }

  /** memchr for '/': the end of the component that starts at `p`. */
  function ComponentEnd(path: bytes, p: nat): (q: nat)
    requires p <= |path|
    ensures p <= q <= |path|
    ensures p < |path| && path[p] != SLASH ==> p < q
    decreases |path| - p
  {
    if p < |path| && path[p] != SLASH then ComponentEnd(path, p + 1) else p
  }

  /** The loop of fdt_path_offset_namelen from position `p` and node `o`. */
  function PathFrom(b: bytes, at: nat, path: bytes, p: nat, o: int): int
    requires InMemory(b) && p <= |path|
    decreases |path| - p
  {
    var q := SkipSlashes(path, p);
    if q == |path| then o else
    var e := ComponentEnd(path, q);
    var next := SubnodeOffset(b, at, o, path[q..e]);
    if next < 0 then next else PathFrom(b, at, path, e, next)
  }

  /** fdt_path_offset on an absolute path. */
  method FindPath(b: bytes, at: nat, path: bytes) returns (offset: int)
    requires InMemory(b) && (path != [] ==> path[0] == SLASH)
    ensures offset == PathOffset(b, at, path)
  {
    hide Probe, SubnodeOffset;
    offset := Probe(b, at);
    if offset < 0 {
      return;
    }
    if |path| <= 0 {
      return ERR_BADPATH;
    }
    offset := 0;
    var p := 0;
    while p < |path|
      invariant 0 <= p <= |path| && 0 <= offset <= INT_MAX
      invariant PathFrom(b, at, path, 0, 0) == PathFrom(b, at, path, p, offset)
    {
      ghost var p0 := p;
      while path[p] == SLASH
        invariant p0 <= p < |path| && SkipSlashes(path, p0) == SkipSlashes(path, p)
        decreases |path| - p
      {
        p := p + 1;
        if p == |path| {
          return;
        }
      }
      var q := p;
      while q < |path| && path[q] != SLASH
        invariant p <= q <= |path| && ComponentEnd(path, p) == ComponentEnd(path, q)
        invariant q == p ==> path[q] != SLASH
      {
        q := q + 1;
      }
      SubnodeRange(b, at, offset, path[p..q]);
      offset := FindSubnode(b, at, offset, path[p..q]);
      if offset < 0 {
        return;
      }
      p := q;
    }
  }

  function PathOffset(b: bytes, at: nat, path: bytes): int
    requires InMemory(b)
  {
    if Probe(b, at) < 0 then Probe(b, at)
    else if path == [] then ERR_BADPATH
    else PathFrom(b, at, path, 0, 0)
  }

  lemma {:induction false} MatchRange(s: bytes, w: seq<Visit>, name: bytes)
    requires |w| > 0
    ensures FirstMatch(s, w, name) <= |s|
    decreases |w|
  {
    hide NameMatch, NameAt;
    if |w| > 1 { MatchRange(s, w[1..], name); }
  }

  lemma SubnodeRange(b: bytes, at: nat, o: int, name: bytes)
    requires InMemory(b)
    ensures SubnodeOffset(b, at, o, name) <= INT_MAX
  {
    hide Trail, NextNode;
    MatchRange(StructOf(b), Trail(StructOf(b), o, 0), name);
  }

  // ----- resolving the path of a node

  predicate NoMatch(f: Forest, name: bytes) {
    match f
    case Nil => true
    case Nop(r) => NoMatch(r, name)
    case Prop(_, _, _, r) => NoMatch(r, name)
    case Node(n, _, _, r) => !NameMatch(n, name) && NoMatch(r, name)
  }

  /** No step of the path from the root has an earlier sibling that the lookup
      would take instead. */
  predicate Direct(c: Ctx, f: Forest)
    requires f.Node?
  {
    match c
    case Top(_) => true
    case In(u, n, p, b, a) => NoMatch(b, f.name) && Direct(u, Node(n, p, Append(b, f), a))
  }

  /** The root is nameless; every other node on the way has a name without '/'. */
  predicate ProperNames(c: Ctx, f: Forest)
    requires f.Node?
  {
    match c
    case Top(_) => f.name == []
    case In(u, n, p, b, a) =>
      f.name != [] && SLASH !in f.name && ProperNames(u, Node(n, p, Append(b, f), a))
  }

  lemma {:induction false} FindAppend(a: Forest, f: Forest, base: nat)
    requires WF(a) && WF(f) && f.Node? && WF(Append(a, f))
    ensures NoMatch(a, f.name) ==> FindChild(Append(a, f), base, f.name) == base + Size(a)
    ensures !NoMatch(a, f.name) ==> FindChild(Append(a, f), base, f.name) == FindChild(a, base, f.name) >= 0
    decreases a
  {
    hide PadLen, Enc, NameMatch, BE32, FindChild, Size;
    AppendWF(a, f);
    if !a.Node? {
      FindItem(a, base, f.name);
      if !a.Nil? { FindItem(Append(a, f), base, f.name); }
    }
    match a
    case Nil =>
      SelfMatch(f.name);
      FindNode(f.name, f.npad, f.kids, f.rest, base, f.name);
    case Nop(r) => FindAppend(r, f, base + 4);
    case Prop(_, v, p, r) => FindAppend(r, f, base + 12 + |v| + |p|);
    case Node(n, p, k, r) =>
      AppendWF(r, f);
      FindAppend(r, f, base + 5 + |n| + |p| + Size(k) + 4);
      FindNode(n, p, k, r, base, f.name);
      FindNode(n, p, k, Append(r, f), base, f.name);
      SizeNode(n, p, k, r);
  }

  lemma SelfMatch(n: bytes)
    ensures NameMatch(n, n)
  {}

  /** Where a lookup by name among the first items at `c` lands. */
  lemma {:induction false} ChildAt(c: Ctx, f: Forest, m: Forest, name: bytes) returns (d: Ctx, g: Forest)
    requires CtxWF(c) && WF(f) && WF(m) && WF(Append(f, m)) && FindChild(f, Pos(c), name) >= 0
    ensures CtxWF(d) && WF(g) && g.Node? && Pos(d) == FindChild(f, Pos(c), name)
    ensures Block(d, g) == Block(c, Append(f, m)) && NodeEnd(d, g) <= Pos(c) + Size(f)
    decreases f
  {
    hide PadLen, Enc, Block, Before, After, Plug, Pass, NameMatch, BE32, FindChild, Pos, CtxWF;
    AppendWF(f, m);
    if !f.Node? { FindItem(f, Pos(c), name); }
    match f
    case Nop(r) =>
      PassItem(c, Nop(Nil), Append(r, m));
      d, g := ChildAt(Pass(c, Nop(Nil)), r, m, name);
    case Prop(o, v, p, r) =>
      PassItem(c, Prop(o, v, p, Nil), Append(r, m));
      d, g := ChildAt(Pass(c, Prop(o, v, p, Nil)), r, m, name);
    case Node(n, p, k, r) =>
      if NameMatch(n, name) {
        d, g := c, Append(f, m);
        FindNode(n, p, k, r, Pos(c), name);
      } else {
        FindNode(n, p, k, r, Pos(c), name);
        PassNode(c, n, p, k, Append(r, m));
        d, g := ChildAt(Pass(c, Node(n, p, k, Nil)), r, m, name);
      }
  }

  lemma {:induction false} LookupIs(b: bytes, at: nat, c: Ctx, f: Forest, name: bytes)
    requires InMemory(b) && Probe(b, at) >= 0 && CtxWF(c) && WF(f) && f.Node? && StructOf(b) == Block(c, f)
    ensures SubnodeOffset(b, at, Pos(c), name) == FindChild(f.kids, HeadEnd(c, f), name)
  {
    hide PadLen, Enc, Block, Before, After, Plug, NameMatch, BE32, InMemory, Trail, FirstMatch;
    SubnodeIs(c, f, name);
  }

  /** Resolving further components never leaves the subtree one is in. */
  lemma {:induction false} PathStays(b: bytes, at: nat, path: bytes, p: nat, c: Ctx, f: Forest)
    requires InMemory(b) && Probe(b, at) >= 0 && p <= |path|
    requires CtxWF(c) && WF(f) && f.Node? && StructOf(b) == Block(c, f)
    ensures PathFrom(b, at, path, p, Pos(c)) < NodeEnd(c, f)
    decreases |path| - p
  {
    hide PadLen, Enc, Block, Before, After, Plug, NameMatch, BE32, InMemory, SubnodeOffset, StructOf, Probe;
    var q := SkipSlashes(path, p);
    if q < |path| {
      var e := ComponentEnd(path, q);
      LookupIs(b, at, c, f, path[q..e]);
      if SubnodeOffset(b, at, Pos(c), path[q..e]) >= 0 {
        EnterIs(c, f.name, f.npad, f.kids, f.rest);
        AppendNil(f.kids);
        var d, g := ChildAt(In(c, f.name, f.npad, Nil, f.rest), f.kids, Nil, path[q..e]);
        PathStays(b, at, path, e, d, g);
      }
    }
  }

  /** One step down, for the text of a path that continues with `name`. */
  lemma PathComponent(b: bytes, at: nat, done: bytes, name: bytes, rest: bytes, o: int)
    requires InMemory(b) && name != [] && SLASH !in name && (rest != [] ==> rest[0] == SLASH)
    ensures var t := done + [SLASH] + name + rest;
            var next := SubnodeOffset(b, at, o, name);
            PathFrom(b, at, t, |done|, o) ==
            if next < 0 then next else PathFrom(b, at, t, |done| + 1 + |name|, next)
  {
    hide InMemory, SubnodeOffset, SkipSlashes, ComponentEnd, PathFrom;
    TextParts(done, name, rest);
    PathUnfold(b, at, done + [SLASH] + name + rest, |done|, o);
  }

  lemma PathUnfold(b: bytes, at: nat, t: bytes, p: nat, o: int)
    requires InMemory(b) && p <= |t| && SkipSlashes(t, p) < |t|
    ensures var q := SkipSlashes(t, p);
            var e := ComponentEnd(t, q);
            var next := SubnodeOffset(b, at, o, t[q..e]);
            PathFrom(b, at, t, p, o) == if next < 0 then next else PathFrom(b, at, t, e, next)
  {
    hide InMemory, SubnodeOffset;
  }

  lemma TextParts(done: bytes, name: bytes, rest: bytes)
    requires name != [] && SLASH !in name && (rest != [] ==> rest[0] == SLASH)
    ensures var t := done + [SLASH] + name + rest;
            && SkipSlashes(t, |done|) == |done| + 1 < |t|
            && ComponentEnd(t, |done| + 1) == |done| + 1 + |name|
            && t[|done| + 1..|done| + 1 + |name|] == name
  {
    var t := done + [SLASH] + name + rest;
    var q := |done| + 1;
    assert t[|done|] == SLASH && t[q] == name[0] && name[0] in name;
    assert SkipSlashes(t, |done|) == SkipSlashes(t, q) == q;
    forall i | q <= i < q + |name| ensures t[i] != SLASH {
      assert t[i] == name[i - q] && name[i - q] in name;
    }
    ComponentIs(t, q, q + |name|);
  }

  lemma ComponentIs(t: bytes, q: nat, e: nat)
    requires q <= e <= |t| && (e < |t| ==> t[e] == SLASH)
    requires forall i :: q <= i < e ==> t[i] != SLASH
    ensures ComponentEnd(t, q) == e
    decreases e - q
  {
    if q < e { ComponentIs(t, q + 1, e); }
  }

  /** The text of a path up to and including the node `f`. */
  function PathText(c: Ctx, f: Forest): bytes
    requires f.Node?
  {
    Join(Chain(c)) + f.name
  }

  lemma PathTextIn(c: Ctx, f: Forest)
    requires f.Node? && c.In?
    ensures var g := Node(c.name, c.npad, Append(c.before, f), c.after);
            PathText(c, f) == PathText(c.up, g) + [SLASH] + f.name
    ensures |PathText(c, f)| > 0 && PathOf(c, f) == PathText(c, f)
  {
    JoinSnoc(Chain(c.up), c.name);
    JoinSnoc(Chain(c), f.name);
    var t := Join(Chain(c) + [f.name]);
    assert t[..|t| - 1] == PathText(c, f);
  }

  /** With no better-placed sibling on the way, the lookup arrives at the node. */
  lemma {:induction false} Reach(b: bytes, at: nat, c: Ctx, f: Forest, rest: bytes)
    requires InMemory(b) && Probe(b, at) >= 0 && CtxWF(c) && WF(f) && f.Node? && StructOf(b) == Block(c, f)
    requires UnderRoot(c) && ProperNames(c, f) && Direct(c, f) && (rest != [] ==> rest[0] == SLASH)
    ensures PathFrom(b, at, PathText(c, f) + rest, 0, 0)
         == PathFrom(b, at, PathText(c, f) + rest, |PathText(c, f)|, Pos(c))
    decreases c
  {
    hide PadLen, Enc, Block, Before, After, Plug, NameMatch, BE32, InMemory, SubnodeOffset, StructOf, Probe;
    hide PathFrom, PathText, Join, NoMatch;
    match c
    case Top(_) => RootText(c, f);
    case In(u, n, p, l, a) =>
      InNode(c, f);
      var g := Node(n, p, Append(l, f), a);
      PathTextIn(c, f);
      var done := PathText(u, g);
      assert done + [SLASH] + f.name + rest == done + ([SLASH] + f.name + rest);
      Reach(b, at, u, g, [SLASH] + f.name + rest);
      PathComponent(b, at, done, f.name, rest, Pos(u));
      LookupIs(b, at, u, g, f.name);
      FindAppend(l, f, HeadEnd(u, g));
  }

  lemma RootText(c: Ctx, f: Forest)
    requires c.Top? && f.Node? && f.name == []
    ensures PathText(c, f) == []
  {}

  /** A better-placed sibling somewhere on the way leads the lookup astray. */
  lemma {:induction false} Stray(b: bytes, at: nat, c: Ctx, f: Forest, rest: bytes)
    requires InMemory(b) && Probe(b, at) >= 0 && CtxWF(c) && WF(f) && f.Node? && StructOf(b) == Block(c, f)
    requires UnderRoot(c) && ProperNames(c, f) && !Direct(c, f) && (rest != [] ==> rest[0] == SLASH)
    ensures PathFrom(b, at, PathText(c, f) + rest, 0, 0) < Pos(c)
    decreases c
  {
    hide PadLen, Enc, Block, Before, After, Plug, NameMatch, BE32, InMemory, SubnodeOffset, StructOf, Probe;
    hide PathFrom, PathText, Join, NoMatch;
    var In(u, n, p, l, a) := c;
    InNode(c, f);
    var g := Node(n, p, Append(l, f), a);
    PathTextIn(c, f);
    var done := PathText(u, g);
    var t := done + [SLASH] + f.name + rest;
    assert t == done + ([SLASH] + f.name + rest);
    if !Direct(u, g) {
      Stray(b, at, u, g, [SLASH] + f.name + rest);
    } else {
      Reach(b, at, u, g, [SLASH] + f.name + rest);
      PathComponent(b, at, done, f.name, rest, Pos(u));
      LookupIs(b, at, u, g, f.name);
      FindAppend(l, f, HeadEnd(u, g));
      StraySibling(b, at, c, f, t, |done| + 1 + |f.name|);
    }
  }

  lemma {:induction false} StraySibling(b: bytes, at: nat, c: Ctx, f: Forest, t: bytes, e: nat)
    requires InMemory(b) && Probe(b, at) >= 0 && CtxWF(c) && WF(f) && f.Node? && StructOf(b) == Block(c, f)
    requires c.In? && e <= |t| && !NoMatch(c.before, f.name)
    ensures var o := FindChild(c.before, Pos(c.up) + 5 + |c.name| + |c.npad|, f.name);
            o >= 0 && PathFrom(b, at, t, e, o) < Pos(c)
  {
    hide PadLen, Enc, Block, Before, After, Plug, NameMatch, BE32, InMemory, StructOf, Probe, PathFrom;
    var In(u, n, p, l, a) := c;
    InNode(c, f);
    var g := Node(n, p, Append(l, f), a);
    FindAppend(l, f, HeadEnd(u, g));
    EnterIs(u, n, p, Append(l, f), a);
    var d, h := ChildAt(In(u, n, p, Nil, a), l, f, f.name);
    PathStays(b, at, t, e, d, h);
  }

  /** The path round trip. fdt_path_offset applied to what fdt_get_path
      returned finds the node again exactly when no step of the path has an
      earlier sibling that matches it. */
  lemma {:induction false} PathRoundTrip(b: bytes, at: nat, c: Ctx, f: Forest)
    requires InMemory(b) && Probe(b, at) >= 0 && CtxWF(c) && WF(f) && f.Node? && StructOf(b) == Block(c, f)
    requires UnderRoot(c) && ProperNames(c, f)
    ensures PathOffset(b, at, PathOf(c, f)) == Pos(c) <==> Direct(c, f)
  {
    hide PadLen, Enc, Block, Before, After, Plug, NameMatch, BE32, InMemory, StructOf, Probe, PathText, NoMatch;
    if c.Top? {
      RootPath(b, at, f);
    } else {
      PathTextIn(c, f);
      assert PathText(c, f) + [] == PathText(c, f);
      if Direct(c, f) {
        Reach(b, at, c, f, []);
      } else {
        Stray(b, at, c, f, []);
      }
    }
  }

  lemma RootPath(b: bytes, at: nat, f: Forest)
    requires InMemory(b) && f.Node? && f.name == []
    ensures PathFrom(b, at, PathOf(Top(Nil), f), 0, 0) == 0 && PathOf(Top(Nil), f) == [SLASH]
  {
    hide InMemory, SubnodeOffset;
    var none: seq<bytes> := [];
    assert Chain(Top(Nil)) + [f.name] == none + [f.name];
    JoinSnoc(none, f.name);
    assert Join(none) + f.name + [SLASH] == [SLASH];
    assert SkipSlashes([SLASH], 0) == SkipSlashes([SLASH], 1) == 1;
  }

  // ----- a path that leads to another node

  /** The root's head, its first child "a@1", its second child "a", and the
      end, as words of the structure block. */
  function TwinStruct(): seq<u32> {
    [1, 0] + [1, 0x6140_3100, 2] + [1, 0x6100_0000, 2] + [2, 9]
  }

  /** A blob with that tree. */
  function TwinWords(): seq<u32> {
    [MAGIC, 96, 56, 96, 40, 17, 16, 0, 0, 40, 0, 0, 0, 0] + TwinStruct()
  }

  function FirstTwin(): (f: Forest)
    ensures WF(f) && Size(f) == 12
  {
    Node([97, 64, 49], [], Nil, Nil)
  }

  function SecondTwin(): (f: Forest)
    ensures WF(f) && f.Node? && f.name == [97]
  {
    Node([97], [0, 0], Nil, Nil)
  }

  function TwinCtx(): (c: Ctx)
    ensures CtxWF(c) && Pos(c) == 20
  {
    In(Top(Nil), [], [0, 0, 0], FirstTwin(), Nil)
  }

  lemma WordPairs(x: u32, y: u32, z: u32)
    ensures Words([x, y]) == BE32(x) + BE32(y) && Words([x, y, z]) == BE32(x) + BE32(y) + BE32(z)
  {
    hide BE32;
    assert Words([z]) == BE32(z) + [];
    assert [y, z][1..] == [z] && [x, y, z][1..] == [y, z] && [x, y][1..] == [y];
    Assoc(BE32(x), BE32(y), BE32(z));
  }

  lemma TwinBlock()
    ensures Block(TwinCtx(), SecondTwin()) == Words(TwinStruct())
  {
    TwinPieces();
    hide BE32, Words, Enc, NodeHead, SecondTwin, FirstTwin;
    var r, x, y, e: seq<u32> := [1, 0], [1, 0x6140_3100, 2], [1, 0x6100_0000, 2], [2, 9];
    WordsAppend(r, x);
    WordsAppend(r + x, y);
    WordsAppend(r + x + y, e);
  }

  lemma TwinPieces()
    ensures Before(TwinCtx()) == Words([1, 0]) + Words([1, 0x6140_3100, 2])
    ensures Enc(SecondTwin()) == Words([1, 0x6100_0000, 2]) && After(TwinCtx()) == Words([2, 9])
  {
    hide Words;
    WordPairs(1, 0, 0);
    WordPairs(1, 0x6140_3100, 2);
    WordPairs(1, 0x6100_0000, 2);
    WordPairs(2, 9, 0);
    assert [] + NodeHead([], [0, 0, 0]) == BE32(1) + BE32(0);
    assert NodeHead([97, 64, 49], []) == BE32(1) + BE32(0x6140_3100);
    assert NodeHead([97], [0, 0]) == BE32(1) + BE32(0x6100_0000);
    hide BE32, NodeHead;
    assert Enc(FirstTwin()) == NodeHead([97, 64, 49], []) + BE32(2);
    assert Enc(SecondTwin()) == NodeHead([97], [0, 0]) + BE32(2);
    assert After(TwinCtx()) == BE32(2) + BE32(9);
  }

  lemma TwinBlob(b: bytes, ws: seq<u32>)
    requires ws == TwinWords() && b == Words(ws)
    ensures InMemory(b) && Probe(b, 0) >= 0 && StructOf(b) == Block(TwinCtx(), SecondTwin())
  {
    hide U32, Words, Block, TwinCtx, SecondTwin, BE32;
    TwinBlock();
    var h: seq<u32>, e := [MAGIC, 96, 56, 96, 40, 17, 16, 0, 0, 40, 0, 0, 0, 0], TwinStruct();
    WordsAppend(h, e);
    WordsAt(ws, 0);
    WordsAt(ws, 1);
    WordsAt(ws, 2);
    WordsAt(ws, 5);
    WordsAt(ws, 6);
    WordsAt(ws, 9);
    assert (Words(h) + Words(e))[56..96] == Words(e);
  }

  /** Looking up "/a", the path of the second child, returns the first. */
  lemma PathAstray(b: bytes, ws: seq<u32>)
    requires ws == TwinWords() && b == Words(ws)
    ensures InMemory(b) && Probe(b, 0) >= 0 && StructOf(b) == Block(TwinCtx(), SecondTwin())
    ensures UnderRoot(TwinCtx()) && ProperNames(TwinCtx(), SecondTwin()) && !Direct(TwinCtx(), SecondTwin())
    ensures PathOf(TwinCtx(), SecondTwin()) == [SLASH, 97]
    ensures PathOffset(b, 0, [SLASH, 97]) == 8 < 20 == Pos(TwinCtx())
  {
    hide U32, Words, TwinWords, Block, StructOf, InMemory, Probe, SubnodeOffset, PathFrom, Before, After, Enc;
    TwinBlob(b, ws);
    TwinPath(b);
  }

  lemma PathEnd(b: bytes, at: nat, path: bytes, o: int)
    requires InMemory(b)
    ensures PathFrom(b, at, path, |path|, o) == o
  {}

  lemma TwinText()
    ensures PathOf(TwinCtx(), SecondTwin()) == [SLASH, 97]
  {
    hide Append, WF, CtxWF;
    var g := Node([], [0, 0, 0], Append(FirstTwin(), SecondTwin()), Nil);
    PathTextIn(TwinCtx(), SecondTwin());
    RootText(Top(Nil), g);
    var none: bytes := [];
    assert none + [SLASH] + [97] == [SLASH, 97];
  }

  /** Among the children the search stops at the first. */
  lemma TwinFound()
    ensures WF(Append(FirstTwin(), SecondTwin())) && FindChild(Append(FirstTwin(), SecondTwin()), 8, [97]) == 8
  {
    AppendWF(FirstTwin(), SecondTwin());
    hide Size, PadLen, Enc;
    assert NameMatch([97, 64, 49], [97]);
  }

  lemma TwinPath(b: bytes)
    requires InMemory(b) && Probe(b, 0) >= 0 && StructOf(b) == Block(TwinCtx(), SecondTwin())
    ensures PathOf(TwinCtx(), SecondTwin()) == [SLASH, 97] && PathOffset(b, 0, [SLASH, 97]) == 8
  {
    hide U32, Block, StructOf, InMemory, Probe, SubnodeOffset, PathFrom, Before, After, Enc, FindChild, PathOf, Size;
    hide Append, FirstTwin, SecondTwin;
    TwinText();
    TwinFound();
    InNode(TwinCtx(), SecondTwin());
    var g := Node([], [0, 0, 0], Append(FirstTwin(), SecondTwin()), Nil);
    var none: bytes := [];
    var t := none + [SLASH] + [97] + none;
    assert t == [SLASH, 97];
    PathComponent(b, 0, [], [97], [], 0);
    LookupIs(b, 0, Top(Nil), g, [97]);
    PathEnd(b, 0, t, 8);
  }
}
