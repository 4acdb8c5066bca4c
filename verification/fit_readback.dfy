/** src/chainload/fit.c: what U-Boot reads below /fit-images of the control DTB
    that the loader leaves behind. */
module FitReadback {
  import opened Bytes
  import opened FdtFormat
  import opened FdtWalk
  import opened FdtNodes
  import opened FdtRead
  import opened FdtTree
  import opened FdtAncestors
  import opened FdtLookup
  import opened FdtProps
  import opened FdtSplice
  import opened FdtEdit
  import opened FdtUpdate
  import opened FdtMeaning
  import opened FdtSetProp
  import opened FdtNames
  import opened FitImage
  import opened FitPlan
  import opened FitLoad
  import opened FitRecord

  // ----- fdt_getprop on a tree

  lemma {:induction false} SuffixLookup(t: bytes, f: Forest, base: nat, name: bytes)
    requires WF(f) && Resolved(t, f)
    ensures PropIn(f, base, t, name) >= 0 <==> Lookup(Meaning(t, f), name).TProp?
    ensures PropIn(f, base, t, name) >= 0 ==>
              var g := SuffixFrom(f, t, name);
              g.Prop? && Lookup(Meaning(t, f), name) == TProp(name, g.value, TNil)
    decreases f
  {
    hide CString, PadLen;
    match f
    case Nil =>
    case Nop(r) => SuffixLookup(t, r, base + 4, name);
    case Prop(o, v, p, r) => SuffixLookup(t, r, base + 12 + |v| + |p|, name);
    case Node(_, _, _, _) =>
  }

  /** fdt_getprop gives the value that the tree has for the name. */
  lemma {:induction false} FieldReads(b: bytes, at: nat, c: Ctx, f: Forest, name: string)
    requires Encodes(b, at, c, f) && f.Node?
    ensures InMemory(b)
    ensures var y, r := Lookup(ItemsOf(b, at, c, f), Ascii(name)), FieldOf(b, at, Pos(c), name);
            if y.TProp? then r.Field? && r.data == y.value else r.NoField?
  {
    hide U32, CString, Block, Plug, StructOf, StringsOf, Probe, PropIn, NextTag, BlocksInside, PropOffset, CtxWF, WF;
    hide Pos, Lookup, SuffixFrom, Meaning, Given, InMemory;
    EncodesIs(b, at, c, f);
    GivenMemory(b);
    PropOffsetIs(b, at, c, f, Ascii(name));
    var e, t := HeadEnd(c, f), StringsOf(b);
    EnterFocus(b, at, c, f);
    SuffixLookup(t, f.kids, e, Ascii(name));
    if PropIn(f.kids, e, t, Ascii(name)) >= 0 {
      var i := In(c, f.name, f.npad, Nil, f.rest);
      var d := LocateProp(i, f.kids, t, Ascii(name));
      var g := SuffixFrom(f.kids, t, Ascii(name));
      TagProp(d, g.nameoff, g.value, g.pad, g.rest);
    }
  }

  // ----- children by name, on trees

  /** The names of the child nodes, in order. */
  function NamesOf(x: Tree): seq<bytes> {
    match x
    case TNil => []
    case TProp(_, _, r) => NamesOf(r)
    case TNode(n, _, r) => [n] + NamesOf(r)
  }

  /** The items of the first child of exactly that name. */
  function At(x: Tree, name: bytes): Tree {
    match x
    case TNil => TNil
    case TProp(_, _, r) => At(r, name)
    case TNode(n, k, r) => if n == name then k else At(r, name)
  }

  predicate Known(names: seq<bytes>, want: bytes) {
    exists n :: n in names && Answers(n, want)
  }

  /** The name of the node that a lookup of `want` finds, or that is added for
      it: the first that answers, `want` itself if none does. */
  function Reached(names: seq<bytes>, want: bytes): bytes {
    var i := FirstAnswer(names, want);
    if i < |names| then names[i] else want
  }

  /** The names once there is a node for `want`. */
  function Extended(names: seq<bytes>, want: bytes): seq<bytes> {
    if FirstAnswer(names, want) < |names| then names else [want] + names
  }

  lemma KnownIs(names: seq<bytes>, want: bytes)
    ensures Known(names, want) <==> FirstAnswer(names, want) < |names|
  {
    hide Answers;
    var i := FirstAnswer(names, want);
    if i < |names| { assert names[i] in names; }
  }

  lemma ReachedStep(n: bytes, rest: seq<bytes>, want: bytes)
    ensures Reached([n] + rest, want) == if Answers(n, want) then n else Reached(rest, want)
    ensures Known([n] + rest, want) <==> Answers(n, want) || Known(rest, want)
  {
    hide Answers;
    assert ([n] + rest)[1..] == rest;
    KnownIs([n] + rest, want);
    KnownIs(rest, want);
  }

  lemma ReachedAnswers(names: seq<bytes>, want: bytes)
    ensures Answers(Reached(names, want), want)
  {}

  /** The children that record_image looks for. */
  lemma {:induction false} ChildIs(x: Tree, want: bytes)
    ensures HasChild(x, want) <==> Known(NamesOf(x), want)
    ensures ChildItems(x, want) == At(x, Reached(NamesOf(x), want))
  {
    hide Answers, NameMatch, Known, Reached;
    match x
    case TNil => KnownIs([], want);
    case TProp(_, _, r) => ChildIs(r, want);
    case TNode(n, k, r) =>
      NameMatchIs(n, want);
      ReachedStep(n, NamesOf(r), want);
      ChildIs(r, want);
      ReachedAnswers(NamesOf(r), want);
  }

  /** One more record on the list of nodes below /fit-images. */
  lemma {:induction false} SetChildIs(x: Tree, want: bytes, y: Tree, n: bytes)
    ensures var names := NamesOf(x);
            && NamesOf(SetChild(x, want, y)) == Extended(names, want)
            && At(SetChild(x, want, y), n) == if n == Reached(names, want) then y else At(x, n)
  {
    hide NameMatch, Answers;
    ChildIs(x, want);
    KnownIs(NamesOf(x), want);
    if HasChild(x, want) { ReplacedIs(x, want, y, n); } else { InsertedIs(x, want, y, n); }
  }

  lemma {:induction false} ReplacedIs(x: Tree, want: bytes, y: Tree, n: bytes)
    requires HasChild(x, want)
    ensures NamesOf(Replaced(x, want, y)) == NamesOf(x)
    ensures At(Replaced(x, want, y), n) == if n == Reached(NamesOf(x), want) then y else At(x, n)
  {
    hide NameMatch, Answers, Reached, Known;
    match x
    case TProp(_, _, r) => ReplacedIs(r, want, y, n);
    case TNode(m, k, r) =>
      NameMatchIs(m, want);
      ReachedStep(m, NamesOf(r), want);
      ReachedAnswers(NamesOf(r), want);
      if !NameMatch(m, want) { ReplacedIs(r, want, y, n); }
  }

  lemma {:induction false} InsertedIs(x: Tree, want: bytes, y: Tree, n: bytes)
    ensures NamesOf(Inserted(x, want, y)) == [want] + NamesOf(x)
    ensures At(Inserted(x, want, y), n) == if n == want then y else At(x, n)
  {
    if x.TProp? { InsertedIs(x.rest, want, y, n); }
  }

  // ----- all records

  /** The names below /fit-images when the first `i` images have been recorded. */
  function NamesAfter(names: seq<bytes>, images: seq<Image>, i: nat): seq<bytes>
    requires i <= |images|
  {
    if i == 0 then names
    else
      var before := NamesAfter(names, images, i - 1);
      if images[i - 1].record then Extended(before, images[i - 1].name) else before
  }

  /** The nodes below /fit-images at that point. */
  function ListAfter(list: Tree, images: seq<Image>, i: nat): Tree
    requires i <= |images|
  {
    if i == 0 then list
    else
      var x, before := images[i - 1], ListAfter(list, images, i - 1);
      if x.record then SetChild(before, x.name, ImageProps(ChildItems(before, x.name), x)) else before
  }

  lemma {:induction false} ListIs(items: Tree, images: seq<Image>, i: nat)
    requires i <= |images|
    ensures ChildItems(RecordedAll(items, images, i), Ascii("fit-images"))
         == ListAfter(ChildItems(items, Ascii("fit-images")), images, i)
    ensures (exists k :: 0 <= k < i && images[k].record) ==>
              HasChild(RecordedAll(items, images, i), Ascii("fit-images"))
  {
    hide Ascii, ChildItems, SetChild, ImageProps, HasChild;
    if i > 0 {
      ListIs(items, images, i - 1);
      var x, before := images[i - 1], RecordedAll(items, images, i - 1);
      if x.record {
        var list := ChildItems(before, Ascii("fit-images"));
        var y := SetChild(list, x.name, ImageProps(ChildItems(list, x.name), x));
        SetChildItems(before, Ascii("fit-images"), y);
        SetChildHas(before, Ascii("fit-images"), y);
      }
    }
  }

  lemma SetChildHas(x: Tree, want: bytes, y: Tree)
    ensures HasChild(SetChild(x, want, y), want)
  {
    hide Answers, NameMatch, HasChild, SetChild;
    var names, s := NamesOf(x), SetChild(x, want, y);
    SetChildIs(x, want, y, []);
    ChildIs(s, want);
    KnownIs(names, want);
    ExtendedKnows(names, want, want);
  }

  lemma ExtendedKnows(names: seq<bytes>, want: bytes, other: bytes)
    ensures Known(Extended(names, want), want)
    ensures Known(names, other) ==> Known(Extended(names, want), other)
  {
    KnownIs(names, want);
    ReachedStep(want, names, want);
    ReachedStep(want, names, other);
  }

  lemma {:induction false} NamesOfList(list: Tree, images: seq<Image>, i: nat)
    requires i <= |images|
    ensures NamesOf(ListAfter(list, images, i)) == NamesAfter(NamesOf(list), images, i)
  {
    hide SetChild, ImageProps, ChildItems, Extended;
    if i > 0 {
      NamesOfList(list, images, i - 1);
      var x, before := images[i - 1], ListAfter(list, images, i - 1);
      SetChildIs(before, x.name, ImageProps(ChildItems(before, x.name), x), []);
    }
  }

  /** The name of the node that image `i` is recorded in. */
  function TargetOf(names: seq<bytes>, images: seq<Image>, i: nat): bytes
    requires i < |images|
  {
    Reached(NamesAfter(names, images, i), images[i].name)
  }

  /** No later image is recorded in the node that the name of image `i` finds
      in the end. */
  predicate KeepsOwn(names: seq<bytes>, images: seq<Image>, i: nat)
    requires i < |images|
  {
    forall j :: i < j < |images| && images[j].record ==>
                  TargetOf(names, images, j) != Reached(NamesAfter(names, images, |images|), images[i].name)
  }

  lemma ExtendedReached(names: seq<bytes>, want: bytes, other: bytes)
    ensures Reached(Extended(names, want), want) == Reached(names, want)
    ensures Reached(Extended(names, want), other) == Reached(names, other)
         || Reached(Extended(names, want), other) == Reached(names, want)
  {
    hide Answers;
    ReachedStep(want, names, want);
    ReachedStep(want, names, other);
    ReachedAnswers(names, want);
  }

  /** The node that a recorded name finds was written for that image or a later
      one. */
  lemma {:induction false} SomeWriter(names: seq<bytes>, images: seq<Image>, i: nat, n: nat) returns (j: nat)
    requires i < n <= |images| && images[i].record
    ensures i <= j < n && images[j].record
    ensures TargetOf(names, images, j) == Reached(NamesAfter(names, images, n), images[i].name)
    ensures Known(NamesAfter(names, images, n), images[i].name)
    decreases n
  {
    hide Reached, Extended, Known;
    var x, before := images[n - 1], NamesAfter(names, images, n - 1);
    ExtendedReached(before, x.name, images[i].name);
    ExtendedKnows(before, x.name, images[i].name);
    j := n - 1;
    if n - 1 > i {
      var earlier := SomeWriter(names, images, i, n - 1);
      if !x.record || TargetOf(names, images, n - 1) != Reached(NamesAfter(names, images, n), images[i].name) {
        j := earlier;
      }
    }
  }

  /** The last image that is recorded in a node gives it its properties. */
  lemma {:induction false} LastWriter(list: Tree, images: seq<Image>, j: nat, n: nat) returns (k: nat, z: Tree)
    requires j < n <= |images| && images[j].record
    ensures var names := NamesOf(list);
            && j <= k < n && images[k].record && TargetOf(names, images, k) == TargetOf(names, images, j)
            && (forall l :: k < l < n && images[l].record ==>
                              TargetOf(names, images, l) != TargetOf(names, images, j))
            && At(ListAfter(list, images, n), TargetOf(names, images, j)) == ImageProps(z, images[k])
    decreases n
  {
    hide SetChild, ImageProps, ChildItems, Reached, NamesAfter, At, Extended;
    var names, x, before := NamesOf(list), images[n - 1], ListAfter(list, images, n - 1);
    NamesOfList(list, images, n - 1);
    var y := ImageProps(ChildItems(before, x.name), x);
    SetChildIs(before, x.name, y, TargetOf(names, images, j));
    if x.record && TargetOf(names, images, n - 1) == TargetOf(names, images, j) {
      k, z := n - 1, ChildItems(before, x.name);
    } else {
      k, z := LastWriter(list, images, j, n - 1);
    }
  }

  /** Reading a recorded name gives what was recorded for that image exactly
      when the image keeps its node; otherwise it gives a later image. */
  lemma {:induction false} ReadsWriter(list: Tree, images: seq<Image>, i: nat) returns (k: nat, z: Tree)
    requires i < |images| && images[i].record
    ensures i <= k < |images| && images[k].record && (k == i <==> KeepsOwn(NamesOf(list), images, i))
    ensures HasChild(ListAfter(list, images, |images|), images[i].name)
    ensures ChildItems(ListAfter(list, images, |images|), images[i].name) == ImageProps(z, images[k])
  {
    hide SetChild, ImageProps, ChildItems, Reached, NamesAfter, At, Extended, Known, TargetOf, ListAfter, HasChild;
    var names, n := NamesOf(list), |images|;
    var j := SomeWriter(names, images, i, n);
    k, z := LastWriter(list, images, j, n);
    NamesOfList(list, images, n);
    ChildIs(ListAfter(list, images, n), images[i].name);
  }

  lemma AnswersBase(have: bytes, want: bytes)
    requires Answers(have, want)
    ensures Base(have) == Base(want)
  {
    if have != want {
      BaseOf(want, |want|);
      assert want[..|want|] == want;
    }
  }

  /** A name keeps its node if no later recorded name is the same up to the unit
      address. */
  lemma KeepsUnlessSimilar(names: seq<bytes>, images: seq<Image>, i: nat)
    requires i < |images|
    requires forall j :: i < j < |images| && images[j].record ==> Base(images[j].name) != Base(images[i].name)
    ensures KeepsOwn(names, images, i)
  {
    hide Answers, Base, Reached, NamesAfter;
    var last := NamesAfter(names, images, |images|);
    ReachedAnswers(last, images[i].name);
    AnswersBase(Reached(last, images[i].name), images[i].name);
    forall j | i < j < |images| && images[j].record
      ensures TargetOf(names, images, j) != Reached(last, images[i].name)
    {
      ReachedAnswers(NamesAfter(names, images, j), images[j].name);
      AnswersBase(TargetOf(names, images, j), images[j].name);
    }
  }

  /** A name that does not keep its node: "atf@1" is put in front of "atf", and
      from then on "atf" finds it. */
  lemma Displaced(x: Image, y: Image)
    requires x.record && y.record && x.name == Ascii("atf") && y.name == Ascii("atf@1")
    ensures !KeepsOwn([], [x, y], 0)
    ensures Reached(NamesAfter([], [x, y], 2), x.name) == y.name
  {
    hide Answers, Reached;
    var xs, s, t := [x, y], x.name, y.name;
    assert s == [97, 116, 102] && t == [97, 116, 102, 64, 49];
    assert t[..3] == s && t[3] == AT;
    OnlyUpToUnit(s, t);
    ReachedNone(s);
    assert NamesAfter([], xs, 0) == [] && NamesAfter([], xs, 1) == [s];
    ReachedStep(s, [], t);
    ReachedNone(t);
    assert NamesAfter([], xs, 2) == [t] + [s];
    ReachedStep(t, [s], s);
  }

  lemma ReachedNone(want: bytes)
    ensures Reached([], want) == want && Extended([], want) == [want] && !Known([], want)
  {
    assert [want] + [] == [want];
  }

  lemma OnlyUpToUnit(s: bytes, t: bytes)
    requires |s| < |t| && t[..|s|] == s && t[|s|] == AT && AT !in s
    ensures Answers(t, s) && !Answers(s, t)
  {
    BaseOf(t, |s|);
    BaseIs(s);
  }

  // ----- the loaded control DTB

  /** One cell with the low half of the number. */
  predicate Word(f: Field, v: int) {
    f.Field? && |f.data| == 4 && U32(f.data, 0) == v % TWO32
  }

  predicate SameText(f: Field, t: Text) {
    f.Field? && CString(f.data, 0) == t
  }

  /** The node says where the image is, how long, where to enter it, and what
      the FIT calls it. */
  predicate Shows(v: bytes, at: nat, node: int, x: Image)
    requires InMemory(v)
  {
    && node >= 0
    && Word(FieldOf(v, at, node, "load-addr"), x.load) && Word(FieldOf(v, at, node, "size"), x.size)
    && (x.explicit ==> Word(FieldOf(v, at, node, "entry-point"), x.entry))
    && (x.kind.Found? ==> SameText(FieldOf(v, at, node, "type"), x.kind))
    && (x.os.Found? ==> SameText(FieldOf(v, at, node, "os"), x.os))
  }

  /** The node below /fit-images that a name finds. */
  function NodeBelow(v: bytes, at: nat, name: bytes): int
    requires InMemory(v)
  {
    SubnodeOffset(v, at, SubnodeOffset(v, at, 0, Ascii("fit-images")), name)
  }

  lemma CellIs(v: int)
    ensures U32(Cell(v), 0) == v % TWO32
  {
    hide U32, BE32;
    BE32RoundTrip(v % TWO32);
  }

  lemma TextIs(t: Text)
    requires t.Found? && 0 !in t.text
    ensures CString(TextBytes(t), 0) == t
  {
    var d := t.text + [0];
    assert d[0..|t.text|] == t.text;
    NameEndIs(d, 0, t.text);
  }

  predicate Printable(x: Image) {
    (x.kind.Found? ==> 0 !in x.kind.text) && (x.os.Found? ==> 0 !in x.os.text)
  }

  lemma {:induction false} ShowsIs(b: bytes, at: nat, c: Ctx, f: Forest, z: Tree, x: Image)
    requires Encodes(b, at, c, f) && f.Node? && ItemsOf(b, at, c, f) == ImageProps(z, x) && Printable(x)
    ensures InMemory(b) && Pos(c) >= 0 && Shows(b, at, Pos(c), x)
  {
    hide U32, CString, Encodes, ItemsOf, ImageProps, Ascii, Cell, TextBytes, Lookup, FieldOf, InMemory, Pos;
    PropsLookup(z, x);
    FieldReads(b, at, c, f, "load-addr");
    FieldReads(b, at, c, f, "size");
    FieldReads(b, at, c, f, "entry-point");
    FieldReads(b, at, c, f, "type");
    FieldReads(b, at, c, f, "os");
    CellIs(x.load);
    CellIs(x.size);
    CellIs(x.entry);
    if x.kind.Found? { TextIs(x.kind); }
    if x.os.Found? { TextIs(x.os); }
  }

  lemma {:induction false} NodeFound(b: bytes, at: nat, f: Forest, name: bytes) returns (c: Ctx, g: Forest)
    requires Encodes(b, at, Top(Nil), f) && f.Node?
    requires var items := ItemsOf(b, at, Top(Nil), f);
             HasChild(items, Ascii("fit-images")) && HasChild(ChildItems(items, Ascii("fit-images")), name)
    ensures InMemory(b) && Encodes(b, at, c, g) && g.Node? && Pos(c) == NodeBelow(b, at, name)
    ensures ItemsOf(b, at, c, g) == ChildItems(ChildItems(ItemsOf(b, at, Top(Nil), f), Ascii("fit-images")), name)
  {
    hide Encodes, ItemsOf, HasChild, ChildItems, Ascii, SubnodeOffset, InMemory;
    var d, e := ChildFound(b, at, Top(Nil), f, Ascii("fit-images"));
    c, g := ChildFound(b, at, d, e, name);
  }

  lemma {:induction false} ChildFound(b: bytes, at: nat, c: Ctx, f: Forest, name: bytes) returns (d: Ctx, g: Forest)
    requires Encodes(b, at, c, f) && f.Node? && HasChild(ItemsOf(b, at, c, f), name)
    ensures InMemory(b) && Encodes(b, at, d, g) && g.Node? && Pos(d) == SubnodeOffset(b, at, Pos(c), name)
    ensures ItemsOf(b, at, d, g) == ChildItems(ItemsOf(b, at, c, f), name)
  {
    hide U32, CString, Block, StructOf, StringsOf, Plug, FindChild, Encodes, CtxWF, SubnodeOffset, Given, InMemory;
    hide HasChild, ChildItems, Meaning, TreeWith;
    EncodesIs(b, at, c, f);
    GivenMemory(b);
    LookupIs(b, at, c, f, name);
    EnterFocus(b, at, c, f);
    FindHas(StringsOf(b), f.kids, HeadEnd(c, f), name);
    d, g := PresentFocus(b, at, c, f, name);
  }

  lemma InnerResolved(b: bytes, plan: Plan, f: Forest)
    requires ControlDtb(b, plan) && InnerTree(b, plan, f)
    ensures f.Node? && BlocksInside(Inner(b, plan))
    ensures Resolved(StringsOf(Inner(b, plan)), f.kids) && Resolved(StringsOf(Inner(b, plan)), f.rest)
  {
    hide U32, CString, Block, StructOf, StringsOf;
  }

  /** The names below /fit-images in the inline control DTB, if it has any. */
  ghost function OldNames(b: bytes, plan: Plan, f: Forest): seq<bytes>
    requires ControlDtb(b, plan) && InnerTree(b, plan, f)
  {
    InnerResolved(b, plan, f);
    var items := Meaning(StringsOf(Inner(b, plan)), f.kids);
    NamesOf(At(items, Reached(NamesOf(items), Ascii("fit-images"))))
  }

  lemma TextClean(b: bytes, at: nat, node: int, name: string)
    requires InMemory(b)
    ensures var t := StringProp(b, at, node, name);
            t.Found? ==> 0 !in t.text
  {
    hide InMemory, FieldOf;
  }

  lemma PlanPrintable(b: bytes, fit: nat, p: Platform, plan: Plan)
    requires InMemory(b) && |b| < INT_MAX && Safe(b, fit, p, plan)
    ensures forall x :: x in plan.images ==> Printable(x)
  {
    hide InMemory, Consistent, Apart, AllClear, Clear, PathOffset, SubnodeOffset, FieldOf, HashesMatch, StringProp;
    forall x | x in plan.images ensures Printable(x) {
      var node := SubnodeOffset(b, fit, PathOffset(b, fit, Ascii("/images")), x.name);
      assert Genuine(b, fit, PathOffset(b, fit, Ascii("/images")), x);
      TextClean(b, fit, node, "type");
      TextClean(b, fit, node, "os");
    }
  }

  /** End to end, for what ChainLoad leaves behind when it succeeds: a reader of
      the control DTB that looks below /fit-images for an image that was to be
      recorded finds the address, the size, the entry point and the texts of
      that image, exactly when the image keeps its node; otherwise it finds
      those of a later image. */
  lemma {:induction false} ReadsBack(m: bytes, fit: nat, b: bytes, p: Platform, plan: Plan, f: Forest, i: nat)
    returns (k: nat)
    requires Booted(m, fit, b, p, plan) && InnerTree(b, plan, f) && i < |plan.images| && plan.images[i].record
    ensures i <= k < |plan.images| && plan.images[k].record
    ensures k == i <==> KeepsOwn(OldNames(b, plan, f), plan.images, i)
    ensures 0 <= plan.controlFdt && plan.controlFdt + plan.capacity <= |m|
    ensures var v, at := m[plan.controlFdt..plan.controlFdt + plan.capacity], plan.controlFdt;
            InMemory(v) && Shows(v, at, NodeBelow(v, at, plan.images[i].name), plan.images[k])
  {
    hide InMemory, Safe, Intact, ControlDtb, ControlReady, InnerTree, Inner, Encodes, Resolved, U32, StringsOf, Meaning;
    hide KeepsOwn, Shows, NodeBelow, ImageProps, ChildItems, HasChild, ListAfter, ItemsOf, RecordedAll, Ascii;
    hide Printable;
    var g := ControlHoldsTree(m, fit, b, p, plan, f);
    var v, at := m[plan.controlFdt..plan.controlFdt + plan.capacity], plan.controlFdt;
    InnerResolved(b, plan, f);
    var items, xs := Meaning(StringsOf(Inner(b, plan)), f.kids), plan.images;
    LoadedItems(v, at, g, f.name, RecordedAll(items, xs, |xs|), Meaning(StringsOf(Inner(b, plan)), f.rest));
    var list := ChildItems(items, Ascii("fit-images"));
    ChildIs(items, Ascii("fit-images"));
    ListIs(items, xs, |xs|);
    var z: Tree;
    k, z := ReadsWriter(list, xs, i);
    var c, h := NodeFound(v, at, g, xs[i].name);
    PlanPrintable(b, fit, p, plan);
    ShowsIs(v, at, c, h, z, xs[k]);
  }

  lemma {:induction false} LoadedItems(v: bytes, at: nat, g: Forest, name: bytes, x: Tree, rest: Tree)
    requires Encodes(v, at, Top(Nil), g) && g.Node? && TreeOf(v, at, Top(Nil), g) == TNode(name, x, rest)
    ensures ItemsOf(v, at, Top(Nil), g) == x
  {
    hide Encodes, ItemsOf, TreeOf, TreeWith;
    WholeTree(v, at, Top(Nil), g);
    RootTree(v, at, g, ItemsOf(v, at, Top(Nil), g));
  }

  /** In a plan below 4 GiB the address read is the load address itself exactly
      when the image keeps its node. */
  lemma {:induction false} AddressReadsBack(m: bytes, fit: nat, b: bytes, p: Platform, plan: Plan, f: Forest, i: nat)
    requires Booted(m, fit, b, p, plan) && InnerTree(b, plan, f) && i < |plan.images| && plan.images[i].record
    requires forall x :: x in plan.images && x.role != FDT ==> x.load + x.size <= TWO32
    ensures 0 <= plan.controlFdt && plan.controlFdt + plan.capacity <= |m|
    ensures var v, at, x := m[plan.controlFdt..plan.controlFdt + plan.capacity], plan.controlFdt, plan.images[i];
            && InMemory(v)
            && var load, size := FieldOf(v, at, NodeBelow(v, at, x.name), "load-addr"),
                                 FieldOf(v, at, NodeBelow(v, at, x.name), "size");
            && load.Field? && |load.data| == 4 && size.Field? && |size.data| == 4
            && (KeepsOwn(OldNames(b, plan, f), plan.images, i) <==> U32(load.data, 0) == x.load)
            && (KeepsOwn(OldNames(b, plan, f), plan.images, i) ==> U32(size.data, 0) == x.size)
  {
    hide InMemory, Safe, Intact, ControlDtb, ControlReady, InnerTree, Inner, U32;
    hide KeepsOwn, NodeBelow, OldNames, FieldOf, SameText;
    var k := ReadsBack(m, fit, b, p, plan, f, i);
    LoadsDiffer(b, fit, p, plan, i, k);
  }

  lemma LoadsDiffer(b: bytes, fit: nat, p: Platform, plan: Plan, i: nat, k: nat)
    requires InMemory(b) && |b| < INT_MAX - DTB_SLACK && Safe(b, fit, p, plan) && i <= k < |plan.images|
    requires plan.images[i].record && plan.images[k].record
    ensures plan.images[i].role != FDT && plan.images[k].role != FDT
    ensures plan.images[i].size < TWO32
    ensures i != k ==> plan.images[i].load != plan.images[k].load
    ensures plan.images[i].size > 0 && plan.images[k].size > 0
  {
    hide InMemory, AllClear, Clear, PathOffset, SubnodeOffset, FieldOf, HashesMatch, StringProp, Entries;
    assert Genuine(b, fit, PathOffset(b, fit, Ascii("/images")), plan.images[i]);
    assert Genuine(b, fit, PathOffset(b, fit, Ascii("/images")), plan.images[k]);
    assert PolicyKept(p, plan.images[i]) && PolicyKept(p, plan.images[k]);
  }
}
