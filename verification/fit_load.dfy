/** src/chainload/fit.c: chain_fit_load, which overwrites memory while it still
    reads from it, and what memory holds afterwards. */
module FitLoad {
  import opened Bytes
  import opened Memory
  import opened FdtFormat
  import opened FdtWalk
  import opened FdtRead
  import opened FdtProps
  import opened FdtSplice
  import opened FdtEdit
  import opened FdtAddNode
  import opened FdtPack
  import opened FdtLookup
  import opened FitImage
  import opened FitPlan
  import FitParse

  // ----- editing keeps a blob editable, whatever its structure block holds

  lemma HeaderEditable(b: bytes, r: bytes)
    requires Editable(b) && |r| == |b| && r[..HEADER_SIZE] == b[..HEADER_SIZE]
    ensures Editable(r) && HeaderOf(r) == HeaderOf(b)
  {
    hide U32;
    HeaderKept(b, r);
  }

  lemma BehindHeader(b: bytes, at: nat, t: bytes)
    requires Editable(b) && HEADER_SIZE <= at && at + |t| <= |b|
    ensures Editable(Overwrite(b, at, t)) && HeaderOf(Overwrite(b, at, t)) == HeaderOf(b)
  {
    hide Editable, HeaderOf;
    OverwriteSlice(b, at, t, 0, HEADER_SIZE);
    EditableSize(b);
    HeaderEditable(b, Overwrite(b, at, t));
  }

  lemma EditableSize(b: bytes)
    requires Editable(b)
    ensures BlocksInside(b) && |b| == TotalSize(b) && HEADER_SIZE <= OffStruct(b)
  {}

  lemma DelStringEditable(b: bytes, name: bytes)
    requires Editable(b) && |name| + 1 <= SizeStrings(b)
    ensures Editable(DelString(b, name))
  {
    hide U32, Put;
    FieldsAligned();
    HeaderPut(b, 32, SizeStrings(b) - (|name| + 1));
  }

  lemma ResizeEditable(b: bytes, o: nat, val: bytes)
    requires Editable(b) && NextTag(StructOf(b), o).tag == PROP && |val| <= INT_MAX - 16
    ensures Editable(ResizeProp(b, o, val).blob)
  {
    hide U32, NextTag, Align4, Overwrite, SpliceStruct, Editable, HeaderOf, StructOf, BE32;
    EditableSize(b);
    StructSize(b);
    PropThere(StructOf(b), o);
    var was, now := Align4(U32(StructOf(b), o + 4)), Align4(|val|);
    var p := OffStruct(b) + o + 12;
    AlignIsPad(U32(StructOf(b), o + 4));
    AlignIsPad(|val|);
    if SpliceError(b, p, was, now) == 0 {
      SpliceStructHeader(b, o + 12, was, now);
      var r := SpliceStruct(b, o + 12, was, now);
      BehindHeader(r, p - 8, BE32(|val|));
      BehindHeader(Put(r, p - 8, |val|), p, val);
    }
  }

  lemma LayPropEditable(b: bytes, p: nat, nameoff: u32, val: bytes)
    requires Editable(b) && OffStruct(b) <= p && p + 12 + |val| <= |b| && |val| <= INT_MAX
    ensures Editable(LayProp(b, p, nameoff, val))
  {
    hide U32, Overwrite, Editable, HeaderOf, BE32;
    EditableSize(b);
    BehindHeader(b, p, BE32(PROP));
    BehindHeader(Put(b, p, PROP), p + 8, BE32(nameoff));
    BehindHeader(Put(Put(b, p, PROP), p + 8, nameoff), p + 4, BE32(|val|));
    BehindHeader(Put(Put(Put(b, p, PROP), p + 8, nameoff), p + 4, |val|), p + 12, val);
  }

  lemma PlaceEditable(b: bytes, next: nat, nameoff: nat, name: bytes, added: bool, val: bytes)
    requires Editable(b) && |val| <= INT_MAX - 16 && nameoff <= INT_MAX && (added ==> |name| + 1 <= SizeStrings(b))
    ensures Editable(PlaceProp(b, next, nameoff, name, added, val).blob)
  {
    hide U32, Align4, SpliceStruct, Editable, HeaderOf, LayProp, DelString;
    EditableSize(b);
    AlignIsPad(|val|);
    var size := 12 + Align4(|val|);
    if SpliceError(b, OffStruct(b) + next, 0, size) == 0 {
      SpliceStructHeader(b, next, 0, size);
      SpliceStructField(b, next, 0, size);
      LayPropEditable(SpliceStruct(b, next, 0, size), OffStruct(b) + next, nameoff, val);
    } else if added {
      DelStringEditable(b, name);
    }
  }

  /** fdt_setprop leaves a blob that may be edited further. */
  lemma SetPropGiven(b: bytes, at: nat, node: int, name: bytes, val: bytes)
    requires Given(b) && |val| <= INT_MAX - 16
    ensures Given(SetProp(b, at, node, name, val).blob)
  {
    hide U32, Editable, HeaderOf, PropOffset, ResizeProp, AddProp, Misordered, Probe, NextTag, StructOf;
    if RwProbe(b, at) == 0 {
      ProbeEditable(b, at);
      var o := PropOffset(b, at, node, name);
      if o >= 0 {
        ResizeEditable(b, o, val);
        EditableGiven(ResizeProp(b, o, val).blob);
      } else if o == ERR_NOTFOUND {
        AddPropEditable(b, node, name, val);
        EditableGiven(AddProp(b, node, name, val).blob);
      }
    }
  }

  lemma EditableGiven(b: bytes)
    requires Editable(b)
    ensures Given(b)
  {}

  lemma AddPropEditable(b: bytes, node: int, name: bytes, val: bytes)
    requires Editable(b) && |val| <= INT_MAX - 16
    ensures Editable(AddProp(b, node, name, val).blob)
  {
    hide U32, Editable, HeaderOf, StructOf, PlaceProp, FindString, NextTag, AddString;
    EditableSize(b);
    if WithName(b, name).err == 0 {
      NameAdded(b, name);
      if FdtNodes.CheckNode(StructOf(b), node) >= 0 {
        PlaceEditable(WithName(b, name).blob, FdtNodes.CheckNode(StructOf(b), node), NameOffset(b, name), name,
                      FindString(StringsOf(b), name, 0) < 0, val);
      }
    }
  }

  /** So does fdt_add_subnode. */
  lemma AddSubnodeGiven(b: bytes, at: nat, parent: int, name: bytes)
    requires Given(b)
    ensures Given(AddSubnode(b, at, parent, name).blob)
  {
    hide U32, Editable, HeaderOf, PlaceNode, Misordered, Probe, NextTag, StructOf, SubnodeOffset, AfterProps;
    if RwProbe(b, at) == 0 {
      ProbeEditable(b, at);
      if NextTag(StructOf(b), parent).tag == BEGIN_NODE {
        BeginStep(StructOf(b), parent);
        var o := AfterProps(StructOf(b), NextTag(StructOf(b), parent).next);
        PlaceNodeEditable(b, o, name);
        EditableGiven(PlaceNode(b, o, name).blob);
      }
    }
  }

  lemma PlaceNodeEditable(b: bytes, o: nat, name: bytes)
    requires Editable(b)
    ensures Editable(PlaceNode(b, o, name).blob)
  {
    hide U32, Align4, SpliceStruct, Editable, HeaderOf, Overwrite, BE32, Zeros;
    EditableSize(b);
    AlignIsPad(|name| + 1);
    var size, k := NodeSize(name), Align4(|name| + 1);
    if SpliceError(b, OffStruct(b) + o, 0, size) == 0 {
      SpliceStructHeader(b, o, 0, size);
      SpliceStructField(b, o, 0, size);
      var r, p := SpliceStruct(b, o, 0, size), OffStruct(b) + o;
      BehindHeader(r, p, BE32(BEGIN_NODE));
      var r1 := Put(r, p, BEGIN_NODE);
      BehindHeader(r1, p + 4, Zeros(k));
      var r2 := Overwrite(r1, p + 4, Zeros(k));
      BehindHeader(r2, p + 4, name);
      BehindHeader(Overwrite(r2, p + 4, name), p + size - 4, BE32(END_NODE));
    }
  }

  lemma BeginStep(s: bytes, o: int)
    requires NextTag(s, o).tag == BEGIN_NODE
    ensures NextTag(s, o).next >= 0
  {
    hide U32;
  }

  // ----- record_image

  function Cell(v: int): (c: bytes)
    ensures |c| == 4
  {
    BE32(v % TWO32)
  }

  /** One fdt_setprop whose failure ends the routine. */
  function SetField(r: Outcome, at: nat, node: int, name: string, wanted: bool, val: bytes): (q: Outcome)
    requires Given(r.blob) && |val| <= INT_MAX - 16
    ensures Given(q.blob) && |q.blob| == |r.blob|
  {
    hide Given, SetProp;
    SetPropGiven(r.blob, at, node, Ascii(name), val);
    if r.err != 0 || !wanted then r else SetProp(r.blob, at, node, Ascii(name), val)
  }

  /** The subnode of that name, added if it is missing. */
  function Ensure(b: bytes, at: nat, parent: int, name: bytes): (r: Outcome)
    requires Given(b)
    ensures Given(r.blob) && |r.blob| == |b|
  {
    hide Given, AddSubnode, SubnodeOffset;
    AddSubnodeGiven(b, at, parent, name);
    GivenMemory(b);
    var o := SubnodeOffset(b, at, parent, name);
    if o == ERR_NOTFOUND then AddSubnode(b, at, parent, name) else Outcome(o, b)
  }

  lemma GivenMemory(b: bytes)
    requires Given(b)
    ensures InMemory(b)
  {}

  function TextBytes(t: Text): bytes {
    if t.Found? then t.text + [0] else []
  }

  /** The texts of an image come from the FIT and are short. */
  predicate Short(x: Image) {
    |TextBytes(x.kind)| <= INT_MAX - 16 && |TextBytes(x.os)| <= INT_MAX - 16
  }

  /** The properties of an image's node, until one fails. */
  function Fields(b: bytes, at: nat, node: int, x: Image): (r: Outcome)
    requires Given(b) && Short(x)
    ensures Given(r.blob) && |r.blob| == |b|
  {
    hide Given, SetField, Cell;
    var a := SetField(Outcome(0, b), at, node, "load-addr", true, Cell(x.load));
    var s := SetField(a, at, node, "size", true, Cell(x.size));
    var e := SetField(s, at, node, "entry-point", x.explicit, Cell(x.entry));
    var t := SetField(e, at, node, "type", x.kind.Found?, TextBytes(x.kind));
    SetField(t, at, node, "os", x.os.Found?, TextBytes(x.os))
  }

  /** The result is zero, or what the routine failed with. */
  function RecordImage(b: bytes, at: nat, x: Image): (r: Outcome)
    requires Given(b) && Short(x)
    ensures Given(r.blob) && |r.blob| == |b|
  {
    hide Given, Ensure, Fields;
    var p := Ensure(b, at, 0, Ascii("fit-images"));
    if p.err < 0 then p else
    var n := Ensure(p.blob, at, p.err, x.name);
    if n.err < 0 then n else Fields(n.blob, at, n.err, x)
  }

  // ----- what memory holds

  predicate Loaded(x: Image, a: int) {
    x.role != FDT && x.load <= a < End(x)
  }

  /** The addresses that loading the plan may write. */
  predicate Target(plan: Plan, a: int) {
    || (exists x :: x in plan.images && Loaded(x, a))
    || plan.controlFdt <= a < plan.controlFdt + plan.capacity
  }

  /** The first `i` images stand in memory, and nothing but their ranges changed. */
  ghost predicate Progress(m0: bytes, m: bytes, b: bytes, images: seq<Image>, i: nat)
    requires i <= |images|
  {
    && |m| == |m0|
    && (forall a :: 0 <= a < |m| && m[a] != m0[a] ==> exists k :: 0 <= k < i && Loaded(images[k], a))
    && forall k :: 0 <= k < i && images[k].role != FDT ==> Holds(m, b, images[k])
  }

  /** The load range of an image holds its inline data. */
  predicate Holds(m: bytes, b: bytes, x: Image) {
    x.data + x.size <= |b| && End(x) <= |m| && m[x.load..End(x)] == b[x.data..x.data + x.size]
  }

  /** Where the FIT and everything else of interest is. */
  ghost predicate Staged(m: bytes, fit: nat, b: bytes, p: Platform, plan: Plan) {
    && |b| < INT_MAX - DTB_SLACK && InMemory(b) && Safe(b, fit, p, plan)
    && p.stageStart <= fit && fit + |b| <= p.stageEnd && fit + |b| <= |m| && m[fit..fit + |b|] == b
    && p.bl33Limit <= |m| && forall x :: x in plan.images && x.role != FDT ==> End(x) <= |m|
  }

  /** The ranges that the board allows for BL31 lie outside U-Boot's own. */
  ghost predicate RangesApart(p: Platform) {
    forall r :: r in p.bl31Ranges ==> !Touch(r.start, r.end, p.bl33Entry, p.bl33Limit)
  }

  /** The geometry alone: `n` bytes of FIT at `fit` in a memory of `len` bytes,
      clear of every load range, and the ranges clear of each other. */
  predicate Laid(images: seq<Image>, fit: nat, n: nat, len: nat) {
    && Apart(images) && fit + n <= len
    && forall i :: 0 <= i < |images| ==> Separate(images[i], fit, n, len)
  }

  predicate Separate(x: Image, fit: nat, n: nat, len: nat) {
    && 0 < x.size && x.data + x.size <= n
    && (x.role != FDT ==> End(x) <= len && !Touch(x.load, End(x), fit, fit + n))
  }

  lemma StagedLaid(m: bytes, fit: nat, b: bytes, p: Platform, plan: Plan)
    requires Staged(m, fit, b, p, plan)
    ensures Laid(plan.images, fit, |b|, |m|) && m[fit..fit + |b|] == b
  {
    hide InMemory, Apart, Consistent, FieldOf, HashesMatch, SubnodeOffset, StringProp;
    forall i | 0 <= i < |plan.images| ensures Separate(plan.images[i], fit, |b|, |m|) {
      assert plan.images[i] in plan.images;
    }
  }

  /** The staging arena is as it was. */
  lemma StageKept(m0: bytes, m: bytes, fit: nat, b: bytes, images: seq<Image>, i: nat)
    requires Laid(images, fit, |b|, |m0|) && m0[fit..fit + |b|] == b
    requires i <= |images| && Progress(m0, m, b, images, i)
    ensures |m| == |m0| && m[fit..fit + |b|] == b
  {
    hide Holds, Apart;
    assert forall a :: fit <= a < fit + |b| ==> m[a] == m0[a];
    assert m[fit..fit + |b|] == m0[fit..fit + |b|];
  }

  lemma ProgressStep(m0: bytes, m: bytes, fit: nat, b: bytes, images: seq<Image>, i: nat)
    requires Laid(images, fit, |b|, |m0|) && i < |images| && Progress(m0, m, b, images, i) && images[i].role != FDT
    ensures var x := images[i];
            && x.data + x.size <= |b| && End(x) <= |m|
            && Progress(m0, Overwrite(m, x.load, b[x.data..x.data + x.size]), b, images, i + 1)
  {
    hide Overwrite;
    var x := images[i];
    assert Separate(x, fit, |b|, |m0|);
    var t := b[x.data..x.data + x.size];
    var r := Overwrite(m, x.load, t);
    OverwriteSlice(m, x.load, t, x.load, End(x));
    assert t[0..x.size] == t;
    forall k | 0 <= k < i && images[k].role != FDT ensures Holds(r, b, images[k]) {
      var y := images[k];
      assert !Overlap(y, x);
      assert Holds(m, b, y);
      OverwriteSlice(m, x.load, t, y.load, End(y));
    }
    forall a | 0 <= a < |r| && r[a] != m0[a] ensures exists k :: 0 <= k < i + 1 && Loaded(images[k], a) {
      if !Loaded(x, a) {
        OverwriteSlice(m, x.load, t, a, a + 1);
        assert r[a] == r[a..a + 1][0] == m[a..a + 1][0] == m[a];
      }
    }
  }

  lemma ProgressSkip(m0: bytes, m: bytes, b: bytes, images: seq<Image>, i: nat)
    requires i < |images| && Progress(m0, m, b, images, i) && images[i].role == FDT
    ensures Progress(m0, m, b, images, i + 1)
  {
    hide Holds;
  }

  /** The loop over the images. */
  method CopyImages(mem: array<byte>, fit: nat, ghost b: bytes, ghost p: Platform, plan: Plan)
    requires Staged(mem[..], fit, b, p, plan)
    modifies mem
    ensures Progress(old(mem[..]), mem[..], b, plan.images, |plan.images|)
  {
    hide Staged, Progress, Overwrite, Laid, End;
    ghost var m0 := mem[..];
    StagedLaid(m0, fit, b, p, plan);
    ProgressStart(m0, b, plan.images);
    for i := 0 to |plan.images|
      invariant Progress(m0, mem[..], b, plan.images, i)
    {
      var x := plan.images[i];
      if x.role != FDT {
        ghost var m := mem[..];
        ProgressStep(m0, m, fit, b, plan.images, i);
        StageKept(m0, m, fit, b, plan.images, i);
        LaidInside(plan.images, fit, |b|, |m0|);
        SliceSlice(m, fit, fit + |b|, x.data, x.data + x.size);
        assert mem[fit + x.data..fit + x.data + x.size] == m[fit + x.data..fit + x.data + x.size];
        EndIs(x);
        MemMove(mem, x.load, fit + x.data, x.size);
      } else {
        ProgressSkip(m0, mem[..], b, plan.images, i);
      }
    }
  }

  lemma EndIs(x: Image)
    ensures End(x) == x.load + x.size
  {}

  lemma LaidInside(images: seq<Image>, fit: nat, n: nat, len: nat)
    requires Laid(images, fit, n, len)
    ensures fit + n <= len
  {}

  lemma ProgressStart(m: bytes, b: bytes, images: seq<Image>)
    ensures Progress(m, m, b, images, 0)
  {}

  // ----- the control device tree

  /** The inline data of the control DTB are a device tree blob whose blocks lie
      inside them: chain_fit_parse does not look into the data. */
  ghost predicate ControlDtb(b: bytes, plan: Plan) {
    && plan.fdtIndex < |plan.images|
    && var x := plan.images[plan.fdtIndex];
    && HEADER_SIZE <= x.size && x.data + x.size <= |b|
    && var d := b[x.data..x.data + x.size];
    && TotalSize(d) <= |d|
    && var t := d[..TotalSize(d)];
    && |t| >= HEADER_SIZE && TotalSize(t) == |t| && BlocksInside(t) && RsvEnds(t) && NewSize(t) <= INT_MAX
  }

  /** What loading the plan leaves behind, wherever it stops: the verified
      images in their ranges, and no write outside those ranges and the window
      of the control DTB. */
  ghost predicate Safely(m0: bytes, m: bytes, b: bytes, plan: Plan) {
    && |m| == |m0|
    && (forall a :: 0 <= a < |m| && m[a] != m0[a] ==> Target(plan, a))
    && forall x :: x in plan.images && x.role != FDT ==> Holds(m, b, x)
  }

  lemma WindowSafely(m0: bytes, m1: bytes, m: bytes, b: bytes, plan: Plan, w: bytes)
    requires Progress(m0, m1, b, plan.images, |plan.images|)
    requires 0 <= plan.controlFdt && Window(m, m1, plan.controlFdt, w) && |w| == plan.capacity
    requires ControlApart(plan)
    ensures Safely(m0, m, b, plan)
  {
    forall x | x in plan.images && x.role != FDT ensures Holds(m, b, x) {
      var k :| 0 <= k < |plan.images| && plan.images[k] == x;
      OverwriteSlice(m1, plan.controlFdt, w, x.load, End(x));
    }
    forall a | 0 <= a < |m| && m[a] != m0[a] ensures Target(plan, a) {
      if !(plan.controlFdt <= a < plan.controlFdt + plan.capacity) {
        assert m[a] == m1[a];
        var k :| 0 <= k < |plan.images| && Loaded(plan.images[k], a);
        assert plan.images[k] in plan.images;
      }
    }
  }

  /** The control window runs into no load range. */
  ghost predicate ControlApart(plan: Plan) {
    forall x :: x in plan.images && x.role != FDT ==>
                  End(x) <= plan.controlFdt || plan.controlFdt + plan.capacity <= x.load
  }

  lemma ControlIsApart(m: bytes, fit: nat, b: bytes, p: Platform, plan: Plan)
    requires Staged(m, fit, b, p, plan) && RangesApart(p)
    ensures 0 <= plan.controlFdt && plan.controlFdt + plan.capacity <= |m| && plan.capacity < INT_MAX
    ensures ControlApart(plan) && plan.fdtIndex < |plan.images|
    ensures plan.capacity == plan.images[plan.fdtIndex].size + DTB_SLACK
  {
    hide InMemory, Apart, FieldOf, HashesMatch, SubnodeOffset, StringProp, Entries;
    assert plan.images[plan.fdtIndex] in plan.images;
    assert PolicyKept(p, plan.images[plan.bl33Index]);
    forall x | x in plan.images && x.role != FDT
      ensures End(x) <= plan.controlFdt || plan.controlFdt + plan.capacity <= x.load
    {
      var k :| 0 <= k < |plan.images| && plan.images[k] == x;
      assert PolicyKept(p, x);
    }
  }

  /** Clear of the window and of every range means untouched. */
  lemma Untouched(m0: bytes, m: bytes, b: bytes, p: Platform, plan: Plan, fit: nat)
    requires Staged(m0, fit, b, p, plan) && Safely(m0, m, b, plan)
    ensures forall a :: p.stageStart <= a < p.stageEnd && a < |m| ==> m[a] == m0[a]
    ensures forall a :: p.params <= a < p.params + PARAMS_RESERVE && a < |m| ==> m[a] == m0[a]
  {
    hide InMemory, Apart, Sound, Holds;
  }

  // ----- chain_fit_load

  lemma EnsureRange(b: bytes, at: nat, parent: int, name: bytes)
    requires Given(b)
    ensures Ensure(b, at, parent, name).err <= INT_MAX
  {
    hide U32, SubnodeOffset, Misordered, Probe, StructOf, SpliceStruct, LayNode, Align4;
    GivenMemory(b);
    SubnodeRange(b, at, parent, name);
    ShortBlock(b);
    NextShort(StructOf(b), parent);
  }

  lemma ShortBlock(b: bytes)
    requires InMemory(b)
    ensures |StructOf(b)| <= INT_MAX - 9
  {}

  lemma NextShort(s: bytes, o: int)
    ensures NextTag(s, o).next <= |s| + 3
  {}

  method EnsureAt(mem: array<byte>, fdt: nat, n: nat, parent: int, name: bytes, ghost m1: bytes, ghost w: bytes)
    returns (r: int)
    requires Window(mem[..], m1, fdt, w) && |w| == n && Given(w) && parent <= INT_MAX
    modifies mem
    ensures r == Ensure(w, fdt, parent, name).err && Window(mem[..], m1, fdt, Ensure(w, fdt, parent, name).blob)
    ensures r <= INT_MAX
  {
    hide Window, Given, AddSubnode, SubnodeOffset;
    GivenMemory(w);
    EnsureRange(w, fdt, parent, name);
    WindowSlice(mem[..], m1, fdt, w, 0, n);
    assert mem[fdt..fdt + n] == mem[..][fdt + 0..fdt + n] == w[0..n] == w;
    r := FindSubnode(mem[fdt..fdt + n], fdt, parent, name);
    if r == ERR_NOTFOUND {
      ghost var m := mem[..];
      r := AddNode(mem, fdt, n, parent, name);
      WindowTrans(mem[..], m, m1, fdt, w, AddSubnode(w, fdt, parent, name).blob);
    }
  }

  method SetFieldAt(mem: array<byte>, fdt: nat, n: nat, err: int, node: int, name: string, wanted: bool, val: bytes,
                ghost m1: bytes, ghost w: bytes)
    returns (r: int)
    requires Window(mem[..], m1, fdt, w) && |w| == n && Given(w) && node <= INT_MAX && |val| <= INT_MAX - 16
    modifies mem
    ensures var q := SetField(Outcome(err, w), fdt, node, name, wanted, val);
            r == q.err && Window(mem[..], m1, fdt, q.blob)
  {
    hide Window, Given, SetProp, Ascii;
    r := err;
    if err == 0 && wanted {
      WindowSlice(mem[..], m1, fdt, w, 0, n);
      assert mem[fdt..fdt + n] == mem[..][fdt + 0..fdt + n] == w[0..n] == w;
      ghost var m := mem[..];
      r := SetProperty(mem, fdt, n, node, Ascii(name), val);
      WindowTrans(mem[..], m, m1, fdt, w, SetProp(w, fdt, node, Ascii(name), val).blob);
    }
  }

  method RecordAt(mem: array<byte>, fdt: nat, n: nat, x: Image, ghost m1: bytes, ghost w: bytes) returns (r: int)
    requires Window(mem[..], m1, fdt, w) && |w| == n && Given(w) && Short(x)
    modifies mem
    ensures r == RecordImage(w, fdt, x).err && Window(mem[..], m1, fdt, RecordImage(w, fdt, x).blob)
  {
    hide Window, Given, Ensure, SetField, Cell, Ascii;
    r := EnsureAt(mem, fdt, n, 0, Ascii("fit-images"), m1, w);
    if r < 0 {
      return;
    }
    ghost var p := Ensure(w, fdt, 0, Ascii("fit-images"));
    r := EnsureAt(mem, fdt, n, r, x.name, m1, p.blob);
    if r < 0 {
      return;
    }
    var node := r;
    ghost var a0 := Outcome(0, Ensure(p.blob, fdt, p.err, x.name).blob);
    r := SetFieldAt(mem, fdt, n, 0, node, "load-addr", true, Cell(x.load), m1, a0.blob);
    ghost var a1 := SetField(a0, fdt, node, "load-addr", true, Cell(x.load));
    r := SetFieldAt(mem, fdt, n, r, node, "size", true, Cell(x.size), m1, a1.blob);
    ghost var a2 := SetField(a1, fdt, node, "size", true, Cell(x.size));
    r := SetFieldAt(mem, fdt, n, r, node, "entry-point", x.explicit, Cell(x.entry), m1, a2.blob);
    ghost var a3 := SetField(a2, fdt, node, "entry-point", x.explicit, Cell(x.entry));
    r := SetFieldAt(mem, fdt, n, r, node, "type", x.kind.Found?, TextBytes(x.kind), m1, a3.blob);
    ghost var a4 := SetField(a3, fdt, node, "type", x.kind.Found?, TextBytes(x.kind));
    r := SetFieldAt(mem, fdt, n, r, node, "os", x.os.Found?, TextBytes(x.os), m1, a4.blob);
  }

  /** The control DTB with the metadata of the first `i` images, until one fails. */
  function RecordAll(b: bytes, at: nat, images: seq<Image>, i: nat): (r: Outcome)
    requires Given(b) && i <= |images| && forall x :: x in images ==> Short(x)
    ensures Given(r.blob) && |r.blob| == |b|
  {
    hide Given, RecordImage, Short;
    if i == 0 then Outcome(0, b)
    else
      var r := RecordAll(b, at, images, i - 1);
      if r.err != 0 || !images[i - 1].record then r else RecordImage(r.blob, at, images[i - 1])
  }

  method RecordImages(mem: array<byte>, fdt: nat, n: nat, images: seq<Image>, ghost m1: bytes, ghost w: bytes)
    returns (ok: bool)
    requires Window(mem[..], m1, fdt, w) && |w| == n && Given(w) && forall x :: x in images ==> Short(x)
    modifies mem
    ensures ok == (RecordAll(w, fdt, images, |images|).err == 0)
    ensures exists v :: |v| == n && Given(v) && Window(mem[..], m1, fdt, v)
    ensures ok ==> Window(mem[..], m1, fdt, RecordAll(w, fdt, images, |images|).blob)
  {
    hide Window, Given, RecordImage, Short;
    for i := 0 to |images|
      invariant RecordAll(w, fdt, images, i).err == 0 && Window(mem[..], m1, fdt, RecordAll(w, fdt, images, i).blob)
    {
      if images[i].record {
        ghost var v := RecordAll(w, fdt, images, i).blob;
        var r := RecordAt(mem, fdt, n, images[i], m1, v);
        if r != 0 {
          RecordFails(w, fdt, images, i + 1);
          return false;
        }
      }
    }
    ok := true;
  }

  lemma {:induction false} RecordFails(b: bytes, at: nat, images: seq<Image>, i: nat)
    requires Given(b) && i <= |images| && (forall x :: x in images ==> Short(x)) && RecordAll(b, at, images, i).err != 0
    ensures RecordAll(b, at, images, |images|).err != 0
    decreases |images| - i
  {
    hide Given, RecordImage, Short;
    if i < |images| { RecordFails(b, at, images, i + 1); }
  }

  lemma ShortTexts(b: bytes, fit: nat, p: Platform, plan: Plan)
    requires |b| < INT_MAX - DTB_SLACK && InMemory(b) && Safe(b, fit, p, plan)
    ensures forall x :: x in plan.images ==> Short(x)
  {
    hide InMemory, Consistent, Listed, Apart, HashesMatch, SubnodeOffset, FieldOf, StringProp, PathOffset, Ascii;
    hide TextBytes, AllClear, Clear, Entries;
    forall x | x in plan.images ensures Short(x) {
      var node := SubnodeOffset(b, fit, PathOffset(b, fit, Ascii("/images")), x.name);
      assert Genuine(b, fit, PathOffset(b, fit, Ascii("/images")), x);
      TextShort(b, fit, node, "type");
      TextShort(b, fit, node, "os");
    }
  }

  lemma TextShort(b: bytes, at: nat, node: int, name: string)
    requires InMemory(b) && |b| < INT_MAX - DTB_SLACK
    ensures |TextBytes(StringProp(b, at, node, name))| <= INT_MAX - 16
  {
    hide InMemory, FieldOf;
    FieldIs(b, at, node, name);
  }

  /** The inner blob, and where it stands in memory. */
  function Inner(b: bytes, plan: Plan): bytes
    requires ControlDtb(b, plan)
  {
    var x := plan.images[plan.fdtIndex];
    b[x.data..x.data + TotalSize(b[x.data..x.data + x.size])]
  }

  lemma InnerSource(m: bytes, fit: nat, b: bytes, plan: Plan)
    requires plan.fdtIndex < |plan.images| && ControlDtb(b, plan) && fit + |b| <= |m| && m[fit..fit + |b|] == b
    ensures var at := fit + plan.images[plan.fdtIndex].data;
            && Source(m, at, Inner(b, plan)) && NewSize(Inner(b, plan)) <= INT_MAX
            && at + 8 <= |m| && U32(m, at + 4) == |Inner(b, plan)|
  {
    hide U32, RsvEnds, BlocksOf, BlocksInside;
    var x := plan.images[plan.fdtIndex];
    var d := b[x.data..x.data + x.size];
    var n := TotalSize(d);
    assert d[..n] == Inner(b, plan) by { SliceSlice(b, x.data, x.data + x.size, 0, n); }
    SliceSlice(m, fit, fit + |b|, x.data, x.data + n);
    HeaderIn4(m, fit + x.data, Inner(b, plan));
  }

  lemma InnerIndex(b: bytes, plan: Plan)
    requires ControlDtb(b, plan)
    ensures plan.fdtIndex < |plan.images|
  {
    hide BlocksInside, RsvEnds, U32;
  }

  lemma HeaderIn4(m: bytes, at: nat, b: bytes)
    requires |b| >= HEADER_SIZE && at + |b| <= |m| && m[at..at + |b|] == b
    ensures U32(m, at + 4) == TotalSize(b)
  {
    WordIn(m, at, |b|, 4);
  }

  lemma OpenedGiven(b: bytes, w: bytes)
    requires BlocksInside(b) && RsvEnds(b) && RsvSize(b) >= 16 && OpenResult(b, w) && |w| < INT_MAX
    requires |BlocksOf(b).rsv| == RsvSize(b)
    ensures Given(w)
  {
    hide U32, RsvEnds, BlocksOf;
    HoldsEditable(w, BlocksOf(b));
    assert w[..TotalSize(w)] == w;
  }

  /** The control DTB in its window: opened, then given the metadata. */
  ghost predicate ControlReady(m: bytes, b: bytes, plan: Plan)
    requires ControlDtb(b, plan)
  {
    && 0 <= plan.controlFdt && plan.controlFdt + plan.capacity <= |m|
    && var v := m[plan.controlFdt..plan.controlFdt + plan.capacity];
    exists w :: OpenedAs(w, v, b, plan)
  }

  ghost predicate OpenedAs(w: bytes, v: bytes, b: bytes, plan: Plan)
    requires ControlDtb(b, plan) && plan.controlFdt >= 0
  {
    var d := Inner(b, plan);
    && BlocksInside(d) && RsvEnds(d) && |w| == plan.capacity && OpenResult(d, w)
    && Given(w) && (forall x :: x in plan.images ==> Short(x))
    && var r := RecordAll(w, plan.controlFdt, plan.images, |plan.images|);
    r.err == 0 && v == r.blob
  }

  /** The control DTB is opened in its window, out of the FIT. */
  method OpenControl(mem: array<byte>, fit: nat, ghost b: bytes, plan: Plan) returns (ok: bool)
    requires ControlDtb(b, plan) && fit + |b| <= mem.Length && mem[fit..fit + |b|] == b
    requires 0 <= plan.controlFdt && plan.controlFdt + plan.capacity <= mem.Length && plan.capacity < INT_MAX
    modifies mem
    ensures !ok ==> mem[..] == old(mem[..])
    ensures var d, w := Inner(b, plan), mem[plan.controlFdt..plan.controlFdt + plan.capacity];
            ok ==> && BlocksInside(d) && RsvEnds(d) && OpenResult(d, w) && Given(w)
                   && Window(mem[..], old(mem[..]), plan.controlFdt, w)
  {
    hide U32, ControlDtb, Window, Given, Inner, Source, OpenResult, RsvEnds, BlocksOf, OpenError, BootWord;
    hide BlocksInside;
    hide RsvSize;
    ghost var m := mem[..];
    assert m[fit..fit + |b|] == b;
    InnerIndex(b, plan);
    InnerSource(m, fit, b, plan);
    ghost var d := Inner(b, plan);
    var at := fit + plan.images[plan.fdtIndex].data;
    SourceInside(m, at, d);
    SourceBlocks(m, at, d);
    var total := ReadWord(mem, at + 4);
    assert mem[at..at + total] == m[at..at + total] == d;
    var r := OpenInto(mem, at, total, plan.controlFdt, plan.capacity);
    ok := r == 0;
    if ok {
      OpenedGiven(d, mem[plan.controlFdt..plan.controlFdt + plan.capacity]);
    }
  }

  /** chain_fit_load. Even when it fails, no write has gone outside the load
      ranges and the window of the control DTB. */
  method LoadFit(mem: array<byte>, fit: nat, ghost b: bytes, ghost p: Platform, plan: Plan)
    returns (ok: bool, reason: string)
    requires Staged(mem[..], fit, b, p, plan) && RangesApart(p) && ControlDtb(b, plan)
    modifies mem
    ensures Safely(old(mem[..]), mem[..], b, plan)
    ensures ok ==> ControlReady(mem[..], b, plan)
  {
    hide U32, Staged, Safely, RangesApart, ControlApart, ControlDtb, Progress, Laid, Window, Given, RecordAll;
    hide Short, Inner, OpenResult, OpenedAs, RsvEnds, BlocksOf, BlocksInside, ControlReady;
    ghost var m0 := mem[..];
    StagedLaid(m0, fit, b, p, plan);
    LaidInside(plan.images, fit, |b|, |m0|);
    ControlIsApart(m0, fit, b, p, plan);
    StagedShort(m0, fit, b, p, plan);
    CopyImages(mem, fit, b, p, plan);
    ghost var m1 := mem[..];
    StageKept(m0, m1, fit, b, plan.images, |plan.images|);
    assert mem[fit..fit + |b|] == m1[fit..fit + |b|];
    var control, n := plan.controlFdt, plan.capacity;
    ok := OpenControl(mem, fit, b, plan);
    if !ok {
      WindowStart(m1, control, n);
      WindowSafely(m0, m1, mem[..], b, plan, m1[control..control + n]);
      return false, "cannot expand U-Boot control DTB";
    }
    ghost var w := mem[control..control + n];
    ok := RecordImages(mem, control, n, plan.images, m1, w);
    ghost var v :| |v| == n && Given(v) && Window(mem[..], m1, control, v);
    WindowSafely(m0, m1, mem[..], b, plan, v);
    if ok {
      OpenedReady(mem[..], m1, b, plan, w);
    }
    reason := if ok then "" else "cannot create /fit-images metadata";
  }

  lemma StagedShort(m: bytes, fit: nat, b: bytes, p: Platform, plan: Plan)
    requires Staged(m, fit, b, p, plan)
    ensures forall x :: x in plan.images ==> Short(x)
  {
    hide InMemory, Safe, Short;
    ShortTexts(b, fit, p, plan);
  }

  lemma OpenedReady(m: bytes, m1: bytes, b: bytes, plan: Plan, w: bytes)
    requires ControlDtb(b, plan) && plan.controlFdt >= 0 && plan.controlFdt + plan.capacity <= |m|
    requires BlocksInside(Inner(b, plan)) && RsvEnds(Inner(b, plan)) && OpenResult(Inner(b, plan), w)
    requires Given(w) && |w| == plan.capacity && forall x :: x in plan.images ==> Short(x)
    requires RecordAll(w, plan.controlFdt, plan.images, |plan.images|).err == 0
    requires Window(m, m1, plan.controlFdt, RecordAll(w, plan.controlFdt, plan.images, |plan.images|).blob)
    ensures ControlReady(m, b, plan)
  {
    hide U32, BlocksInside, RsvEnds, BlocksOf, OpenResult, Given, RecordAll, Window, Inner, ControlDtb, Short;
    var v := RecordAll(w, plan.controlFdt, plan.images, |plan.images|).blob;
    WindowRead(m, m1, plan.controlFdt, v);
    assert OpenedAs(w, m[plan.controlFdt..plan.controlFdt + plan.capacity], b, plan);
  }

  // ----- parse, then load

  /** The board's memory holds every address that its policy speaks of. */
  ghost predicate Board(p: Platform, len: nat) {
    && RangesApart(p) && p.bl33Limit <= len && forall r :: r in p.bl31Ranges ==> r.end <= len
  }

  lemma ParsedStaged(m: bytes, fit: nat, b: bytes, p: Platform)
    requires HEADER_SIZE <= |b| < INT_MAX - DTB_SLACK && Version(b) >= 17 && Parse(b, fit, p).Accept?
    requires p.stageStart <= fit && fit + |b| <= p.stageEnd && fit + |b| <= |m| && m[fit..fit + |b|] == b
    requires Board(p, |m|)
    ensures Staged(m, fit, b, p, Parse(b, fit, p).plan)
  {
    hide Parse, InMemory, Genuine, Listed, Apart, Entries, Clear, AllClear, PathOffset, Consistent;
    ParseSafe(b, fit, p);
    PolicyEnds(p, Parse(b, fit, p).plan, |m|);
  }

  lemma PolicyEnds(p: Platform, plan: Plan, len: nat)
    requires Consistent(p, plan) && Board(p, len)
    ensures forall x :: x in plan.images && x.role != FDT ==> End(x) <= len
  {
    hide Entries;
    forall x | x in plan.images && x.role != FDT ensures End(x) <= len {
      var k :| 0 <= k < |plan.images| && plan.images[k] == x;
      assert PolicyKept(p, x);
    }
  }

  /** The images of a plan, after loading. */
  ghost predicate Intact(m: bytes, fit: nat, b: bytes, plan: Plan)
    requires InMemory(b) && |b| < INT_MAX
  {
    forall x :: x in plan.images && x.role != FDT ==>
                  && Holds(m, b, x)
                  && HashesMatch(b, fit, SubnodeOffset(b, fit, PathOffset(b, fit, Ascii("/images")), x.name),
                                 m[x.load..End(x)])
  }

  lemma HeldIntact(m0: bytes, m: bytes, fit: nat, b: bytes, p: Platform, plan: Plan)
    requires Staged(m0, fit, b, p, plan) && Safely(m0, m, b, plan)
    ensures InMemory(b) && |b| < INT_MAX && Intact(m, fit, b, plan)
  {
    hide InMemory, Consistent, Apart, HashesMatch, SubnodeOffset, FieldOf, PathOffset, StringProp, Target;
    forall x | x in plan.images && x.role != FDT
      ensures Holds(m, b, x)
      ensures HashesMatch(b, fit, SubnodeOffset(b, fit, PathOffset(b, fit, Ascii("/images")), x.name),
          m[x.load..End(x)])
    {
      assert Genuine(b, fit, PathOffset(b, fit, Ascii("/images")), x);
    }
  }

  /** What a successful load has achieved: a plan that keeps the board's policy,
      its images verified in their places, and the control DTB in its window. */
  ghost predicate Booted(m: bytes, fit: nat, b: bytes, p: Platform, plan: Plan) {
    && InMemory(b) && |b| < INT_MAX - DTB_SLACK && Safe(b, fit, p, plan) && Intact(m, fit, b, plan)
    && ControlDtb(b, plan) && ControlReady(m, b, plan)
  }

  /** The chain loader's use of the two: if the FIT in the staging arena is
      accepted and loaded, every BL31 and BL33 range holds exactly its hashed
      inline data. Whatever happens, the staging arena and the parameter block
      are not written, nor is anything else outside the load ranges and the
      control DTB's window below U-Boot's limit. */
  method ChainLoad(mem: array<byte>, fit: nat, n: nat, p: Platform) returns (ok: bool, plan: FitParse.Builder)
    requires fit + n <= mem.Length && HEADER_SIZE <= n < INT_MAX - DTB_SLACK && Version(mem[fit..fit + n]) >= 17
    requires p.stageStart <= fit && fit + n <= p.stageEnd && Board(p, mem.Length)
    requires Parse(mem[fit..fit + n], fit, p).Accept? ==>
        ControlDtb(mem[fit..fit + n], Parse(mem[fit..fit + n], fit, p).plan)
    modifies mem
    ensures var b := old(mem[fit..fit + n]);
            ok ==>
              && Parse(b, fit, p).Accept? && plan.Value() == Parse(b, fit, p).plan
              && Booted(mem[..], fit, b, p, plan.Value())
    ensures var b := old(mem[fit..fit + n]);
            if Parse(b, fit, p).Accept? then
              forall a :: 0 <= a < mem.Length && mem[a] != old(mem[a]) ==> Target(Parse(b, fit, p).plan, a)
            else mem[..] == old(mem[..])
    ensures forall a :: p.stageStart <= a < p.stageEnd && a < mem.Length ==> mem[a] == old(mem[a])
    ensures forall a :: p.params <= a < p.params + PARAMS_RESERVE && a < mem.Length ==> mem[a] == old(mem[a])
  {
    hide Parse, Board, ControlDtb, Staged, Safely, InMemory, Safe, Intact, ControlReady, U32, Target;
    ghost var m0 := mem[..];
    var b := mem[fit..fit + n];
    assert m0[fit..fit + n] == b;
    var reason: string;
    plan := new FitParse.Builder();
    ok, reason := plan.ParseFit(b, fit, p);
    if !ok {
      return;
    }
    ParseSafe(b, fit, p);
    ParsedStaged(m0, fit, b, p);
    BoardApart(p, mem.Length);
    ok, reason := LoadFit(mem, fit, b, p, plan.Value());
    HeldIntact(m0, mem[..], fit, b, p, plan.Value());
    Untouched(m0, mem[..], b, p, plan.Value(), fit);
    SafelyTarget(m0, mem[..], b, plan.Value());
  }

  lemma BoardApart(p: Platform, len: nat)
    requires Board(p, len)
    ensures RangesApart(p)
  {
    hide RangesApart;
  }

  lemma SafelyTarget(m0: bytes, m: bytes, b: bytes, plan: Plan)
    requires Safely(m0, m, b, plan)
    ensures |m| == |m0| && forall a :: 0 <= a < |m| && m[a] != m0[a] ==> Target(plan, a)
  {
    hide Target, Holds;
  }
}
