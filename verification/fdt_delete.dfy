/** external/libfdt/fdt_rw.c and fdt_wip.c: deleting properties and nodes, and
    overwriting them with NOP tags instead. */
module FdtDelete {
  import opened Bytes
  import opened Memory
  import opened FdtFormat
  import opened FdtWalk
  import opened FdtNodes
  import opened FdtRead
  import opened FdtAncestors
  import opened FdtProps
  import opened FdtSplice
  import opened FdtEdit

  // ----- the routines

  /** fdt_delprop. */
  function DelProp(b: bytes, at: nat, node: int, name: bytes): (r: Outcome)
    requires Given(b)
    ensures |r.blob| == |b|
  {
    hide U32, Align4, NextTag, PropOffset, CloseGap, RwProbe, Probe, StructOf;
    if RwProbe(b, at) != 0 then Outcome(RwProbe(b, at), b)
    else
      ProbeEditable(b, at);
      StructSize(b);
      var o := PropOffset(b, at, node, name);
      if o < 0 then Outcome(o, b)
      else
        AlignIsPad(U32(StructOf(b), o + 4));
        CloseGap(b, o, 12 + Align4(U32(StructOf(b), o + 4)))
  }

  /** fdt_splice_struct_ with nothing to put in. */
  function CloseGap(b: bytes, o: nat, size: nat): (r: Outcome)
    requires Editable(b) && size <= SizeStruct(b)
    ensures |r.blob| == |b|
  {
    var e := SpliceError(b, OffStruct(b) + o, size, 0);
    if e != 0 then Outcome(e, b) else Outcome(0, SpliceStruct(b, o, size, 0))
  }

  function EndOffset(s: bytes, node: int): int {
    LastOff(Trail(s, node, 0))
  }

  lemma {:induction false} TrailEnd(s: bytes, o: int, d: int)
    requires Aligned(o) && d >= 0
    ensures LastOff(Trail(s, o, d)) >= 0 ==> 0 <= o < LastOff(Trail(s, o, d)) <= |s| && Aligned(LastOff(Trail(s, o, d)))
    ensures LastOff(Trail(s, o, d)) >= 0 ==> CheckNode(s, o) >= 0
    decreases TrailMeasure(s, o, d)
  {
    hide Aligned, NextTag;
    if o >= 0 {
      TrailStep(s, o, d);
      var v := NextNode(s, o, d);
      var t := Trail(s, o, d);
      assert t[|t| - 1] == t[1..][|t| - 2];
      if v.off >= 0 && v.depth >= 0 {
        TrailEnd(s, v.off, v.depth);
      } else {
        TrailDone(s, v.off, v.depth);
      }
    } else {
      TrailDone(s, o, d);
    }
  }

  lemma EndOffsetRange(s: bytes, node: int)
    requires EndOffset(s, node) >= 0
    ensures 0 <= node < EndOffset(s, node) <= |s| && Aligned(node) && Aligned(EndOffset(s, node))
        && CheckNode(s, node) >= 0
  {
    hide NextTag;
    if node < 0 {
      TrailDone(s, node, 0);
    } else if Aligned(node) {
      TrailEnd(s, node, 0);
    }
  }

  /** fdt_del_node. */
  function DelNode(b: bytes, at: nat, node: int): (r: Outcome)
    requires Given(b)
    ensures |r.blob| == |b|
  {
    if RwProbe(b, at) != 0 then Outcome(RwProbe(b, at), b)
    else
      ProbeEditable(b, at);
      var e := EndOffset(StructOf(b), node);
      if e < 0 then Outcome(e, b)
      else
        EndOffsetRange(StructOf(b), node);
        CloseGap(b, node, e - node)
  }

  /** `n` NOP tags. */
  function Nops(n: nat): (s: bytes)
    ensures |s| == 4 * n
  {
    if n == 0 then [] else Nops(n - 1) + BE32(NOP)
  }

  /** A blob whose structure block is a whole number of tags. */
  predicate WholeTags(b: bytes) {
    BlocksInside(b) && |b| == TotalSize(b) && Aligned(SizeStruct(b))
  }

  /** How many words fdt_nop_property overwrites. */
  function PropWords4(len: u32): nat {
    (len + 12 + 3) / 4
  }

  /** fdt_nop_property. */
  function NopProp(b: bytes, at: nat, node: int, name: bytes): (r: Outcome)
    requires WholeTags(b)
    ensures |r.blob| == |b|
  {
    var o := PropOffset(b, at, node, name);
    if o < 0 then Outcome(o, b)
    else
      PropInside(b, o);
      Outcome(0, Overwrite(b, OffStruct(b) + o, Nops(PropWords4(U32(StructOf(b), o + 4)))))
  }

  lemma PropInside(b: bytes, o: nat)
    requires WholeTags(b) && Aligned(o) && NextTag(StructOf(b), o).tag == PROP
    ensures o + 12 <= |StructOf(b)|
    ensures OffStruct(b) + o + 4 * PropWords4(U32(StructOf(b), o + 4)) <= OffStruct(b) + SizeStruct(b) <= |b|
  {
    hide U32;
    var n := U32(StructOf(b), o + 4);
    PropThere(StructOf(b), o);
    assert |StructOf(b)| == SizeStruct(b);
  }

  lemma WholeWords(lo: nat, hi: nat)
    requires Aligned(lo) && Aligned(hi) && lo <= hi
    ensures 4 * ((hi - lo) / 4) == hi - lo && (hi - lo + 3) / 4 == (hi - lo) / 4
  {}

  /** fdt_nop_node. */
  function NopNode(b: bytes, node: int): (r: Outcome)
    requires WholeTags(b)
    ensures |r.blob| == |b|
  {
    var e := EndOffset(StructOf(b), node);
    if e < 0 then Outcome(e, b)
    else
      EndOffsetRange(StructOf(b), node);
      WholeWords(node, e);
      Outcome(0, Overwrite(b, OffStruct(b) + node, Nops((e - node) / 4)))
  }

  // ----- in memory

  method DeleteProperty(mem: array<byte>, fdt: nat, n: nat, node: int, name: bytes) returns (err: int)
    requires fdt + n <= mem.Length && Given(mem[fdt..fdt + n]) && node <= INT_MAX
    modifies mem
    ensures err == DelProp(old(mem[fdt..fdt + n]), fdt, node, name).err
    ensures Window(mem[..], old(mem[..]), fdt, DelProp(old(mem[fdt..fdt + n]), fdt, node, name).blob)
  {
    hide U32, Window, NextTag, PropOffset, Misordered, Probe, SpliceStruct, Align4;
    var b := mem[fdt..fdt + n];
    ghost var m0 := mem[..];
    assert m0[fdt..fdt + n] == b;
    WindowStart(m0, fdt, n);
    err := RwProbe(b, fdt);
    if err != 0 {
      return;
    }
    ProbeEditable(b, fdt);
    var o := FindProp(b, fdt, node, name);
    if o < 0 {
      return o;
    }
    StructWord(b, o + 4);
    var len := U32(b, OffStruct(b) + o + 4);
    AlignIsPad(len);
    err := SpliceStructAt(mem, fdt, o, 12 + Align4(len), 0, m0, b);
  }

  method DeleteNode(mem: array<byte>, fdt: nat, n: nat, node: int) returns (err: int)
    requires fdt + n <= mem.Length && Given(mem[fdt..fdt + n]) && node <= INT_MAX
    modifies mem
    ensures err == DelNode(old(mem[fdt..fdt + n]), fdt, node).err
    ensures Window(mem[..], old(mem[..]), fdt, DelNode(old(mem[fdt..fdt + n]), fdt, node).blob)
  {
    hide U32, Window, NextTag, Misordered, Probe, SpliceStruct, Trail;
    var b := mem[fdt..fdt + n];
    ghost var m0 := mem[..];
    assert m0[fdt..fdt + n] == b;
    WindowStart(m0, fdt, n);
    err := RwProbe(b, fdt);
    if err != 0 {
      return;
    }
    ProbeEditable(b, fdt);
    var e := FindNodeEnd(b, node);
    if e < 0 {
      return e;
    }
    EndOffsetRange(StructOf(b), node);
    err := SpliceStructAt(mem, fdt, node, e - node, 0, m0, b);
  }

  /** fdt_nop_region_: word after word until `len` bytes are covered. */
  method NopRegion(mem: array<byte>, fdt: nat, start: nat, len: nat, ghost m0: bytes, ghost b: bytes)
    requires Window(mem[..], m0, fdt, b) && start + 4 * ((len + 3) / 4) <= |b|
    modifies mem
    ensures Window(mem[..], m0, fdt, Overwrite(b, start, Nops((len + 3) / 4)))
  {
    hide Window, BE32;
    var p := start;
    ghost var i := 0;
    NoNops(b, start);
    while p < start + len
      invariant p == start + 4 * i && i <= (len + 3) / 4
      invariant Window(mem[..], m0, fdt, Overwrite(b, start, Nops(i)))
    {
      StoreIn(mem, fdt, p, BE32(NOP), m0, Overwrite(b, start, Nops(i)));
      OverwriteTwice(b, start, Nops(i), BE32(NOP));
      p := p + 4;
      i := i + 1;
    }
  }

  lemma NoNops(b: bytes, at: nat)
    requires at <= |b|
    ensures Overwrite(b, at, Nops(0)) == b
  {}

  method NopProperty(mem: array<byte>, fdt: nat, n: nat, node: int, name: bytes) returns (err: int)
    requires fdt + n <= mem.Length && WholeTags(mem[fdt..fdt + n]) && node <= INT_MAX
    modifies mem
    ensures err == NopProp(old(mem[fdt..fdt + n]), fdt, node, name).err
    ensures Window(mem[..], old(mem[..]), fdt, NopProp(old(mem[fdt..fdt + n]), fdt, node, name).blob)
  {
    hide U32, Window, NextTag, PropOffset, Overwrite, Nops;
    var b := mem[fdt..fdt + n];
    ghost var m0 := mem[..];
    assert m0[fdt..fdt + n] == b;
    WindowStart(m0, fdt, n);
    var o := FindProp(b, fdt, node, name);
    if o < 0 {
      return o;
    }
    PropInside(b, o);
    StructWord(b, o + 4);
    var len := U32(b, OffStruct(b) + o + 4);
    NopRegion(mem, fdt, OffStruct(b) + o, len + 12, m0, b);
    err := 0;
  }

  method NopOutNode(mem: array<byte>, fdt: nat, n: nat, node: int) returns (err: int)
    requires fdt + n <= mem.Length && WholeTags(mem[fdt..fdt + n]) && node <= INT_MAX
    modifies mem
    ensures err == NopNode(old(mem[fdt..fdt + n]), node).err
    ensures Window(mem[..], old(mem[..]), fdt, NopNode(old(mem[fdt..fdt + n]), node).blob)
  {
    hide U32, Window, NextTag, Overwrite, Nops, Trail;
    var b := mem[fdt..fdt + n];
    ghost var m0 := mem[..];
    assert m0[fdt..fdt + n] == b;
    WindowStart(m0, fdt, n);
    var e := FindNodeEnd(b, node);
    if e < 0 {
      return e;
    }
    EndOffsetRange(StructOf(b), node);
    WholeWords(node, e);
    NopRegion(mem, fdt, OffStruct(b) + node, e - node, m0, b);
    err := 0;
  }
}
