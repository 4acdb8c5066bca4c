/** external/libfdt/fdt_rw.c: setting and deleting properties, adding and
    deleting nodes, as functions of the blob and as updates of memory. */
module FdtEdit {
  import opened Bytes
  import opened Memory
  import opened FdtFormat
  import opened FdtWalk
  import opened FdtNodes
  import opened FdtRead
  import opened FdtAncestors
  import opened FdtProps
  import opened FdtSplice

  /** What an editing routine returns, and the blob it leaves behind. */
  datatype Outcome = Outcome(err: int, blob: bytes)

  /** A blob handed to an editing routine. */
  predicate Given(b: bytes) {
    BlocksInside(b) && |b| == TotalSize(b) && Version(b) == 17
  }

  // ----- fdt_setprop

  /** fdt_resize_property_ and the copy, on the property found at `o`. */
  function ResizeProp(b: bytes, o: nat, val: bytes): (r: Outcome)
    requires Editable(b) && NextTag(StructOf(b), o).tag == PROP && |val| <= INT_MAX - 16
    ensures |r.blob| == |b|
  {
    PropThere(StructOf(b), o);
    AlignIsPad(U32(StructOf(b), o + 4));
    AlignIsPad(|val|);
    var was, now := Align4(U32(StructOf(b), o + 4)), Align4(|val|);
    var p := OffStruct(b) + o + 12;
    if SpliceError(b, p, was, now) != 0 then Outcome(SpliceError(b, p, was, now), b)
    else Outcome(0, Overwrite(Put(SpliceStruct(b, o + 12, was, now), p - 8, |val|), p, val))
  }

  /** The name's offset in the strings block, where it is put if need be. */
  function NameOffset(b: bytes, name: bytes): (r: nat)
    requires Editable(b)
    ensures r <= SizeStrings(b)
  {
    if FindString(StringsOf(b), name, 0) >= 0 then FindString(StringsOf(b), name, 0) else SizeStrings(b)
  }

  /** fdt_find_add_string_. */
  function WithName(b: bytes, name: bytes): Outcome
    requires Editable(b)
  {
    if FindString(StringsOf(b), name, 0) >= 0 then Outcome(0, b)
    else if DataSize(b) + |name| + 1 > TotalSize(b) then Outcome(ERR_NOSPACE, b)
    else Outcome(0, AddString(b, name))
  }

  /** The words and the value of a new property laid into the gap at `p`. */
  function LayProp(b: bytes, p: nat, nameoff: u32, val: bytes): (r: bytes)
    requires p + 12 + |val| <= |b| && |val| <= INT_MAX
    ensures |r| == |b|
  {
    Overwrite(Put(Put(Put(b, p, PROP), p + 8, nameoff), p + 4, |val|), p + 12, val)
  }

  /** The second half of fdt_add_property_, on the blob that has the name: the
      gap, or the rollback, and the copy. */
  function PlaceProp(b: bytes, next: nat, nameoff: nat, name: bytes, added: bool, val: bytes): (r: Outcome)
    requires Editable(b) && |val| <= INT_MAX - 16 && nameoff <= INT_MAX
    requires added ==> |name| + 1 <= SizeStrings(b)
    ensures |r.blob| == |b|
  {
    AlignIsPad(|val|);
    var size := 12 + Align4(|val|);
    var p := OffStruct(b) + next;
    var e := SpliceError(b, p, 0, size);
    if e != 0 then Outcome(e, if added then DelString(b, name) else b)
    else Outcome(0, LayProp(SpliceStruct(b, next, 0, size), p, nameoff, val))
  }

  /** fdt_add_property_, and the copy. */
  function AddProp(b: bytes, node: int, name: bytes, val: bytes): (r: Outcome)
    requires Editable(b) && |val| <= INT_MAX - 16
    ensures |r.blob| == |b|
  {
    var next := CheckNode(StructOf(b), node);
    if next < 0 then Outcome(next, b)
    else if WithName(b, name).err != 0 then WithName(b, name)
    else
      NameAdded(b, name);
      PlaceProp(WithName(b, name).blob, next, NameOffset(b, name), name, FindString(StringsOf(b), name, 0) < 0, val)
  }

  /** Looking a name up or adding it leaves an editable blob in which the name
      stands at its offset; nothing but the strings block has grown. */
  lemma NameAdded(b: bytes, name: bytes)
    requires Editable(b) && WithName(b, name).err == 0
    ensures var r := WithName(b, name).blob;
            && |r| == |b| && Editable(r) && OffStruct(r) == OffStruct(b) && StructOf(r) == StructOf(b)
            && Prefix(r) == Prefix(b) && StringsOf(b) <= StringsOf(r)
            && HeaderOf(r) == HeaderOf(b).(sizeStrings := SizeStrings(r))
            && SizeStrings(r) == SizeStrings(b) + (if FindString(StringsOf(b), name, 0) >= 0 then 0 else |name| + 1)
            && (0 !in name ==> CString(StringsOf(r), NameOffset(b, name)) == Found(name))
  {
    hide U32, AddString, StructOf, FindString;
    if FindString(StringsOf(b), name, 0) >= 0 {
      if 0 !in name { FindStringIs(StringsOf(b), name); }
    } else {
      AddStringIs(b, name);
      if 0 !in name { NewString(StringsOf(b), name); }
    }
  }

  lemma NewString(t: bytes, name: bytes)
    requires 0 !in name
    ensures CString(t + (name + [0]), |t|) == Found(name)
  {
    var u := t + (name + [0]);
    assert u[|t|..|t| + |name|] == name && u[|t| + |name|] == 0;
    NameEndIs(u, |t|, name);
  }

  /** fdt_setprop on the blob `b` at address `at`. */
  function SetProp(b: bytes, at: nat, node: int, name: bytes, val: bytes): (r: Outcome)
    requires Given(b) && |val| <= INT_MAX - 16
    ensures |r.blob| == |b|
  {
    if RwProbe(b, at) != 0 then Outcome(RwProbe(b, at), b)
    else
      ProbeEditable(b, at);
      var o := PropOffset(b, at, node, name);
      if o >= 0 then ResizeProp(b, o, val)
      else if o == ERR_NOTFOUND then AddProp(b, node, name, val)
      else Outcome(o, b)
  }

  lemma ProbeEditable(b: bytes, at: nat)
    requires Given(b) && RwProbe(b, at) == 0
    ensures Editable(b) && Probe(b, at) >= 0
  {
    RwProbeIs(b, at);
  }

  // ----- the same in memory

  method SetProperty(mem: array<byte>, fdt: nat, n: nat, node: int, name: bytes, val: bytes) returns (err: int)
    requires fdt + n <= mem.Length && Given(mem[fdt..fdt + n])
    requires node <= INT_MAX && |val| <= INT_MAX - 16
    modifies mem
    ensures err == SetProp(old(mem[fdt..fdt + n]), fdt, node, name, val).err
    ensures Window(mem[..], old(mem[..]), fdt, SetProp(old(mem[fdt..fdt + n]), fdt, node, name, val).blob)
  {
    hide U32, Window, NextTag, PropOffset, Misordered, Probe, ResizeProp, AddProp;
    var b := mem[fdt..fdt + n];
    ghost var m0 := mem[..];
    assert m0[fdt..fdt + n] == b;
    WindowStart(m0, fdt, n);
    err := RwProbe(b, fdt);
    if err != 0 {
      return;
    }
    ProbeEditable(b, fdt);
    var o := FindProp(b, fdt, node, name);
    if o >= 0 {
      err := ResizeProperty(mem, fdt, o, val, m0, b);
    } else if o == ERR_NOTFOUND {
      err := AddProperty(mem, fdt, node, name, val, m0, b);
    } else {
      err := o;
    }
  }

  method ResizeProperty(mem: array<byte>, fdt: nat, o: nat, val: bytes, ghost m0: bytes, b: bytes) returns (err: int)
    requires Window(mem[..], m0, fdt, b) && Editable(b)
    requires NextTag(StructOf(b), o).tag == PROP && |val| <= INT_MAX - 16
    modifies mem
    ensures err == ResizeProp(b, o, val).err && Window(mem[..], m0, fdt, ResizeProp(b, o, val).blob)
  {
    hide Window, U32, NextTag, Put, SpliceStruct, Overwrite, Align4;
    PropThere(StructOf(b), o);
    StructWord(b, o + 4);
    var was := Align4(U32(b, OffStruct(b) + o + 4));
    AlignIsPad(U32(StructOf(b), o + 4));
    AlignIsPad(|val|);
    var p := OffStruct(b) + o + 12;
    err := SpliceStructAt(mem, fdt, o + 12, was, Align4(|val|), m0, b);
    if err != 0 {
      return;
    }
    ghost var b1 := SpliceStruct(b, o + 12, was, Align4(|val|));
    StoreField(mem, fdt, p - 8, |val|, m0, b1);
    StoreIn(mem, fdt, p, val, m0, Put(b1, p - 8, |val|));
  }

  method AddProperty(mem: array<byte>, fdt: nat, node: int, name: bytes, val: bytes, ghost m0: bytes, b: bytes)
    returns (err: int)
    requires Window(mem[..], m0, fdt, b) && Editable(b)
    requires node <= INT_MAX && |val| <= INT_MAX - 16
    modifies mem
    ensures err == AddProp(b, node, name, val).err && Window(mem[..], m0, fdt, AddProp(b, node, name, val).blob)
  {
    hide Window, U32, NextTag, AddString, FindString, PlaceProp;
    var next := CheckNodeOffset(b, node);
    if next < 0 {
      return next;
    }
    var added: bool, nameoff: int;
    err, nameoff, added := FindAddString(mem, fdt, name, m0, b);
    if err != 0 {
      return;
    }
    NameAdded(b, name);
    err := PlaceProperty(mem, fdt, next, nameoff, name, added, val, m0, WithName(b, name).blob);
  }

  method PlaceProperty(mem: array<byte>, fdt: nat, next: nat, nameoff: nat, name: bytes, added: bool, val: bytes,
                       ghost m0: bytes, ghost b: bytes)
    returns (err: int)
    requires Window(mem[..], m0, fdt, b) && Editable(b)
    requires |val| <= INT_MAX - 16 && nameoff <= INT_MAX && (added ==> |name| + 1 <= SizeStrings(b))
    modifies mem
    ensures err == PlaceProp(b, next, nameoff, name, added, val).err
    ensures Window(mem[..], m0, fdt, PlaceProp(b, next, nameoff, name, added, val).blob)
  {
    hide Window, U32, Put, SpliceStruct, Overwrite, Align4, LayProp;
    AlignIsPad(|val|);
    var size := 12 + Align4(|val|);
    err := SpliceStructAt(mem, fdt, next, 0, size, m0, b);
    if err == 0 {
      ghost var b1 := SpliceStruct(b, next, 0, size);
      SpliceStructField(b, next, 0, size);
      var offStruct := LoadField(mem, fdt, 8, m0, b1);
      LayProperty(mem, fdt, offStruct + next, nameoff, val, m0, b1);
    } else if added {
      var sizeStrings := LoadField(mem, fdt, 32, m0, b);
      StoreField(mem, fdt, 32, sizeStrings - (|name| + 1), m0, b);
    }
  }

  method FindAddString(mem: array<byte>, fdt: nat, name: bytes, ghost m0: bytes, b: bytes)
    returns (err: int, nameoff: int, added: bool)
    requires Window(mem[..], m0, fdt, b) && Editable(b)
    modifies mem
    ensures err == WithName(b, name).err && Window(mem[..], m0, fdt, WithName(b, name).blob)
    ensures err == 0 ==> nameoff == NameOffset(b, name)
    ensures err == 0 ==> (added <==> FindString(StringsOf(b), name, 0) < 0)
  {
    hide Window, U32, Put, Overwrite;
    added := false;
    nameoff := SearchString(mem, fdt, name, m0, b);
    if nameoff >= 0 {
      return 0, nameoff, added;
    }
    var top := OffStrings(b) + SizeStrings(b);
    err := SpliceAt(mem, fdt, top, 0, |name| + 1, m0, b);
    if err != 0 {
      return;
    }
    EmptySplice(b, |name| + 1);
    StoreField(mem, fdt, 32, SizeStrings(b) + |name| + 1, m0, b);
    added := true;
    ghost var b1 := Put(b, 32, SizeStrings(b) + |name| + 1);
    StoreIn(mem, fdt, top, name, m0, b1);
    StoreIn(mem, fdt, top + |name|, [0], m0, Overwrite(b1, top, name));
    OverwriteTwice(b1, top, name, [0]);
    nameoff := SizeStrings(b);
  }

  /** Opening a gap at the very end of the data moves nothing. */
  lemma EmptySplice(b: bytes, newlen: nat)
    requires BlocksInside(b) && SpliceError(b, DataSize(b), 0, newlen) == 0
    ensures Splice(b, DataSize(b), 0, newlen) == b
  {
    hide U32;
  }

  lemma OverwriteTwice(b: bytes, at: nat, s: bytes, t: bytes)
    requires at + |s| + |t| <= |b|
    ensures Overwrite(Overwrite(b, at, s), at + |s|, t) == Overwrite(b, at, s + t)
  {
    var x, y := Overwrite(Overwrite(b, at, s), at + |s|, t), Overwrite(b, at, s + t);
    assert |x| == |y| && forall i :: 0 <= i < |x| ==> x[i] == y[i];
  }

  method LayProperty(mem: array<byte>, fdt: nat, p: nat, nameoff: u32, val: bytes, ghost m0: bytes, ghost b: bytes)
    requires Window(mem[..], m0, fdt, b) && p + 12 + |val| <= |b| && |val| <= INT_MAX
    modifies mem
    ensures Window(mem[..], m0, fdt, LayProp(b, p, nameoff, val))
  {
    hide Window, Put, Overwrite;
    StoreField(mem, fdt, p, PROP, m0, b);
    ghost var b1 := Put(b, p, PROP);
    StoreField(mem, fdt, p + 8, nameoff, m0, b1);
    ghost var b2 := Put(b1, p + 8, nameoff);
    StoreField(mem, fdt, p + 4, |val|, m0, b2);
    StoreIn(mem, fdt, p + 12, val, m0, Put(b2, p + 4, |val|));
  }
}
