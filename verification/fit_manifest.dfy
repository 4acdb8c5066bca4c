/** src/chainload/fit.c: which plan a FIT asks for, told from the properties of
    its nodes, and that chain_fit_parse accepts exactly such FITs with exactly
    that plan. */
module FitManifest {
  import opened Bytes
  import opened FdtWalk
  import opened FdtNodes
  import opened FdtRead
  import opened FdtCheck
  import opened FdtLookup
  import opened FitImage
  import opened FitPlan

  // ----- what properties say

  /** The data begin with the C string `s`. */
  predicate Starts(data: bytes, s: bytes) {
    0 !in s && |s| < |data| && data[..|s|] == s && data[|s|] == 0
  }

  predicate Says(b: bytes, at: nat, node: int, prop: string, s: string)
    requires InMemory(b)
  {
    FieldOf(b, at, node, prop).Field? && Starts(FieldOf(b, at, node, prop).data, Ascii(s))
  }

  /** Strings one behind the other, each with its NUL. */
  function Strung(list: seq<bytes>): bytes {
    if list == [] then [] else list[0] + [0] + Strung(list[1..])
  }

  predicate Clean(list: seq<bytes>) {
    forall s :: s in list ==> 0 !in s
  }

  function BigEndian(s: bytes): nat {
    if s == [] then 0 else 0x100 * BigEndian(s[..|s| - 1]) + s[|s| - 1]
  }

  /** One or two cells. */
  predicate Cells(f: Field) {
    f.Field? && |f.data| in {4, 8}
  }

  /** The entry point that the node gives; all ones if it gives none. */
  function GivenEntry(f: Field): nat {
    if f.NoField? then ADDRESS_MAX else BigEndian(f.data)
  }

  // ----- what a node says about its image

  /** Inline, uncompressed data with a good hash, and an entry point if any. */
  predicate Described(b: bytes, at: nat, images: int, x: Image)
    requires InMemory(b) && |b| < INT_MAX
  {
    var node := SubnodeOffset(b, at, images, x.name);
    && node >= 0
    && FieldOf(b, at, node, "data-position").NoField? && FieldOf(b, at, node, "data-offset").NoField?
    && Says(b, at, node, "compression", "none")
    && x.size > 0 && x.data + x.size <= |b|
    && FieldOf(b, at, node, "data") == Field(x.data, b[x.data..x.data + x.size])
    && HashesMatch(b, at, node, b[x.data..x.data + x.size])
    && var entry := FieldOf(b, at, node, "entry");
    && (entry.Field? ==> Cells(entry)) && (x.explicit <==> entry.Field?)
    && x.kind == StringProp(b, at, node, "type") && x.os == StringProp(b, at, node, "os")
  }

  /** A control DTB: for any machine or for ours, and not to be placed. */
  predicate DescribedFdt(b: bytes, at: nat, node: int, x: Image)
    requires InMemory(b)
  {
    && Says(b, at, node, "type", "flat_dt")
    && (StringProp(b, at, node, "arch").Missing? || Says(b, at, node, "arch", "arm64"))
    && FieldOf(b, at, node, "load").NoField? && GivenEntry(FieldOf(b, at, node, "entry")) == ADDRESS_MAX
    && x.role == FDT && x.load == 0 && x.entry == ADDRESS_MAX && !x.record
  }

  /** Code for our machine, at the address that the node gives. */
  predicate Placed(b: bytes, at: nat, node: int, x: Image, primary: bool)
    requires InMemory(b)
  {
    && !Says(b, at, node, "type", "flat_dt") && Says(b, at, node, "arch", "arm64")
    && Cells(FieldOf(b, at, node, "load")) && x.load == BigEndian(FieldOf(b, at, node, "load").data)
    && x.load + x.size <= ADDRESS_MAX && (x.record <==> !primary)
  }

  predicate DescribedBl33(b: bytes, at: nat, node: int, p: Platform, x: Image)
    requires InMemory(b)
  {
    var entry := GivenEntry(FieldOf(b, at, node, "entry"));
    && Says(b, at, node, "type", "standalone")
    && (Says(b, at, node, "os", "U-Boot") || Says(b, at, node, "os", "u-boot"))
    && x.role == BL33 && x.load == p.bl33Entry && x.load + x.size <= p.bl33Limit
    && x.entry == p.bl33Entry && x.entry == if entry == ADDRESS_MAX then x.load else entry
  }

  predicate DescribedBl31(b: bytes, at: nat, node: int, p: Platform, x: Image, primary: bool)
    requires InMemory(b)
  {
    var entry := GivenEntry(FieldOf(b, at, node, "entry"));
    && Says(b, at, node, "type", "firmware") && Says(b, at, node, "os", "arm-trusted-firmware")
    && x.role == BL31 && (exists r :: r in p.bl31Ranges && r.start <= x.load && x.load + x.size <= r.end)
    && x.entry == (if primary && entry == ADDRESS_MAX then x.load else entry)
    && (x.entry == ADDRESS_MAX || x.entry == p.bl31Entry)
  }

  predicate Acceptable(b: bytes, at: nat, node: int, p: Platform, x: Image, primary: bool)
    requires InMemory(b)
  {
    || DescribedFdt(b, at, node, x)
    || (Placed(b, at, node, x, primary)
        && (DescribedBl33(b, at, node, p, x) || DescribedBl31(b, at, node, p, x, primary)))
  }

  /** The image that the node of that name describes. */
  predicate IsImage(b: bytes, at: nat, images: int, p: Platform, name: bytes, primary: bool, x: Image)
    requires InMemory(b) && |b| < INT_MAX
  {
    && x.name == name && Described(b, at, images, x)
    && Acceptable(b, at, SubnodeOffset(b, at, images, name), p, x, primary)
  }

  // ----- what the default configuration asks for

  predicate Configured(b: bytes, at: nat, conf: int, firmware: bytes, loadables: seq<bytes>, fdt: bytes)
    requires InMemory(b)
  {
    && FieldOf(b, at, conf, "firmware").Field? && Starts(FieldOf(b, at, conf, "firmware").data, firmware)
    && FieldOf(b, at, conf, "loadables").Field? && FieldOf(b, at, conf, "loadables").data == Strung(loadables)
    && loadables != [] && Clean(loadables)
    && FieldOf(b, at, conf, "fdt").Field? && Starts(FieldOf(b, at, conf, "fdt").data, fdt)
  }

  predicate DefaultIs(b: bytes, at: nat, name: bytes, conf: int)
    requires InMemory(b)
  {
    var configurations := PathOffset(b, at, Ascii("/configurations"));
    && configurations >= 0 && PathOffset(b, at, Ascii("/images")) >= 0
    && FieldOf(b, at, configurations, "default").Field?
    && Starts(FieldOf(b, at, configurations, "default").data, name)
    && conf == SubnodeOffset(b, at, configurations, name) && conf >= 0
  }

  /** The images of the plan are, in order, the firmware, all loadables and the
      control DTB; the first is the primary one. */
  predicate Chosen(b: bytes, at: nat, p: Platform, firmware: bytes, loadables: seq<bytes>, fdt: bytes, xs: seq<Image>)
    requires InMemory(b) && |b| < INT_MAX
  {
    var names := [firmware] + loadables + [fdt];
    && |xs| == |names| <= 8
    && forall i :: 0 <= i < |xs| ==>
                     IsImage(b, at, PathOffset(b, at, Ascii("/images")), p, names[i], i == 0, xs[i])
  }

  /** One control DTB, one U-Boot, at least one BL31 segment and as many as the
      board wants, one BL31 entry point, and ranges that keep clear of each
      other, of the staging arena and of the parameters. */
  ghost predicate Complete(p: Platform, plan: Plan) {
    var xs, n := plan.images, |plan.images|;
    && plan.fdtIndex < n && (forall i :: 0 <= i < n ==> (xs[i].role == FDT <==> i == plan.fdtIndex))
    && plan.bl33Index < n && (forall i :: 0 <= i < n ==> (xs[i].role == BL33 <==> i == plan.bl33Index))
    && n >= 3 && plan.bl31Count == n - 2 && (p.segments != 0 ==> n - 2 == p.segments)
    && p.bl31Entry != 0 && plan.bl31Entry == p.bl31Entry && plan.bl33Entry == p.bl33Entry
    && (exists k :: 0 <= k < n && OnlyEntry(xs, k))
    && Apart(xs) && AllClear(p, xs)
    && var start, size := xs[plan.bl33Index].load + xs[plan.bl33Index].size, xs[plan.fdtIndex].size + 8192;
    && plan.controlFdt == start && plan.capacity == size
    && start + size <= ADDRESS_MAX && start + size <= p.bl33Limit && p.params + PARAMS_RESERVE <= ADDRESS_MAX
    && Clear(p, start, start + size)
  }

  predicate HasEntry(x: Image) {
    x.role == BL31 && x.entry != ADDRESS_MAX
  }

  predicate OnlyEntry(xs: seq<Image>, k: nat)
    requires k < |xs|
  {
    HasEntry(xs[k]) && forall i :: 0 <= i < |xs| && i != k ==> !HasEntry(xs[i])
  }

  /** The FIT asks for that plan. */
  ghost predicate AsksFor(b: bytes, at: nat, p: Platform, plan: Plan)
    requires HEADER_SIZE <= |b| < INT_MAX && Version(b) >= 17
  {
    && CheckHeader(b, at) == 0 && TotalSize(b) <= |b|
    && InMemory(b) && Complete(p, plan)
    && exists name, conf, firmware, loadables, fdt ::
         DefaultIs(b, at, name, conf) && Configured(b, at, conf, firmware, loadables, fdt)
         && Chosen(b, at, p, firmware, loadables, fdt, plan.images)
  }

  // ----- strings

  lemma StartsIs(data: bytes, s: bytes)
    ensures Starts(data, s) <==> CString(data, 0) == Found(s)
  {
    if Starts(data, s) {
      assert forall i :: 0 <= i < |s| ==> data[i] == s[i] && s[i] in s;
      NameEndIs(data, 0, s);
    }
  }

  lemma SaysIs(b: bytes, at: nat, node: int, prop: string, s: string)
    requires InMemory(b)
    ensures Says(b, at, node, prop, s) <==> Is(StringProp(b, at, node, prop), s)
  {
    hide InMemory, FieldOf, CString, Starts, Ascii;
    var f := FieldOf(b, at, node, prop);
    if f.Field? { StartsIs(f.data, Ascii(s)); }
  }

  lemma FirstItem(f: Field, s: bytes)
    ensures f.Field? && Starts(f.data, s) <==> ItemOf(f, 0) == Found(s)
  {
    if f.Field? { StartsIs(f.data, s); }
  }

  lemma {:induction false} StrungItem(list: seq<bytes>, i: nat)
    requires Clean(list) && i < |list|
    ensures ListItem(Strung(list), i) == Found(list[i])
    decreases i
  {
    var s, rest := list[0], Strung(list[1..]);
    StrungFirst(list);
    if i > 0 { StrungItem(list[1..], i - 1); }
  }

  lemma StrungFirst(list: seq<bytes>)
    requires Clean(list) && list != []
    ensures var d, s := Strung(list), list[0];
            && |s| < |d| && NameEnd(d, 0) == |s| && d[..|s|] == s && d[|s| + 1..] == Strung(list[1..])
  {
    var s, rest := list[0], Strung(list[1..]);
    var d := s + [0] + rest;
    assert s in list;
    assert d[0..|s|] == s && d[|s|] == 0;
    NameEndIs(d, 0, s);
    assert d[|s| + 1..] == rest;
  }

  lemma {:induction false} StrungCount(list: seq<bytes>, count: nat)
    requires Clean(list)
    ensures ListCount(Strung(list), count) == count + |list|
    decreases |list|
  {
    if list != [] {
      StrungFirst(list);
      StrungCount(list[1..], count + 1);
    }
  }

  /** Every list that counts is such a string of strings. */
  lemma {:induction false} CountedStrung(data: bytes, count: nat) returns (list: seq<bytes>)
    requires ListCount(data, count) >= 0
    ensures Clean(list) && data == Strung(list) && ListCount(data, count) == count + |list|
    decreases |data|
  {
    if data == [] {
      list := [];
    } else {
      var e := NameEnd(data, 0);
      var more := CountedStrung(data[e + 1..], count + 1);
      var s := data[..e];
      assert forall i :: 0 <= i < e ==> data[i] != 0;
      list := [s] + more;
      assert list[1..] == more;
      assert data == s + [0] + data[e + 1..];
    }
  }

  // ----- numbers

  lemma BigEndian4(s: bytes)
    requires |s| == 4
    ensures BigEndian(s) == U32(s, 0)
  {
    var a, c, d := s[..3], s[..2], s[..1];
    assert a[..2] == c && c[..1] == d && d[..0] == [];
    assert BigEndian(d) == s[0];
    assert BigEndian(c) == 0x100 * s[0] as int + s[1];
    assert BigEndian(a) == 0x100 * (0x100 * s[0] as int + s[1]) + s[2];
  }

  lemma {:induction false} BigEndianAppend(s: bytes, t: bytes)
    requires |t| == 4
    ensures BigEndian(s + t) == BigEndian(s) * TWO32 + BigEndian(t)
  {
    var u := s + t;
    var u1, u2, u3 := s + t[..3], s + t[..2], s + t[..1];
    assert u[..|s| + 3] == u1 && u1[..|s| + 2] == u2 && u2[..|s| + 1] == u3 && u3[..|s|] == s;
    var a, c, d := t[..3], t[..2], t[..1];
    assert a[..2] == c && c[..1] == d && d[..0] == [];
    assert BigEndian(u3) == 0x100 * BigEndian(s) + t[0];
    assert BigEndian(u2) == 0x100 * BigEndian(u3) + t[1];
    assert BigEndian(u1) == 0x100 * BigEndian(u2) + t[2];
    assert BigEndian(u) == 0x100 * BigEndian(u1) + t[3];
    BigEndian4(t);
    assert BigEndian(t) == 0x100_0000 * t[0] as int + 0x1_0000 * t[1] as int + 0x100 * t[2] as int + t[3];
  }

  /** address_prop reads a big-endian number of one or two cells. */
  lemma AddressIs(b: bytes, at: nat, node: int, name: string)
    requires InMemory(b)
    ensures var f, a := FieldOf(b, at, node, name), AddressProp(b, at, node, name);
            && (a.Absent? <==> f.NoField?) && (a.Malformed? <==> f.Field? && !Cells(f))
            && (a.Address? ==> Cells(f) && a.value == BigEndian(f.data))
  {
    hide InMemory, FieldOf, U32, BigEndian;
    var f := FieldOf(b, at, node, name);
    if Cells(f) {
      if |f.data| == 4 {
        BigEndian4(f.data);
      } else {
        var s, t := f.data[..4], f.data[4..];
        assert f.data == s + t;
        BigEndianAppend(s, t);
        BigEndian4(s);
        BigEndian4(t);
        WordSame(s, f.data, 0, 0);
        WordSame(t, f.data, 0, 4);
      }
    }
  }

  // ----- add_image

  /** What add_image reads, if the node describes the image. */
  function Read(b: bytes, at: nat, images: int, x: Image, primary: bool): Candidate
    requires InMemory(b)
  {
    var node := SubnodeOffset(b, at, images, x.name);
    var f := FieldOf(b, at, node, "entry");
    AddressIs(b, at, node, "entry");
    Candidate(Image(x.name, x.data, x.size, 0,
                    if Cells(f) then AddressProp(b, at, node, "entry").value else ADDRESS_MAX,
                    x.explicit, x.kind, x.os, FDT, !primary),
              StringProp(b, at, node, "arch"), AddressProp(b, at, node, "load"))
  }

  lemma ReadIs(b: bytes, at: nat, images: int, x: Image, primary: bool)
    requires InMemory(b) && |b| < INT_MAX
    ensures Described(b, at, images, x) <==>
              ReadImage(b, at, images, x.name, primary) == Read(b, at, images, x, primary)
  {
    hide InMemory, FieldOf, SubnodeOffset, StringProp, Says, AddressProp, HashesMatch, BigEndian;
    var node := SubnodeOffset(b, at, images, x.name);
    SaysIs(b, at, node, "compression", "none");
    AddressIs(b, at, node, "entry");
    FieldIs(b, at, node, "data");
  }

  /** The plan has room for an image of that role. */
  predicate Room(plan: Plan, x: Image) {
    match x.role
    case FDT => plan.fdtIndex == NO_INDEX
    case BL33 => plan.bl33Index == NO_INDEX
    case BL31 => x.entry == ADDRESS_MAX || plan.bl31Entry == 0
  }

  function Step(plan: Plan, x: Image): Plan {
    var longer := plan.(images := plan.images + [x]);
    match x.role
    case FDT => longer.(fdtIndex := |plan.images|)
    case BL33 => longer.(bl33Index := |plan.images|, bl33Entry := x.entry)
    case BL31 => longer.(bl31Count := plan.bl31Count + 1,
                         bl31Entry := if x.entry != ADDRESS_MAX then x.entry else plan.bl31Entry)
  }

  /** The texts that add_image compares with are different. */
  lemma OneSystem(t: Text)
    ensures Is(t, "U-Boot") || Is(t, "u-boot") ==> !Is(t, "tee") && !Is(t, "op-tee") && !Is(t, "arm-trusted-firmware")
    ensures Is(t, "arm-trusted-firmware") ==> !Is(t, "tee") && !Is(t, "op-tee")
  {
    assert Ascii("U-Boot")[0] != Ascii("op-tee")[0] && Ascii("u-boot")[0] != Ascii("op-tee")[0];
  }

  lemma OneKind(t: Text)
    ensures Is(t, "flat_dt") ==> !Is(t, "standalone") && !Is(t, "firmware")
  {
    assert |Ascii("flat_dt")| == 7 && |Ascii("standalone")| == 10 && |Ascii("firmware")| == 8;
  }

  /** All that Described and IsImage compare with texts. */
  lemma Texts(b: bytes, at: nat, node: int)
    requires InMemory(b)
    ensures var kind := StringProp(b, at, node, "type");
            && (Says(b, at, node, "type", "flat_dt") <==> Is(kind, "flat_dt"))
            && (Says(b, at, node, "type", "standalone") <==> Is(kind, "standalone"))
            && (Says(b, at, node, "type", "firmware") <==> Is(kind, "firmware"))
    ensures Says(b, at, node, "arch", "arm64") <==> Is(StringProp(b, at, node, "arch"), "arm64")
    ensures var os := StringProp(b, at, node, "os");
            && (Says(b, at, node, "os", "U-Boot") <==> Is(os, "U-Boot"))
            && (Says(b, at, node, "os", "u-boot") <==> Is(os, "u-boot"))
            && (Says(b, at, node, "os", "arm-trusted-firmware") <==> Is(os, "arm-trusted-firmware"))
  {
    hide InMemory, Says, Is, StringProp;
    SaysIs(b, at, node, "type", "flat_dt");
    SaysIs(b, at, node, "type", "standalone");
    SaysIs(b, at, node, "type", "firmware");
    SaysIs(b, at, node, "arch", "arm64");
    SaysIs(b, at, node, "os", "U-Boot");
    SaysIs(b, at, node, "os", "u-boot");
    SaysIs(b, at, node, "os", "arm-trusted-firmware");
  }

  /** What the placement needs of the description. */
  lemma FromDescription(b: bytes, at: nat, images: int, x: Image)
    requires InMemory(b) && |b| < INT_MAX && Described(b, at, images, x)
    ensures var node := SubnodeOffset(b, at, images, x.name);
            && x.size > 0 && x.kind == StringProp(b, at, node, "type") && x.os == StringProp(b, at, node, "os")
            && (FieldOf(b, at, node, "entry").Field? ==> Cells(FieldOf(b, at, node, "entry")))
  {
    hide InMemory, FieldOf, SubnodeOffset, StringProp, Says, HashesMatch;
  }

  /** The description does not speak of the place, the role and the record. */
  lemma DescribedAlike(b: bytes, at: nat, images: int, x: Image, y: Image)
    requires InMemory(b) && |b| < INT_MAX && Described(b, at, images, x)
    requires y == x.(load := y.load, entry := y.entry, role := y.role, record := y.record)
    ensures Described(b, at, images, y)
  {
    hide InMemory, FieldOf, SubnodeOffset, StringProp, Says, HashesMatch;
  }

  lemma PlaceTakes(b: bytes, at: nat, images: int, p: Platform, plan: Plan, x: Image, primary: bool)
    requires InMemory(b) && |b| < INT_MAX && Described(b, at, images, x) && Room(plan, x)
    requires Acceptable(b, at, SubnodeOffset(b, at, images, x.name), p, x, primary)
    ensures Place(p, plan, Read(b, at, images, x, primary), primary) == Accept(Step(plan, x))
  {
    hide InMemory, FieldOf, SubnodeOffset, StringProp, Says, AddressProp, HashesMatch, BigEndian, Is, Allowed;
    hide Described;
    FromDescription(b, at, images, x);
    var node := SubnodeOffset(b, at, images, x.name);
    Texts(b, at, node);
    OneSystem(x.os);
    OneKind(x.kind);
    AddressIs(b, at, node, "entry");
    AddressIs(b, at, node, "load");
    Allow(p, x);
  }

  lemma Allow(p: Platform, x: Image)
    requires x.size > 0
    ensures Allowed(p, x.load, End(x)) <==>
              exists r :: r in p.bl31Ranges && r.start <= x.load && x.load + x.size <= r.end
  {}

  /** The image that add_image appends. */
  lemma PlaceGives(b: bytes, at: nat, images: int, p: Platform, plan: Plan, y: Image, primary: bool)
    returns (x: Image)
    requires InMemory(b) && |b| < INT_MAX && Described(b, at, images, y)
    requires Place(p, plan, Read(b, at, images, y, primary), primary).Accept?
    ensures x.name == y.name && Described(b, at, images, x)
    ensures Acceptable(b, at, SubnodeOffset(b, at, images, x.name), p, x, primary)
    ensures Place(p, plan, Read(b, at, images, y, primary), primary).plan.images == plan.images + [x]
  {
    hide InMemory, FieldOf, SubnodeOffset, StringProp, Says, AddressProp, HashesMatch, BigEndian, Is, Allowed;
    hide Described;
    FromDescription(b, at, images, y);
    var node := SubnodeOffset(b, at, images, y.name);
    Texts(b, at, node);
    AddressIs(b, at, node, "entry");
    AddressIs(b, at, node, "load");
    var q := Place(p, plan, Read(b, at, images, y, primary), primary).plan;
    x := q.images[|plan.images|];
    DescribedAlike(b, at, images, y, x);
    Allow(p, x);
  }

  lemma AddTakes(b: bytes, at: nat, images: int, p: Platform, plan: Plan, name: bytes, primary: bool, x: Image)
    requires InMemory(b) && |b| < INT_MAX && IsImage(b, at, images, p, name, primary, x)
    requires |plan.images| < MAX_IMAGES && Room(plan, x)
    ensures AddImage(b, at, images, name, primary, p, plan) == Accept(Step(plan, x))
  {
    hide InMemory, ReadImage, Read, Described, Acceptable, Place, Step, Room, SubnodeOffset;
    ReadIs(b, at, images, x, primary);
    PlaceTakes(b, at, images, p, plan, x, primary);
    ReadReads(b, at, images, x, primary);
  }

  lemma ReadReads(b: bytes, at: nat, images: int, x: Image, primary: bool)
    requires InMemory(b)
    ensures Read(b, at, images, x, primary).Candidate?
  {}

  lemma AddGives(b: bytes, at: nat, images: int, p: Platform, plan: Plan, name: bytes, primary: bool)
    returns (x: Image)
    requires InMemory(b) && |b| < INT_MAX && AddImage(b, at, images, name, primary, p, plan).Accept?
    ensures IsImage(b, at, images, p, name, primary, x)
    ensures AddImage(b, at, images, name, primary, p, plan).plan.images == plan.images + [x]
  {
    hide InMemory, Described, Acceptable, Place, SubnodeOffset, ReadImage, Read;
    var y := ReadGives(b, at, images, name, primary);
    ReadIs(b, at, images, y, primary);
    x := PlaceGives(b, at, images, p, plan, y, primary);
  }

  /** Whatever add_image reads is what some image of that name would say. */
  lemma ReadGives(b: bytes, at: nat, images: int, name: bytes, primary: bool) returns (y: Image)
    requires InMemory(b) && |b| < INT_MAX && ReadImage(b, at, images, name, primary).Candidate?
    ensures y.name == name && ReadImage(b, at, images, name, primary) == Read(b, at, images, y, primary)
  {
    hide InMemory, FieldOf, SubnodeOffset, StringProp, AddressProp, HashesMatch, BigEndian, Is;
    y := ReadImage(b, at, images, name, primary).image;
    AddressIs(b, at, SubnodeOffset(b, at, images, name), "entry");
  }

  // ----- the lists of the configuration

  lemma {:induction false} ListGives(b: bytes, at: nat, images: int, list: seq<bytes>, i: nat, p: Platform, plan: Plan)
    returns (xs: seq<Image>)
    requires InMemory(b) && |b| < INT_MAX && Clean(list) && i <= |list|
    requires AddListed(b, at, images, Strung(list), i, |list|, p, plan).Accept?
    ensures AddListed(b, at, images, Strung(list), i, |list|, p, plan).plan.images == plan.images + xs
    ensures |xs| == |list| - i
    ensures forall j :: i <= j < |list| ==> IsImage(b, at, images, p, list[j], false, xs[j - i])
    decreases |list| - i
  {
    hide InMemory, IsImage, AddImage, ListItem, Strung, Clean;
    xs := [];
    if i < |list| {
      StrungItem(list, i);
      var x := AddGives(b, at, images, p, plan, list[i], false);
      var q := AddImage(b, at, images, list[i], false, p, plan).plan;
      var more := ListGives(b, at, images, list, i + 1, p, q);
      xs := [x] + more;
      assert plan.images + [x] + more == plan.images + xs;
      forall j | i <= j < |list| ensures IsImage(b, at, images, p, list[j], false, xs[j - i]) {
        assert j > i ==> xs[j - i] == more[j - (i + 1)];
      }
    }
  }

  /** The plan behind the first `n` images; image `k` has the entry point. */
  function Part(p: Platform, plan: Plan, k: nat, n: nat): Plan
    requires n <= |plan.images|
  {
    var u, f := plan.bl33Index < n, plan.fdtIndex < n;
    Plan(plan.images[..n], (if u && f && n >= 2 then n - 2 else if (u || f) && n >= 1 then n - 1 else n),
         if u then plan.bl33Index else NO_INDEX, if f then plan.fdtIndex else NO_INDEX,
         if k < n then p.bl31Entry else 0, if u then p.bl33Entry else 0, 0, 0)
  }

  /** The roles, the entry point and the number of images of a complete plan. */
  predicate Cast(plan: Plan, k: nat) {
    var xs, n := plan.images, |plan.images|;
    && plan.fdtIndex < n <= 8 && (forall i :: 0 <= i < n ==> (xs[i].role == FDT <==> i == plan.fdtIndex))
    && plan.bl33Index < n && (forall i :: 0 <= i < n ==> (xs[i].role == BL33 <==> i == plan.bl33Index))
    && k < n && OnlyEntry(xs, k)
  }

  lemma PartStep(b: bytes, at: nat, images: int, p: Platform, plan: Plan, k: nat, n: nat, name: bytes, primary: bool)
    requires InMemory(b) && |b| < INT_MAX && Cast(plan, k) && n < |plan.images|
    requires IsImage(b, at, images, p, name, primary, plan.images[n])
    ensures AddImage(b, at, images, name, primary, p, Part(p, plan, k, n)) == Accept(Part(p, plan, k, n + 1))
  {
    hide InMemory, AddImage, IsImage;
    var x, q := plan.images[n], Part(p, plan, k, n);
    assert plan.images[..n + 1] == plan.images[..n] + [x];
    RoleIs(b, at, images, p, name, primary, x);
    assert HasEntry(x) <==> n == k;
    assert plan.images[plan.bl33Index].role == BL33 && plan.images[plan.fdtIndex].role == FDT;
    assert Room(q, x);
    assert Step(q, x) == Part(p, plan, k, n + 1);
    AddTakes(b, at, images, p, q, name, primary, x);
  }

  lemma RoleIs(b: bytes, at: nat, images: int, p: Platform, name: bytes, primary: bool, x: Image)
    requires InMemory(b) && |b| < INT_MAX && IsImage(b, at, images, p, name, primary, x)
    ensures x.role == BL33 ==> x.entry == p.bl33Entry
    ensures x.role == BL31 ==> x.entry == ADDRESS_MAX || x.entry == p.bl31Entry
  {
    hide InMemory, Described, Says, Placed, SubnodeOffset, FieldOf, StringProp;
  }

  lemma {:induction false} ListTakes(b: bytes, at: nat, images: int, list: seq<bytes>, i: nat, p: Platform, plan: Plan,
                                     k: nat)
    requires InMemory(b) && |b| < INT_MAX && Clean(list) && i <= |list| && Cast(plan, k) && |list| < |plan.images|
    requires forall j :: i <= j < |list| ==> IsImage(b, at, images, p, list[j], false, plan.images[j + 1])
    ensures AddListed(b, at, images, Strung(list), i, |list|, p, Part(p, plan, k, i + 1))
         == Accept(Part(p, plan, k, |list| + 1))
    decreases |list| - i
  {
    hide InMemory, IsImage, AddImage, ListItem, Strung, Clean, Cast, Part;
    if i < |list| {
      StrungItem(list, i);
      PartStep(b, at, images, p, plan, k, i + 1, list[i], false);
      ListTakes(b, at, images, list, i + 1, p, plan, k);
    }
  }

  // ----- the default configuration

  /** The loadables count, and are the strings one behind the other. */
  lemma LoadablesIs(f: Field) returns (list: seq<bytes>)
    requires f.Field? && ListCount(f.data, 0) >= 1
    ensures list != [] && Clean(list) && f.data == Strung(list) && ListCount(f.data, 0) == |list|
  {
    list := CountedStrung(f.data, 0);
  }

  lemma DefaultText(b: bytes, at: nat, name: bytes, conf: int)
    requires InMemory(b)
    ensures DefaultIs(b, at, name, conf) <==>
              var configurations := PathOffset(b, at, Ascii("/configurations"));
              && configurations >= 0 && PathOffset(b, at, Ascii("/images")) >= 0
              && StringProp(b, at, configurations, "default") == Found(name)
              && conf == SubnodeOffset(b, at, configurations, name) && conf >= 0
  {
    hide InMemory, FieldOf, SubnodeOffset, PathOffset, Starts, CString;
    var f := FieldOf(b, at, PathOffset(b, at, Ascii("/configurations")), "default");
    if f.Field? { StartsIs(f.data, name); }
  }

  lemma GatherGives(b: bytes, at: nat, p: Platform)
    returns (name: bytes, conf: int, firmware: bytes, loadables: seq<bytes>, fdt: bytes)
    requires InMemory(b) && |b| < INT_MAX && Gather(b, at, p).Accept?
    ensures DefaultIs(b, at, name, conf) && Configured(b, at, conf, firmware, loadables, fdt)
    ensures Chosen(b, at, p, firmware, loadables, fdt, Gather(b, at, p).plan.images)
  {
    hide InMemory, FieldOf, StringProp, SubnodeOffset, PathOffset, AddImage, AddListed, ListItem, ItemOf;
    hide Starts, Strung, Clean, ListCount, IsImage, Sound, DefaultIs;
    var images := PathOffset(b, at, Ascii("/images"));
    var configurations := PathOffset(b, at, Ascii("/configurations"));
    name := StringProp(b, at, configurations, "default").text;
    conf := SubnodeOffset(b, at, configurations, name);
    DefaultText(b, at, name, conf);
    firmware := ItemOf(FieldOf(b, at, conf, "firmware"), 0).text;
    FirstItem(FieldOf(b, at, conf, "firmware"), firmware);
    fdt := ItemOf(FieldOf(b, at, conf, "fdt"), 0).text;
    FirstItem(FieldOf(b, at, conf, "fdt"), fdt);
    MissingItem(FieldOf(b, at, conf, "firmware"));
    MissingItem(FieldOf(b, at, conf, "fdt"));
    var x := AddGives(b, at, images, p, EMPTY, firmware, true);
    var v := AddImage(b, at, images, firmware, true, p, EMPTY);
    loadables := LoadablesIs(FieldOf(b, at, conf, "loadables"));
    var xs := ListGives(b, at, images, loadables, 0, p, v.plan);
    var w := AddListed(b, at, images, Strung(loadables), 0, |loadables|, p, v.plan);
    var y := AddGives(b, at, images, p, w.plan, fdt, false);
    assert Gather(b, at, p) == AddImage(b, at, images, fdt, false, p, w.plan);
    assert Gather(b, at, p).plan.images == [x] + xs + [y];
    GatherSound(b, at, p);
    Few(b, at, p, Gather(b, at, p).plan);
    var names := [firmware] + loadables + [fdt];
    forall i | 0 <= i < |names|
      ensures IsImage(b, at, images, p, names[i], i == 0, ([x] + xs + [y])[i])
    {
      if 0 < i < |names| - 1 {
        assert names[i] == loadables[i - 1] && ([x] + xs + [y])[i] == xs[i - 1];
      }
    }
  }

  lemma MissingItem(f: Field)
    ensures ItemOf(f, 0).Found? ==> f.Field?
  {}

  lemma Few(b: bytes, at: nat, p: Platform, plan: Plan)
    requires InMemory(b) && |b| < INT_MAX && Sound(b, at, p, plan)
    ensures |plan.images| <= 8
  {
    hide InMemory, Genuine;
  }

  lemma GatherTakes(b: bytes, at: nat, p: Platform, plan: Plan, k: nat,
                    name: bytes, conf: int, firmware: bytes, loadables: seq<bytes>, fdt: bytes)
    requires InMemory(b) && |b| < INT_MAX && Cast(plan, k)
    requires DefaultIs(b, at, name, conf) && Configured(b, at, conf, firmware, loadables, fdt)
    requires Chosen(b, at, p, firmware, loadables, fdt, plan.images)
    ensures Gather(b, at, p) == Accept(Part(p, plan, k, |plan.images|))
  {
    hide InMemory, FieldOf, StringProp, SubnodeOffset, PathOffset, AddImage, AddListed, ListItem, ItemOf;
    hide Starts, Strung, Clean, ListCount, IsImage, DefaultIs, Part, Cast;
    var images := PathOffset(b, at, Ascii("/images"));
    var names, n := [firmware] + loadables + [fdt], |plan.images|;
    DefaultText(b, at, name, conf);
    FirstItem(FieldOf(b, at, conf, "firmware"), firmware);
    FirstItem(FieldOf(b, at, conf, "fdt"), fdt);
    StrungCount(loadables, 0);
    PartEmpty(p, plan, k);
    PartStep(b, at, images, p, plan, k, 0, firmware, true);
    forall j | 0 <= j < |loadables|
      ensures IsImage(b, at, images, p, loadables[j], false, plan.images[j + 1])
    {
      assert names[j + 1] == loadables[j];
    }
    ListTakes(b, at, images, loadables, 0, p, plan, k);
    assert names[n - 1] == fdt;
    PartStep(b, at, images, p, plan, k, n - 1, fdt, false);
  }

  lemma PartEmpty(p: Platform, plan: Plan, k: nat)
    ensures Part(p, plan, k, 0) == EMPTY
  {}

  // ----- the whole plan

  lemma {:induction false} EntriesNone(xs: seq<Image>)
    ensures Entries(xs) == 0 <==> forall i :: 0 <= i < |xs| ==> !HasEntry(xs[i])
  {
    if xs != [] {
      var n := |xs| - 1;
      EntriesNone(xs[..n]);
      assert forall i :: 0 <= i < n ==> xs[..n][i] == xs[i];
    }
  }

  /** One entry point is the entry point of one image. */
  lemma {:induction false} EntriesOne(xs: seq<Image>) returns (k: nat)
    requires Entries(xs) == 1
    ensures k < |xs| && OnlyEntry(xs, k)
  {
    var n := |xs| - 1;
    assert forall i :: 0 <= i < n ==> xs[..n][i] == xs[i];
    if HasEntry(xs[n]) {
      EntriesNone(xs[..n]);
      k := n;
    } else {
      k := EntriesOne(xs[..n]);
    }
  }

  lemma AsksGiven(b: bytes, at: nat, p: Platform)
    requires HEADER_SIZE <= |b| < INT_MAX && Version(b) >= 17 && Parse(b, at, p).Accept?
    ensures AsksFor(b, at, p, Parse(b, at, p).plan)
  {
    hide CheckHeader, U32, Gather, InMemory, Finalise, DefaultIs, Configured, Chosen, Safe, Complete;
    HeaderInMemory(b, at);
    var name, conf, firmware, loadables, fdt := GatherGives(b, at, p);
    GatherSound(b, at, p);
    SoundReady(b, at, p, Gather(b, at, p).plan);
    ParseSafe(b, at, p);
    FinaliseKeeps(p, Gather(b, at, p).plan);
    SafeComplete(b, at, p, Parse(b, at, p).plan);
  }

  lemma FinaliseKeeps(p: Platform, plan: Plan)
    requires forall x :: x in plan.images && x.role != FDT ==> End(x) <= ADDRESS_MAX
    requires plan.bl33Index == NO_INDEX || plan.bl33Index < |plan.images|
    requires plan.fdtIndex == NO_INDEX || plan.fdtIndex < |plan.images|
    requires Finalise(p, plan).Accept?
    ensures Finalise(p, plan).plan.images == plan.images && Finalise(p, plan).plan.bl31Entry != 0
    ensures Finalise(p, plan).plan.controlFdt + Finalise(p, plan).plan.capacity <= ADDRESS_MAX
    ensures p.params + PARAMS_RESERVE <= ADDRESS_MAX
  {
    hide AllClear, Clear, Apart;
  }

  lemma SafeComplete(b: bytes, at: nat, p: Platform, plan: Plan)
    requires InMemory(b) && |b| < INT_MAX && Safe(b, at, p, plan) && plan.bl31Entry != 0
    requires plan.controlFdt + plan.capacity <= ADDRESS_MAX && p.params + PARAMS_RESERVE <= ADDRESS_MAX
    ensures Complete(p, plan)
  {
    hide InMemory, Genuine, PolicyKept, Entries, OnlyEntry, AllClear, Clear, Apart;
    var k := EntriesOne(plan.images);
  }

  lemma AsksTakes(b: bytes, at: nat, p: Platform, plan: Plan)
    requires HEADER_SIZE <= |b| < INT_MAX && Version(b) >= 17 && AsksFor(b, at, p, plan)
    ensures Parse(b, at, p) == Accept(plan)
  {
    hide CheckHeader, U32, Gather, InMemory, Finalise, DefaultIs, Configured, Complete, OnlyEntry, Sound, Chosen;
    var name, conf, firmware, loadables, fdt :|
      DefaultIs(b, at, name, conf) && Configured(b, at, conf, firmware, loadables, fdt)
      && Chosen(b, at, p, firmware, loadables, fdt, plan.images);
    var k := EntryOf(p, plan);
    ChosenFew(b, at, p, firmware, loadables, fdt, plan.images);
    CompleteCast(p, plan, k);
    GatherTakes(b, at, p, plan, k, name, conf, firmware, loadables, fdt);
    GatherSound(b, at, p);
    SoundReady(b, at, p, Gather(b, at, p).plan);
    CompleteFinal(p, plan, k);
  }

  lemma EntryOf(p: Platform, plan: Plan) returns (k: nat)
    requires Complete(p, plan)
    ensures k < |plan.images| && OnlyEntry(plan.images, k)
  {
    hide OnlyEntry, Apart, AllClear, Clear;
    k :| 0 <= k < |plan.images| && OnlyEntry(plan.images, k);
  }

  lemma ChosenFew(b: bytes, at: nat, p: Platform, firmware: bytes, loadables: seq<bytes>, fdt: bytes, xs: seq<Image>)
    requires InMemory(b) && |b| < INT_MAX && Chosen(b, at, p, firmware, loadables, fdt, xs)
    ensures |xs| <= 8
  {
    hide InMemory, IsImage;
  }

  lemma CompleteCast(p: Platform, plan: Plan, k: nat)
    requires Complete(p, plan) && |plan.images| <= 8 && k < |plan.images| && OnlyEntry(plan.images, k)
    ensures Cast(plan, k)
  {
    hide OnlyEntry, Apart, AllClear, Clear;
  }

  lemma CompleteFinal(p: Platform, plan: Plan, k: nat)
    requires Complete(p, plan) && Cast(plan, k)
    requires forall x :: x in plan.images && x.role != FDT ==> End(x) <= ADDRESS_MAX
    ensures Finalise(p, Part(p, plan, k, |plan.images|)) == Accept(plan)
  {
    hide OnlyEntry, Apart, AllClear, Clear;
    assert plan.images[..|plan.images|] == plan.images;
  }

  /** chain_fit_parse accepts exactly the FITs that ask for a complete plan,
      with the plan that they ask for. */
  lemma AcceptsExactly(b: bytes, at: nat, p: Platform, plan: Plan)
    requires HEADER_SIZE <= |b| < INT_MAX && Version(b) >= 17
    ensures Parse(b, at, p) == Accept(plan) <==> AsksFor(b, at, p, plan)
  {
    hide Parse, AsksFor;
    if Parse(b, at, p) == Accept(plan) { AsksGiven(b, at, p); }
    if AsksFor(b, at, p, plan) { AsksTakes(b, at, p, plan); }
  }
}
