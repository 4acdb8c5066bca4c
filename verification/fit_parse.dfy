/** src/chainload/fit.c: the routines that fill in the plan. */
module FitParse {
  import opened Bytes
  import opened FdtWalk
  import opened FdtRead
  import opened FdtCheck
  import opened FdtPaths
  import opened FdtLookup
  import opened FitImage
  import opened FitPlan

  /** A routine did what the verdict says; a refusal leaves the plan as it was. */
  predicate Follows(v: Verdict, before: Plan, ok: bool, reason: string, after: Plan) {
    if v.Accept? then ok && after == v.plan else !ok && reason == v.reason && after == before
  }

  method Bl31Allowed(p: Platform, start: u64, end: int) returns (ok: bool)
    ensures ok == Allowed(p, start, end)
  {
    for i := 0 to |p.bl31Ranges|
      invariant forall k :: 0 <= k < i ==> !InRange(start, end, p.bl31Ranges[k])
    {
      if InRange(start, end, p.bl31Ranges[i]) {
        return true;
      }
    }
    ok := false;
  }

  /** fdt_stringlist_count and fdt_stringlist_get. */
  method CountStrings(f: Field) returns (count: int)
    ensures count == if f.NoField? then ERR_NOTFOUND else ListCount(f.data, 0)
  {
    if f.NoField? {
      return ERR_NOTFOUND;
    }
    var list := f.data;
    count := 0;
    while list != []
      invariant count >= 0 && ListCount(f.data, 0) == ListCount(list, count)
      decreases |list|
    {
      var length := NameEnd(list, 0) + 1;
      if length > |list| {
        return ERR_BADVALUE;
      }
      list, count := list[length..], count + 1;
    }
  }

  method GetItem(f: Field, index: nat) returns (name: Text)
    ensures name == ItemOf(f, index)
  {
    if f.NoField? {
      return Missing(ERR_NOTFOUND);
    }
    var list, idx := f.data, index;
    while list != []
      invariant idx >= 0 && ListItem(f.data, index) == ListItem(list, idx)
      decreases |list|
    {
      var length := NameEnd(list, 0) + 1;
      if length > |list| {
        return Missing(ERR_BADVALUE);
      }
      if idx == 0 {
        return Found(list[..length - 1]);
      }
      list, idx := list[length..], idx - 1;
    }
    name := Missing(ERR_NOTFOUND);
  }

  method GetAddress(b: bytes, at: nat, node: int, name: string) returns (a: Address)
    requires InMemory(b) && node <= INT_MAX
    ensures a == AddressProp(b, at, node, name)
  {
    hide U32;
    var cells := GetProp(b, at, node, name);
    if cells.NoField? {
      return Absent;
    }
    if |cells.data| == 4 {
      return Address(U32(cells.data, 0));
    }
    if |cells.data| == 8 {
      return Address(U32(cells.data, 0) * TWO32 + U32(cells.data, 4));
    }
    a := Malformed;
  }

  /** The part of add_image before the role is known. */
  method Examine(b: bytes, at: nat, images: int, name: bytes, primary: bool) returns (c: Candidate)
    requires InMemory(b) && |b| < INT_MAX && images <= INT_MAX
    ensures c == ReadImage(b, at, images, name, primary)
  {
    hide U32, StructOf, NextTag, InMemory, FieldOf, StringProp, SubnodeOffset, HashesMatch, Is, AddressProp, Ascii;
    var node := FindSubnode(b, at, images, name);
    if node < 0 {
      return Refused("configuration references a missing image");
    }
    SubnodeRange(b, at, images, name);
    var position := GetProp(b, at, node, "data-position");
    var offset := GetProp(b, at, node, "data-offset");
    if position.Field? || offset.Field? {
      return Refused("external FIT data is not supported");
    }
    var arch := GetText(b, at, node, "arch");
    var compression := GetText(b, at, node, "compression");
    var kind := GetText(b, at, node, "type");
    var os := GetText(b, at, node, "os");
    if !Is(compression, "none") {
      return Refused("FIT compression is not supported");
    }
    var data := GetProp(b, at, node, "data");
    FieldIs(b, at, node, "data");
    if data.NoField? || |data.data| <= 0 {
      return Refused("FIT image has no inline data");
    }
    var valid := ValidateHash(b, at, node, data.data);
    if !valid {
      return Refused("FIT SHA-256 verification failed");
    }
    var entry := GetAddress(b, at, node, "entry");
    if entry.Malformed? {
      return Refused("invalid FIT entry point");
    }
    var load := GetAddress(b, at, node, "load");
    var image := Image(name, data.off, |data.data|, 0, if entry.Address? then entry.value else ADDRESS_MAX,
                       entry.Address?, kind, os, FDT, !primary);
    c := Candidate(image, arch, load);
  }

  /** struct ChainFitPlan while it is being filled in. */
  class Builder {
    var images: seq<Image>
    var bl31Count: nat
    var bl33Index: nat
    var fdtIndex: nat
    var bl31Entry: u64
    var bl33Entry: u64
    var controlFdt: int
    var capacity: nat

    function Value(): Plan
      reads this
    {
      Plan(images, bl31Count, bl33Index, fdtIndex, bl31Entry, bl33Entry, controlFdt, capacity)
    }

    constructor ()
      ensures Value() == EMPTY
    {
      images, bl31Count, bl33Index, fdtIndex := [], 0, NO_INDEX, NO_INDEX;
      bl31Entry, bl33Entry, controlFdt, capacity := 0, 0, 0, 0;
    }

    method AddImageTo(b: bytes, at: nat, node: int, name: bytes, primary: bool, p: Platform)
      returns (ok: bool, reason: string)
      requires InMemory(b) && |b| < INT_MAX && node <= INT_MAX
      modifies this
      ensures Follows(AddImage(b, at, node, name, primary, p, old(Value())), old(Value()), ok, reason, Value())
    {
      hide InMemory, Is, ReadImage, Allowed;
      ok, reason := false, "too many FIT images";
      if |images| == MAX_IMAGES {
        return;
      }
      var c := Examine(b, at, node, name, primary);
      if c.Refused? {
        return false, c.reason;
      }
      if Is(c.image.kind, "flat_dt") {
        ok, reason := AddFdt(c);
        return;
      }
      if !Is(c.arch, "arm64") {
        return false, "FIT executable image is not ARM64";
      }
      if !c.load.Address? || c.image.size > ADDRESS_MAX - c.load.value {
        return false, "invalid FIT load range";
      }
      var x := c.image.(load := c.load.value);
      if Is(x.os, "tee") || Is(x.os, "op-tee") {
        return false, "BL32/OP-TEE is not supported";
      }
      if Is(x.os, "U-Boot") || Is(x.os, "u-boot") {
        ok, reason := AddBl33(p, x);
      } else if Is(x.os, "arm-trusted-firmware") {
        ok, reason := AddBl31(p, x, primary);
      } else {
        return false, "unsupported FIT operating system";
      }
    }

    method AddFdt(c: Candidate) returns (ok: bool, reason: string)
      requires c.Candidate?
      modifies this
      ensures Follows(PlaceFdt(old(Value()), c), old(Value()), ok, reason, Value())
    {
      hide Is;
      if c.arch.Found? && !Is(c.arch, "arm64") {
        return false, "control DTB has an incompatible architecture";
      }
      if !c.load.Absent? || c.image.entry != ADDRESS_MAX {
        return false, "control DTB must not carry a load or entry address";
      }
      if fdtIndex != NO_INDEX {
        return false, "multiple control DTBs are not supported";
      }
      fdtIndex := |images|;
      images := images + [c.image.(role := FDT, record := false)];
      ok, reason := true, "";
    }

    method AddBl33(p: Platform, x: Image) returns (ok: bool, reason: string)
      modifies this
      ensures Follows(PlaceBl33(p, old(Value()), x), old(Value()), ok, reason, Value())
    {
      hide Is;
      if !Is(x.kind, "standalone") {
        return false, "BL33 is not a standalone U-Boot image";
      }
      var entry := if x.entry == ADDRESS_MAX then x.load else x.entry;
      if bl33Index != NO_INDEX || x.load != p.bl33Entry || entry != p.bl33Entry || End(x) > p.bl33Limit {
        return false, "unsafe or duplicate BL33 image";
      }
      bl33Index, bl33Entry := |images|, entry;
      images := images + [x.(role := BL33, entry := entry)];
      ok, reason := true, "";
    }

    method AddBl31(p: Platform, x: Image, primary: bool) returns (ok: bool, reason: string)
      modifies this
      ensures Follows(PlaceBl31(p, old(Value()), x, primary), old(Value()), ok, reason, Value())
    {
      hide Is, Allowed;
      if !Is(x.kind, "firmware") {
        return false, "BL31 segment is not firmware";
      }
      var entry := if primary && x.entry == ADDRESS_MAX then x.load else x.entry;
      var allowed := Bl31Allowed(p, x.load, End(x));
      if !allowed {
        return false, "BL31 segment violates board address policy";
      }
      if entry != ADDRESS_MAX {
        if entry != p.bl31Entry || bl31Entry != 0 {
          return false, "invalid BL31 entry point";
        }
        bl31Entry := entry;
      }
      bl31Count := bl31Count + 1;
      images := images + [x.(role := BL31, entry := entry)];
      ok, reason := true, "";
    }

    /** The images of the default configuration. */
    method GatherInto(b: bytes, at: nat, p: Platform) returns (ok: bool, reason: string)
      requires InMemory(b) && |b| < INT_MAX && Value() == EMPTY
      modifies this
      ensures ok == Gather(b, at, p).Accept?
      ensures if ok then Value() == Gather(b, at, p).plan else reason == Gather(b, at, p).reason
    {
      hide U32, StructOf, InMemory, FieldOf, StringProp, SubnodeOffset, PathOffset, AddImage, ListItem, ListCount;
      Slashes();
      var configurations := FindPath(b, at, Ascii("/configurations"));
      var node := FindPath(b, at, Ascii("/images"));
      if configurations < 0 || node < 0 {
        return false, "FIT lacks images or configurations";
      }
      PathRange(b, at, Ascii("/configurations"));
      PathRange(b, at, Ascii("/images"));
      var name := GetText(b, at, configurations, "default");
      var configuration := -1;
      if name.Found? {
        configuration := FindSubnode(b, at, configurations, name.text);
        SubnodeRange(b, at, configurations, name.text);
      }
      if configuration < 0 {
        return false, "FIT has no valid default configuration";
      }
      reason := "invalid FIT header";
      var list := GetProp(b, at, configuration, "firmware");
      name := GetItem(list, 0);
      if name.Missing? {
        return false, reason;
      }
      ok, reason := AddImageTo(b, at, node, name.text, true, p);
      if !ok {
        return;
      }
      list := GetProp(b, at, configuration, "loadables");
      var count := CountStrings(list);
      if count < 1 {
        return false, "FIT has no loadables";
      }
      ok, reason := AddLoadables(b, at, node, list, count, p);
      if !ok {
        return;
      }
      list := GetProp(b, at, configuration, "fdt");
      name := GetItem(list, 0);
      if name.Missing? {
        return false, "invalid FIT header";
      }
      ok, reason := AddImageTo(b, at, node, name.text, false, p);
    }

    method AddLoadables(b: bytes, at: nat, node: int, list: Field, count: nat, p: Platform)
      returns (ok: bool, reason: string)
      requires InMemory(b) && |b| < INT_MAX && node <= INT_MAX && list.Field?
      modifies this
      ensures var v := AddListed(b, at, node, list.data, 0, count, p, old(Value()));
              ok == v.Accept? && if ok then Value() == v.plan else reason == v.reason
    {
      hide InMemory, AddImage, ListItem;
      ghost var v := AddListed(b, at, node, list.data, 0, count, p, Value());
      for i := 0 to count
        invariant v == AddListed(b, at, node, list.data, i, count, p, Value())
      {
        var name := GetItem(list, i);
        if name.Missing? {
          return false, "invalid FIT header";
        }
        ok, reason := AddImageTo(b, at, node, name.text, false, p);
        if !ok {
          return;
        }
      }
      ok, reason := true, "";
    }

    method NoOverlaps() returns (ok: bool)
      ensures ok == Apart(images)
    {
      hide Overlap;
      for i := 0 to |images|
        invariant forall x, y :: 0 <= x < i && x < y < |images| ==> !Overlap(images[x], images[y])
      {
        for j := i + 1 to |images|
          invariant forall y :: i < y < j ==> !Overlap(images[i], images[y])
        {
          if Overlap(images[i], images[j]) {
            return false;
          }
        }
      }
      ok := true;
    }

    method ImagesClear(p: Platform) returns (ok: bool)
      ensures ok == AllClear(p, images)
    {
      hide Clear;
      for i := 0 to |images|
        invariant forall k :: 0 <= k < i && images[k].role != FDT ==> Clear(p, images[k].load, End(images[k]))
      {
        if images[i].role != FDT && !Clear(p, images[i].load, End(images[i])) {
          assert images[i] in images;
          return false;
        }
      }
      ok := true;
    }

    /** The last part of chain_fit_parse. */
    method Conclude(p: Platform) returns (ok: bool, reason: string)
      requires forall x :: x in images && x.role != FDT ==> End(x) <= ADDRESS_MAX
      requires (bl33Index == NO_INDEX || bl33Index < |images|) && (fdtIndex == NO_INDEX || fdtIndex < |images|)
      modifies this
      ensures ok == Finalise(p, old(Value())).Accept?
      ensures if ok then Value() == Finalise(p, old(Value())).plan else reason == Finalise(p, old(Value())).reason
    {
      hide Apart, Clear, AllClear, End, Bound;
      if bl31Count == 0 || bl31Entry == 0 || bl33Index == NO_INDEX || fdtIndex == NO_INDEX {
        return false, "FIT is missing BL31, BL33, or its control DTB";
      }
      if p.segments != 0 && bl31Count != p.segments {
        return false, "unexpected number of split BL31 segments";
      }
      var apart := NoOverlaps();
      if !apart {
        return false, "FIT load ranges overlap";
      }
      ok, reason := BoundRanges(p);
    }

    method BoundRanges(p: Platform) returns (ok: bool, reason: string)
      requires bl33Index < |images| && fdtIndex < |images|
      modifies this
      ensures ok == Bound(p, old(Value())).Accept?
      ensures if ok then Value() == Bound(p, old(Value())).plan else reason == Bound(p, old(Value())).reason
    {
      hide Clear, AllClear, End;
      controlFdt := End(images[bl33Index]);
      capacity := images[fdtIndex].size + DTB_SLACK;
      var dtbEnd := controlFdt + capacity;
      if dtbEnd > ADDRESS_MAX || dtbEnd > p.bl33Limit {
        return false, "U-Boot plus control DTB exceeds its initial stack limit";
      }
      if p.params + PARAMS_RESERVE > ADDRESS_MAX {
        return false, "invalid BL31 parameter range";
      }
      var clear := ImagesClear(p);
      if !clear {
        return false, "loaded image overlaps staging or BL31 parameters";
      }
      if !Clear(p, controlFdt, dtbEnd) {
        return false, "control DTB overlaps staging or BL31 parameters";
      }
      ok, reason := true, "";
    }

    /** chain_fit_parse. */
    method ParseFit(b: bytes, at: nat, p: Platform) returns (ok: bool, reason: string)
      requires HEADER_SIZE <= |b| < INT_MAX && Version(b) >= 17 && Value() == EMPTY
      modifies this
      ensures ok == Parse(b, at, p).Accept?
      ensures if ok then Value() == Parse(b, at, p).plan else reason == Parse(b, at, p).reason
    {
      hide Gather, Finalise, CheckHeader, U32, InMemory;
      var header := CheckHeader(b, at);
      if header != 0 || TotalSize(b) > |b| {
        return false, "invalid FIT header";
      }
      HeaderInMemory(b, at);
      ok, reason := GatherInto(b, at, p);
      if !ok {
        return;
      }
      GatherSound(b, at, p);
      SoundReady(b, at, p, Value());
      ok, reason := Conclude(p);
    }
  }

  lemma Slashes()
    ensures Ascii("/configurations")[0] == SLASH && Ascii("/images")[0] == SLASH
  {}

  lemma PathRange(b: bytes, at: nat, path: bytes)
    requires InMemory(b) && PathOffset(b, at, path) >= 0
    ensures PathOffset(b, at, path) <= INT_MAX
  {
    hide SubnodeOffset, U32;
    PathFromRange(b, at, path, 0, 0);
  }

  lemma {:induction false} PathFromRange(b: bytes, at: nat, path: bytes, p: nat, o: int)
    requires InMemory(b) && p <= |path| && o <= INT_MAX
    ensures PathFrom(b, at, path, p, o) <= INT_MAX
    decreases |path| - p
  {
    hide SubnodeOffset, U32;
    var q := SkipSlashes(path, p);
    if q < |path| {
      var e := ComponentEnd(path, q);
      var next := SubnodeOffset(b, at, o, path[q..e]);
      SubnodeRange(b, at, o, path[q..e]);
      if next >= 0 { PathFromRange(b, at, path, e, next); }
    }
  }
}
