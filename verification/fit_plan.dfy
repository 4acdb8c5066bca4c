/** src/chainload/fit.c: from a FIT to a load plan under the board's address
    policy. */
module FitPlan {
  import opened Bytes
  import opened FdtWalk
  import opened FdtNodes
  import opened FdtRead
  import opened FdtCheck
  import opened FdtLookup
  import opened FitImage

  const ADDRESS_MAX: u64 := 0xffff_ffff_ffff_ffff
  const NO_INDEX: nat := 0xffff_ffff
  const MAX_IMAGES: nat := 8
  const DTB_SLACK: nat := 8192
  const PARAMS_RESERVE: nat := 1024
  const ERR_BADVALUE: int := -15

  datatype Range = Range(start: u64, end: u64)

  datatype Platform = Platform(stageStart: u64, stageEnd: u64, params: u64, bl31Entry: u64, bl33Entry: u64,
                               bl33Limit: u64, bl31Ranges: seq<Range>, segments: nat)

  datatype Role = BL31 | BL33 | FDT

  /** `data` is the offset of the inline data in the FIT. */
  datatype Image = Image(name: bytes, data: nat, size: nat, load: u64, entry: u64, explicit: bool,
                         kind: Text, os: Text, role: Role, record: bool)

  datatype Plan = Plan(images: seq<Image>, bl31Count: nat, bl33Index: nat, fdtIndex: nat,
                       bl31Entry: u64, bl33Entry: u64, controlFdt: int, capacity: nat)

  datatype Verdict = Accept(plan: Plan) | Reject(reason: string)

  const EMPTY: Plan := Plan([], 0, NO_INDEX, NO_INDEX, 0, 0, 0, 0)

  /** Half-open ranges that share an address, as the C code tests it. */
  predicate Touch(a: int, aEnd: int, b: int, bEnd: int) {
    a < bEnd && b < aEnd
  }

  function End(x: Image): int {
    x.load + x.size
  }

  predicate InRange(start: u64, end: int, r: Range) {
    start >= r.start && end > start && end <= r.end
  }

  predicate Allowed(p: Platform, start: u64, end: int) {
    exists r :: r in p.bl31Ranges && InRange(start, end, r)
  }

  // ----- add_image

  /** What add_image reads before it decides on the role. */
  datatype Candidate = Candidate(image: Image, arch: Text, load: Address) | Refused(reason: string)

  function ReadImage(b: bytes, at: nat, images: int, name: bytes, primary: bool): Candidate
    requires InMemory(b) && |b| < INT_MAX
  {
    hide U32, StructOf, NextTag, InMemory, FieldOf, StringProp, SubnodeOffset, HashesMatch, Is, AddressProp;
    var node := SubnodeOffset(b, at, images, name);
    if node < 0 then Refused("configuration references a missing image")
    else if FieldOf(b, at, node, "data-position").Field? || FieldOf(b, at, node, "data-offset").Field? then
      Refused("external FIT data is not supported")
    else if !Is(StringProp(b, at, node, "compression"), "none") then Refused("FIT compression is not supported")
    else
      var data := FieldOf(b, at, node, "data");
      if data.NoField? || |data.data| == 0 then Refused("FIT image has no inline data")
      else
        FieldIs(b, at, node, "data");
        var entry := AddressProp(b, at, node, "entry");
        if !HashesMatch(b, at, node, data.data) then Refused("FIT SHA-256 verification failed")
        else if entry.Malformed? then Refused("invalid FIT entry point")
        else
          Candidate(Image(name, data.off, |data.data|, 0, if entry.Address? then entry.value else ADDRESS_MAX,
                          entry.Address?, StringProp(b, at, node, "type"), StringProp(b, at, node, "os"), FDT,
                              !primary),
                    StringProp(b, at, node, "arch"), AddressProp(b, at, node, "load"))
  }

  /** The role, and the policy for it. */
  function Place(p: Platform, plan: Plan, c: Candidate, primary: bool): Verdict
    requires c.Candidate?
  {
    var x := c.image;
    if Is(x.kind, "flat_dt") then PlaceFdt(plan, c)
    else if !Is(c.arch, "arm64") then Reject("FIT executable image is not ARM64")
    else if !c.load.Address? || x.size > ADDRESS_MAX - c.load.value then Reject("invalid FIT load range")
    else if Is(x.os, "tee") || Is(x.os, "op-tee") then Reject("BL32/OP-TEE is not supported")
    else if Is(x.os, "U-Boot") || Is(x.os, "u-boot") then PlaceBl33(p, plan, x.(load := c.load.value))
    else if Is(x.os, "arm-trusted-firmware") then PlaceBl31(p, plan, x.(load := c.load.value), primary)
    else Reject("unsupported FIT operating system")
  }

  function PlaceFdt(plan: Plan, c: Candidate): Verdict
    requires c.Candidate?
  {
    if c.arch.Found? && !Is(c.arch, "arm64") then Reject("control DTB has an incompatible architecture")
    else if !c.load.Absent? || c.image.entry != ADDRESS_MAX then
      Reject("control DTB must not carry a load or entry address")
    else if plan.fdtIndex != NO_INDEX then Reject("multiple control DTBs are not supported")
    else Accept(plan.(images := plan.images + [c.image.(role := FDT, record := false)], fdtIndex := |plan.images|))
  }

  function PlaceBl33(p: Platform, plan: Plan, x: Image): Verdict {
    var entry := if x.entry == ADDRESS_MAX then x.load else x.entry;
    if !Is(x.kind, "standalone") then Reject("BL33 is not a standalone U-Boot image")
    else if plan.bl33Index != NO_INDEX || x.load != p.bl33Entry || entry != p.bl33Entry || End(x) > p.bl33Limit then
      Reject("unsafe or duplicate BL33 image")
    else Accept(plan.(images := plan.images + [x.(role := BL33, entry := entry)],
                      bl33Index := |plan.images|, bl33Entry := entry))
  }

  function PlaceBl31(p: Platform, plan: Plan, x: Image, primary: bool): Verdict {
    var entry := if primary && x.entry == ADDRESS_MAX then x.load else x.entry;
    if !Is(x.kind, "firmware") then Reject("BL31 segment is not firmware")
    else if !Allowed(p, x.load, End(x)) then Reject("BL31 segment violates board address policy")
    else if entry != ADDRESS_MAX && (entry != p.bl31Entry || plan.bl31Entry != 0) then
      Reject("invalid BL31 entry point")
    else Accept(plan.(images := plan.images + [x.(role := BL31, entry := entry)], bl31Count := plan.bl31Count + 1,
                      bl31Entry := if entry != ADDRESS_MAX then entry else plan.bl31Entry))
  }

  function AddImage(b: bytes, at: nat, images: int, name: bytes, primary: bool, p: Platform, plan: Plan): Verdict
    requires InMemory(b) && |b| < INT_MAX
  {
    hide InMemory, ReadImage, Place;
    if |plan.images| == MAX_IMAGES then Reject("too many FIT images")
    else
      var c := ReadImage(b, at, images, name, primary);
      if c.Refused? then Reject(c.reason) else Place(p, plan, c, primary)
  }

  // ----- string lists

  /** fdt_stringlist_count on the data of a property. */
  function ListCount(list: bytes, count: nat): int
    decreases |list|
  {
    if list == [] then count
    else
      var e := NameEnd(list, 0);
      if e == |list| then ERR_BADVALUE else ListCount(list[e + 1..], count + 1)
  }

  /** fdt_stringlist_get. */
  function ListItem(list: bytes, idx: nat): Text
    decreases |list|
  {
    if list == [] then Missing(ERR_NOTFOUND)
    else
      var e := NameEnd(list, 0);
      if e == |list| then Missing(ERR_BADVALUE)
      else if idx == 0 then Found(list[..e])
      else ListItem(list[e + 1..], idx - 1)
  }

  function ItemOf(f: Field, idx: nat): Text {
    if f.NoField? then Missing(ERR_NOTFOUND) else ListItem(f.data, idx)
  }

  // ----- chain_fit_parse

  function AddListed(b: bytes, at: nat, images: int, list: bytes, i: nat, count: nat, p: Platform, plan: Plan): Verdict
    requires InMemory(b) && |b| < INT_MAX && i <= count
    decreases count - i
  {
    hide InMemory, AddImage, ListItem;
    if i == count then Accept(plan)
    else if ListItem(list, i).Missing? then Reject("invalid FIT header")
    else
      var v := AddImage(b, at, images, ListItem(list, i).text, false, p, plan);
      if v.Reject? then v else AddListed(b, at, images, list, i + 1, count, p, v.plan)
  }

  predicate Overlap(x: Image, y: Image) {
    x.role != FDT && y.role != FDT && Touch(x.load, End(x), y.load, End(y))
  }

  predicate Apart(images: seq<Image>) {
    forall i, j :: 0 <= i < j < |images| ==> !Overlap(images[i], images[j])
  }

  /** The range stays clear of the staging arena and the BL31 parameters. */
  predicate Clear(p: Platform, start: int, end: int) {
    !Touch(start, end, p.stageStart, p.stageEnd) && !Touch(start, end, p.params, p.params + PARAMS_RESERVE)
  }

  predicate AllClear(p: Platform, images: seq<Image>) {
    forall x :: x in images && x.role != FDT ==> Clear(p, x.load, End(x))
  }

  /** The checks on the whole plan. */
  function Finalise(p: Platform, plan: Plan): Verdict
    requires forall x :: x in plan.images && x.role != FDT ==> End(x) <= ADDRESS_MAX
    requires plan.bl33Index == NO_INDEX || plan.bl33Index < |plan.images|
    requires plan.fdtIndex == NO_INDEX || plan.fdtIndex < |plan.images|
  {
    if plan.bl31Count == 0 || plan.bl31Entry == 0 || plan.bl33Index == NO_INDEX || plan.fdtIndex == NO_INDEX then
      Reject("FIT is missing BL31, BL33, or its control DTB")
    else if p.segments != 0 && plan.bl31Count != p.segments then Reject("unexpected number of split BL31 segments")
    else if !Apart(plan.images) then Reject("FIT load ranges overlap")
    else Bound(p, plan)
  }

  /** The checks on the memory that the plan needs. */
  function Bound(p: Platform, plan: Plan): Verdict
    requires plan.bl33Index < |plan.images| && plan.fdtIndex < |plan.images|
  {
    var start, size := End(plan.images[plan.bl33Index]), plan.images[plan.fdtIndex].size + DTB_SLACK;
    if start + size > ADDRESS_MAX || start + size > p.bl33Limit then
      Reject("U-Boot plus control DTB exceeds its initial stack limit")
    else if p.params + PARAMS_RESERVE > ADDRESS_MAX then Reject("invalid BL31 parameter range")
    else if !AllClear(p, plan.images) then
      Reject("loaded image overlaps staging or BL31 parameters")
    else if !Clear(p, start, start + size) then Reject("control DTB overlaps staging or BL31 parameters")
    else Accept(plan.(controlFdt := start, capacity := size))
  }

  /** The images that the default configuration names, in order. */
  function Gather(b: bytes, at: nat, p: Platform): Verdict
    requires InMemory(b) && |b| < INT_MAX
  {
    hide U32, StructOf, InMemory, FieldOf, StringProp, SubnodeOffset, PathOffset, AddImage, AddListed, ListItem;
    hide ListCount;
    var configurations, images := PathOffset(b, at, Ascii("/configurations")), PathOffset(b, at, Ascii("/images"));
    if configurations < 0 || images < 0 then Reject("FIT lacks images or configurations")
    else
      var name := StringProp(b, at, configurations, "default");
      var configuration := if name.Found? then SubnodeOffset(b, at, configurations, name.text) else -1;
      if configuration < 0 then Reject("FIT has no valid default configuration")
      else
        var firmware := ItemOf(FieldOf(b, at, configuration, "firmware"), 0);
        if firmware.Missing? then Reject("invalid FIT header")
        else
          var v := AddImage(b, at, images, firmware.text, true, p, EMPTY);
          if v.Reject? then v
          else
            var loadables := FieldOf(b, at, configuration, "loadables");
            var count := if loadables.NoField? then ERR_NOTFOUND else ListCount(loadables.data, 0);
            if count < 1 then Reject("FIT has no loadables")
            else
              var w := AddListed(b, at, images, loadables.data, 0, count, p, v.plan);
              if w.Reject? then w
              else
                var fdt := ItemOf(FieldOf(b, at, configuration, "fdt"), 0);
                if fdt.Missing? then Reject("invalid FIT header")
                else AddImage(b, at, images, fdt.text, false, p, w.plan)
  }

  function Parse(b: bytes, at: nat, p: Platform): Verdict
    requires HEADER_SIZE <= |b| < INT_MAX && Version(b) >= 17
  {
    hide Gather, Finalise, CheckHeader, U32;
    if CheckHeader(b, at) != 0 || TotalSize(b) > |b| then Reject("invalid FIT header")
    else
      HeaderInMemory(b, at);
      var v := Gather(b, at, p);
      if v.Reject? then v
      else
        GatherSound(b, at, p);
        SoundReady(b, at, p, v.plan);
        Finalise(p, v.plan)
  }

  lemma HeaderInMemory(b: bytes, at: nat)
    requires HEADER_SIZE <= |b| < INT_MAX && Version(b) >= 17 && CheckHeader(b, at) == 0 && TotalSize(b) <= |b|
    ensures InMemory(b)
  {
    hide U32;
  }

  // ----- what a plan is worth

  /** The data of an image are its verified inline data. */
  predicate Genuine(b: bytes, at: nat, images: int, x: Image)
    requires InMemory(b) && |b| < INT_MAX
  {
    var node := SubnodeOffset(b, at, images, x.name);
    && node >= 0 && 0 < x.size && x.data + x.size <= |b|
    && FieldOf(b, at, node, "data") == Field(x.data, b[x.data..x.data + x.size])
    && HashesMatch(b, at, node, b[x.data..x.data + x.size])
    && x.kind == StringProp(b, at, node, "type") && x.os == StringProp(b, at, node, "os")
  }

  predicate PolicyKept(p: Platform, x: Image) {
    match x.role
    case FDT => x.entry == ADDRESS_MAX && !x.record
    case BL33 => x.load == x.entry == p.bl33Entry && End(x) <= ADDRESS_MAX && End(x) <= p.bl33Limit
    case BL31 =>
      && Allowed(p, x.load, End(x)) && End(x) <= ADDRESS_MAX
      && (x.entry == ADDRESS_MAX || x.entry == p.bl31Entry)
  }

  /** The indices and counters describe the list of images. */
  ghost predicate Consistent(p: Platform, plan: Plan) {
    && |plan.images| <= MAX_IMAGES
    && (forall i :: 0 <= i < |plan.images| ==>
          && PolicyKept(p, plan.images[i])
          && (plan.images[i].role == BL33 <==> i == plan.bl33Index)
          && (plan.images[i].role == FDT <==> i == plan.fdtIndex))
    && (plan.bl33Index == NO_INDEX || plan.bl33Index < |plan.images|)
    && (plan.fdtIndex == NO_INDEX || plan.fdtIndex < |plan.images|)
    && |plan.images| == plan.bl31Count + (if plan.bl33Index == NO_INDEX then 0 else 1)
                      + (if plan.fdtIndex == NO_INDEX then 0 else 1)
    && (plan.bl33Index != NO_INDEX ==> plan.bl33Entry == p.bl33Entry)
    && (plan.bl31Entry == 0 || plan.bl31Entry == p.bl31Entry)
    && (p.bl31Entry != 0 ==> Entries(plan.images) == if plan.bl31Entry == 0 then 0 else 1)
  }

  /** The number of BL31 images that carry an entry point. */
  function Entries(images: seq<Image>): nat {
    if images == [] then 0
    else
      var x := images[|images| - 1];
      Entries(images[..|images| - 1]) + if x.role == BL31 && x.entry != ADDRESS_MAX then 1 else 0
  }

  /** The names are C strings, and every image behind the first is to be
      recorded unless it is the control DTB. */
  ghost predicate Listed(images: seq<Image>) {
    && (forall x :: x in images ==> 0 !in x.name)
    && forall i :: 0 < i < |images| ==> images[i].record || images[i].role == FDT
  }

  ghost predicate Sound(b: bytes, at: nat, p: Platform, plan: Plan)
    requires InMemory(b) && |b| < INT_MAX
  {
    && Consistent(p, plan) && Listed(plan.images)
    && forall x :: x in plan.images ==> Genuine(b, at, PathOffset(b, at, Ascii("/images")), x)
  }

  lemma EntriesAppend(images: seq<Image>, x: Image)
    ensures Entries(images + [x]) == Entries(images) + if x.role == BL31 && x.entry != ADDRESS_MAX then 1 else 0
  {
    assert (images + [x])[..|images|] == images;
  }

  /** `q` is the plan with one image more, and still consistent. */
  ghost predicate Grown(p: Platform, plan: Plan, q: Plan, c: Candidate)
    requires c.Candidate?
  {
    && Consistent(p, q) && |q.images| == |plan.images| + 1 && q.images[..|plan.images|] == plan.images
    && var x := q.images[|plan.images|];
    x.name == c.image.name && x.data == c.image.data && x.size == c.image.size
    && x.kind == c.image.kind && x.os == c.image.os && x.record == (x.role != FDT && c.image.record)
  }

  lemma FdtGrown(p: Platform, plan: Plan, c: Candidate)
    requires c.Candidate? && Consistent(p, plan) && |plan.images| < MAX_IMAGES && PlaceFdt(plan, c).Accept?
    ensures Grown(p, plan, PlaceFdt(plan, c).plan, c)
  {
    hide Is, Allowed, Entries;
    EntriesAppend(plan.images, c.image.(role := FDT, record := false));
  }

  lemma Bl33Grown(p: Platform, plan: Plan, c: Candidate, load: u64)
    requires c.Candidate? && Consistent(p, plan) && |plan.images| < MAX_IMAGES
    requires c.image.size <= ADDRESS_MAX - load && PlaceBl33(p, plan, c.image.(load := load)).Accept?
    ensures Grown(p, plan, PlaceBl33(p, plan, c.image.(load := load)).plan, c)
  {
    hide Is, Allowed, Entries;
    var q := PlaceBl33(p, plan, c.image.(load := load)).plan;
    EntriesAppend(plan.images, q.images[|plan.images|]);
  }

  lemma Bl31Grown(p: Platform, plan: Plan, c: Candidate, load: u64, primary: bool)
    requires c.Candidate? && Consistent(p, plan) && |plan.images| < MAX_IMAGES
    requires c.image.size <= ADDRESS_MAX - load && PlaceBl31(p, plan, c.image.(load := load), primary).Accept?
    ensures Grown(p, plan, PlaceBl31(p, plan, c.image.(load := load), primary).plan, c)
  {
    hide Is, Allowed, Entries;
    var q := PlaceBl31(p, plan, c.image.(load := load), primary).plan;
    EntriesAppend(plan.images, q.images[|plan.images|]);
  }

  lemma PlaceSound(p: Platform, plan: Plan, c: Candidate, primary: bool)
    requires c.Candidate? && Consistent(p, plan) && |plan.images| < MAX_IMAGES && Place(p, plan, c, primary).Accept?
    ensures Grown(p, plan, Place(p, plan, c, primary).plan, c)
  {
    hide Is, Consistent, PlaceFdt, PlaceBl31, PlaceBl33, Grown;
    if Is(c.image.kind, "flat_dt") {
      FdtGrown(p, plan, c);
    } else if Is(c.image.os, "U-Boot") || Is(c.image.os, "u-boot") {
      Bl33Grown(p, plan, c, c.load.value);
    } else {
      Bl31Grown(p, plan, c, c.load.value, primary);
    }
  }

  lemma ReadGenuine(b: bytes, at: nat, images: int, name: bytes, primary: bool)
    requires InMemory(b) && |b| < INT_MAX && ReadImage(b, at, images, name, primary).Candidate?
    ensures Genuine(b, at, images, ReadImage(b, at, images, name, primary).image)
  {
    hide U32, StructOf, NextTag, InMemory, FieldOf, StringProp, SubnodeOffset, HashesMatch, Is, AddressProp;
    FieldIs(b, at, SubnodeOffset(b, at, images, name), "data");
  }

  lemma ReadRecord(b: bytes, at: nat, images: int, name: bytes, primary: bool)
    requires InMemory(b) && |b| < INT_MAX && ReadImage(b, at, images, name, primary).Candidate?
    ensures var x := ReadImage(b, at, images, name, primary).image;
            x.name == name && x.record == !primary
  {
    hide U32, StructOf, NextTag, InMemory, FieldOf, StringProp, SubnodeOffset, HashesMatch, Is, AddressProp;
  }

  lemma AddImageSound(b: bytes, at: nat, name: bytes, primary: bool, p: Platform, plan: Plan)
    requires InMemory(b) && |b| < INT_MAX && Sound(b, at, p, plan)
    requires 0 !in name && (primary ==> plan.images == [])
    requires AddImage(b, at, PathOffset(b, at, Ascii("/images")), name, primary, p, plan).Accept?
    ensures Sound(b, at, p, AddImage(b, at, PathOffset(b, at, Ascii("/images")), name, primary, p, plan).plan)
  {
    hide InMemory, ReadImage, Place, Consistent, PathOffset, SubnodeOffset, FieldOf, HashesMatch, StringProp;
    var images := PathOffset(b, at, Ascii("/images"));
    ReadGenuine(b, at, images, name, primary);
    ReadRecord(b, at, images, name, primary);
    SmallPlan(p, plan);
    PlaceSound(p, plan, ReadImage(b, at, images, name, primary), primary);
    var q := AddImage(b, at, images, name, primary, p, plan).plan;
    assert q.images == q.images[..|plan.images|] + [q.images[|plan.images|]];
  }

  lemma SmallPlan(p: Platform, plan: Plan)
    requires Consistent(p, plan)
    ensures |plan.images| <= MAX_IMAGES
  {}

  /** The items of a string list are C strings. */
  lemma {:induction false} ListItemClean(list: bytes, idx: nat)
    ensures ListItem(list, idx).Found? ==> 0 !in ListItem(list, idx).text
    decreases |list|
  {
    if list != [] {
      var e := NameEnd(list, 0);
      if e < |list| && idx > 0 { ListItemClean(list[e + 1..], idx - 1); }
    }
  }

  lemma {:induction false} AddListedSound(b: bytes, at: nat, list: bytes, i: nat, count: nat, p: Platform, plan: Plan)
    requires InMemory(b) && |b| < INT_MAX && i <= count && Sound(b, at, p, plan)
    requires AddListed(b, at, PathOffset(b, at, Ascii("/images")), list, i, count, p, plan).Accept?
    ensures Sound(b, at, p, AddListed(b, at, PathOffset(b, at, Ascii("/images")), list, i, count, p, plan).plan)
    decreases count - i
  {
    hide InMemory, AddImage, ListItem, Sound, PathOffset;
    if i < count {
      ListItemClean(list, i);
      AddImageSound(b, at, ListItem(list, i).text, false, p, plan);
      AddListedSound(b, at, list, i + 1, count, p,
                     AddImage(b, at, PathOffset(b, at, Ascii("/images")), ListItem(list, i).text, false, p, plan).plan);
    }
  }

  lemma EmptySound(b: bytes, at: nat, p: Platform)
    requires InMemory(b) && |b| < INT_MAX
    ensures Sound(b, at, p, EMPTY)
  {
    hide InMemory, PathOffset;
  }

  lemma ItemClean(f: Field)
    ensures ItemOf(f, 0).Found? ==> 0 !in ItemOf(f, 0).text
  {
    if f.Field? { ListItemClean(f.data, 0); }
  }

  lemma GatherSound(b: bytes, at: nat, p: Platform)
    requires InMemory(b) && |b| < INT_MAX && Gather(b, at, p).Accept?
    ensures Sound(b, at, p, Gather(b, at, p).plan)
  {
    hide U32, StructOf, InMemory, FieldOf, StringProp, SubnodeOffset, PathOffset, AddImage, AddListed, ListItem;
    hide ListCount, Sound, ItemOf;
    var images := PathOffset(b, at, Ascii("/images"));
    var configurations := PathOffset(b, at, Ascii("/configurations"));
    var configuration := SubnodeOffset(b, at, configurations, StringProp(b, at, configurations, "default").text);
    var firmware := ItemOf(FieldOf(b, at, configuration, "firmware"), 0);
    EmptySound(b, at, p);
    ItemClean(FieldOf(b, at, configuration, "firmware"));
    AddImageSound(b, at, firmware.text, true, p, EMPTY);
    var v := AddImage(b, at, images, firmware.text, true, p, EMPTY);
    var list := FieldOf(b, at, configuration, "loadables").data;
    AddListedSound(b, at, list, 0, ListCount(list, 0), p, v.plan);
    var w := AddListed(b, at, images, list, 0, ListCount(list, 0), p, v.plan);
    ItemClean(FieldOf(b, at, configuration, "fdt"));
    AddImageSound(b, at, ItemOf(FieldOf(b, at, configuration, "fdt"), 0).text, false, p, w.plan);
  }

  lemma SoundReady(b: bytes, at: nat, p: Platform, plan: Plan)
    requires InMemory(b) && |b| < INT_MAX && Sound(b, at, p, plan)
    ensures forall x :: x in plan.images && x.role != FDT ==> End(x) <= ADDRESS_MAX
    ensures plan.bl33Index == NO_INDEX || plan.bl33Index < |plan.images|
    ensures plan.fdtIndex == NO_INDEX || plan.fdtIndex < |plan.images|
  {
    hide InMemory, Genuine, Entries, Allowed;
  }

  /** An accepted plan. */
  ghost predicate Safe(b: bytes, at: nat, p: Platform, plan: Plan)
    requires InMemory(b) && |b| < INT_MAX
  {
    && Sound(b, at, p, plan)
    && |plan.images| == plan.bl31Count + 2 && plan.bl31Count >= 1 && (p.segments != 0 ==> plan.bl31Count == p.segments)
    && plan.bl33Index < |plan.images| && plan.fdtIndex < |plan.images| && plan.bl33Index != plan.fdtIndex
    && plan.bl33Entry == p.bl33Entry && plan.bl31Entry == p.bl31Entry && Entries(plan.images) == 1
    && Apart(plan.images)
    && AllClear(p, plan.images)
    && plan.controlFdt == End(plan.images[plan.bl33Index])
    && plan.capacity == plan.images[plan.fdtIndex].size + DTB_SLACK
    && plan.controlFdt + plan.capacity <= p.bl33Limit
    && Clear(p, plan.controlFdt, plan.controlFdt + plan.capacity)
  }

  /** chain_fit_parse accepts safe plans only: one BL33, one control DTB, the
      rest BL31 segments with one entry point between them; every image hashed;
      no load range on another, on the staging arena or on the parameters. */
  lemma ParseSafe(b: bytes, at: nat, p: Platform)
    requires HEADER_SIZE <= |b| < INT_MAX && Version(b) >= 17 && Parse(b, at, p).Accept?
    ensures InMemory(b) && TotalSize(b) <= |b| && Safe(b, at, p, Parse(b, at, p).plan)
  {
    hide Gather, U32, Genuine, Entries, PolicyKept, CheckHeader;
    HeaderInMemory(b, at);
    GatherSound(b, at, p);
    SoundReady(b, at, p, Gather(b, at, p).plan);
    FinaliseSafe(b, at, p, Gather(b, at, p).plan);
  }

  lemma FinaliseSafe(b: bytes, at: nat, p: Platform, plan: Plan)
    requires InMemory(b) && |b| < INT_MAX && Sound(b, at, p, plan)
    requires forall x :: x in plan.images && x.role != FDT ==> End(x) <= ADDRESS_MAX
    requires plan.bl33Index == NO_INDEX || plan.bl33Index < |plan.images|
    requires plan.fdtIndex == NO_INDEX || plan.fdtIndex < |plan.images|
    requires Finalise(p, plan).Accept?
    ensures Safe(b, at, p, Finalise(p, plan).plan)
  {
    hide InMemory, Genuine, Entries, Allowed, End, AllClear, Clear, Apart;
  }
}
