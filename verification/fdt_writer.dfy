/** external/libfdt/fdt_sw.c: the sequential writer. Its state is in the header
    of the unfinished blob; the blob grows from both ends, the structure block
    upwards and the strings downwards from the end of the buffer. */
module FdtWriter {
  import opened Bytes
  import opened FdtFormat
  import opened FdtWalk
  import opened FdtNodes
  import opened FdtRead
  import opened FdtProps
  import opened FdtSplice
  import opened FdtEdit

  const RSV_OFFSET: nat := 48

  /** Not a code of the library: the C code would write outside the buffer. */
  const WILD: int := -1000

  /** An unfinished blob between two calls. */
  predicate Writable(b: bytes) {
    && RSV_OFFSET <= |b| < INT_MAX && TotalSize(b) == |b| && Magic(b) == SW_MAGIC
    && Version(b) == 17 && OffRsv(b) == RSV_OFFSET <= OffStruct(b)
    && OffStruct(b) + SizeStruct(b) + SizeStrings(b) <= |b|
    && (if OffStrings(b) == 0 then SizeStruct(b) == 0 == SizeStrings(b)
        else OffStrings(b) == |b| && RSV_OFFSET + 16 <= OffStruct(b))
  }

  /** What has been written: the rest of the buffer is of no account. */
  datatype Draft = Draft(size: nat, flags: u32, inStruct: bool, rsv: bytes, body: bytes, names: bytes)

  function DraftOf(b: bytes): Draft
    requires Writable(b)
  {
    Draft(|b|, LastComp(b), OffStrings(b) != 0, b[RSV_OFFSET..OffStruct(b)],
          b[OffStruct(b)..OffStruct(b) + SizeStruct(b)], b[|b| - SizeStrings(b)..|b|])
  }

  function DraftSize(d: Draft): nat {
    RSV_OFFSET + |d.rsv| + |d.body| + |d.names|
  }

  lemma DraftIs(b: bytes)
    requires Writable(b)
    ensures var d := DraftOf(b);
            && OffStruct(b) == RSV_OFFSET + |d.rsv| && SizeStruct(b) == |d.body| && SizeStrings(b) == |d.names|
            && HEADER_SIZE <= DraftSize(d) <= d.size == |b| < INT_MAX && d.flags == LastComp(b)
            && (d.inStruct <==> OffStrings(b) == |b|) && OffRsv(b) == RSV_OFFSET
  {
    hide U32;
  }

  /** A blob handed to the writer: unfinished, or refused by its probe. */
  predicate Handed(b: bytes) {
    |b| >= HEADER_SIZE && (Magic(b) == SW_MAGIC ==> Writable(b))
  }

  function SwProbe(b: bytes): int
    requires |b| >= HEADER_SIZE
  {
    if Magic(b) == MAGIC then ERR_BADSTATE else if Magic(b) != SW_MAGIC then ERR_BADMAGIC else 0
  }

  function RsvProbe(b: bytes): int
    requires |b| >= HEADER_SIZE
  {
    if SwProbe(b) != 0 then SwProbe(b) else if OffStrings(b) != 0 then ERR_BADSTATE else 0
  }

  function StructProbe(b: bytes): int
    requires |b| >= HEADER_SIZE
  {
    if SwProbe(b) != 0 then SwProbe(b) else if OffStrings(b) != TotalSize(b) then ERR_BADSTATE else 0
  }

  /** fdt_create_with_flags in a buffer of `n` bytes. */
  function Create(n: nat, flags: u32): (r: Outcome)
    requires n < INT_MAX
    ensures r.err == 0 ==> |r.blob| == n
  {
    if n < RSV_OFFSET then Outcome(ERR_NOSPACE, [])
    else if flags > 1 then Outcome(ERR_BADFLAGS, [])
    else
      var b := seq(n, _ => 0);
      Outcome(0, Put(Put(Put(Put(Put(Put(Put(b, 0, SW_MAGIC), 20, 17), 24, flags), 4, n), 16, RSV_OFFSET), 8,
          RSV_OFFSET), 12, 0))
  }

  /** fdt_add_reservemap_entry. */
  function Reserve(b: bytes, addr: u64, size: u64): (r: Outcome)
    requires Handed(b)
    ensures |r.blob| == |b|
  {
    var p := OffStruct(b);
    if RsvProbe(b) != 0 then Outcome(RsvProbe(b), b)
    else if p + 16 > TotalSize(b) then Outcome(ERR_NOSPACE, b)
    else Outcome(0, Put(Overwrite(b, p, BE64(addr) + BE64(size)), 8, p + 16))
  }

  /** fdt_finish_reservemap. */
  function EndReserve(b: bytes): (r: Outcome)
    requires Handed(b)
    ensures |r.blob| == |b|
  {
    var r := Reserve(b, 0, 0);
    if r.err != 0 then r else Outcome(0, Put(r.blob, 12, TotalSize(r.blob)))
  }

  /** fdt_grab_space_ and the bytes then stored: `size` bytes are taken and
      `piece` is put at their start. */
  predicate Room(b: bytes, size: nat)
    requires |b| >= HEADER_SIZE
  {
    SizeStruct(b) + size <= (TotalSize(b) - OffStruct(b) - SizeStrings(b)) % TWO32
  }

  lemma RoomIs(b: bytes, size: nat)
    requires Writable(b)
    ensures |b| >= HEADER_SIZE && (Room(b, size) <==> DraftSize(DraftOf(b)) + size <= |b|)
    ensures Room(b, size) ==> OffStruct(b) + SizeStruct(b) + size <= |b| && SizeStruct(b) + size < TWO32
  {
    hide U32;
  }

  function Lay(b: bytes, piece: bytes, size: nat): (r: bytes)
    requires Writable(b) && Room(b, size) && |piece| <= size
    ensures |r| == |b|
  {
    RoomIs(b, size);
    Overwrite(Put(b, 36, SizeStruct(b) + size), OffStruct(b) + SizeStruct(b), piece)
  }

  /** fdt_begin_node. */
  function Begin(b: bytes, name: bytes): (r: Outcome)
    requires Handed(b)
    ensures |r.blob| == |b|
  {
    AlignIsPad(|name| + 1);
    if StructProbe(b) != 0 then Outcome(StructProbe(b), b)
    else if !Room(b, 4 + Align4(|name| + 1)) then Outcome(ERR_NOSPACE, b)
    else Outcome(0, Lay(b, NodeHead(name, []), 4 + Align4(|name| + 1)))
  }

  /** fdt_end_node. */
  function EndNode(b: bytes): (r: Outcome)
    requires Handed(b)
    ensures |r.blob| == |b|
  {
    if StructProbe(b) != 0 then Outcome(StructProbe(b), b)
    else if !Room(b, 4) then Outcome(ERR_NOSPACE, b)
    else Outcome(0, Lay(b, BE32(END_NODE), 4))
  }

  function Tail(b: bytes): bytes
    requires Writable(b)
  {
    b[|b| - SizeStrings(b)..|b|]
  }

  /** The string put below the others. */
  function AddName(b: bytes, name: bytes): (r: bytes)
    requires Writable(b) && SizeStrings(b) + |name| + 1 <= |b| - HEADER_SIZE
    ensures |r| == |b|
  {
    Put(Overwrite(b, |b| - (SizeStrings(b) + |name| + 1), name + [0]), 32, SizeStrings(b) + |name| + 1)
  }

  /** fdt_find_add_string_ or fdt_add_string_: the offset of the name, counted
      back from the end of the buffer; zero when there is no room. */
  datatype Named = Named(back: nat, added: bool, blob: bytes)

  predicate NoDedup(b: bytes)
    requires |b| >= HEADER_SIZE
  {
    LastComp(b) % 2 == 1
  }

  /** The name is looked up unless the flag forbids it. */
  function OldName(b: bytes, name: bytes): int
    requires Writable(b)
  {
    if NoDedup(b) then -1 else FindString(Tail(b), name, 0)
  }

  predicate NameRoom(b: bytes, name: bytes)
    requires Writable(b) && SizeStrings(b) + |name| + 1 <= |b|
  {
    |b| - (SizeStrings(b) + |name| + 1) >= OffStruct(b) + SizeStruct(b)
  }

  /** fdt_property: the name, the gap, and the value; or the rollback. */
  function Property(b: bytes, name: bytes, val: bytes): (r: Outcome)
    requires Handed(b) && |val| <= INT_MAX - 16
    ensures |r.blob| == |b|
  {
    if StructProbe(b) != 0 then Outcome(StructProbe(b), b)
    else if OldName(b, name) >= 0 then
      var back := |Tail(b)| - OldName(b, name);
      PropertyAt(b, b, back, val)
    else if SizeStrings(b) + |name| + 1 > |b| then Outcome(WILD, b)
    else if !NameRoom(b, name) then Outcome(ERR_NOSPACE, b)
    else
      AddNameIs(b, name);
      var a := AddName(b, name);
      PropertyAt(a, DelName(a, name), SizeStrings(b) + |name| + 1, val)
  }

  /** fdt_del_last_string_. */
  function DelName(b: bytes, name: bytes): (r: bytes)
    requires |b| >= HEADER_SIZE && |name| + 1 <= SizeStrings(b)
    ensures |r| == |b|
  {
    Put(b, 32, SizeStrings(b) - (|name| + 1))
  }

  function PropertyAt(b: bytes, undone: bytes, back: nat, val: bytes): (r: Outcome)
    requires Writable(b) && |undone| == |b| && 0 < back < TWO32 && |val| <= INT_MAX - 16
    ensures |r.blob| == |b|
  {
    AlignIsPad(|val|);
    if !Room(b, 12 + Align4(|val|)) then Outcome(ERR_NOSPACE, undone)
    else Outcome(0, Lay(b, PropText(TWO32 - back, val, []), 12 + Align4(|val|)))
  }

  // ----- what the calls do to the draft

  lemma LayHeader(b: bytes, piece: bytes, size: nat)
    requires Writable(b) && Room(b, size) && |piece| <= size
    ensures HeaderOf(Lay(b, piece, size)) == HeaderOf(b).(sizeStruct := SizeStruct(b) + size)
  {
    hide U32, Put, Overwrite;
    RoomIs(b, size);
    FieldsAligned();
    var p := OffStruct(b) + SizeStruct(b);
    var b1 := Put(b, 36, SizeStruct(b) + size);
    HeaderPut(b, 36, SizeStruct(b) + size);
    OverwriteSlice(b1, p, piece, 0, HEADER_SIZE);
    assert Lay(b, piece, size)[..HEADER_SIZE] == b1[..HEADER_SIZE];
    HeaderKept(b1, Lay(b, piece, size));
  }

  lemma LayBody(b: bytes, x: nat, p: nat, piece: bytes, size: nat, v: u32)
    requires HEADER_SIZE <= x <= p && p + size <= |b| && |piece| <= size
    ensures Overwrite(Put(b, 36, v), p, piece)[x..p + size] == b[x..p] + (piece + b[p + |piece|..p + size])
  {
    hide U32, Put, Overwrite;
    var r := Overwrite(Put(b, 36, v), p, piece);
    LaySlice(b, v, p, piece, x, p);
    LaySlice(b, v, p, piece, p + |piece|, p + size);
    OverwriteSlice(Put(b, 36, v), p, piece, p, p + |piece|);
    assert piece[0..|piece|] == piece;
    SliceJoin(r, x, p, p + size);
    SliceJoin(r, p, p + |piece|, p + size);
  }

  /** The structure block grows by the piece and by what stood behind it. */
  lemma LayIs(b: bytes, piece: bytes, size: nat)
    requires Writable(b) && OffStrings(b) != 0 && Room(b, size) && |piece| <= size
    ensures var r := Lay(b, piece, size);
            var p := OffStruct(b) + SizeStruct(b);
            && p + size <= |b| && Writable(r)
            && DraftOf(r) == DraftOf(b).(body := DraftOf(b).body + (piece + b[p + |piece|..p + size]))
  {
    hide U32, Put, Overwrite, Room, HeaderOf;
    RoomIs(b, size);
    LayHeader(b, piece, size);
    var x, n := OffStruct(b), SizeStruct(b);
    var r := Lay(b, piece, size);
    LayBody(b, x, x + n, piece, size, n + size);
    LaySlice(b, n + size, x + n, piece, RSV_OFFSET, x);
    LaySlice(b, n + size, x + n, piece, |b| - SizeStrings(b), |b|);
    LayGrown(b, r, size);
  }

  lemma LayGrown(b: bytes, r: bytes, size: nat)
    requires Writable(b) && OffStrings(b) != 0 && |r| == |b|
    requires OffStruct(b) + SizeStruct(b) + size + SizeStrings(b) <= |b|
    requires HeaderOf(r) == HeaderOf(b).(sizeStruct := SizeStruct(b) + size)
    requires r[RSV_OFFSET..OffStruct(b)] == b[RSV_OFFSET..OffStruct(b)]
    requires r[|b| - SizeStrings(b)..|b|] == b[|b| - SizeStrings(b)..|b|]
    ensures Writable(r)
    ensures DraftOf(r) == DraftOf(b).(body := r[OffStruct(b)..OffStruct(b) + SizeStruct(b) + size])
  {
    hide U32;
  }

  lemma LaySlice(b: bytes, n: u32, p: nat, piece: bytes, i: nat, j: nat)
    requires HEADER_SIZE <= i <= j <= |b| && HEADER_SIZE <= p && p + |piece| <= |b|
    requires j <= p || p + |piece| <= i
    ensures Overwrite(Put(b, 36, n), p, piece)[i..j] == b[i..j]
  {
    hide U32, Put, Overwrite;
    PutSlice(b, 36, n, i, j);
    OverwriteSlice(Put(b, 36, n), p, piece, i, j);
  }

  lemma AddNameHeader(b: bytes, name: bytes)
    requires Writable(b) && SizeStrings(b) + |name| + 1 <= |b| && NameRoom(b, name)
    ensures var r := AddName(b, name);
            && HeaderOf(r) == HeaderOf(b).(sizeStrings := SizeStrings(b) + |name| + 1)
            && HeaderOf(DelName(r, name)) == HeaderOf(b)
  {
    hide U32, Put, Overwrite;
    var m, t := SizeStrings(b), name + [0];
    var q := |b| - (m + |t|);
    var b1 := Overwrite(b, q, t);
    OverwriteSlice(b, q, t, 0, HEADER_SIZE);
    assert b1[..HEADER_SIZE] == b[..HEADER_SIZE];
    HeaderKept(b, b1);
    FieldsAligned();
    HeaderPut(b1, 32, m + |t|);
    HeaderPut(AddName(b, name), 32, m);
  }

  /** The blocks after a string was added, and after it was taken back. */
  lemma AddNameBlocks(b: bytes, x: nat, p: nat, m: u32, t: bytes)
    requires HEADER_SIZE <= x <= p && p + m + |t| <= |b| && RSV_OFFSET <= x && m + |t| < TWO32
    ensures var q := |b| - (m + |t|);
            var r := Put(Overwrite(b, q, t), 32, m + |t|);
            && r[RSV_OFFSET..x] == b[RSV_OFFSET..x] && r[x..p] == b[x..p] && r[q..|b|] == t + b[|b| - m..|b|]
            && Put(r, 32, m)[RSV_OFFSET..x] == b[RSV_OFFSET..x] && Put(r, 32, m)[x..p] == b[x..p]
            && Put(r, 32, m)[|b| - m..|b|] == b[|b| - m..|b|]
  {
    hide U32, Put, Overwrite;
    var q := |b| - (m + |t|);
    AddNameSlice(b, q, t, m + |t|, m, RSV_OFFSET, x);
    AddNameSlice(b, q, t, m + |t|, m, x, p);
    AddNameSlice(b, q, t, m + |t|, m, q + |t|, |b|);
    OverwriteSlice(b, q, t, q, q + |t|);
    assert t[0..|t|] == t;
    PutSlice(Overwrite(b, q, t), 32, m + |t|, q, q + |t|);
    SliceJoin(Put(Overwrite(b, q, t), 32, m + |t|), q, q + |t|, |b|);
  }

  /** The strings grow downwards; taking the new one back restores the draft. */
  lemma AddNameIs(b: bytes, name: bytes)
    requires Writable(b) && OffStrings(b) != 0 && SizeStrings(b) + |name| + 1 <= |b| && NameRoom(b, name)
    ensures var r := AddName(b, name);
            && Writable(r) && |name| + 1 <= SizeStrings(r)
            && DraftOf(r) == DraftOf(b).(names := name + [0] + DraftOf(b).names)
            && Writable(DelName(r, name)) && DraftOf(DelName(r, name)) == DraftOf(b)
  {
    hide U32, Put, Overwrite;
    AddNameHeader(b, name);
    AddNameBlocks(b, OffStruct(b), OffStruct(b) + SizeStruct(b), SizeStrings(b), name + [0]);
  }

  lemma AddNameSlice(b: bytes, q: nat, t: bytes, m': u32, m: u32, i: nat, j: nat)
    requires HEADER_SIZE <= i <= j <= |b| && HEADER_SIZE <= q && q + |t| <= |b| && (j <= q || q + |t| <= i)
    ensures Put(Overwrite(b, q, t), 32, m')[i..j] == b[i..j]
    ensures Put(Put(Overwrite(b, q, t), 32, m'), 32, m)[i..j] == b[i..j]
  {
    hide U32, Put, Overwrite;
    OverwriteSlice(b, q, t, i, j);
    PutSlice(Overwrite(b, q, t), 32, m', i, j);
    PutSlice(Put(Overwrite(b, q, t), 32, m'), 32, m, i, j);
  }

  // ----- the calls on the draft

  lemma CreateIs(n: nat, flags: u32)
    requires n < INT_MAX
    ensures (Create(n, flags).err == 0 <==> n >= RSV_OFFSET && flags <= 1)
    ensures Create(n, flags).err == 0 ==>
              && Writable(Create(n, flags).blob)
              && DraftOf(Create(n, flags).blob) == Draft(n, flags, false, [], [], [])
  {
    hide U32, Put;
    if n >= RSV_OFFSET && flags <= 1 {
      var b := seq(n, _ => 0);
      ZeroHeader(b);
      var b1 := Put(b, 0, SW_MAGIC);
      HeaderWith(b, 0, SW_MAGIC);
      var b2 := Put(b1, 20, 17);
      HeaderWith(b1, 20, 17);
      var b3 := Put(b2, 24, flags);
      HeaderWith(b2, 24, flags);
      var b4 := Put(b3, 4, n);
      HeaderWith(b3, 4, n);
      var b5 := Put(b4, 16, RSV_OFFSET);
      HeaderWith(b4, 16, RSV_OFFSET);
      var b6 := Put(b5, 8, RSV_OFFSET);
      HeaderWith(b5, 8, RSV_OFFSET);
      HeaderWith(b6, 12, 0);
    }
  }

  function With(h: Header, at: nat, v: u32): Header {
    match at
    case 0 => h.(magic := v)
    case 4 => h.(total := v)
    case 8 => h.(offStruct := v)
    case 12 => h.(offStrings := v)
    case 16 => h.(offRsv := v)
    case 20 => h.(version := v)
    case 24 => h.(lastComp := v)
    case _ => h
  }

  lemma HeaderWith(b: bytes, at: nat, v: u32)
    requires |b| >= HEADER_SIZE && at in {0, 4, 8, 12, 16, 20, 24}
    ensures HeaderOf(Put(b, at, v)) == With(HeaderOf(b), at, v)
  {
    hide U32, Put;
    FieldsAligned();
    HeaderPut(b, at, v);
  }

  lemma ZeroHeader(b: bytes)
    requires |b| >= HEADER_SIZE && forall i :: 0 <= i < |b| ==> b[i] == 0
    ensures HeaderOf(b) == Header(0, 0, 0, 0, 0, 0, 0, 0, 0, 0)
  {}

  lemma ReserveIs(b: bytes, addr: u64, size: u64)
    requires Writable(b) && !DraftOf(b).inStruct
    ensures var r, d := Reserve(b, addr, size), DraftOf(b);
            && (r.err == 0 <==> DraftSize(d) + 16 <= |b|)
            && (r.err != 0 ==> r == Outcome(ERR_NOSPACE, b))
            && (r.err == 0 ==> Writable(r.blob)
                               && DraftOf(r.blob) == d.(rsv := d.rsv + (BE64(addr) + BE64(size))))
  {
    hide U32, Put, BE64, Overwrite;
    var x, t := OffStruct(b), BE64(addr) + BE64(size);
    if x + 16 <= |b| {
      var b1 := Overwrite(b, x, t);
      OverwriteSlice(b, x, t, 0, HEADER_SIZE);
      assert b1[..HEADER_SIZE] == b[..HEADER_SIZE];
      HeaderKept(b, b1);
      FieldsAligned();
      HeaderPut(b1, 8, x + 16);
      OverwriteSlice(b, x, t, RSV_OFFSET, x);
      OverwriteSlice(b, x, t, x, x + 16);
      assert t[0..16] == t;
      SliceJoin(b1, RSV_OFFSET, x, x + 16);
      PutSlice(b1, 8, x + 16, RSV_OFFSET, x + 16);
    }
  }

  lemma EndReserveIs(b: bytes)
    requires Writable(b) && !DraftOf(b).inStruct
    ensures var r, d := EndReserve(b), DraftOf(b);
            && (r.err == 0 <==> DraftSize(d) + 16 <= |b|)
            && (r.err != 0 ==> r == Outcome(ERR_NOSPACE, b))
            && (r.err == 0 ==> Writable(r.blob)
                               && DraftOf(r.blob) == d.(rsv := d.rsv + (BE64(0) + BE64(0)), inStruct := true))
  {
    hide U32, Put, BE64, Reserve;
    ReserveIs(b, 0, 0);
    var a := Reserve(b, 0, 0).blob;
    if Reserve(b, 0, 0).err == 0 {
      FieldsAligned();
      HeaderPut(a, 12, |a|);
      PutSlice(a, 12, |a|, RSV_OFFSET, OffStruct(a));
    }
  }

  lemma ProbeStruct(b: bytes)
    requires Writable(b) && DraftOf(b).inStruct
    ensures StructProbe(b) == 0 && OffStrings(b) != 0
  {
    hide U32;
  }

  lemma BeginIs(b: bytes, name: bytes) returns (pad: bytes)
    requires Writable(b) && DraftOf(b).inStruct
    ensures var r, d, size := Begin(b, name), DraftOf(b), 4 + Align4(|name| + 1);
            && (r.err == 0 <==> DraftSize(d) + size <= |b|)
            && (r.err != 0 ==> r == Outcome(ERR_NOSPACE, b))
            && (r.err == 0 ==> |pad| == PadLen(|name| + 1) && Writable(r.blob)
                               && DraftOf(r.blob) == d.(body := d.body + NodeHead(name, pad)))
  {
    hide U32, Align4, PadLen, Lay, Writable, DraftOf, Room, BE32;
    AlignIsPad(|name| + 1);
    ProbeStruct(b);
    RoomIs(b, 4 + Align4(|name| + 1));
    pad := [];
    if Room(b, 4 + Align4(|name| + 1)) {
      var head, size := NodeHead(name, []), 4 + Align4(|name| + 1);
      LayIs(b, head, size);
      var p := OffStruct(b) + SizeStruct(b);
      pad := b[p + |head|..p + size];
      assert head + pad == NodeHead(name, pad);
    }
  }

  lemma EndNodeIs(b: bytes)
    requires Writable(b) && DraftOf(b).inStruct
    ensures var r, d := EndNode(b), DraftOf(b);
            && (r.err == 0 <==> DraftSize(d) + 4 <= |b|)
            && (r.err != 0 ==> r == Outcome(ERR_NOSPACE, b))
            && (r.err == 0 ==> Writable(r.blob) && DraftOf(r.blob) == d.(body := d.body + BE32(END_NODE)))
  {
    hide U32, Lay, Writable, DraftOf, Room, BE32;
    ProbeStruct(b);
    RoomIs(b, 4);
    if Room(b, 4) {
      LayIs(b, BE32(END_NODE), 4);
      var p := OffStruct(b) + SizeStruct(b);
      assert BE32(END_NODE) + b[p + 4..p + 4] == BE32(END_NODE);
    }
  }

  /** The strings after a property of that name was written, and where in them
      the name is found. */
  predicate KnownName(flags: u32, names: bytes, name: bytes) {
    flags % 2 == 0 && FindString(names, name, 0) >= 0
  }

  function NamesAfter(flags: u32, names: bytes, name: bytes): bytes {
    if KnownName(flags, names, name) then names else name + [0] + names
  }

  function NameIndex(flags: u32, names: bytes, name: bytes): (i: nat)
    ensures i < |NamesAfter(flags, names, name)|
  {
    if KnownName(flags, names, name) then FindString(names, name, 0) else 0
  }

  lemma NameIndexIs(flags: u32, names: bytes, name: bytes)
    requires 0 !in name
    ensures CString(NamesAfter(flags, names, name), NameIndex(flags, names, name)) == Found(name)
  {
    if KnownName(flags, names, name) {
      FindStringIs(names, name);
    } else {
      var t := NamesAfter(flags, names, name);
      assert t[0..|name|] == name && t[|name|] == 0;
      NameEndIs(t, 0, name);
    }
  }

  /** A property lands whole, its name counted back from the end of the strings;
      or nothing is written, a string added for it included. */
  lemma PropertyIs(b: bytes, name: bytes, val: bytes) returns (pad: bytes)
    requires Writable(b) && DraftOf(b).inStruct && |val| <= INT_MAX - 16
    ensures var r, d := Property(b, name, val), DraftOf(b);
            var t := NamesAfter(d.flags, d.names, name);
            && (r.err == 0 <==> DraftSize(d.(names := t)) + 12 + Align4(|val|) <= |b|)
            && (r.err != 0 ==> Writable(r.blob) && DraftOf(r.blob) == d
                               && (r.err == ERR_NOSPACE || r.err == WILD))
            && (r.err == WILD <==> |t| > |b|)
            && (r.err == 0 ==>
                  && |pad| == PadLen(|val|) && Writable(r.blob) && |t| < INT_MAX
                  && var back := |t| - NameIndex(d.flags, d.names, name);
                     DraftOf(r.blob) == d.(names := t, body := d.body + PropText(TWO32 - back, val, pad)))
  {
    hide U32, Align4, PadLen, Lay, Writable, DraftOf, Room, FindString, AddName, DelName, NameRoom, BE32, PropText;
    hide PropertyAt;
    var d := DraftOf(b);
    ProbeStruct(b);
    DraftIs(b);
    TailIs(b);
    AlignIsPad(|val|);
    if KnownName(d.flags, d.names, name) {
      pad := PropertyAtIs(b, b, |d.names| - FindString(d.names, name, 0), val);
    } else if |d.names| + |name| + 1 > |b| {
      pad := [];
    } else {
      NameRoomIs(b, name);
      pad := [];
      if NameRoom(b, name) {
        AddNameIs(b, name);
        ProbeStruct(AddName(b, name));
        pad := PropertyAtIs(AddName(b, name), DelName(AddName(b, name), name), |d.names| + |name| + 1, val);
      }
    }
  }

  lemma TailIs(b: bytes)
    requires Writable(b)
    ensures Tail(b) == DraftOf(b).names
  {}

  lemma NameRoomIs(b: bytes, name: bytes)
    requires Writable(b) && SizeStrings(b) + |name| + 1 <= |b|
    ensures NameRoom(b, name) <==> DraftSize(DraftOf(b)) + |name| + 1 <= |b|
  {
    hide U32;
  }

  lemma PropertyAtIs(b: bytes, undone: bytes, back: nat, val: bytes) returns (pad: bytes)
    requires Writable(b) && DraftOf(b).inStruct && |undone| == |b| && 0 < back < TWO32 && |val| <= INT_MAX - 16
    ensures var r, d := PropertyAt(b, undone, back, val), DraftOf(b);
            && (r.err == 0 <==> DraftSize(d) + 12 + Align4(|val|) <= |b|)
            && (r.err != 0 ==> r == Outcome(ERR_NOSPACE, undone))
            && (r.err == 0 ==> |pad| == PadLen(|val|) && Writable(r.blob)
                               && DraftOf(r.blob) == d.(body := d.body + PropText(TWO32 - back, val, pad)))
  {
    hide U32, Align4, PadLen, Lay, Writable, DraftOf, Room, BE32;
    AlignIsPad(|val|);
    ProbeStruct(b);
    var size := 12 + Align4(|val|);
    RoomIs(b, size);
    pad := [];
    if Room(b, size) {
      var head := PropText(TWO32 - back, val, []);
      LayIs(b, head, size);
      var p := OffStruct(b) + SizeStruct(b);
      pad := b[p + |head|..p + size];
      assert head + pad == PropText(TWO32 - back, val, pad);
    }
  }
}
