/** external/libfdt/fdt_sw.c in memory: each call changes the buffer as its
    function of the blob says, and nothing else. */
module FdtWrite {
  import opened Bytes
  import opened Memory
  import opened FdtFormat
  import opened FdtWalk
  import opened FdtRead
  import opened FdtProps
  import opened FdtSplice
  import opened FdtEdit
  import opened FdtWriter
  import opened FdtFinish
  import FdtPack

  method CreateAt(mem: array<byte>, buf: nat, n: nat, flags: u32, ghost m0: bytes) returns (r: int)
    requires mem[..] == m0 && buf + n <= mem.Length && n < INT_MAX
    modifies mem
    ensures r == Create(n, flags).err
    ensures if r == 0 then Window(mem[..], m0, buf, Create(n, flags).blob) else mem[..] == m0
  {
    hide Window, Put, U32;
    if n < RSV_OFFSET {
      return ERR_NOSPACE;
    }
    if flags > 1 {
      return ERR_BADFLAGS;
    }
    WindowStart(m0, buf, n);
    ghost var w := m0[buf..buf + n];
    ghost var b := seq(n, _ => 0);
    StoreIn(mem, buf, 0, seq(n, _ => 0), m0, w);
    assert Overwrite(w, 0, b) == b;
    StoreField(mem, buf, 0, SW_MAGIC, m0, b);
    ghost var b1 := Put(b, 0, SW_MAGIC);
    StoreField(mem, buf, 20, 17, m0, b1);
    ghost var b2 := Put(b1, 20, 17);
    StoreField(mem, buf, 24, flags, m0, b2);
    ghost var b3 := Put(b2, 24, flags);
    StoreField(mem, buf, 4, n, m0, b3);
    ghost var b4 := Put(b3, 4, n);
    StoreField(mem, buf, 16, RSV_OFFSET, m0, b4);
    ghost var b5 := Put(b4, 16, RSV_OFFSET);
    StoreField(mem, buf, 8, RSV_OFFSET, m0, b5);
    StoreField(mem, buf, 12, 0, m0, Put(b5, 8, RSV_OFFSET));
    r := 0;
  }

  /** fdt_sw_probe_ and the state checks: the strings offset tells the state. */
  method ProbeState(mem: array<byte>, fdt: nat, forStruct: bool, ghost m0: bytes, ghost b: bytes) returns (r: int)
    requires Window(mem[..], m0, fdt, b) && |b| >= HEADER_SIZE
    ensures r == if forStruct then StructProbe(b) else RsvProbe(b)
  {
    hide Window, U32;
    var magic := LoadField(mem, fdt, 0, m0, b);
    if magic == MAGIC {
      return ERR_BADSTATE;
    } else if magic != SW_MAGIC {
      return ERR_BADMAGIC;
    }
    var strings := LoadField(mem, fdt, 12, m0, b);
    var total := LoadField(mem, fdt, 4, m0, b);
    r := if strings != (if forStruct then total else 0) then ERR_BADSTATE else 0;
  }

  method AddReservation(mem: array<byte>, fdt: nat, addr: u64, size: u64, ghost m0: bytes, ghost b: bytes)
    returns (r: int)
    requires Window(mem[..], m0, fdt, b) && Handed(b)
    modifies mem
    ensures r == Reserve(b, addr, size).err && Window(mem[..], m0, fdt, Reserve(b, addr, size).blob)
  {
    hide Window, U32, BE64, Put, Overwrite;
    r := ProbeState(mem, fdt, false, m0, b);
    if r != 0 {
      return;
    }
    var offset := LoadField(mem, fdt, 8, m0, b);
    var total := LoadField(mem, fdt, 4, m0, b);
    if offset + 16 > total {
      return ERR_NOSPACE;
    }
    StoreIn(mem, fdt, offset, BE64(addr) + BE64(size), m0, b);
    StoreField(mem, fdt, 8, offset + 16, m0, Overwrite(b, offset, BE64(addr) + BE64(size)));
    r := 0;
  }

  method FinishReservations(mem: array<byte>, fdt: nat, ghost m0: bytes, ghost b: bytes) returns (r: int)
    requires Window(mem[..], m0, fdt, b) && Handed(b)
    modifies mem
    ensures r == EndReserve(b).err && Window(mem[..], m0, fdt, EndReserve(b).blob)
  {
    hide Window, U32, Reserve, Put;
    r := AddReservation(mem, fdt, 0, 0, m0, b);
    if r != 0 {
      return;
    }
    ghost var b1 := Reserve(b, 0, 0).blob;
    var total := LoadField(mem, fdt, 4, m0, b1);
    StoreField(mem, fdt, 12, total, m0, b1);
  }

  /** fdt_grab_space_: where the new bytes go, or a refusal. */
  method GrabSpace(mem: array<byte>, fdt: nat, size: nat, ghost m0: bytes, ghost b: bytes) returns (ok: bool, p: nat)
    requires Window(mem[..], m0, fdt, b) && Writable(b)
    modifies mem
    ensures ok == Room(b, size) && p == OffStruct(b) + SizeStruct(b)
    ensures ok ==> SizeStruct(b) + size < TWO32 && Window(mem[..], m0, fdt, Put(b, 36, SizeStruct(b) + size))
    ensures !ok ==> Window(mem[..], m0, fdt, b)
  {
    hide Window, U32, Put;
    RoomIs(b, size);
    var offset := LoadField(mem, fdt, 36, m0, b);
    var total := LoadField(mem, fdt, 4, m0, b);
    var offStruct := LoadField(mem, fdt, 8, m0, b);
    var strings := LoadField(mem, fdt, 32, m0, b);
    var spaceleft := (total - offStruct - strings) % TWO32;
    ok, p := offset + size <= spaceleft, offStruct + offset;
    if ok {
      StoreField(mem, fdt, 36, offset + size, m0, b);
    }
  }

  method BeginNode(mem: array<byte>, fdt: nat, name: bytes, ghost m0: bytes, ghost b: bytes) returns (r: int)
    requires Window(mem[..], m0, fdt, b) && Handed(b)
    modifies mem
    ensures r == Begin(b, name).err && Window(mem[..], m0, fdt, Begin(b, name).blob)
  {
    hide Window, U32, Put, Overwrite, Room, BE32, Align4, Writable;
    r := ProbeState(mem, fdt, true, m0, b);
    if r != 0 {
      return;
    }
    AlignIsPad(|name| + 1);
    var size := 4 + Align4(|name| + 1);
    var ok, p := GrabSpace(mem, fdt, size, m0, b);
    if !ok {
      return ERR_NOSPACE;
    }
    RoomIs(b, size);
    ghost var b1 := Put(b, 36, SizeStruct(b) + size);
    StoreIn(mem, fdt, p, BE32(BEGIN_NODE), m0, b1);
    StoreIn(mem, fdt, p + 4, name + [0], m0, Overwrite(b1, p, BE32(BEGIN_NODE)));
    OverwriteTwice(b1, p, BE32(BEGIN_NODE), name + [0]);
    assert BE32(BEGIN_NODE) + (name + [0]) == NodeHead(name, []);
    r := 0;
  }

  method CloseNode(mem: array<byte>, fdt: nat, ghost m0: bytes, ghost b: bytes) returns (r: int)
    requires Window(mem[..], m0, fdt, b) && Handed(b)
    modifies mem
    ensures r == EndNode(b).err && Window(mem[..], m0, fdt, EndNode(b).blob)
  {
    hide Window, U32, Put, Overwrite, Room, BE32, Writable;
    r := ProbeState(mem, fdt, true, m0, b);
    if r != 0 {
      return;
    }
    var ok, p := GrabSpace(mem, fdt, 4, m0, b);
    if !ok {
      return ERR_NOSPACE;
    }
    RoomIs(b, 4);
    StoreIn(mem, fdt, p, BE32(END_NODE), m0, Put(b, 36, SizeStruct(b) + 4));
    r := 0;
  }

  /** fdt_find_string_ on the strings at the end of the buffer. */
  method SearchName(mem: array<byte>, fdt: nat, name: bytes, ghost m0: bytes, ghost b: bytes) returns (p: int)
    requires Window(mem[..], m0, fdt, b) && Writable(b)
    ensures p == FindString(Tail(b), name, 0)
  {
    hide U32, Window, FindString;
    var total := LoadField(mem, fdt, 4, m0, b);
    var size := LoadField(mem, fdt, 32, m0, b);
    ghost var t := Tail(b);
    p := 0;
    while p + |name| + 1 <= size
      invariant p >= 0 && FindString(t, name, 0) == FindString(t, name, p)
    {
      SliceSlice(b, total - size, total, p, p + |name|);
      FindStep(t, name, p);
      var found := StandsAt(mem, fdt, total - size + p, name, m0, b);
      if found {
        return;
      }
      p := p + 1;
    }
    FindStep(t, name, p);
    p := -1;
  }

  /** The second half of fdt_property_placeholder, and the copy. */
  method LayProperty(mem: array<byte>, fdt: nat, back: nat, name: bytes, val: bytes, added: bool, ghost m0: bytes,
      ghost b: bytes)
    returns (r: int)
    requires Window(mem[..], m0, fdt, b) && Writable(b) && 0 < back < TWO32 && |val| <= INT_MAX - 16
    requires added ==> |name| + 1 <= SizeStrings(b)
    modifies mem
    ensures var q := PropertyAt(b, if added then DelName(b, name) else b, back, val);
            r == q.err && Window(mem[..], m0, fdt, q.blob)
  {
    hide Window, U32, Put, Overwrite, Room, BE32, Align4, Writable;
    AlignIsPad(|val|);
    var size := 12 + Align4(|val|);
    RoomIs(b, size);
    var ok, p := GrabSpace(mem, fdt, size, m0, b);
    if !ok {
      if added {
        var strings := LoadField(mem, fdt, 32, m0, b);
        StoreField(mem, fdt, 32, strings - (|name| + 1), m0, b);
      }
      return ERR_NOSPACE;
    }
    var head := BE32(PROP) + BE32(|val|) + BE32(TWO32 - back);
    ghost var b1 := Put(b, 36, SizeStruct(b) + size);
    StoreIn(mem, fdt, p, head, m0, b1);
    StoreIn(mem, fdt, p + 12, val, m0, Overwrite(b1, p, head));
    OverwriteTwice(b1, p, head, val);
    assert head + val == PropText(TWO32 - back, val, []);
    r := 0;
  }

  method AddProperty(mem: array<byte>, fdt: nat, name: bytes, val: bytes, ghost m0: bytes, ghost b: bytes)
    returns (r: int)
    requires Window(mem[..], m0, fdt, b) && Handed(b) && |val| <= INT_MAX - 16 && Property(b, name, val).err != WILD
    modifies mem
    ensures r == Property(b, name, val).err && Window(mem[..], m0, fdt, Property(b, name, val).blob)
  {
    hide Window, U32, Put, Overwrite, FindString, Writable, PropertyAt, BE32, DelName, DraftOf, CString;
    r := ProbeState(mem, fdt, true, m0, b);
    if r != 0 {
      return;
    }
    StateFacts(b);
    var flags := LoadField(mem, fdt, 24, m0, b);
    var size := LoadField(mem, fdt, 32, m0, b);
    var p := -1;
    if flags % 2 == 0 {
      p := SearchName(mem, fdt, name, m0, b);
    }
    if p >= 0 {
      r := LayProperty(mem, fdt, size - p, name, val, false, m0, b);
      return;
    }
    var total := LoadField(mem, fdt, 4, m0, b);
    var offStruct := LoadField(mem, fdt, 8, m0, b);
    var structSize := LoadField(mem, fdt, 36, m0, b);
    var offset := size + |name| + 1;
    if (total - offset) % TWO32 < offStruct + structSize {
      return ERR_NOSPACE;
    }
    AddNameIs(b, name);
    StoreIn(mem, fdt, total - offset, name + [0], m0, b);
    StoreField(mem, fdt, 32, offset, m0, Overwrite(b, total - offset, name + [0]));
    r := LayProperty(mem, fdt, offset, name, val, true, m0, AddName(b, name));
  }

  lemma StateFacts(b: bytes)
    requires Handed(b) && StructProbe(b) == 0
    ensures Writable(b) && TotalSize(b) == |b| < INT_MAX && OffStrings(b) != 0
    ensures |Tail(b)| == SizeStrings(b) && RSV_OFFSET <= OffStruct(b)
        && OffStruct(b) + SizeStruct(b) + SizeStrings(b) <= |b|
  {
    hide U32;
  }

  // ----- fdt_finish

  /** The loop that corrects the name offsets. */
  method PatchNames(mem: array<byte>, fdt: nat, n: nat, k: u32, ghost m0: bytes, ghost b: bytes)
    returns (next: int, ghost c: bytes)
    requires Window(mem[..], m0, fdt, b) && InMemory(b) && |b| == n
    modifies mem
    ensures Outcome(next, c) == Patch(b, 0, k) && Window(mem[..], m0, fdt, c)
  {
    hide Window, U32, Put, NextTag, StructOf, InMemory;
    c := b;
    var offset := 0;
    while true
      invariant |c| == n && InMemory(c) && 0 <= offset <= INT_MAX
      invariant Window(mem[..], m0, fdt, c) && Patch(b, 0, k) == Patch(c, offset, k)
      decreases |StructOf(c)| - offset
    {
      WindowSlice(mem[..], m0, fdt, c, 0, n);
      assert mem[fdt..fdt + n] == mem[..][fdt + 0..fdt + n] == c[0..n] == c;
      var tag: u32;
      tag, next := ReadTag(mem[fdt..fdt + n], offset);
      if tag == END {
        return;
      }
      if tag == PROP {
        PropThere(StructOf(c), offset);
        NameWord(c, offset);
        StructWord(c, offset + 8);
        FieldInside(c);
        var offStruct := LoadField(mem, fdt, 8, m0, c);
        var nameoff := LoadField(mem, fdt, offStruct + offset + 8, m0, c);
        PutName(c, offset, Shifted(nameoff, k));
        StoreField(mem, fdt, offStruct + offset + 8, Shifted(nameoff, k), m0, c);
        c := Put(c, offStruct + offset + 8, Shifted(nameoff, k));
      }
      offset := next;
    }
  }

  lemma FieldInside(b: bytes)
    requires InMemory(b)
    ensures |b| >= HEADER_SIZE
  {
    hide U32;
  }

  method FinishBlob(mem: array<byte>, fdt: nat, ghost m0: bytes, ghost b: bytes) returns (r: int)
    requires Window(mem[..], m0, fdt, b) && Handed(b)
    modifies mem
    ensures r == Finish(b).err && Window(mem[..], m0, fdt, Finish(b).blob)
  {
    hide Window, U32, Put, Overwrite, Room, BE32, Writable, Patch, Lay, DraftOf, Editable;
    r := ProbeState(mem, fdt, true, m0, b);
    if r != 0 {
      return;
    }
    var ok, p := GrabSpace(mem, fdt, 4, m0, b);
    if !ok {
      return ERR_NOSPACE;
    }
    LayEnd(mem, fdt, p, m0, b);
    EndReady(b);
    ghost var b1 := Lay(b, BE32(END), 4);
    DraftIs(b1);
    MoveNamesIs(b1);
    EditableIs(MoveNames(b1));
    var total := LoadField(mem, fdt, 4, m0, b1);
    var strings := LoadField(mem, fdt, 32, m0, b1);
    var offStruct := LoadField(mem, fdt, 8, m0, b1);
    var size := LoadField(mem, fdt, 36, m0, b1);
    TotalIs(b1);
    MoveIn(mem, fdt, offStruct + size, total - strings, strings, m0, b1);
    StoreField(mem, fdt, 12, offStruct + size, m0, Overwrite(b1, offStruct + size, b1[total - strings..total]));
    ghost var c: bytes;
    r, c := PatchNames(mem, fdt, total, strings, m0, MoveNames(b1));
    if r < 0 {
      return;
    }
    CloseBlob(mem, fdt, offStruct + size + strings, m0, c);
    r := 0;
  }

  lemma EditableIs(b: bytes)
    requires Editable(b)
    ensures InMemory(b)
  {}

  lemma TotalIs(b: bytes)
    requires Writable(b)
    ensures |b| >= HEADER_SIZE && TotalSize(b) == |b|
  {
    hide U32;
  }

  method LayEnd(mem: array<byte>, fdt: nat, p: nat, ghost m0: bytes, ghost b: bytes)
    requires Writable(b) && Room(b, 4) && p == OffStruct(b) + SizeStruct(b) && SizeStruct(b) + 4 < TWO32
    requires Window(mem[..], m0, fdt, Put(b, 36, SizeStruct(b) + 4))
    modifies mem
    ensures Window(mem[..], m0, fdt, Lay(b, BE32(END), 4))
  {
    hide Window, U32, Put, Overwrite, Room, BE32, Writable;
    RoomIs(b, 4);
    StoreIn(mem, fdt, p, BE32(END), m0, Put(b, 36, SizeStruct(b) + 4));
  }

  method CloseBlob(mem: array<byte>, fdt: nat, total: u32, ghost m0: bytes, ghost b: bytes)
    requires Window(mem[..], m0, fdt, b) && |b| >= HEADER_SIZE
    modifies mem
    ensures Window(mem[..], m0, fdt, Close(b, total))
  {
    hide Window, Put;
    StoreField(mem, fdt, 4, total, m0, b);
    StoreField(mem, fdt, 24, 16, m0, Put(b, 4, total));
    StoreField(mem, fdt, 0, MAGIC, m0, Put(Put(b, 4, total), 24, 16));
  }

  // ----- fdt_resize

  function HeadSize(b: bytes): nat
    requires |b| >= HEADER_SIZE
  {
    OffStruct(b) + SizeStruct(b)
  }

  /** The unfinished blob `b` stands at `fdt` in the memory `m`. */
  ghost predicate DraftAt(m: bytes, fdt: nat, b: bytes) {
    fdt + |b| <= |m| && m[fdt..fdt + |b|] == b && Writable(b)
  }

  /** The first `head` and the last `tail` of the `total` bytes at `fdt` moved to
      the ends of the `n` bytes at `buf`. */
  function MoveEnds(m: bytes, fdt: nat, total: nat, head: nat, tail: nat, buf: nat, n: nat): (r: bytes)
    requires fdt + total <= |m| && buf + n <= |m| && head + tail <= total && head + tail <= n
    ensures |r| == |m|
  {
    var from, to := fdt + total - tail, buf + n - tail;
    if buf <= fdt then
      var m1 := Overwrite(m, buf, m[fdt..fdt + head]);
      Overwrite(m1, to, m1[from..from + tail])
    else
      var m1 := Overwrite(m, to, m[from..from + tail]);
      Overwrite(m1, buf, m1[fdt..fdt + head])
  }

  /** However the two buffers overlap, neither move runs over what the other
      still has to read. */
  lemma MoveEndsIs(m: bytes, fdt: nat, total: nat, head: nat, tail: nat, buf: nat, n: nat)
    requires fdt + total <= |m| && buf + n <= |m| && head + tail <= total && head + tail <= n
    ensures var r := MoveEnds(m, fdt, total, head, tail, buf, n);
            && r[buf..buf + head] == m[fdt..fdt + head]
            && r[buf + n - tail..buf + n] == m[fdt + total - tail..fdt + total]
            && Window(r, m, buf, r[buf..buf + n])
  {
    hide Overwrite, Window;
    var from, to := fdt + total - tail, buf + n - tail;
    if buf <= fdt {
      TwoMoves(m, buf, fdt, head, to, from, tail, buf, buf + n);
    } else {
      TwoMoves(m, to, from, tail, buf, fdt, head, buf, buf + n);
    }
    FdtPack.WindowFrom(m, MoveEnds(m, fdt, total, head, tail, buf, n), buf, n);
  }

  lemma DraftEnds(m: bytes, fdt: nat, b: bytes, buf: nat, n: nat)
    requires DraftAt(m, fdt, b) && buf + n <= |m| && HeadSize(b) + SizeStrings(b) <= n
    ensures HeadSize(b) + SizeStrings(b) <= |b|
    ensures var head, tail := HeadSize(b), SizeStrings(b);
            var r := MoveEnds(m, fdt, |b|, head, tail, buf, n);
            var w := r[buf..buf + n];
            w[..head] == b[..head] && w[n - tail..] == b[|b| - tail..] && Window(r, m, buf, w)
  {
    hide U32, Window, MoveEnds, Writable, HeadSize;
    DraftParts(m, fdt, b);
    var head, tail := HeadSize(b), SizeStrings(b);
    MoveEndsIs(m, fdt, |b|, head, tail, buf, n);
    var r := MoveEnds(m, fdt, |b|, head, tail, buf, n);
    EndsOf(m, fdt, b, head, tail);
    EndsOf(r, buf, r[buf..buf + n], head, tail);
  }

  lemma DraftParts(m: bytes, fdt: nat, b: bytes)
    requires DraftAt(m, fdt, b)
    ensures Writable(b) && fdt + |b| <= |m| && m[fdt..fdt + |b|] == b
    ensures |b| >= HEADER_SIZE && HeadSize(b) + SizeStrings(b) <= |b| < INT_MAX && TotalSize(b) == |b|
    ensures HeadSize(b) == OffStruct(b) + SizeStruct(b)
    ensures DraftSize(DraftOf(b)) == HeadSize(b) + SizeStrings(b)
  {
    hide U32;
    DraftIs(b);
  }

  lemma EndsOf(m: bytes, at: nat, w: bytes, head: nat, tail: nat)
    requires at + |w| <= |m| && m[at..at + |w|] == w && head <= |w| && tail <= |w|
    ensures w[..head] == m[at..at + head] && w[|w| - tail..] == m[at + |w| - tail..at + |w|]
  {
    SliceSlice(m, at, at + |w|, 0, head);
    SliceSlice(m, at, at + |w|, |w| - tail, |w|);
  }

  /** Two moves of which the first leaves the source of the second alone and the
      second the target of the first, both inside `[lo, hi)`. */
  lemma TwoMoves(m: bytes, d1: nat, s1: nat, n1: nat, d2: nat, s2: nat, n2: nat, lo: nat, hi: nat)
    requires s1 + n1 <= |m| && s2 + n2 <= |m| && lo <= d1 && d1 + n1 <= hi && lo <= d2 && d2 + n2 <= hi <= |m|
    requires (s2 + n2 <= d1 || d1 + n1 <= s2) && (d1 + n1 <= d2 || d2 + n2 <= d1)
    ensures var m1 := Overwrite(m, d1, m[s1..s1 + n1]);
            var r := Overwrite(m1, d2, m1[s2..s2 + n2]);
            && r[d1..d1 + n1] == m[s1..s1 + n1] && r[d2..d2 + n2] == m[s2..s2 + n2]
            && r[0..lo] == m[0..lo] && r[hi..|m|] == m[hi..|m|]
  {
    hide Overwrite;
    var m1 := Overwrite(m, d1, m[s1..s1 + n1]);
    OneMove(m, d1, s1, n1, s2, s2 + n2);
    OneMove(m, d1, s1, n1, 0, lo);
    OneMove(m, d1, s1, n1, hi, |m|);
    OneMove(m1, d2, s2, n2, d1, d1 + n1);
    OneMove(m1, d2, s2, n2, 0, lo);
    OneMove(m1, d2, s2, n2, hi, |m|);
  }

  lemma OneMove(m: bytes, d: nat, s: nat, n: nat, i: nat, j: nat)
    requires d + n <= |m| && s + n <= |m| && i <= j <= |m| && (j <= d || d + n <= i)
    ensures Overwrite(m, d, m[s..s + n])[d..d + n] == m[s..s + n] && Overwrite(m, d, m[s..s + n])[i..j] == m[i..j]
  {
    hide Overwrite;
    MovedSlice(m, d, s, n, d, d + n);
    OverwriteSlice(m, d, m[s..s + n], i, j);
  }

  /** The size fields stored behind the moves. */
  function Resized(w: bytes, n: u32): (r: bytes)
    requires |w| >= HEADER_SIZE
    ensures |r| == |w|
  {
    var t := Put(w, 4, n);
    if OffStrings(t) != 0 then Put(t, 12, n) else t
  }

  lemma ResizedHeader(b: bytes, w: bytes)
    requires |b| >= HEADER_SIZE && HEADER_SIZE <= |w| < INT_MAX && w[..HEADER_SIZE] == b[..HEADER_SIZE]
    ensures var r, n := Resized(w, |w|), |w|;
            HeaderOf(r) == HeaderOf(b).(total := n, offStrings := if OffStrings(b) != 0 then n else 0)
  {
    hide U32, Put;
    HeaderKept(b, w);
    var n := |w|;
    var t := Put(w, 4, n);
    HeaderWith(w, 4, n);
    HeaderWith(t, 12, n);
  }

  lemma ResizedSlice(w: bytes, n: u32, i: nat, j: nat)
    requires HEADER_SIZE <= i <= j <= |w|
    ensures Resized(w, n)[i..j] == w[i..j]
  {
    hide U32, Put;
    PutSlice(w, 4, n, i, j);
    PutSlice(Put(w, 4, n), 12, n, i, j);
  }

  lemma ResizedIs(b: bytes, w: bytes)
    requires Writable(b) && |w| < INT_MAX && HeadSize(b) + SizeStrings(b) <= |w|
    requires w[..HeadSize(b)] == b[..HeadSize(b)] && w[|w| - SizeStrings(b)..] == b[|b| - SizeStrings(b)..]
    ensures |w| >= HEADER_SIZE && Writable(Resized(w, |w|)) && DraftOf(Resized(w, |w|)) == DraftOf(b).(size := |w|)
  {
    hide U32, Resized;
    DraftIs(b);
    var n, head, tail := |w|, HeadSize(b), SizeStrings(b);
    HeadSlice(b, w, head, 0, HEADER_SIZE);
    assert w[..HEADER_SIZE] == w[0..HEADER_SIZE] && b[..HEADER_SIZE] == b[0..HEADER_SIZE];
    ResizedHeader(b, w);
    ResizedSlice(w, n, RSV_OFFSET, OffStruct(b));
    ResizedSlice(w, n, OffStruct(b), head);
    ResizedSlice(w, n, n - tail, n);
    HeadSlice(b, w, head, RSV_OFFSET, OffStruct(b));
    HeadSlice(b, w, head, OffStruct(b), head);
    assert w[n - tail..n] == w[n - tail..] && b[|b| - tail..|b|] == b[|b| - tail..];
  }

  lemma HeadSlice(b: bytes, w: bytes, head: nat, i: nat, j: nat)
    requires head <= |b| && head <= |w| && w[..head] == b[..head] && i <= j <= head
    ensures w[i..j] == b[i..j]
  {
    SliceSlice(w, 0, head, i, j);
    SliceSlice(b, 0, head, i, j);
    assert w[..head] == w[0..head] && b[..head] == b[0..head];
  }

  /** fdt_resize: the draft goes on in another buffer, larger or smaller,
      overlapping the old one or not, with nothing lost. */
  method ResizeDraft(mem: array<byte>, fdt: nat, buf: nat, bufsize: int, ghost b: bytes) returns (err: int)
    requires fdt + |b| <= mem.Length && mem[fdt..fdt + |b|] == b && Handed(b)
    requires buf + bufsize <= mem.Length && bufsize < INT_MAX
    modifies mem
    ensures err == if SwProbe(b) != 0 then SwProbe(b) else if DraftSize(DraftOf(b)) > bufsize then ERR_NOSPACE else 0
    ensures err != 0 ==> mem[..] == old(mem[..])
    ensures err == 0 ==>
              && bufsize >= 0 && Window(mem[..], old(mem[..]), buf, mem[buf..buf + bufsize])
              && Writable(mem[buf..buf + bufsize])
              && DraftOf(mem[buf..buf + bufsize]) == DraftOf(b).(size := bufsize)
  {
    hide U32, Window, Writable, DraftOf, Put, Overwrite, MoveEnds, Resized, DraftSize, HeadSize;
    ghost var m := mem[..];
    WindowStart(m, fdt, |b|);
    assert m[fdt..fdt + |b|] == b;
    var magic := LoadField(mem, fdt, 0, m, b);
    if magic != SW_MAGIC {
      return if magic == MAGIC then ERR_BADSTATE else ERR_BADMAGIC;
    }
    DraftParts(m, fdt, b);
    if bufsize < 0 {
      return ERR_NOSPACE;
    }
    var n: nat := bufsize;
    var offStruct := LoadField(mem, fdt, 8, m, b);
    var structSize := LoadField(mem, fdt, 36, m, b);
    var tail := LoadField(mem, fdt, 32, m, b);
    var total := LoadField(mem, fdt, 4, m, b);
    var head := offStruct + structSize;
    if head + tail > total {
      return ERR_INTERNAL;
    }
    if head + tail > n {
      return ERR_NOSPACE;
    }
    DraftEnds(m, fdt, b, buf, n);
    MoveBoth(mem, fdt, total, head, tail, buf, n);
    ghost var w := mem[..][buf..buf + n];
    ResizedIs(b, w);
    StoreSizes(mem, buf, n, m, w);
    err := 0;
  }

  method MoveBoth(mem: array<byte>, fdt: nat, total: nat, head: nat, tail: nat, buf: nat, n: nat)
    requires fdt + total <= mem.Length && buf + n <= mem.Length && head + tail <= total && head + tail <= n
    modifies mem
    ensures mem[..] == MoveEnds(old(mem[..]), fdt, total, head, tail, buf, n)
  {
    hide Overwrite;
    var from, to := fdt + total - tail, buf + n - tail;
    if buf <= fdt {
      assert mem[fdt..fdt + head] == mem[..][fdt..fdt + head];
      MemMove(mem, buf, fdt, head);
      assert mem[from..from + tail] == mem[..][from..from + tail];
      MemMove(mem, to, from, tail);
    } else {
      assert mem[from..from + tail] == mem[..][from..from + tail];
      MemMove(mem, to, from, tail);
      assert mem[fdt..fdt + head] == mem[..][fdt..fdt + head];
      MemMove(mem, buf, fdt, head);
    }
  }

  method StoreSizes(mem: array<byte>, buf: nat, n: u32, ghost m0: bytes, ghost w: bytes)
    requires Window(mem[..], m0, buf, w) && HEADER_SIZE <= |w| == n && buf + n <= mem.Length
    modifies mem
    ensures Window(mem[..], m0, buf, mem[buf..buf + n]) && mem[buf..buf + n] == Resized(w, n)
  {
    hide Window, Put, U32;
    StoreField(mem, buf, 4, n, m0, w);
    var strings := LoadField(mem, buf, 12, m0, Put(w, 4, n));
    if strings != 0 {
      StoreField(mem, buf, 12, n, m0, Put(w, 4, n));
    }
    WindowRead(mem[..], m0, buf, Resized(w, n));
    assert mem[buf..buf + n] == mem[..][buf..buf + n];
  }
}
