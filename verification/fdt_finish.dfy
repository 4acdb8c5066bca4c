/** external/libfdt/fdt_sw.c, fdt_finish: the terminator, the relocation of the
    strings and of every offset that points to them. */
module FdtFinish {
  import opened Bytes
  import opened FdtFormat
  import opened FdtWalk
  import opened FdtNodes
  import opened FdtRead
  import opened FdtProps
  import opened FdtSplice
  import opened FdtEdit
  import opened FdtUpdate
  import opened FdtMeaning
  import opened FdtWriter

  /** The strings moved up against the structure block. */
  function MoveNames(b: bytes): (r: bytes)
    requires Writable(b)
    ensures |r| == |b|
  {
    var top := OffStruct(b) + SizeStruct(b);
    Put(Overwrite(b, top, b[|b| - SizeStrings(b)..|b|]), 12, top)
  }

  lemma MoveNamesIs(b: bytes)
    requires Writable(b) && DraftOf(b).inStruct
    ensures var r, d := MoveNames(b), DraftOf(b);
            && Editable(r) && StructOf(r) == d.body && StringsOf(r) == d.names
            && r[RSV_OFFSET..OffStruct(r)] == d.rsv
            && OffStruct(r) == OffStruct(b) == RSV_OFFSET + |d.rsv| && OffRsv(r) == RSV_OFFSET
            && DataSize(r) == DraftSize(d)
  {
    hide U32, Put, Overwrite;
    var x, top, m := OffStruct(b), OffStruct(b) + SizeStruct(b), SizeStrings(b);
    var t := b[|b| - m..|b|];
    var b1 := Overwrite(b, top, t);
    OverwriteSlice(b, top, t, 0, HEADER_SIZE);
    assert b1[..HEADER_SIZE] == b[..HEADER_SIZE];
    HeaderKept(b, b1);
    HeaderWith(b1, 12, top);
    OverwriteSlice(b, top, t, RSV_OFFSET, x);
    OverwriteSlice(b, top, t, x, top);
    OverwriteSlice(b, top, t, top, top + m);
    assert t[0..m] == t;
    PutSlice(b1, 12, top, RSV_OFFSET, x);
    PutSlice(b1, 12, top, x, top);
    PutSlice(b1, 12, top, top, top + m);
  }

  /** A name offset written while the strings were at the end of the buffer. */
  function Shifted(o: u32, k: u32): u32 {
    (o + k) % TWO32
  }

  /** The walk that corrects the name offsets, from offset `o` on. */
  function Patch(b: bytes, o: nat, k: u32): (r: Outcome)
    requires InMemory(b)
    ensures |r.blob| == |b|
    decreases |StructOf(b)| - o
  {
    var t := NextTag(StructOf(b), o);
    if t.tag == END then Outcome(t.next, b)
    else if t.tag == PROP then
      PropThere(StructOf(b), o);
      NameWord(b, o);
      var v := Shifted(U32(StructOf(b), o + 8), k);
      PutName(b, o, v);
      Patch(Put(b, OffStruct(b) + o + 8, v), t.next, k)
    else Patch(b, t.next, k)
  }

  lemma NameWord(b: bytes, o: nat)
    requires InMemory(b) && o + 12 <= |StructOf(b)|
    ensures OffStruct(b) + o + 12 <= |b|
  {
    hide U32;
  }

  lemma PutName(b: bytes, o: nat, v: u32)
    requires InMemory(b) && o + 12 <= |StructOf(b)| && OffStruct(b) + o + 12 <= |b|
    ensures InMemory(Put(b, OffStruct(b) + o + 8, v))
    ensures |StructOf(Put(b, OffStruct(b) + o + 8, v))| == |StructOf(b)|
  {
    hide U32, BE32, Overwrite;
    var p := OffStruct(b) + o + 8;
    OverwriteSlice(b, p, BE32(v), 0, HEADER_SIZE);
    assert Put(b, p, v)[..HEADER_SIZE] == b[..HEADER_SIZE];
    HeaderKept(b, Put(b, p, v));
  }

  /** fdt_finish. */
  function Finish(b: bytes): (r: Outcome)
    requires Handed(b)
    ensures |r.blob| == |b|
  {
    if StructProbe(b) != 0 then Outcome(StructProbe(b), b)
    else if !Room(b, 4) then Outcome(ERR_NOSPACE, b)
    else
      EndReady(b);
      var b1 := Lay(b, BE32(END), 4);
      MoveNamesIs(b1);
      var p := Patch(MoveNames(b1), 0, SizeStrings(b1));
      if p.err < 0 then p
      else
        Outcome(0, Close(p.blob, OffStruct(b1) + SizeStruct(b1) + SizeStrings(b1)))
  }

  lemma EndReady(b: bytes)
    requires Writable(b) && StructProbe(b) == 0 && Room(b, 4)
    ensures DraftOf(b).inStruct && Writable(Lay(b, BE32(END), 4))
    ensures DraftOf(Lay(b, BE32(END), 4)) == DraftOf(b).(body := DraftOf(b).body + BE32(END))
  {
    hide U32, Lay, Room, BE32;
    FdtWriter.LayIs(b, BE32(END), 4);
    var p := OffStruct(b) + SizeStruct(b);
    assert BE32(END) + b[p + 4..p + 4] == BE32(END);
  }

  // ----- what the walk does

  function Relocate(f: Forest, k: u32): Forest {
    match f
    case Nil => Nil
    case Nop(r) => Nop(Relocate(r, k))
    case Prop(o, v, p, r) => Prop(Shifted(o, k), v, p, Relocate(r, k))
    case Node(n, p, x, r) => Node(n, p, Relocate(x, k), Relocate(r, k))
  }

  lemma {:induction false} RelocateWF(f: Forest, k: u32)
    requires WF(f)
    ensures WF(Relocate(f, k)) && Size(Relocate(f, k)) == Size(f)
  {
    hide PadLen, BE32, Enc;
    match f
    case Nil =>
    case Nop(r) => RelocateWF(r, k);
    case Prop(_, _, _, r) => RelocateWF(r, k);
    case Node(_, _, x, r) => RelocateWF(x, k); RelocateWF(r, k);
  }

  lemma {:induction false} PatchProp(b: bytes, c: Ctx, o: u32, v: bytes, p: bytes, r: Forest, k: u32)
    returns (b': bytes)
    requires Editable(b) && CtxWF(c) && WF(Prop(o, v, p, r)) && StructOf(b) == Block(c, Prop(o, v, p, r))
    ensures Kept(b, b') && HeaderOf(b') == HeaderOf(b) && StructOf(b') == Block(c, Prop(Shifted(o, k), v, p, r))
    ensures InMemory(b) && InMemory(b') && Patch(b, Pos(c), k) == Patch(b', Pos(c) + 12 + |v| + |p|, k)
  {
    hide U32, PadLen, BE32, Enc, Block, Before, After, NextTag, StructOf, Kept, Editable, Overwrite, CtxWF, Patch;
    StructSize(b);
    KeptSelf(b);
    TagProp(c, o, v, p, r);
    var x, w := Pos(c), Shifted(o, k);
    KeptEdit(b, x + 8, BE32(w));
    EditHeader(b, x + 8, BE32(w));
    b' := Put(b, OffStruct(b) + x + 8, w);
    KeptIs(b, b');
    PropBlock(c, o, v, p, r);
    PropBlock(c, w, v, p, r);
    NameText(Before(c), BE32(PROP) + BE32(|v|), BE32(o), v + p, Enc(r) + After(c), BE32(w));
    PatchStep(b, x, k);
  }

  lemma EditHeader(b: bytes, p: nat, t: bytes)
    requires Editable(b) && p + |t| <= SizeStruct(b)
    ensures |Overwrite(b, OffStruct(b) + p, t)| >= HEADER_SIZE
    ensures HeaderOf(Overwrite(b, OffStruct(b) + p, t)) == HeaderOf(b)
  {
    hide U32, Overwrite;
    EditStruct(b, p, t);
  }

  lemma PatchStep(b: bytes, o: nat, k: u32)
    requires InMemory(b) && NextTag(StructOf(b), o).tag == PROP && o + 12 <= |StructOf(b)|
    ensures OffStruct(b) + o + 12 <= |b|
    ensures var b' := Put(b, OffStruct(b) + o + 8, Shifted(U32(StructOf(b), o + 8), k));
            InMemory(b') && Patch(b, o, k) == Patch(b', NextTag(StructOf(b), o).next, k)
  {
    hide U32, NextTag, Put, StructOf;
    NameWord(b, o);
    PutName(b, o, Shifted(U32(StructOf(b), o + 8), k));
  }

  lemma NameText(a: bytes, h: bytes, o: bytes, v: bytes, z: bytes, w: bytes)
    requires |h| == 8 && |o| == |w|
    ensures Overwrite(a + (h + o + v) + z, |a| + 8, w) == a + (h + w + v) + z
  {
    assert a + (h + o + v) + z == (a + h) + o + (v + z);
    OverwriteMiddle(a + h, o, v + z, w);
    assert (a + h) + w + (v + z) == a + (h + w + v) + z;
  }

  /** Every name offset in the items `g` is shifted and nothing else; the walk
      goes on behind them. */
  lemma {:induction false} PatchIs(b: bytes, c: Ctx, g: Forest, k: u32) returns (b': bytes)
    requires Editable(b) && CtxWF(c) && WF(g) && StructOf(b) == Block(c, g)
    ensures Kept(b, b') && HeaderOf(b') == HeaderOf(b) && WF(Relocate(g, k)) && StructOf(b') == Block(c, Relocate(g, k))
    ensures InMemory(b) && InMemory(b') && Patch(b, Pos(c), k) == Patch(b', Pos(c) + Size(g), k)
    decreases g
  {
    hide U32, PadLen, BE32, Enc, Block, Before, After, NextTag, Put, StructOf, Kept, Editable, Overwrite, CtxWF, Plug;
    hide Patch, Pass, Shifted, Size, Relocate, Pos;
    if !g.Node? { RelocateItem(g, k); }
    KeptSelf(b);
    match g {
      case Nil => b' := b;
      case Nop(r) =>
        PatchNop(b, c, r, k);
        PassNop(c, r);
        b' := PatchIs(b, Pass(c, Nop(Nil)), r, k);
        PassNop(c, Relocate(r, k));
      case Prop(o, v, p, r) =>
        var b1 := PatchProp(b, c, o, v, p, r, k);
        KeptIs(b, b1);
        var w := Shifted(o, k);
        PassProp(c, w, v, p, r);
        b' := PatchIs(b1, Pass(c, Prop(w, v, p, Nil)), r, k);
        KeptTrans(b, b1, b');
        PassProp(c, w, v, p, Relocate(r, k));
      case Node(n, p, x, r) =>
        b' := PatchNode(b, c, n, p, x, r, k);
    }
  }

  lemma KeptSelf(b: bytes)
    requires Editable(b)
    ensures Kept(b, b) && InMemory(b)
  {
    hide U32;
  }

  lemma {:induction false} PatchNop(b: bytes, c: Ctx, r: Forest, k: u32)
    requires InMemory(b) && CtxWF(c) && WF(r) && StructOf(b) == Block(c, Nop(r))
    ensures Patch(b, Pos(c), k) == Patch(b, Pos(c) + 4, k)
  {
    hide U32, PadLen, BE32, Enc, Block, Before, After, NextTag, Put, StructOf;
    TagNop(c, r);
  }

  lemma {:induction false} PatchEnd(b: bytes, c: Ctx, k: u32)
    requires InMemory(b) && CtxWF(c) && StructOf(b) == Block(c, Nil)
    ensures c.In? ==> Patch(b, Pos(c), k) == Patch(b, Pos(c) + 4, k)
    ensures c.Top? ==> Patch(b, Pos(c), k) == Outcome(Pos(c) + 4, b)
  {
    hide U32, PadLen, BE32, Enc, Block, Before, After, NextTag, Put, StructOf;
    if c.In? { TagEndNode(c); } else { TagEnd(c); }
  }

  lemma {:induction false} PatchNode(b: bytes, c: Ctx, n: bytes, p: bytes, x: Forest, r: Forest, k: u32)
    returns (b': bytes)
    requires Editable(b) && CtxWF(c) && WF(Node(n, p, x, r)) && StructOf(b) == Block(c, Node(n, p, x, r))
    ensures Kept(b, b') && HeaderOf(b') == HeaderOf(b) && WF(Relocate(Node(n, p, x, r), k))
        && StructOf(b') == Block(c, Relocate(Node(n, p, x, r), k))
    ensures InMemory(b) && InMemory(b') && Patch(b, Pos(c), k) == Patch(b', Pos(c) + Size(Node(n, p, x, r)), k)
    decreases Node(n, p, x, r), 0
  {
    hide U32, PadLen, BE32, Enc, Block, Before, After, NextTag, Put, StructOf, Kept, Editable, Overwrite, Plug, Patch;
    hide Pass, Shifted, Size, Relocate, CtxWF, Pos;
    RelocateNode(n, p, x, r, k);
    SizeNode(n, p, x, r);
    var d := In(c, n, p, Nil, r);
    var x' := Relocate(x, k);
    EnterIs(c, n, p, x, r);
    EnterIs(c, n, p, x', r);
    KeptSelf(b);
    PatchBegin(b, c, n, p, x, r, k);
    var b1 := PatchIs(b, d, x, k);
    KeptIs(b, b1);
    PassIs(d, x', Nil);
    AppendNil(x');
    PassKind(d, x');
    PatchEnd(b1, Pass(d, x'), k);
    PassNode(c, n, p, x', r);
    b' := PatchIs(b1, Pass(c, Node(n, p, x', Nil)), r, k);
    KeptTrans(b, b1, b');
    PassNode(c, n, p, x', Relocate(r, k));
  }

  lemma RelocateItem(g: Forest, k: u32)
    requires WF(g) && !g.Node?
    ensures WF(Relocate(g, k)) && (g.Nil? ==> Relocate(g, k) == g && Size(g) == 0)
    ensures g.Nop? ==>
              && WF(Relocate(g.rest, k)) && Size(g) == 4 + Size(g.rest)
              && Relocate(g, k) == Nop(Relocate(g.rest, k))
    ensures g.Prop? ==>
              && WF(Relocate(g.rest, k)) && Size(g) == 12 + |g.value| + |g.pad| + Size(g.rest)
              && Relocate(g, k) == Prop(Shifted(g.nameoff, k), g.value, g.pad, Relocate(g.rest, k))
  {
    hide PadLen, Enc, Shifted;
    RelocateWF(g, k);
    if !g.Nil? { RelocateWF(g.rest, k); }
  }

  lemma RelocateNode(n: bytes, p: bytes, x: Forest, r: Forest, k: u32)
    requires WF(Node(n, p, x, r))
    ensures Relocate(Node(n, p, x, r), k) == Node(n, p, Relocate(x, k), Relocate(r, k))
    ensures WF(Relocate(Node(n, p, x, r), k)) && WF(Relocate(x, k)) && WF(Relocate(r, k))
    ensures Size(Relocate(x, k)) == Size(x) && Size(Relocate(r, k)) == Size(r)
  {
    hide PadLen, Enc, Shifted;
    RelocateWF(x, k);
    RelocateWF(r, k);
  }

  lemma {:induction false} PatchBegin(b: bytes, c: Ctx, n: bytes, p: bytes, x: Forest, r: Forest, k: u32)
    requires InMemory(b) && CtxWF(c) && WF(Node(n, p, x, r)) && StructOf(b) == Block(c, Node(n, p, x, r))
    ensures Patch(b, Pos(c), k) == Patch(b, Pos(c) + 5 + |n| + |p|, k)
  {
    hide U32, PadLen, BE32, Enc, Block, Before, After, NextTag, Put, StructOf;
    TagBegin(c, n, p, x, r);
  }

  // ----- the finished blob

  /** The header words of a finished blob. */
  function Close(b: bytes, total: u32): (r: bytes)
    requires |b| >= HEADER_SIZE
    ensures |r| == |b|
  {
    Put(Put(Put(b, 4, total), 24, 16), 0, MAGIC)
  }

  lemma CloseIs(b: bytes, total: u32)
    requires Editable(b) && DataSize(b) == total && RSV_OFFSET <= OffStruct(b)
    ensures TotalSize(Close(b, total)) == total
    ensures var w := Close(b, total)[..total];
            && Editable(w) && Magic(w) == MAGIC && LastComp(w) == 16 && TotalSize(w) == total
            && OffStruct(w) == OffStruct(b) && OffRsv(w) == OffRsv(b)
            && StructOf(w) == StructOf(b) && StringsOf(w) == StringsOf(b)
            && w[RSV_OFFSET..OffStruct(w)] == b[RSV_OFFSET..OffStruct(b)]
  {
    hide U32, Close;
    CloseHeader(b, total);
    CloseSlice(b, total, OffStruct(b), OffStruct(b) + SizeStruct(b));
    CloseSlice(b, total, OffStrings(b), OffStrings(b) + SizeStrings(b));
    CloseSlice(b, total, RSV_OFFSET, OffStruct(b));
  }

  lemma CloseHeader(b: bytes, total: u32)
    requires HEADER_SIZE <= total <= |b|
    ensures HeaderOf(Close(b, total)) == HeaderOf(b).(total := total, lastComp := 16, magic := MAGIC)
    ensures HeaderOf(Close(b, total)[..total]) == HeaderOf(Close(b, total))
  {
    hide U32, Put;
    HeaderWith(b, 4, total);
    HeaderWith(Put(b, 4, total), 24, 16);
    HeaderWith(Put(Put(b, 4, total), 24, 16), 0, MAGIC);
    var r := Close(b, total);
    assert r[..total][..HEADER_SIZE] == r[..HEADER_SIZE];
    HeaderKept(r, r[..total]);
  }

  lemma CloseSlice(b: bytes, total: u32, i: nat, j: nat)
    requires HEADER_SIZE <= i <= j <= total <= |b|
    ensures Close(b, total)[..total][i..j] == b[i..j]
  {
    hide Put;
    PutSlice(b, 4, total, i, j);
    PutSlice(Put(b, 4, total), 24, 16, i, j);
    PutSlice(Put(Put(b, 4, total), 24, 16), 0, MAGIC, i, j);
    SliceSlice(Close(b, total), 0, total, i, j);
    assert Close(b, total)[0..total] == Close(b, total)[..total];
  }

  /** Everything that the draft holds is in the finished blob, each name offset
      now counted from the start of the strings block. */
  lemma {:induction false} FinishIs(b: bytes, f: Forest)
    requires Writable(b) && DraftOf(b).inStruct && WF(f) && DraftOf(b).body == Enc(f)
    ensures var r, d := Finish(b), DraftOf(b);
            && (r.err == 0 <==> DraftSize(d) + 4 <= |b|) && (r.err != 0 ==> r == Outcome(ERR_NOSPACE, b))
    ensures var r, d := Finish(b), DraftOf(b);
            r.err == 0 ==>
              && TotalSize(r.blob) == DraftSize(d) + 4 <= |b|
              && var w := r.blob[..TotalSize(r.blob)];
              && Editable(w) && Magic(w) == MAGIC && LastComp(w) == 16 && OffRsv(w) == RSV_OFFSET
                 && OffStruct(w) == RSV_OFFSET + |d.rsv|
              && w[RSV_OFFSET..OffStruct(w)] == d.rsv && StringsOf(w) == d.names
              && WF(Relocate(f, |d.names|)) && StructOf(w) == Block(Top(Nil), Relocate(f, |d.names|))
  {
    hide U32, Put, Enc, BE32, Lay, Room, StructOf, StringsOf, Editable, Writable, DraftOf, Patch, Kept, MoveNames;
    hide Block, Before, After, Close;
    RoomIs(b, 4);
    ProbeStruct(b);
    DraftIs(b);
    if Room(b, 4) {
      EndReady(b);
      var b1 := Lay(b, BE32(END), 4);
      DraftIs(b1);
      var b3 := Patched(b1, f);
      CloseIs(b3, OffStruct(b1) + SizeStruct(b1) + SizeStrings(b1));
    }
  }

  lemma {:induction false} PatchTop(b: bytes, f: Forest, k: u32)
    requires InMemory(b) && WF(f) && StructOf(b) == Block(Top(Nil), f)
    ensures Patch(b, Size(f), k) == Outcome(Size(f) + 4, b)
  {
    hide U32, PadLen, BE32, Enc, Block, Before, After, NextTag, Put, StructOf, Patch;
    AppendNil(f);
    PassIs(Top(Nil), f, Nil);
    PatchEnd(b, Pass(Top(Nil), f), k);
  }

  /** The whole walk, from the draft with its terminator. */
  lemma {:induction false} Patched(b: bytes, f: Forest) returns (r: bytes)
    requires Writable(b) && DraftOf(b).inStruct && WF(f) && DraftOf(b).body == Enc(f) + BE32(END)
    ensures InMemory(MoveNames(b)) && Patch(MoveNames(b), 0, SizeStrings(b)) == Outcome(Size(f) + 4, r)
    ensures var d := DraftOf(b);
            && SizeStrings(b) == |d.names| && WF(Relocate(f, |d.names|))
            && Editable(r) && |r| == |b| && DataSize(r) == DraftSize(d) && OffStruct(r) == RSV_OFFSET + |d.rsv|
            && OffRsv(r) == RSV_OFFSET && r[RSV_OFFSET..OffStruct(r)] == d.rsv && StringsOf(r) == d.names
            && StructOf(r) == Block(Top(Nil), Relocate(f, |d.names|))
  {
    hide U32, Enc, BE32, StructOf, StringsOf, Editable, Writable, DraftOf, Patch, Kept, MoveNames, Block, Before;
    hide After, DraftSize, DataSize;
    DraftIs(b);
    MoveNamesIs(b);
    TopBlock(f);
    var m, k := MoveNames(b), SizeStrings(b);
    r := PatchIs(m, Top(Nil), f, k);
    RelocateWF(f, k);
    PatchTop(r, Relocate(f, k), k);
    KeptPrefix(m, r);
  }

  lemma KeptPrefix(b: bytes, r: bytes)
    requires Kept(b, r) && HeaderOf(r) == HeaderOf(b) && RSV_OFFSET <= OffStruct(b)
    ensures Editable(r) && |r| == |b| && DataSize(r) == DataSize(b) && OffStruct(r) == OffStruct(b)
        && OffRsv(r) == OffRsv(b)
    ensures StringsOf(r) == StringsOf(b) && r[RSV_OFFSET..OffStruct(r)] == b[RSV_OFFSET..OffStruct(b)]
  {
    hide U32, StringsOf;
    SliceSlice(b, HEADER_SIZE, OffStruct(b), RSV_OFFSET - HEADER_SIZE, OffStruct(b) - HEADER_SIZE);
    SliceSlice(r, HEADER_SIZE, OffStruct(r), RSV_OFFSET - HEADER_SIZE, OffStruct(r) - HEADER_SIZE);
  }

  lemma TopBlock(f: Forest)
    requires WF(f)
    ensures CtxWF(Top(Nil)) && Pos(Top(Nil)) == 0 && Block(Top(Nil), f) == Enc(f) + BE32(END)
  {
    hide BE32;
    assert [] + Enc(f) + BE32(END) == Enc(f) + BE32(END);
  }
}