/** external/libfdt/fdt_rw.c: opening and closing gaps in a blob, and what a
    splice does to its blocks. */
module FdtSplice {
  import opened Bytes
  import opened Memory
  import opened FdtFormat
  import opened FdtWalk
  import opened FdtNodes
  import opened FdtRead

  // ----- header fields

  datatype Header = Header(magic: u32, total: u32, offStruct: u32, offStrings: u32, offRsv: u32,
                           version: u32, lastComp: u32, bootCpu: u32, sizeStrings: u32, sizeStruct: u32)

  function HeaderOf(b: bytes): Header
    requires |b| >= HEADER_SIZE
  {
    Header(U32(b, 0), U32(b, 4), U32(b, 8), U32(b, 12), U32(b, 16),
           U32(b, 20), U32(b, 24), U32(b, 28), U32(b, 32), U32(b, 36))
  }

  function Put(b: bytes, at: nat, v: u32): (r: bytes)
    requires at + 4 <= |b|
    ensures |r| == |b|
  {
    Overwrite(b, at, BE32(v))
  }

  lemma PutWord(b: bytes, at: nat, v: u32, k: nat)
    requires at + 4 <= |b| && k + 4 <= |b| && (k + 4 <= at || at + 4 <= k || k == at)
    ensures U32(Put(b, at, v), k) == if k == at then v else U32(b, k)
  {
    hide U32, BE32;
    OverwriteSlice(b, at, BE32(v), k, k + 4);
    if k == at {
      assert BE32(v)[0..4] == BE32(v);
      U32Of(Put(b, at, v), k, v);
    } else {
      U32Same(b, Put(b, at, v), k);
    }
  }

  lemma U32Same(a: bytes, b: bytes, k: nat)
    requires k + 4 <= |a| && k + 4 <= |b| && a[k..k + 4] == b[k..k + 4]
    ensures U32(a, k) == U32(b, k)
  {
    var v, w := a[k..k + 4], b[k..k + 4];
    assert v[0] == a[k] && v[1] == a[k + 1] && v[2] == a[k + 2] && v[3] == a[k + 3];
    assert w[0] == b[k] && w[1] == b[k + 1] && w[2] == b[k + 2] && w[3] == b[k + 3];
  }

  lemma HeaderPut(b: bytes, at: nat, v: u32)
    requires |b| >= HEADER_SIZE && at + 4 <= HEADER_SIZE && Aligned(at)
    ensures var h := HeaderOf(b);
            var r := HeaderOf(Put(b, at, v));
            && r.magic == (if at == 0 then v else h.magic) && r.total == (if at == 4 then v else h.total)
            && r.offStruct == (if at == 8 then v else h.offStruct)
            && r.offStrings == (if at == 12 then v else h.offStrings)
            && r.offRsv == (if at == 16 then v else h.offRsv) && r.version == (if at == 20 then v else h.version)
            && r.lastComp == (if at == 24 then v else h.lastComp) && r.bootCpu == (if at == 28 then v else h.bootCpu)
            && r.sizeStrings == (if at == 32 then v else h.sizeStrings)
            && r.sizeStruct == (if at == 36 then v else h.sizeStruct)
  {
    hide U32, Put;
    PutWord(b, at, v, 0);
    PutWord(b, at, v, 4);
    PutWord(b, at, v, 8);
    PutWord(b, at, v, 12);
    PutWord(b, at, v, 16);
    PutWord(b, at, v, 20);
    PutWord(b, at, v, 24);
    PutWord(b, at, v, 28);
    PutWord(b, at, v, 32);
    PutWord(b, at, v, 36);
  }

  /** Writes behind the header do not reach it. */
  lemma HeaderKept(b: bytes, r: bytes)
    requires |b| >= HEADER_SIZE && |r| >= HEADER_SIZE && r[..HEADER_SIZE] == b[..HEADER_SIZE]
    ensures HeaderOf(r) == HeaderOf(b)
  {
    hide U32;
    forall k: nat | k + 4 <= HEADER_SIZE ensures U32(b, k) == U32(r, k) {
      assert r[k..k + 4] == r[..HEADER_SIZE][k..k + 4] == b[..HEADER_SIZE][k..k + 4] == b[k..k + 4];
      U32Same(b, r, k);
    }
  }

  // ----- blobs that may be edited

  /** A version 17 blob that fills its memory, its blocks in the order that the
      editing routines need and none inside another. */
  predicate Editable(b: bytes) {
    && BlocksInside(b) && |b| == TotalSize(b) && Version(b) == 17
    && OffRsv(b) + 16 <= OffStruct(b)
    && OffStruct(b) + SizeStruct(b) <= OffStrings(b)
  }

  /** fdt_blocks_misordered_, with its unsigned sums. */
  predicate Misordered(b: bytes, rsvSize: nat, structSize: nat)
    requires |b| >= HEADER_SIZE
  {
    || OffRsv(b) < 40
    || OffStruct(b) < (OffRsv(b) + rsvSize) % TWO32
    || OffStrings(b) < (OffStruct(b) + structSize) % TWO32
    || TotalSize(b) < (OffStrings(b) + SizeStrings(b)) % TWO32
  }

  /** fdt_rw_probe_ on a version 17 blob. */
  function RwProbe(b: bytes, at: nat): int
    requires BlocksInside(b)
  {
    if Probe(b, at) < 0 then Probe(b, at)
    else if Misordered(b, 16, SizeStruct(b)) then ERR_BADLAYOUT
    else 0
  }

  lemma RwProbeIs(b: bytes, at: nat)
    requires BlocksInside(b) && |b| == TotalSize(b) && Version(b) == 17 && Probe(b, at) >= 0
    ensures RwProbe(b, at) == 0 <==> Editable(b)
  {
    hide U32, Probe;
    assert (OffRsv(b) + 16) % TWO32 == OffRsv(b) + 16;
    assert (OffStruct(b) + SizeStruct(b)) % TWO32 == OffStruct(b) + SizeStruct(b);
    assert (OffStrings(b) + SizeStrings(b)) % TWO32 == OffStrings(b) + SizeStrings(b);
  }

  /** fdt_data_size_: the end of the last block. */
  function DataSize(b: bytes): nat
    requires BlocksInside(b)
  {
    OffStrings(b) + SizeStrings(b)
  }

  function Prefix(b: bytes): bytes
    requires BlocksInside(b)
  {
    b[HEADER_SIZE..OffStruct(b)]
  }

  // ----- splices

  /** The checks of fdt_splice_. */
  function SpliceError(b: bytes, soff: nat, oldlen: nat, newlen: nat): int
    requires BlocksInside(b)
  {
    if soff + oldlen > DataSize(b) then ERR_BADOFFSET
    else if DataSize(b) - oldlen + newlen > TotalSize(b) then ERR_NOSPACE
    else 0
  }

  /** Its memmove. */
  function Splice(b: bytes, soff: nat, oldlen: nat, newlen: nat): (r: bytes)
    requires BlocksInside(b) && SpliceError(b, soff, oldlen, newlen) == 0
    ensures |r| == |b|
  {
    Overwrite(b, soff + newlen, b[soff + oldlen..DataSize(b)])
  }

  method SpliceAt(mem: array<byte>, fdt: nat, soff: nat, oldlen: nat, newlen: nat, ghost m0: bytes, ghost b: bytes)
    returns (err: int)
    requires Window(mem[..], m0, fdt, b) && BlocksInside(b) && |b| == TotalSize(b)
    modifies mem
    ensures err == SpliceError(b, soff, oldlen, newlen)
    ensures Window(mem[..], m0, fdt, if err == 0 then Splice(b, soff, oldlen, newlen) else b)
  {
    hide Window, U32;
    var offStrings := LoadField(mem, fdt, 12, m0, b);
    var sizeStrings := LoadField(mem, fdt, 32, m0, b);
    var total := LoadField(mem, fdt, 4, m0, b);
    var dsize := offStrings + sizeStrings;
    if soff + oldlen > dsize {
      return ERR_BADOFFSET;
    }
    if dsize - oldlen + newlen > total {
      return ERR_NOSPACE;
    }
    MoveIn(mem, fdt, soff + newlen, soff + oldlen, dsize - (soff + oldlen), m0, b);
    err := 0;
  }

  /** Read a header field of the blob at `fdt`. */
  method LoadField(mem: array<byte>, fdt: nat, k: nat, ghost m0: bytes, ghost b: bytes) returns (v: u32)
    requires Window(mem[..], m0, fdt, b) && k + 4 <= |b|
    ensures v == U32(b, k)
  {
    WindowSlice(mem[..], m0, fdt, b, k, k + 4);
    WindowRead(mem[..], m0, fdt, b);
    hide Window;
    var w := mem[fdt + k..fdt + k + 4];
    assert w == b[k..k + 4];
    assert w[0] == b[k] && w[1] == b[k + 1] && w[2] == b[k + 2] && w[3] == b[k + 3];
    v := U32(w, 0);
  }

  method StoreField(mem: array<byte>, fdt: nat, k: nat, v: u32, ghost m0: bytes, ghost b: bytes)
    requires Window(mem[..], m0, fdt, b) && k + 4 <= |b|
    modifies mem
    ensures Window(mem[..], m0, fdt, Put(b, k, v))
  {
    hide Window, BE32;
    StoreIn(mem, fdt, k, BE32(v), m0, b);
  }

  /** fdt_splice_struct_: the gap, the size of the structure block, the place
      of the strings. */
  function SpliceStruct(b: bytes, p: nat, oldlen: nat, newlen: nat): (r: bytes)
    requires Editable(b) && oldlen <= SizeStruct(b) && SpliceError(b, OffStruct(b) + p, oldlen, newlen) == 0
    ensures |r| == |b|
  {
    Put(Put(Splice(b, OffStruct(b) + p, oldlen, newlen), 36, SizeStruct(b) - oldlen + newlen),
        12, OffStrings(b) - oldlen + newlen)
  }

  lemma SpliceStructHeader(b: bytes, p: nat, oldlen: nat, newlen: nat)
    requires Editable(b) && oldlen <= SizeStruct(b) && SpliceError(b, OffStruct(b) + p, oldlen, newlen) == 0
    ensures var r := SpliceStruct(b, p, oldlen, newlen);
            && Editable(r)
            && HeaderOf(r) == HeaderOf(b).(sizeStruct := SizeStruct(b) - oldlen + newlen,
                                           offStrings := OffStrings(b) - oldlen + newlen)
  {
    hide U32, Put, Splice;
    var b1 := Splice(b, OffStruct(b) + p, oldlen, newlen);
    SpliceLow(b, OffStruct(b) + p, oldlen, newlen, 0, HEADER_SIZE);
    SpliceHeader(b, b1, SizeStruct(b) - oldlen + newlen, OffStrings(b) - oldlen + newlen);
  }

  lemma SpliceStructOutside(b: bytes, p: nat, oldlen: nat, newlen: nat)
    requires Editable(b) && p + oldlen <= SizeStruct(b)
    requires DataSize(b) - oldlen + newlen <= TotalSize(b)
    ensures var r := SpliceStruct(b, p, oldlen, newlen);
            var y := OffStrings(b) - oldlen + newlen;
            && r[HEADER_SIZE..OffStruct(b)] == b[HEADER_SIZE..OffStruct(b)]
            && r[y..y + SizeStrings(b)] == b[OffStrings(b)..OffStrings(b) + SizeStrings(b)]
  {
    hide U32, Put, Splice;
    var x, y, m := OffStruct(b), OffStrings(b) - oldlen + newlen, SizeStrings(b);
    var n' := SizeStruct(b) - oldlen + newlen;
    var b1 := Splice(b, x + p, oldlen, newlen);
    SpliceLow(b, x + p, oldlen, newlen, HEADER_SIZE, x);
    PutPut(b1, n', y, HEADER_SIZE, x);
    SpliceHigh(b, x + p, oldlen, newlen, y, y + m);
    PutPut(b1, n', y, y, y + m);
  }

  lemma SpliceStructInside(b: bytes, p: nat, oldlen: nat, newlen: nat)
    requires Editable(b) && p + oldlen <= SizeStruct(b)
    requires DataSize(b) - oldlen + newlen <= TotalSize(b)
    ensures var r := SpliceStruct(b, p, oldlen, newlen);
            var x, n := OffStruct(b), SizeStruct(b);
            r[x..x + n - oldlen + newlen] ==
            b[x..x + n][..p] + b[x + p..x + p + newlen] + b[x..x + n][p + oldlen..]
  {
    hide U32, Put, Splice;
    var x, n := OffStruct(b), SizeStruct(b);
    var n', y' := n - oldlen + newlen, OffStrings(b) - oldlen + newlen;
    var b1 := Splice(b, x + p, oldlen, newlen);
    SpliceLow(b, x + p, oldlen, newlen, x, x + p + newlen);
    SpliceHigh(b, x + p, oldlen, newlen, x + p + newlen, x + n');
    PutPut(b1, n', y', x, x + n');
    SpliceBlock(b, b1, x, n, p, oldlen, newlen);
  }

  /** The new structure block is the old one with the range replaced by a gap;
      the strings block has moved but holds the same bytes; what stands before
      the structure block, and every other header field, is untouched. */
  lemma SpliceStructIs(b: bytes, p: nat, oldlen: nat, newlen: nat)
    requires Editable(b) && p + oldlen <= SizeStruct(b)
    requires DataSize(b) - oldlen + newlen <= TotalSize(b)
    ensures var r := SpliceStruct(b, p, oldlen, newlen);
            && Editable(r)
            && HeaderOf(r) == HeaderOf(b).(sizeStruct := SizeStruct(b) - oldlen + newlen,
                                           offStrings := OffStrings(b) - oldlen + newlen)
            && Prefix(r) == Prefix(b) && StringsOf(r) == StringsOf(b)
            && StructOf(r) == StructOf(b)[..p] + b[OffStruct(b) + p..OffStruct(b) + p + newlen]
                            + StructOf(b)[p + oldlen..]
  {
    hide U32, SpliceStruct;
    SpliceStructHeader(b, p, oldlen, newlen);
    SpliceStructOutside(b, p, oldlen, newlen);
    SpliceStructInside(b, p, oldlen, newlen);
  }

  lemma SpliceHeader(b: bytes, b1: bytes, n': u32, y': u32)
    requires |b| >= HEADER_SIZE && |b1| >= HEADER_SIZE && b1[0..HEADER_SIZE] == b[0..HEADER_SIZE]
    ensures HeaderOf(Put(Put(b1, 36, n'), 12, y')) == HeaderOf(b).(sizeStruct := n', offStrings := y')
  {
    hide U32, Put;
    HeaderKept(b, b1);
    FieldsAligned();
    HeaderPut(b1, 36, n');
    HeaderPut(Put(b1, 36, n'), 12, y');
  }

  lemma PutPut(b1: bytes, n': u32, y': u32, i: nat, j: nat)
    requires HEADER_SIZE <= i <= j <= |b1|
    ensures Put(Put(b1, 36, n'), 12, y')[i..j] == b1[i..j]
  {
    hide Put;
    PutSlice(b1, 36, n', i, j);
    PutSlice(Put(b1, 36, n'), 12, y', i, j);
  }

  lemma SpliceBlock(b: bytes, b1: bytes, x: nat, n: nat, p: nat, oldlen: nat, newlen: nat)
    requires p + oldlen <= n && x + n <= |b| && |b1| == |b| && x + n - oldlen + newlen <= |b|
    requires b1[x..x + p + newlen] == b[x..x + p + newlen]
    requires b1[x + p + newlen..x + n - oldlen + newlen] == b[x + p + oldlen..x + n]
    ensures b1[x..x + n - oldlen + newlen]
         == b[x..x + n][..p] + b[x + p..x + p + newlen] + b[x..x + n][p + oldlen..]
  {
    SliceJoin(b1, x, x + p + newlen, x + n - oldlen + newlen);
    SliceJoin(b, x, x + p, x + p + newlen);
    SliceSlice(b, x, x + n, 0, p);
    SliceSlice(b, x, x + n, p + oldlen, n);
  }

  lemma FieldsAligned()
    ensures Aligned(0) && Aligned(4) && Aligned(8) && Aligned(12) && Aligned(16) && Aligned(20) && Aligned(24)
    ensures Aligned(28) && Aligned(32) && Aligned(36)
  {}

  lemma PutSlice(b: bytes, at: nat, v: u32, i: nat, j: nat)
    requires at + 4 <= i <= j <= |b|
    ensures Put(b, at, v)[i..j] == b[i..j]
  {
    hide BE32;
    OverwriteSlice(b, at, BE32(v), i, j);
  }

  lemma SpliceLow(b: bytes, soff: nat, oldlen: nat, newlen: nat, i: nat, j: nat)
    requires BlocksInside(b) && SpliceError(b, soff, oldlen, newlen) == 0 && i <= j <= soff + newlen
    ensures Splice(b, soff, oldlen, newlen)[i..j] == b[i..j]
  {
    hide U32, Overwrite;
    OverwriteSlice(b, soff + newlen, b[soff + oldlen..DataSize(b)], i, j);
  }

  lemma SpliceHigh(b: bytes, soff: nat, oldlen: nat, newlen: nat, i: nat, j: nat)
    requires BlocksInside(b) && SpliceError(b, soff, oldlen, newlen) == 0
    requires soff + newlen <= i <= j <= DataSize(b) - oldlen + newlen
    ensures Splice(b, soff, oldlen, newlen)[i..j] == b[i - newlen + oldlen..j - newlen + oldlen]
  {
    hide U32, Overwrite;
    MovedSlice(b, soff + newlen, soff + oldlen, DataSize(b) - soff - oldlen, i, j);
  }

  method SpliceStructAt(mem: array<byte>, fdt: nat, p: nat, oldlen: nat, newlen: nat, ghost m0: bytes, ghost b: bytes)
    returns (err: int)
    requires Window(mem[..], m0, fdt, b) && Editable(b) && oldlen <= SizeStruct(b)
    modifies mem
    ensures err == SpliceError(b, OffStruct(b) + p, oldlen, newlen)
    ensures Window(mem[..], m0, fdt, if err == 0 then SpliceStruct(b, p, oldlen, newlen) else b)
  {
    hide Window, U32, Put, Splice;
    var offStruct := LoadField(mem, fdt, 8, m0, b);
    err := SpliceAt(mem, fdt, offStruct + p, oldlen, newlen, m0, b);
    if err != 0 {
      return;
    }
    ghost var b1 := Splice(b, OffStruct(b) + p, oldlen, newlen);
    SpliceField(b, OffStruct(b) + p, oldlen, newlen, 36);
    var size := LoadField(mem, fdt, 36, m0, b1);
    StoreField(mem, fdt, 36, size - oldlen + newlen, m0, b1);
    ghost var b2 := Put(b1, 36, size - oldlen + newlen);
    SpliceField(b, OffStruct(b) + p, oldlen, newlen, 12);
    PutWord(b1, 36, size - oldlen + newlen, 12);
    var offStrings := LoadField(mem, fdt, 12, m0, b2);
    StoreField(mem, fdt, 12, offStrings - oldlen + newlen, m0, b2);
  }

  lemma SpliceField(b: bytes, soff: nat, oldlen: nat, newlen: nat, k: nat)
    requires BlocksInside(b) && SpliceError(b, soff, oldlen, newlen) == 0 && k + 4 <= HEADER_SIZE <= soff
    ensures U32(Splice(b, soff, oldlen, newlen), k) == U32(b, k)
  {
    hide U32;
    SpliceLow(b, soff, oldlen, newlen, k, k + 4);
    U32Same(Splice(b, soff, oldlen, newlen), b, k);
  }

  lemma SpliceStructField(b: bytes, p: nat, oldlen: nat, newlen: nat)
    requires Editable(b) && oldlen <= SizeStruct(b) && SpliceError(b, OffStruct(b) + p, oldlen, newlen) == 0
    ensures OffStruct(SpliceStruct(b, p, oldlen, newlen)) == OffStruct(b)
  {
    hide U32, Put, Splice;
    var b1 := Splice(b, OffStruct(b) + p, oldlen, newlen);
    SpliceField(b, OffStruct(b) + p, oldlen, newlen, 8);
    PutWord(b1, 36, SizeStruct(b) - oldlen + newlen, 8);
    PutWord(Put(b1, 36, SizeStruct(b) - oldlen + newlen), 12, OffStrings(b) - oldlen + newlen, 8);
  }

  // ----- writes inside the structure block

  /** A write inside the structure block changes that block only. */
  lemma EditStruct(b: bytes, p: nat, t: bytes)
    requires Editable(b) && p + |t| <= SizeStruct(b)
    ensures var r := Overwrite(b, OffStruct(b) + p, t);
            && Editable(r) && HeaderOf(r) == HeaderOf(b)
            && Prefix(r) == Prefix(b) && StringsOf(r) == StringsOf(b)
            && StructOf(r) == Overwrite(StructOf(b), p, t)
  {
    hide U32, Overwrite;
    var x, n, y, m := OffStruct(b), SizeStruct(b), OffStrings(b), SizeStrings(b);
    var r := Overwrite(b, x + p, t);
    OverwriteSlice(b, x + p, t, 0, HEADER_SIZE);
    assert r[..HEADER_SIZE] == b[..HEADER_SIZE];
    HeaderKept(b, r);
    OverwriteSlice(b, x + p, t, HEADER_SIZE, x);
    OverwriteSlice(b, x + p, t, y, y + m);
    OverwriteSlice(b, x + p, t, x, x + n);
  }

  // ----- the strings block

  /** fdt_find_string_len_ from offset `p` on: the first place where `name`
      stands with a NUL behind it. */
  function FindString(t: bytes, name: bytes, p: nat): (r: int)
    ensures r >= 0 ==> r + |name| < |t| && t[r..r + |name|] == name && t[r + |name|] == 0
    decreases |t| - p
  {
    if p + |name| + 1 > |t| then -1
    else if t[p..p + |name|] == name && t[p + |name|] == 0 then p
    else FindString(t, name, p + 1)
  }

  lemma FindStep(t: bytes, name: bytes, p: nat)
    ensures FindString(t, name, p) ==
            if p + |name| + 1 > |t| then -1
            else if t[p..p + |name|] == name && t[p + |name|] == 0 then p
            else FindString(t, name, p + 1)
  {}

  lemma FindStringIs(t: bytes, name: bytes)
    requires 0 !in name && FindString(t, name, 0) >= 0
    ensures CString(t, FindString(t, name, 0)) == Found(name)
  {
    var r := FindString(t, name, 0);
    NameEndIs(t, r, name);
  }

  /** The test of its loop: memcmp, then the NUL. */
  method StandsAt(mem: array<byte>, fdt: nat, at: nat, name: bytes, ghost m0: bytes, ghost b: bytes) returns (r: bool)
    requires Window(mem[..], m0, fdt, b) && at + |name| < |b|
    ensures r <==> b[at..at + |name|] == name && b[at + |name|] == 0
  {
    WindowSlice(mem[..], m0, fdt, b, at, at + |name|);
    WindowSlice(mem[..], m0, fdt, b, at + |name|, at + |name| + 1);
    WindowRead(mem[..], m0, fdt, b);
    hide Window;
    assert mem[..][fdt + at..fdt + at + |name|] == mem[fdt + at..fdt + at + |name|];
    assert mem[..][fdt + at + |name|..fdt + at + |name| + 1] == [mem[fdt + at + |name|]];
    r := mem[fdt + at..fdt + at + |name|] == name && mem[fdt + at + |name|] == 0;
  }

  method SearchString(mem: array<byte>, fdt: nat, name: bytes, ghost m0: bytes, ghost b: bytes) returns (p: int)
    requires Window(mem[..], m0, fdt, b) && BlocksInside(b)
    ensures p == FindString(StringsOf(b), name, 0)
  {
    hide U32, Window, FindString;
    var offStrings := LoadField(mem, fdt, 12, m0, b);
    var size := LoadField(mem, fdt, 32, m0, b);
    ghost var t := StringsOf(b);
    p := 0;
    while p + |name| + 1 <= size
      invariant p >= 0 && FindString(t, name, 0) == FindString(t, name, p)
    {
      SliceSlice(b, offStrings, offStrings + size, p, p + |name|);
      FindStep(t, name, p);
      var found := StandsAt(mem, fdt, offStrings + p, name, m0, b);
      if found {
        return;
      }
      p := p + 1;
    }
    FindStep(t, name, p);
    p := -1;
  }

  /** A string appended to the strings block: fdt_splice_string_ and the copy. */
  function AddString(b: bytes, name: bytes): (r: bytes)
    requires Editable(b) && DataSize(b) + |name| + 1 <= TotalSize(b)
    ensures |r| == |b|
  {
    Overwrite(Put(b, 32, SizeStrings(b) + |name| + 1), DataSize(b), name + [0])
  }

  lemma AddStringHeader(b: bytes, name: bytes)
    requires Editable(b) && DataSize(b) + |name| + 1 <= TotalSize(b)
    ensures var r := AddString(b, name);
            && Editable(r) && HeaderOf(r) == HeaderOf(b).(sizeStrings := SizeStrings(b) + |name| + 1)
  {
    hide U32, Overwrite, Put;
    var b1 := Put(b, 32, SizeStrings(b) + |name| + 1);
    FieldsAligned();
    HeaderPut(b, 32, SizeStrings(b) + |name| + 1);
    OverwriteSlice(b1, DataSize(b), name + [0], 0, HEADER_SIZE);
    assert AddString(b, name)[..HEADER_SIZE] == b1[..HEADER_SIZE];
    HeaderKept(b1, AddString(b, name));
  }

  lemma AddStringIs(b: bytes, name: bytes)
    requires Editable(b) && DataSize(b) + |name| + 1 <= TotalSize(b)
    ensures var r := AddString(b, name);
            && Editable(r) && HeaderOf(r) == HeaderOf(b).(sizeStrings := SizeStrings(b) + |name| + 1)
            && Prefix(r) == Prefix(b) && StructOf(r) == StructOf(b)
            && StringsOf(r) == StringsOf(b) + (name + [0])
  {
    hide U32, AddString;
    AddStringHeader(b, name);
    AddStringSlice(b, name, HEADER_SIZE, OffStruct(b));
    AddStringSlice(b, name, OffStruct(b), OffStruct(b) + SizeStruct(b));
    AddStringTail(b, name);
  }

  lemma AddStringTail(b: bytes, name: bytes)
    requires Editable(b) && DataSize(b) + |name| + 1 <= TotalSize(b)
    ensures AddString(b, name)[OffStrings(b)..DataSize(b) + |name| + 1] == StringsOf(b) + (name + [0])
  {
    hide U32, Overwrite, Put;
    var y, z := OffStrings(b), DataSize(b);
    var b1, t := Put(b, 32, SizeStrings(b) + |name| + 1), name + [0];
    AddStringSlice(b, name, y, z);
    OverwriteSlice(b1, z, t, z, z + |t|);
    SliceJoin(AddString(b, name), y, z, z + |t|);
  }

  lemma AddStringSlice(b: bytes, name: bytes, i: nat, j: nat)
    requires Editable(b) && DataSize(b) + |name| + 1 <= TotalSize(b) && HEADER_SIZE <= i <= j <= DataSize(b)
    ensures AddString(b, name)[i..j] == b[i..j]
  {
    hide U32, Overwrite, Put;
    PutSlice(b, 32, SizeStrings(b) + |name| + 1, i, j);
    OverwriteSlice(Put(b, 32, SizeStrings(b) + |name| + 1), DataSize(b), name + [0], i, j);
  }

  /** fdt_del_last_string_. */
  function DelString(b: bytes, name: bytes): (r: bytes)
    requires BlocksInside(b) && |name| + 1 <= SizeStrings(b)
    ensures |r| == |b|
  {
    Put(b, 32, SizeStrings(b) - (|name| + 1))
  }

  /** Adding a string and taking it back restores every block and the header. */
  lemma AddDelString(b: bytes, name: bytes)
    requires Editable(b) && DataSize(b) + |name| + 1 <= TotalSize(b)
    ensures var a := AddString(b, name);
            && Editable(a) && |name| + 1 <= SizeStrings(a)
            && var r := DelString(a, name);
            && Editable(r) && HeaderOf(r) == HeaderOf(b)
            && Prefix(r) == Prefix(b) && StructOf(r) == StructOf(b) && StringsOf(r) == StringsOf(b)
  {
    hide U32, Put, AddString;
    AddStringIs(b, name);
    var a := AddString(b, name);
    var x, n, y, m := OffStruct(b), SizeStruct(b), OffStrings(b), SizeStrings(b);
    FieldsAligned();
    HeaderPut(a, 32, m);
    PutSlice(a, 32, m, HEADER_SIZE, x);
    PutSlice(a, 32, m, x, x + n);
    PutSlice(a, 32, m, y, y + m);
    AddStringSlice(b, name, y, y + m);
  }

  // ----- what an edit of the structure block leaves alone

  /** Same bytes before the structure block, same strings, same header but for
      the two fields that follow the size of the structure block. */
  predicate Kept(b: bytes, r: bytes) {
    && Editable(b) && Editable(r) && |r| == |b| && OffStruct(r) == OffStruct(b)
    && Prefix(r) == Prefix(b) && StringsOf(r) == StringsOf(b)
    && HeaderOf(r) == HeaderOf(b).(sizeStruct := SizeStruct(r), offStrings := OffStrings(r))
  }

  lemma KeptTrans(a: bytes, b: bytes, c: bytes)
    requires Kept(a, b) && Kept(b, c)
    ensures Kept(a, c)
  {
    hide U32, Prefix, StringsOf, Editable;
  }

  lemma KeptSplice(b: bytes, p: nat, oldlen: nat, newlen: nat)
    requires Editable(b) && p + oldlen <= SizeStruct(b)
    requires DataSize(b) - oldlen + newlen <= TotalSize(b)
    ensures Kept(b, SpliceStruct(b, p, oldlen, newlen))
    ensures SizeStruct(SpliceStruct(b, p, oldlen, newlen)) == SizeStruct(b) - oldlen + newlen
    ensures OffStruct(b) + p + newlen <= |b|
    ensures StructOf(SpliceStruct(b, p, oldlen, newlen))
         == StructOf(b)[..p] + b[OffStruct(b) + p..OffStruct(b) + p + newlen] + StructOf(b)[p + oldlen..]
  {
    hide U32, SpliceStruct, Prefix, StringsOf, StructOf;
    SpliceStructIs(b, p, oldlen, newlen);
  }

  lemma KeptEdit(b: bytes, p: nat, t: bytes)
    requires Editable(b) && p + |t| <= SizeStruct(b)
    ensures OffStruct(b) + p + |t| <= |b| && |StructOf(b)| == SizeStruct(b)
    ensures Kept(b, Overwrite(b, OffStruct(b) + p, t))
    ensures SizeStruct(Overwrite(b, OffStruct(b) + p, t)) == SizeStruct(b)
    ensures StructOf(Overwrite(b, OffStruct(b) + p, t)) == Overwrite(StructOf(b), p, t)
  {
    hide U32, Prefix, StringsOf, Overwrite;
    EditStruct(b, p, t);
  }

  lemma KeptIs(b: bytes, r: bytes)
    requires Kept(b, r)
    ensures Editable(b) && Editable(r) && InMemory(r) && |r| == |b| && OffStruct(r) == OffStruct(b)
  {
    hide U32;
  }

  lemma StructSize(b: bytes)
    requires Editable(b)
    ensures |b| >= HEADER_SIZE && |StructOf(b)| == SizeStruct(b)
  {
    hide U32;
  }
}
