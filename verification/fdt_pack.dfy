/** external/libfdt/fdt_rw.c: moving the blocks of a whole blob, fdt_pack and
    fdt_open_into, in one memory where source and target may overlap. */
module FdtPack {
  import opened Bytes
  import opened Memory
  import opened FdtFormat
  import opened FdtWalk
  import opened FdtRead
  import opened FdtCheck
  import opened FdtSplice
  import opened FdtEdit
  import opened FdtUpdate

  /** The three blocks of a blob. */
  datatype Blocks = Blocks(rsv: bytes, struct: bytes, strings: bytes)

  /** The bytes that the reservation map takes, as the C code computes them. */
  function RsvSize(b: bytes): int
    requires BlocksInside(b)
  {
    (RsvCount(b, 0) + 1) * 16
  }

  /** The map has an end inside the blob. */
  predicate RsvEnds(b: bytes)
    requires BlocksInside(b)
  {
    RsvCount(b, 0) >= 0
  }

  lemma {:induction false} RsvInside(b: bytes, n: nat)
    requires InMemory(b) && OffRsv(b) + n * 16 <= TotalSize(b) + 16 && RsvCount(b, n) >= 0
    ensures RsvCount(b, n) >= n && OffRsv(b) + (RsvCount(b, n) + 1) * 16 <= TotalSize(b)
    decreases TotalSize(b) + 16 - n * 16
  {
    hide U32;
    var x := OffRsv(b) + n * 16;
    assert x % TWO32 == x;
    if !(U32(b, x + 8) == 0 && U32(b, x + 12) == 0) {
      RsvInside(b, n + 1);
    }
  }

  function BlocksOf(b: bytes): Blocks
    requires BlocksInside(b) && RsvEnds(b)
  {
    RsvInside(b, 0);
    Blocks(b[OffRsv(b)..OffRsv(b) + RsvSize(b)],
           b[OffStruct(b)..OffStruct(b) + SizeStruct(b)],
           b[OffStrings(b)..OffStrings(b) + SizeStrings(b)])
  }

  function BlocksSize(v: Blocks): nat {
    |v.rsv| + |v.struct| + |v.strings|
  }

  /** `w` is a blob with the blocks `v`, in order and none inside another. */
  ghost predicate Holds(w: bytes, v: Blocks) {
    && |w| >= HEADER_SIZE && HEADER_SIZE <= OffRsv(w) && OffRsv(w) + |v.rsv| <= OffStruct(w)
    && OffStruct(w) + |v.struct| <= OffStrings(w) && OffStrings(w) + |v.strings| <= TotalSize(w) <= |w|
    && SizeStruct(w) == |v.struct| && SizeStrings(w) == |v.strings| && Version(w) == 17
    && w[OffRsv(w)..OffRsv(w) + |v.rsv|] == v.rsv
    && w[OffStruct(w)..OffStruct(w) + |v.struct|] == v.struct
    && w[OffStrings(w)..OffStrings(w) + |v.strings|] == v.strings
  }

  /** Such a blob is ready for the editing routines and reads as before. */
  lemma HoldsEditable(w: bytes, v: Blocks)
    requires Holds(w, v) && |v.rsv| >= 16 && TotalSize(w) < INT_MAX
    ensures Editable(w[..TotalSize(w)])
    ensures StructOf(w[..TotalSize(w)]) == v.struct && StringsOf(w[..TotalSize(w)]) == v.strings
  {
    hide U32;
    var x := w[..TotalSize(w)];
    assert x[..HEADER_SIZE] == w[..HEADER_SIZE];
    HeaderKept(w, x);
    assert x[OffStruct(w)..OffStruct(w) + |v.struct|] == w[OffStruct(w)..OffStruct(w) + |v.struct|];
    assert x[OffStrings(w)..OffStrings(w) + |v.strings|] == w[OffStrings(w)..OffStrings(w) + |v.strings|];
  }

  // ----- fdt_packblocks_, as a function of the whole memory

  /** A block moved from `src` to offset `dst` of the blob at `base`, and that
      offset stored in the header. */
  function PlaceBlock(m: bytes, base: nat, dst: u32, src: nat, len: nat, field: nat): (r: bytes)
    requires field + 4 <= HEADER_SIZE <= dst && base + dst + len <= |m| && src + len <= |m|
    ensures |r| == |m|
  {
    Put(Overwrite(m, base + dst, m[src..src + len]), base + field, dst)
  }

  lemma PlaceBlockIs(m: bytes, base: nat, dst: u32, src: nat, len: nat, field: nat)
    requires field + 4 <= HEADER_SIZE <= dst && base + dst + len <= |m| && src + len <= |m|
    ensures var r := PlaceBlock(m, base, dst, src, len, field);
            r[base + dst..base + dst + len] == m[src..src + len] && U32(r, base + field) == dst
  {
    hide U32, BE32, Overwrite;
    var a := Overwrite(m, base + dst, m[src..src + len]);
    MovedSlice(m, base + dst, src, len, base + dst, base + dst + len);
    OverwriteSlice(a, base + field, BE32(dst), base + dst, base + dst + len);
    PutWord(a, base + field, dst, base + field);
  }

  lemma PlaceBlockElsewhere(m: bytes, base: nat, dst: u32, src: nat, len: nat, field: nat, i: nat, j: nat)
    requires field + 4 <= HEADER_SIZE <= dst && base + dst + len <= |m| && src + len <= |m| && i <= j <= |m|
    requires j <= base + dst || base + dst + len <= i
    requires j <= base + field || base + field + 4 <= i
    ensures PlaceBlock(m, base, dst, src, len, field)[i..j] == m[i..j]
  {
    hide U32, BE32, Overwrite;
    OverwriteSlice(m, base + dst, m[src..src + len], i, j);
    OverwriteSlice(Overwrite(m, base + dst, m[src..src + len]), base + field, BE32(dst), i, j);
  }

  lemma PutElsewhere(m: bytes, at: nat, v: u32, i: nat, j: nat)
    requires at + 4 <= |m| && i <= j <= |m| && (j <= at || at + 4 <= i)
    ensures Put(m, at, v)[i..j] == m[i..j]
  {
    hide BE32;
    OverwriteSlice(m, at, BE32(v), i, j);
  }

  /** The blocks at `x`, `y` and `z` of memory packed behind a header at `base`. */
  function PackBlocks(m: bytes, base: nat, x: nat, y: nat, z: nat, r: nat, n: nat, k: nat): (p: bytes)
    requires Packable(m, base, x, y, z, r, n, k)
    ensures |p| == |m|
  {
    var m1 := PlaceBlock(m, base, 40, x, r, 16);
    var m2 := Put(PlaceBlock(m1, base, 40 + r, y, n, 8), base + 36, n);
    Put(PlaceBlock(m2, base, 40 + r + n, z, k, 12), base + 32, k)
  }

  predicate Packable(m: bytes, base: nat, x: nat, y: nat, z: nat, r: nat, n: nat, k: nat) {
    && base + 40 + r + n + k <= |m| && x + r <= |m| && y + n <= |m| && z + k <= |m| && 40 + r + n + k <= INT_MAX
  }

  /** No memmove has run over a block that is still to be moved. */
  predicate NoClobber(base: nat, y: nat, z: nat, r: nat, n: nat, k: nat) {
    (base + 40 + r <= y || y + n <= base) && (base + 40 + r + n <= z || z + k <= base)
  }

  lemma PackedStrings(m: bytes, base: nat, x: nat, y: nat, z: nat, r: nat, n: nat, k: nat)
    requires Packable(m, base, x, y, z, r, n, k) && NoClobber(base, y, z, r, n, k)
    ensures var q := base + 40 + r + n;
            var p := PackBlocks(m, base, x, y, z, r, n, k);
            && p[q..q + k] == m[z..z + k] && U32(p, base + 12) == 40 + r + n && U32(p, base + 32) == k
  {
    hide U32, PlaceBlock, Put;
    var m1 := PlaceBlock(m, base, 40, x, r, 16);
    PlaceBlockElsewhere(m, base, 40, x, r, 16, z, z + k);
    var m2 := PlaceBlock(m1, base, 40 + r, y, n, 8);
    PlaceBlockElsewhere(m1, base, 40 + r, y, n, 8, z, z + k);
    PutElsewhere(m2, base + 36, n, z, z + k);
    var m3 := Put(m2, base + 36, n);
    PlaceBlockIs(m3, base, 40 + r + n, z, k, 12);
    var m4 := PlaceBlock(m3, base, 40 + r + n, z, k, 12);
    PutElsewhere(m4, base + 32, k, base + 40 + r + n, base + 40 + r + n + k);
    PutWord(m4, base + 32, k, base + 12);
    PutWord(m4, base + 32, k, base + 32);
  }

  lemma PackedStruct(m: bytes, base: nat, x: nat, y: nat, z: nat, r: nat, n: nat, k: nat)
    requires Packable(m, base, x, y, z, r, n, k) && NoClobber(base, y, z, r, n, k)
    ensures var q := base + 40 + r;
            var p := PackBlocks(m, base, x, y, z, r, n, k);
            && p[q..q + n] == m[y..y + n] && U32(p, base + 8) == 40 + r && U32(p, base + 36) == n
  {
    hide U32, PlaceBlock, Put;
    var q := base + 40 + r;
    var m1 := PlaceBlock(m, base, 40, x, r, 16);
    PlaceBlockElsewhere(m, base, 40, x, r, 16, y, y + n);
    PlaceBlockIs(m1, base, 40 + r, y, n, 8);
    var m2 := PlaceBlock(m1, base, 40 + r, y, n, 8);
    PutElsewhere(m2, base + 36, n, q, q + n);
    PutWord(m2, base + 36, n, base + 8);
    PutWord(m2, base + 36, n, base + 36);
    var m3 := Put(m2, base + 36, n);
    TailElsewhere(m3, base, z, r, n, k, q, q + n);
    TailWord(m3, base, z, r, n, k, 8);
    TailWord(m3, base, z, r, n, k, 36);
  }

  /** What the last of the three moves leaves alone. */
  lemma TailElsewhere(m: bytes, base: nat, z: nat, r: nat, n: nat, k: nat, i: nat, j: nat)
    requires Packable(m, base, 0, 0, z, r, n, k) && i <= j <= |m|
    requires j <= base + 40 + r + n || base + 40 + r + n + k <= i
    requires j <= base + 12 || base + 36 <= i || (base + 16 <= i && j <= base + 32)
    ensures Put(PlaceBlock(m, base, 40 + r + n, z, k, 12), base + 32, k)[i..j] == m[i..j]
  {
    hide U32, PlaceBlock, Put;
    PlaceBlockElsewhere(m, base, 40 + r + n, z, k, 12, i, j);
    PutElsewhere(PlaceBlock(m, base, 40 + r + n, z, k, 12), base + 32, k, i, j);
  }

  lemma TailWord(m: bytes, base: nat, z: nat, r: nat, n: nat, k: nat, w: nat)
    requires Packable(m, base, 0, 0, z, r, n, k) && w in {0, 4, 8, 16, 20, 24, 28, 36}
    ensures U32(Put(PlaceBlock(m, base, 40 + r + n, z, k, 12), base + 32, k), base + w) == U32(m, base + w)
  {
    hide U32, PlaceBlock, Put;
    TailElsewhere(m, base, z, r, n, k, base + w, base + w + 4);
    U32Same(Put(PlaceBlock(m, base, 40 + r + n, z, k, 12), base + 32, k), m, base + w);
  }

  /** What the second of the three moves leaves alone. */
  lemma MiddleElsewhere(m: bytes, base: nat, y: nat, r: nat, n: nat, i: nat, j: nat)
    requires Packable(m, base, 0, y, 0, r, n, 0) && i <= j <= |m|
    requires j <= base + 40 + r || base + 40 + r + n <= i
    requires j <= base + 8 || base + 40 <= i || (base + 12 <= i && j <= base + 36)
    ensures Put(PlaceBlock(m, base, 40 + r, y, n, 8), base + 36, n)[i..j] == m[i..j]
  {
    hide U32, PlaceBlock, Put;
    PlaceBlockElsewhere(m, base, 40 + r, y, n, 8, i, j);
    PutElsewhere(PlaceBlock(m, base, 40 + r, y, n, 8), base + 36, n, i, j);
  }

  lemma PackedRsv(m: bytes, base: nat, x: nat, y: nat, z: nat, r: nat, n: nat, k: nat)
    requires Packable(m, base, x, y, z, r, n, k)
    ensures var q := base + 40;
            var p := PackBlocks(m, base, x, y, z, r, n, k);
            p[q..q + r] == m[x..x + r] && U32(p, base + 16) == 40
  {
    hide U32, PlaceBlock, Put;
    var q := base + 40;
    PlaceBlockIs(m, base, 40, x, r, 16);
    var m1 := PlaceBlock(m, base, 40, x, r, 16);
    var m2 := Put(PlaceBlock(m1, base, 40 + r, y, n, 8), base + 36, n);
    MiddleElsewhere(m1, base, y, r, n, q, q + r);
    MiddleElsewhere(m1, base, y, r, n, base + 16, base + 20);
    U32Same(m2, m1, base + 16);
    TailElsewhere(m2, base, z, r, n, k, q, q + r);
    TailWord(m2, base, z, r, n, k, 16);
  }

  lemma PackedElsewhere(m: bytes, base: nat, x: nat, y: nat, z: nat, r: nat, n: nat, k: nat, i: nat, j: nat)
    requires Packable(m, base, x, y, z, r, n, k) && i <= j <= |m|
    requires j <= base + 8 || base + 40 + r + n + k <= i || (base + 20 <= i && j <= base + 32)
    ensures PackBlocks(m, base, x, y, z, r, n, k)[i..j] == m[i..j]
  {
    hide U32, PlaceBlock, Put;
    PlaceBlockElsewhere(m, base, 40, x, r, 16, i, j);
    var m1 := PlaceBlock(m, base, 40, x, r, 16);
    MiddleElsewhere(m1, base, y, r, n, i, j);
    TailElsewhere(Put(PlaceBlock(m1, base, 40 + r, y, n, 8), base + 36, n), base, z, r, n, k, i, j);
  }

  // ----- in memory

  method ReadWord(mem: array<byte>, at: nat) returns (v: u32)
    requires at + 4 <= mem.Length
    ensures v == U32(mem[..], at)
  {
    var w := mem[at..at + 4];
    assert w == mem[..][at..at + 4];
    WordSame(w, mem[..], 0, at);
    v := U32(w, 0);
  }

  method StoreWord(mem: array<byte>, at: nat, v: u32)
    requires at + 4 <= mem.Length
    modifies mem
    ensures mem[..] == Put(old(mem[..]), at, v)
  {
    hide BE32;
    Store(mem, at, BE32(v));
  }

  method MoveBlock(mem: array<byte>, base: nat, dst: u32, src: nat, len: nat, field: nat)
    requires field + 4 <= HEADER_SIZE <= dst && base + dst + len <= mem.Length && src + len <= mem.Length
    modifies mem
    ensures mem[..] == PlaceBlock(old(mem[..]), base, dst, src, len, field)
  {
    hide Put, Overwrite;
    assert mem[src..src + len] == mem[..][src..src + len];
    MemMove(mem, base + dst, src, len);
    StoreWord(mem, base + field, dst);
  }

  /** The header at `fdt` is out of the way of a pack to `base`, or packed itself. */
  predicate HeaderApart(fdt: nat, base: nat, size: nat) {
    base == fdt || fdt + HEADER_SIZE <= base || base + size <= fdt
  }

  lemma WordsApart(m: bytes, fdt: nat, base: nat, x: nat, y: nat, z: nat, r: nat, n: nat, k: nat)
    requires Packable(m, base, x, y, z, r, n, k) && fdt + HEADER_SIZE <= |m|
    requires HeaderApart(fdt, base, 40 + r + n + k)
    ensures var m1 := PlaceBlock(m, base, 40, x, r, 16);
            var m2 := Put(PlaceBlock(m1, base, 40 + r, y, n, 8), base + 36, n);
            var m3 := PlaceBlock(m2, base, 40 + r + n, z, k, 12);
            && U32(m1, fdt + 8) == U32(m, fdt + 8) && U32(m2, fdt + 12) == U32(m, fdt + 12)
            && U32(m3, fdt + 32) == U32(m, fdt + 32)
  {
    hide U32, PlaceBlock, Put;
    var m1 := PlaceBlock(m, base, 40, x, r, 16);
    var m2 := Put(PlaceBlock(m1, base, 40 + r, y, n, 8), base + 36, n);
    var m3 := PlaceBlock(m2, base, 40 + r + n, z, k, 12);
    PlaceBlockElsewhere(m, base, 40, x, r, 16, fdt + 8, fdt + 12);
    PlaceBlockElsewhere(m, base, 40, x, r, 16, fdt + 12, fdt + 16);
    PlaceBlockElsewhere(m, base, 40, x, r, 16, fdt + 32, fdt + 36);
    MiddleElsewhere(m1, base, y, r, n, fdt + 12, fdt + 16);
    MiddleElsewhere(m1, base, y, r, n, fdt + 32, fdt + 36);
    PlaceBlockElsewhere(m2, base, 40 + r + n, z, k, 12, fdt + 32, fdt + 36);
    WordSame(m1, m, fdt + 8, fdt + 8);
    WordSame(m2, m, fdt + 12, fdt + 12);
    WordSame(m3, m, fdt + 32, fdt + 32);
  }

  /** fdt_packblocks_ from the blob at `fdt` to `base`. */
  method PackBlocksAt(mem: array<byte>, fdt: nat, base: nat, r: nat, n: nat, k: u32)
    requires fdt + HEADER_SIZE <= mem.Length && HeaderApart(fdt, base, 40 + r + n + k)
    requires U32(mem[..], fdt + 32) == k
    requires Packable(mem[..], base, fdt + U32(mem[..], fdt + 16), fdt + U32(mem[..], fdt + 8),
                      fdt + U32(mem[..], fdt + 12), r, n, k)
    modifies mem
    ensures var m := old(mem[..]);
            mem[..] == PackBlocks(m, base, fdt + U32(m, fdt + 16), fdt + U32(m, fdt + 8), fdt + U32(m, fdt + 12), r,
                n, k)
  {
    hide U32, PlaceBlock, Put;
    ghost var m := mem[..];
    ghost var y, z := fdt + U32(m, fdt + 8), fdt + U32(m, fdt + 12);
    var rsvOff := ReadWord(mem, fdt + 16);
    WordsApart(m, fdt, base, fdt + rsvOff, y, z, r, n, k);
    MoveBlock(mem, base, 40, fdt + rsvOff, r, 16);
    var structOff := ReadWord(mem, fdt + 8);
    MoveBlock(mem, base, 40 + r, fdt + structOff, n, 8);
    StoreWord(mem, base + 36, n);
    var stringsOff := ReadWord(mem, fdt + 12);
    MoveBlock(mem, base, 40 + r + n, fdt + stringsOff, k, 12);
    var size := ReadWord(mem, fdt + 32);
    StoreWord(mem, base + 32, size);
  }

  // ----- the packed blob

  /** The blocks `v` packed behind the header of `w`. */
  predicate Packed(w: bytes, v: Blocks) {
    var y := 40 + |v.rsv|;
    var z := y + |v.struct|;
    && z + |v.strings| <= |w| && OffRsv(w) == 40 && OffStruct(w) == y && OffStrings(w) == z
    && SizeStruct(w) == |v.struct| && SizeStrings(w) == |v.strings|
    && w[40..y] == v.rsv && w[y..z] == v.struct && w[z..z + |v.strings|] == v.strings
  }

  lemma PackedHolds(w: bytes, v: Blocks)
    requires Packed(w, v) && Version(w) == 17 && 40 + BlocksSize(v) <= TotalSize(w) <= |w|
    ensures Holds(w, v)
  {
    hide U32;
  }

  lemma PackedPut(w: bytes, v: Blocks, at: nat, x: u32)
    requires Packed(w, v) && at in {0, 4, 20, 24, 28}
    ensures Packed(Put(w, at, x), v)
  {
    hide U32, Put;
    FieldsAligned();
    HeaderPut(w, at, x);
    var y := 40 + |v.rsv|;
    var z := y + |v.struct|;
    PutSlice(w, at, x, 40, y);
    PutSlice(w, at, x, y, z);
    PutSlice(w, at, x, z, z + |v.strings|);
  }

  /** The packed blob, cut out of memory. */
  lemma PackedCut(m: bytes, base: nat, x: nat, y: nat, z: nat, r: nat, n: nat, k: nat, size: nat)
    requires Packable(m, base, x, y, z, r, n, k) && NoClobber(base, y, z, r, n, k)
    requires 40 + r + n + k <= size && base + size <= |m|
    ensures var p := PackBlocks(m, base, x, y, z, r, n, k);
            && Packed(p[base..base + size], Blocks(m[x..x + r], m[y..y + n], m[z..z + k]))
            && Window(p, m, base, p[base..base + size])
  {
    hide U32, PackBlocks, Overwrite, Window;
    var p := PackBlocks(m, base, x, y, z, r, n, k);
    PackedRsv(m, base, x, y, z, r, n, k);
    PackedStruct(m, base, x, y, z, r, n, k);
    PackedStrings(m, base, x, y, z, r, n, k);
    PackedElsewhere(m, base, x, y, z, r, n, k, 0, base);
    PackedElsewhere(m, base, x, y, z, r, n, k, base + size, |m|);
    WindowFrom(m, p, base, size);
    PackedAt(p, base, size, m[x..x + r], m[y..y + n], m[z..z + k]);
  }

  lemma PackedAt(p: bytes, base: nat, size: nat, a: bytes, b: bytes, c: bytes)
    requires base + size <= |p| && 40 + |a| + |b| + |c| <= size && 40 + |a| + |b| + |c| <= INT_MAX
    requires U32(p, base + 16) == 40 && U32(p, base + 8) == 40 + |a| && U32(p, base + 12) == 40 + |a| + |b|
    requires U32(p, base + 36) == |b| && U32(p, base + 32) == |c|
    requires var q := base + 40;
             && p[q..q + |a|] == a && p[q + |a|..q + |a| + |b|] == b
             && p[q + |a| + |b|..q + |a| + |b| + |c|] == c
    ensures Packed(p[base..base + size], Blocks(a, b, c))
  {
    hide U32;
    WordIn(p, base, size, 8);
    WordIn(p, base, size, 12);
    WordIn(p, base, size, 16);
    WordIn(p, base, size, 32);
    WordIn(p, base, size, 36);
    SliceSlice(p, base, base + size, 40, 40 + |a|);
    SliceSlice(p, base, base + size, 40 + |a|, 40 + |a| + |b|);
    SliceSlice(p, base, base + size, 40 + |a| + |b|, 40 + |a| + |b| + |c|);
  }

  /** The blob `b` stands at `fdt` in the memory `m`. */
  ghost predicate Source(m: bytes, fdt: nat, b: bytes) {
    && BlocksInside(b) && |b| == TotalSize(b) && RsvEnds(b) && fdt + |b| <= |m| && m[fdt..fdt + |b|] == b
  }

  lemma SourceBlocks(m: bytes, fdt: nat, b: bytes)
    requires Source(m, fdt, b)
    ensures var x, y, z := fdt + OffRsv(b), fdt + OffStruct(b), fdt + OffStrings(b);
            && x + RsvSize(b) <= |m| && y + SizeStruct(b) <= |m| && z + SizeStrings(b) <= |m| && RsvSize(b) >= 16
            && BlocksOf(b) == Blocks(m[x..x + RsvSize(b)], m[y..y + SizeStruct(b)], m[z..z + SizeStrings(b)])
            && BlocksSize(BlocksOf(b)) == RsvSize(b) + SizeStruct(b) + SizeStrings(b)
  {
    hide U32, RsvCount;
    RsvInside(b, 0);
    SliceSlice(m, fdt, fdt + |b|, OffRsv(b), OffRsv(b) + RsvSize(b));
    SliceSlice(m, fdt, fdt + |b|, OffStruct(b), OffStruct(b) + SizeStruct(b));
    SliceSlice(m, fdt, fdt + |b|, OffStrings(b), OffStrings(b) + SizeStrings(b));
  }

  /** A blob packed from its place in memory to `base`. */
  function PackFrom(m: bytes, fdt: nat, b: bytes, base: nat): (p: bytes)
    requires Source(m, fdt, b) && base + 40 + BlocksSize(BlocksOf(b)) <= |m|
    requires 40 + BlocksSize(BlocksOf(b)) <= INT_MAX
    ensures |p| == |m|
  {
    SourceBlocks(m, fdt, b);
    PackBlocks(m, base, fdt + OffRsv(b), fdt + OffStruct(b), fdt + OffStrings(b),
               RsvSize(b), SizeStruct(b), SizeStrings(b))
  }

  /** The blocks come out whole: packing in place when they are in order, or to
      a place outside the blob. */
  lemma PackedIs(m: bytes, fdt: nat, b: bytes, base: nat, size: nat)
    requires Source(m, fdt, b) && base + size <= |m|
    requires 40 + BlocksSize(BlocksOf(b)) <= INT_MAX && 40 + BlocksSize(BlocksOf(b)) <= size
    requires NoClobber(base, fdt + OffStruct(b), fdt + OffStrings(b), RsvSize(b), SizeStruct(b), SizeStrings(b))
    ensures var p := PackFrom(m, fdt, b, base);
            Packed(p[base..base + size], BlocksOf(b)) && Window(p, m, base, p[base..base + size])
  {
    hide U32, PackBlocks, RsvCount, BlocksOf, Packed, Window;
    SourceBlocks(m, fdt, b);
    PackedCut(m, base, fdt + OffRsv(b), fdt + OffStruct(b), fdt + OffStrings(b),
              RsvSize(b), SizeStruct(b), SizeStrings(b), size);
  }

  /** fdt_packblocks_ as its callers use it. */
  method PackFromAt(mem: array<byte>, fdt: nat, base: nat, r: nat, n: nat, k: u32, ghost m: bytes, ghost b: bytes)
    requires mem[..] == m && Source(m, fdt, b) && r == RsvSize(b) && n == SizeStruct(b) && k == SizeStrings(b)
    requires base + 40 + BlocksSize(BlocksOf(b)) <= |m| && 40 + BlocksSize(BlocksOf(b)) <= INT_MAX
    requires HeaderApart(fdt, base, 40 + BlocksSize(BlocksOf(b)))
    modifies mem
    ensures mem[..] == PackFrom(m, fdt, b, base)
  {
    hide U32, PackBlocks, RsvCount, BlocksOf, BlocksSize;
    SourceBlocks(m, fdt, b);
    HeaderIn(m, fdt, b);
    PackBlocksAt(mem, fdt, base, r, n, k);
  }

  lemma WindowFrom(m: bytes, p: bytes, lo: nat, n: nat)
    requires |p| == |m| && lo + n <= |m| && p[0..lo] == m[0..lo] && p[lo + n..|m|] == m[lo + n..|m|]
    ensures Window(p, m, lo, p[lo..lo + n])
  {
    assert p == p[0..lo] + p[lo..lo + n] + p[lo + n..|m|];
  }

  lemma WordIn(m: bytes, lo: nat, n: nat, k: nat)
    requires lo + n <= |m| && k + 4 <= n
    ensures U32(m[lo..lo + n], k) == U32(m, lo + k)
  {
    hide U32;
    SliceSlice(m, lo, lo + n, k, k + 4);
    WordSame(m[lo..lo + n], m, k, lo + k);
  }

  // ----- fdt_pack

  /** What fdt_pack makes of a blob: the blocks are kept, the size is exact. */
  ghost predicate PackResult(b: bytes, w: bytes)
    requires BlocksInside(b) && RsvEnds(b)
  {
    && Holds(w, BlocksOf(b)) && TotalSize(w) == 40 + BlocksSize(BlocksOf(b)) <= TotalSize(b)
    && Magic(w) == Magic(b) && LastComp(w) == LastComp(b) && U32(w, 28) == U32(b, 28)
  }

  /** fdt_pack keeps the three blocks of a blob whose reservation map ends
      before its structure block, and shrinks the blob to exactly their size. */
  method Pack(mem: array<byte>, fdt: nat, n: nat) returns (r: int)
    requires fdt + n <= mem.Length && Given(mem[fdt..fdt + n])
    requires RsvEnds(mem[fdt..fdt + n])
    requires OffRsv(mem[fdt..fdt + n]) + RsvSize(mem[fdt..fdt + n]) <= OffStruct(mem[fdt..fdt + n])
    modifies mem
    ensures r == RwProbe(old(mem[fdt..fdt + n]), fdt)
    ensures r != 0 ==> mem[..] == old(mem[..])
    ensures r == 0 ==> PackResult(old(mem[fdt..fdt + n]), mem[fdt..fdt + n])
    ensures r == 0 ==> Window(mem[..], old(mem[..]), fdt, mem[fdt..fdt + n])
  {
    hide U32, Window, PackFrom, RsvCount, Misordered, Probe, Packed, Put, BlocksOf, Source, PackResult, BlocksSize;
    var b := mem[fdt..fdt + n];
    ghost var m := mem[..];
    assert m[fdt..fdt + n] == b;
    r := RwProbe(b, fdt);
    if r != 0 {
      return;
    }
    ProbeEditable(b, fdt);
    PackInPlace(m, fdt, b);
    var num := CountRsv(b);
    PackFromAt(mem, fdt, fdt, (num + 1) * 16, SizeStruct(b), SizeStrings(b), m, b);
    ghost var w := mem[..][fdt..fdt + n];
    var strings := LoadField(mem, fdt, 12, m, w);
    var stringsSize := LoadField(mem, fdt, 32, m, w);
    StoreField(mem, fdt, 4, strings + stringsSize, m, w);
    WindowRead(mem[..], m, fdt, Put(w, 4, strings + stringsSize));
    assert mem[fdt..fdt + n] == mem[..][fdt..fdt + n];
  }

  lemma PackInPlace(m: bytes, fdt: nat, b: bytes)
    requires Editable(b) && RsvEnds(b) && fdt + |b| <= |m| && m[fdt..fdt + |b|] == b
    requires OffRsv(b) + RsvSize(b) <= OffStruct(b)
    ensures Source(m, fdt, b) && 40 + BlocksSize(BlocksOf(b)) <= INT_MAX && fdt + 40 + BlocksSize(BlocksOf(b)) <= |m|
    ensures var w := PackFrom(m, fdt, b, fdt)[fdt..fdt + |b|];
            && |w| == |b| >= HEADER_SIZE
            && var total := OffStrings(w) + SizeStrings(w);
            && total < TWO32 && PackResult(b, Put(w, 4, total)) && Window(PackFrom(m, fdt, b, fdt), m, fdt, w)
  {
    hide U32, PackFrom, RsvCount, Misordered, Probe, Packed, Put, BlocksOf, Holds, Window;
    assert Source(m, fdt, b);
    SourceBlocks(m, fdt, b);
    var v := BlocksOf(b);
    PackedIs(m, fdt, b, fdt, |b|);
    var w := PackFrom(m, fdt, b, fdt)[fdt..fdt + |b|];
    PackedKeeps(m, fdt, b);
    PackedWords(w, v);
    var total := 40 + BlocksSize(v);
    FieldsAligned();
    HeaderPut(w, 4, total);
    PackedPut(w, v, 4, total);
    PackedHolds(Put(w, 4, total), v);
  }

  lemma PackedWords(w: bytes, v: Blocks)
    requires Packed(w, v)
    ensures |w| >= HEADER_SIZE && OffStrings(w) + SizeStrings(w) == 40 + BlocksSize(v) <= |w|
  {
    hide U32;
  }

  lemma HeaderIn(m: bytes, fdt: nat, b: bytes)
    requires |b| >= HEADER_SIZE && fdt + |b| <= |m| && m[fdt..fdt + |b|] == b
    ensures U32(m, fdt + 8) == OffStruct(b) && U32(m, fdt + 12) == OffStrings(b)
    ensures U32(m, fdt + 16) == OffRsv(b) && U32(m, fdt + 32) == SizeStrings(b) && U32(m, fdt + 28) == U32(b, 28)
  {
    hide U32;
    WordIn(m, fdt, |b|, 8);
    WordIn(m, fdt, |b|, 12);
    WordIn(m, fdt, |b|, 16);
    WordIn(m, fdt, |b|, 28);
    WordIn(m, fdt, |b|, 32);
  }

  /** The header words that packing in place does not write. */
  lemma PackedKeeps(m: bytes, fdt: nat, b: bytes)
    requires Source(m, fdt, b) && fdt + 40 + BlocksSize(BlocksOf(b)) <= |m| && 40 + BlocksSize(BlocksOf(b)) <= INT_MAX
    ensures var w := PackFrom(m, fdt, b, fdt)[fdt..fdt + |b|];
            && Magic(w) == Magic(b) && Version(w) == Version(b) && LastComp(w) == LastComp(b)
               && U32(w, 28) == U32(b, 28)
  {
    hide U32, PackBlocks, RsvCount, BlocksOf;
    SourceBlocks(m, fdt, b);
    var x, y, z := fdt + OffRsv(b), fdt + OffStruct(b), fdt + OffStrings(b);
    var p := PackFrom(m, fdt, b, fdt);
    forall k | k in {0, 20, 24, 28}
      ensures U32(p[fdt..fdt + |b|], k) == U32(b, k)
    {
      PackedElsewhere(m, fdt, x, y, z, RsvSize(b), SizeStruct(b), SizeStrings(b), fdt + k, fdt + k + 4);
      WordSame(p, m, fdt + k, fdt + k);
      WordIn(p, fdt, |b|, k);
      WordIn(m, fdt, |b|, k);
    }
  }

  // ----- fdt_open_into

  function NewSize(b: bytes): nat
    requires BlocksInside(b) && RsvEnds(b)
  {
    40 + BlocksSize(BlocksOf(b))
  }

  predicate Reorders(b: bytes)
    requires BlocksInside(b) && RsvEnds(b)
  {
    Misordered(b, RsvSize(b), SizeStruct(b))
  }

  /** The packed blob would run into the old one at the start of the buffer. */
  predicate Overlaps(b: bytes, fdt: nat, buf: nat)
    requires BlocksInside(b) && RsvEnds(b)
  {
    buf + NewSize(b) > fdt && buf < fdt + |b|
  }

  function OpenError(b: bytes, fdt: nat, buf: nat, bufsize: nat): int
    requires BlocksInside(b) && RsvEnds(b)
  {
    if Probe(b, fdt) < 0 then Probe(b, fdt)
    else if !Reorders(b) then if TotalSize(b) > bufsize then ERR_NOSPACE else 0
    else if bufsize < NewSize(b) then ERR_NOSPACE
    else if Overlaps(b, fdt, buf) && fdt + |b| + NewSize(b) > buf + bufsize then ERR_NOSPACE
    else 0
  }

  /** Where a reordered blob is built. */
  function BuildAt(b: bytes, fdt: nat, buf: nat): nat
    requires BlocksInside(b) && RsvEnds(b)
  {
    if Overlaps(b, fdt, buf) then fdt + |b| else buf
  }

  /** The same blocks, in order, in a blob that fills the buffer. */
  ghost predicate OpenResult(b: bytes, w: bytes)
    requires BlocksInside(b) && RsvEnds(b)
  {
    && Holds(w, BlocksOf(b)) && TotalSize(w) == |w|
    && Magic(w) == (if Reorders(b) then MAGIC else Magic(b))
    && LastComp(w) == (if Reorders(b) then 16 else LastComp(b))
  }

  /** The header words stored before the boot CPU number. */
  function Stored(w: bytes): (r: bytes)
    requires HEADER_SIZE <= |w| < TWO32
    ensures |r| == |w|
  {
    Put(Put(Put(Put(w, 0, MAGIC), 4, |w|), 20, 17), 24, 16)
  }

  /** The header words that fdt_open_into stores behind a reordering. */
  function Finish(w: bytes, boot: u32): (r: bytes)
    requires HEADER_SIZE <= |w| < TWO32
    ensures |r| == |w|
  {
    Put(Stored(w), 28, boot)
  }

  lemma FinishHolds(w: bytes, v: Blocks, boot: u32)
    requires Packed(w, v) && 40 + BlocksSize(v) <= |w| < TWO32
    ensures Holds(Finish(w, boot), v) && TotalSize(Finish(w, boot)) == |w| && U32(Finish(w, boot), 28) == boot
    ensures Magic(Finish(w, boot)) == MAGIC && LastComp(Finish(w, boot)) == 16
  {
    hide U32, Put, Packed, Holds, BlocksSize;
    FieldsAligned();
    PackedWords(w, v);
    var w1 := Put(w, 0, MAGIC);
    PackedPut(w, v, 0, MAGIC);
    HeaderPut(w, 0, MAGIC);
    var w2 := Put(w1, 4, |w|);
    PackedPut(w1, v, 4, |w|);
    HeaderPut(w1, 4, |w|);
    var w3 := Put(w2, 20, 17);
    PackedPut(w2, v, 20, 17);
    HeaderPut(w2, 20, 17);
    var w4 := Put(w3, 24, 16);
    PackedPut(w3, v, 24, 16);
    HeaderPut(w3, 24, 16);
    PackedPut(w4, v, 28, boot);
    HeaderPut(w4, 28, boot);
    PackedHolds(Finish(w, boot), v);
  }

  lemma PackedLonger(t: bytes, w: bytes, v: Blocks)
    requires Packed(t, v) && |t| <= |w| && w[..|t|] == t
    ensures Packed(w, v)
  {
    hide U32;
    assert w[..|t|] == w[0..0 + |t|];
    WordIn(w, 0, |t|, 8);
    WordIn(w, 0, |t|, 12);
    WordIn(w, 0, |t|, 16);
    WordIn(w, 0, |t|, 32);
    WordIn(w, 0, |t|, 36);
    var y := 40 + |v.rsv|;
    var z := y + |v.struct|;
    SliceSlice(w, 0, |t|, 40, y);
    SliceSlice(w, 0, |t|, y, z);
    SliceSlice(w, 0, |t|, z, z + |v.strings|);
  }

  /** The blob built outside the old one and moved to the buffer. */
  lemma Reordered(m: bytes, fdt: nat, b: bytes, buf: nat, bufsize: nat)
    requires Source(m, fdt, b) && NewSize(b) <= INT_MAX && buf + bufsize <= |m|
    requires Probe(b, fdt) >= 0 && Reorders(b) && OpenError(b, fdt, buf, bufsize) == 0
    ensures var tmp := BuildAt(b, fdt, buf);
            && HEADER_SIZE <= NewSize(b) <= bufsize
            && tmp + NewSize(b) <= buf + bufsize && HeaderApart(fdt, tmp, NewSize(b))
            && var p := PackFrom(m, fdt, b, tmp);
            && buf + NewSize(b) <= |p|
            && var q := Overwrite(p, buf, p[tmp..tmp + NewSize(b)]);
            && Packed(q[buf..buf + bufsize], BlocksOf(b)) && Window(q, m, buf, q[buf..buf + bufsize])
  {
    hide U32, PackFrom, RsvCount, Misordered, Probe, Packed, Put, BlocksOf, BlocksSize, Overwrite;
    SourceBlocks(m, fdt, b);
    var tmp, size := BuildAt(b, fdt, buf), NewSize(b);
    PackedIs(m, fdt, b, tmp, size);
    var p := PackFrom(m, fdt, b, tmp);
    MovedWindow(m, p, tmp, size, buf, bufsize);
    var q := Overwrite(p, buf, p[tmp..tmp + size]);
    PackedLonger(p[tmp..tmp + size], q[buf..buf + bufsize], BlocksOf(b));
  }

  lemma MovedWindow(m: bytes, p: bytes, tmp: nat, size: nat, buf: nat, bufsize: nat)
    requires |p| == |m| && tmp + size <= buf + bufsize <= |m| && buf <= tmp
    requires Window(p, m, tmp, p[tmp..tmp + size])
    ensures var q := Overwrite(p, buf, p[tmp..tmp + size]);
            q[buf..buf + bufsize][..size] == p[tmp..tmp + size] && Window(q, m, buf, q[buf..buf + bufsize])
  {
    hide Overwrite, Window;
    var t := p[tmp..tmp + size];
    var q := Overwrite(p, buf, t);
    OverwriteSlice(p, buf, t, buf, buf + size);
    OverwriteSlice(p, buf, t, 0, buf);
    OverwriteSlice(p, buf, t, buf + bufsize, |m|);
    WindowOutside(m, p, tmp, t, 0, buf);
    WindowOutside(m, p, tmp, t, buf + bufsize, |m|);
    WindowFrom(m, q, buf, bufsize);
    SliceSlice(q, buf, buf + bufsize, 0, size);
    assert t[0..size] == t;
  }

  lemma WindowOutside(m: bytes, p: bytes, lo: nat, w: bytes, i: nat, j: nat)
    requires Window(p, m, lo, w) && i <= j <= |m| && (j <= lo || lo + |w| <= i)
    ensures |p| == |m| && p[i..j] == m[i..j]
  {
    hide Overwrite;
    OverwriteSlice(m, lo, w, i, j);
  }

  /** A blob that needs no reordering, moved as it is. */
  lemma Moved(m: bytes, fdt: nat, b: bytes, buf: nat, bufsize: nat)
    requires Source(m, fdt, b) && buf + bufsize <= |m| && |b| <= bufsize <= INT_MAX && !Reorders(b)
    ensures var q := Overwrite(m, buf, b);
            var w := q[buf..buf + bufsize];
            var r := Put(Put(Put(w, 20, 17), 36, SizeStruct(b)), 4, bufsize);
            Window(q, m, buf, w) && OpenResult(b, r) && U32(r, 28) == U32(b, 28)
  {
    hide U32, Overwrite, RsvCount, Put, BlocksOf, OpenResult, Reorders, Window, RsvEnds;
    var q := Overwrite(m, buf, b);
    var w := q[buf..buf + bufsize];
    OverwriteSlice(m, buf, b, 0, buf);
    OverwriteSlice(m, buf, b, buf + bufsize, |m|);
    WindowFrom(m, q, buf, bufsize);
    OverwriteSlice(m, buf, b, buf, buf + |b|);
    SliceSlice(q, buf, buf + bufsize, 0, |b|);
    assert b[0..|b|] == b;
    MovedHolds(b, w);
  }

  lemma MovedHolds(b: bytes, w: bytes)
    requires BlocksInside(b) && |b| == TotalSize(b) && RsvEnds(b) && !Reorders(b)
    requires |b| <= |w| <= INT_MAX && w[..|b|] == b
    ensures var r := Put(Put(Put(w, 20, 17), 36, SizeStruct(b)), 4, |w|);
            OpenResult(b, r) && U32(r, 28) == U32(b, 28)
  {
    hide U32, RsvCount, Put, Misordered;
    RsvInside(b, 0);
    Unwrapped(b, RsvSize(b));
    var n := SizeStruct(b);
    MovedHeader(b, w, n);
    MovedSlices(b, w, n, |w|, OffRsv(b), OffRsv(b) + RsvSize(b));
    MovedSlices(b, w, n, |w|, OffStruct(b), OffStruct(b) + n);
    MovedSlices(b, w, n, |w|, OffStrings(b), OffStrings(b) + SizeStrings(b));
  }

  lemma MovedHeader(b: bytes, w: bytes, n: u32)
    requires HEADER_SIZE <= |b| <= |w| < TWO32 && w[..|b|] == b
    ensures HeaderOf(Put(Put(Put(w, 20, 17), 36, n), 4, |w|))
         == HeaderOf(b).(version := 17, sizeStruct := n, total := |w|)
  {
    hide U32, Put;
    assert w[..HEADER_SIZE] == w[..|b|][..HEADER_SIZE];
    HeaderKept(b, w);
    FieldsAligned();
    HeaderPut(w, 20, 17);
    HeaderPut(Put(w, 20, 17), 36, n);
    HeaderPut(Put(Put(w, 20, 17), 36, n), 4, |w|);
  }

  lemma MovedSlices(b: bytes, w: bytes, n: u32, total: u32, i: nat, j: nat)
    requires HEADER_SIZE <= i <= j <= |b| <= |w| && w[..|b|] == b
    ensures Put(Put(Put(w, 20, 17), 36, n), 4, total)[i..j] == b[i..j]
  {
    hide Put;
    PutSlice(w, 20, 17, i, j);
    PutSlice(Put(w, 20, 17), 36, n, i, j);
    PutSlice(Put(Put(w, 20, 17), 36, n), 4, total, i, j);
    SliceSlice(w, 0, |b|, i, j);
    assert w[..|b|] == w[0..0 + |b|];
  }

  lemma Unwrapped(b: bytes, r: nat)
    requires BlocksInside(b) && OffRsv(b) + r <= TotalSize(b) && !Misordered(b, r, SizeStruct(b))
    ensures 40 <= OffRsv(b) && OffRsv(b) + r <= OffStruct(b) && OffStruct(b) + SizeStruct(b) <= OffStrings(b)
  {
    hide U32;
    assert (OffRsv(b) + r) % TWO32 == OffRsv(b) + r;
    assert (OffStruct(b) + SizeStruct(b)) % TWO32 == OffStruct(b) + SizeStruct(b);
  }

  // ----- the boot CPU number that fdt_open_into stores

  /** The blob that a reordering has built when the boot CPU number is about to
      be stored in it: the number is still the four bytes that memory held. */
  function Image(v: Blocks, total: u32, boot: bytes): (s: bytes)
    requires |boot| == 4 && 40 + BlocksSize(v) <= INT_MAX
    ensures |s| == 40 + BlocksSize(v)
  {
    BE32(MAGIC) + BE32(total) + BE32(40 + |v.rsv|) + BE32(40 + |v.rsv| + |v.struct|) + BE32(40) + BE32(17) + BE32(16)
    + boot + BE32(|v.strings|) + BE32(|v.struct|) + (v.rsv + v.struct + v.strings)
  }

  /** The boot CPU number of the opened blob. A blob in order keeps its own. For
      a reordered one it is read at the old header, over which the new blob may
      have been put, wholly, in part or not at all. */
  ghost function BootWord(m: bytes, fdt: nat, b: bytes, buf: nat, bufsize: nat): u32
    requires Source(m, fdt, b) && NewSize(b) <= INT_MAX && buf + bufsize <= |m| && bufsize <= INT_MAX
    requires OpenError(b, fdt, buf, bufsize) == 0
  {
    if !Reorders(b) then U32(b, 28) else
      ReorderFits(m, fdt, b, buf, bufsize);
      var spare := BuildAt(b, fdt, buf) + 28;
      U32(Overwrite(m, buf, Image(BlocksOf(b), bufsize, m[spare..spare + 4])), fdt + 28)
  }

  lemma ReorderFits(m: bytes, fdt: nat, b: bytes, buf: nat, bufsize: nat)
    requires Source(m, fdt, b) && buf + bufsize <= |m|
    requires OpenError(b, fdt, buf, bufsize) == 0 && Reorders(b)
    ensures buf + NewSize(b) <= BuildAt(b, fdt, buf) + NewSize(b) <= buf + bufsize && NewSize(b) >= 56
  {
    hide U32, RsvCount, BlocksOf, Misordered;
    SourceBlocks(m, fdt, b);
  }

  lemma BootOrdered(m: bytes, fdt: nat, b: bytes, buf: nat, bufsize: nat)
    requires Source(m, fdt, b) && NewSize(b) <= INT_MAX && buf + bufsize <= |m| && bufsize <= INT_MAX
    requires OpenError(b, fdt, buf, bufsize) == 0 && !Reorders(b)
    ensures BootWord(m, fdt, b, buf, bufsize) == U32(b, 28)
  {
    hide U32, RsvCount, BlocksOf, Probe, Misordered;
  }

  /** The new blob does not reach the boot CPU number of the old header. */
  predicate BootApart(fdt: nat, b: bytes, buf: nat)
    requires BlocksInside(b) && RsvEnds(b)
  {
    fdt + 32 <= buf || buf + NewSize(b) <= fdt + 28
  }

  /** What a reordering makes of the boot CPU number, by where the new blob
      stands: apart from the old number, wholly over it, or over part of it. */
  lemma BootWordIs(m: bytes, fdt: nat, b: bytes, buf: nat, bufsize: nat)
    requires Source(m, fdt, b) && NewSize(b) <= INT_MAX && buf + bufsize <= |m| && bufsize <= INT_MAX
    requires OpenError(b, fdt, buf, bufsize) == 0 && Reorders(b)
    ensures fdt + |b| + 32 <= |m| || BootApart(fdt, b, buf)
    ensures var boot := BootWord(m, fdt, b, buf, bufsize);
            && (BootApart(fdt, b, buf) ==> boot == U32(b, 28))
            && (!BootApart(fdt, b, buf) ==>
                  var img := Image(BlocksOf(b), bufsize, m[fdt + |b| + 28..fdt + |b| + 32]);
                  && (buf <= fdt + 28 && fdt + 32 <= buf + |img| ==> boot == U32(img, fdt + 28 - buf))
                  && (fdt + 28 < buf ==> boot == U32(b[28..buf - fdt] + img[..fdt + 32 - buf], 0))
                  && (buf + |img| < fdt + 32 ==>
                        boot == U32(img[fdt + 28 - buf..] + b[buf + |img| - fdt..32], 0)))
  {
    hide U32, RsvCount, BlocksOf, BlocksSize, Misordered, Probe, Image, Overwrite;
    SourceBlocks(m, fdt, b);
    ReorderFits(m, fdt, b, buf, bufsize);
    var tmp, i := BuildAt(b, fdt, buf), fdt + 28;
    var img := Image(BlocksOf(b), bufsize, m[tmp + 28..tmp + 32]);
    SliceSlice(m, fdt, fdt + |b|, 28, 32);
    WordSame(m, b, i, 28);
    OverwriteSlice(m, buf, img, i, i + 4);
    if BootApart(fdt, b, buf) {
      U32Same(Overwrite(m, buf, img), m, i);
    } else if buf <= i && i + 4 <= buf + |img| {
      WordSame(Overwrite(m, buf, img), img, i, i - buf);
    } else if i < buf {
      BootStraddled(m, fdt, b, buf, img);
    } else {
      BootStraddled(m, fdt, b, buf, img);
    }
  }

  /** The old number half covered by the start or by the end of the new blob. */
  lemma BootStraddled(m: bytes, fdt: nat, b: bytes, buf: nat, img: bytes)
    requires |b| >= HEADER_SIZE && fdt + |b| <= |m| && m[fdt..fdt + |b|] == b && buf + |img| <= |m| && |img| >= 40
    ensures fdt + 28 < buf < fdt + 32 ==>
              U32(Overwrite(m, buf, img), fdt + 28) == U32(b[28..buf - fdt] + img[..fdt + 32 - buf], 0)
    ensures fdt + 28 < buf + |img| < fdt + 32 ==>
              && 0 <= fdt + 28 - buf
              && U32(Overwrite(m, buf, img), fdt + 28) == U32(img[fdt + 28 - buf..] + b[buf + |img| - fdt..32], 0)
  {
    hide U32, Overwrite;
    var r, i := Overwrite(m, buf, img), fdt + 28;
    if i < buf < i + 4 {
      OverwriteSlice(m, buf, img, i, buf);
      OverwriteSlice(m, buf, img, buf, i + 4);
      SliceSlice(m, fdt, fdt + |b|, 28, buf - fdt);
      assert img[0..i + 4 - buf] == img[..i + 4 - buf];
      WordOf(r, i, buf, b[28..buf - fdt], img[..i + 4 - buf]);
    }
    if i < buf + |img| < i + 4 {
      OverwriteSlice(m, buf, img, i, buf + |img|);
      OverwriteSlice(m, buf, img, buf + |img|, i + 4);
      SliceSlice(m, fdt, fdt + |b|, buf + |img| - fdt, 32);
      assert img[i - buf..|img|] == img[i - buf..];
      WordOf(r, i, buf + |img|, img[i - buf..], b[buf + |img| - fdt..32]);
    }
  }

  /** A word read in two parts. */
  lemma WordOf(r: bytes, i: nat, mid: nat, x: bytes, y: bytes)
    requires i <= mid <= i + 4 <= |r| && r[i..mid] == x && r[mid..i + 4] == y
    ensures |x + y| == 4 && U32(r, i) == U32(x + y, 0)
  {
    hide U32;
    SliceJoin(r, i, mid, i + 4);
    assert (x + y)[0..4] == x + y;
    WordSame(r, x + y, i, 0);
  }

  lemma WordEqual(a: bytes, i: nat, b: bytes, j: nat)
    requires i + 4 <= |a| && j + 4 <= |b|
    ensures U32(a, i) == U32(b, j) <==> a[i..i + 4] == b[j..j + 4]
  {
    hide U32, BE32;
    U32RoundTrip(a, i);
    U32RoundTrip(b, j);
    if a[i..i + 4] == b[j..j + 4] {
      WordSame(a, b, i, j);
    }
  }

  /** Every byte of the old number that the new blob covers is the same in it. */
  predicate SameWhereCovered(was: bytes, at: nat, buf: nat, img: bytes)
    requires |was| == 4
  {
    forall k :: 0 <= k < 4 && buf <= at + k < buf + |img| ==> was[k] == img[at + k - buf]
  }

  lemma CoveredIs(m: bytes, at: nat, was: bytes, buf: nat, img: bytes)
    requires |was| == 4 && at + 4 <= |m| && m[at..at + 4] == was && buf + |img| <= |m|
    ensures Overwrite(m, buf, img)[at..at + 4] == was <==> SameWhereCovered(was, at, buf, img)
  {
    var r := Overwrite(m, buf, img)[at..at + 4];
    forall k | 0 <= k < 4
      ensures r[k] == if buf <= at + k < buf + |img| then img[at + k - buf] else was[k]
    {
      assert was[k] == m[at + k];
    }
    if SameWhereCovered(was, at, buf, img) {
      assert forall k :: 0 <= k < 4 ==> r[k] == was[k];
    }
  }

  lemma ImageBoot(v: Blocks, total: u32, boot: bytes)
    requires |boot| == 4 && 40 + BlocksSize(v) <= INT_MAX
    ensures Image(v, total, boot)[28..32] == boot
  {
    hide BE32;
    var h := BE32(MAGIC) + BE32(total) + BE32(40 + |v.rsv|) + BE32(40 + |v.rsv| + |v.struct|) + BE32(40) + BE32(17)
             + BE32(16);
    var e := BE32(|v.strings|) + BE32(|v.struct|) + (v.rsv + v.struct + v.strings);
    assert |h| == 28;
    assert Image(v, total, boot) == h + boot + e;
    assert (h + boot + e)[28..32] == boot;
  }

  /** In place the number comes from the bytes 28 behind the old blob. */
  lemma BootInPlace(m: bytes, fdt: nat, b: bytes, bufsize: nat)
    requires Source(m, fdt, b) && NewSize(b) <= INT_MAX && fdt + bufsize <= |m| && bufsize <= INT_MAX
    requires OpenError(b, fdt, fdt, bufsize) == 0 && Reorders(b)
    ensures fdt + |b| + 32 <= |m| && BootWord(m, fdt, b, fdt, bufsize) == U32(m, fdt + |b| + 28)
  {
    hide U32, RsvCount, BlocksOf, BlocksSize, Misordered, Probe, Image;
    SourceBlocks(m, fdt, b);
    BootWordIs(m, fdt, b, fdt, bufsize);
    var boot := m[fdt + |b| + 28..fdt + |b| + 32];
    ImageBoot(BlocksOf(b), bufsize, boot);
    WordSame(Image(BlocksOf(b), bufsize, boot), m, 28, fdt + |b| + 28);
  }

  /** The boot CPU number survives exactly when the blob is in order, or is put
      clear of the old number, or happens to bring the same bytes. */
  lemma BootSurvives(m: bytes, fdt: nat, b: bytes, buf: nat, bufsize: nat)
    requires Source(m, fdt, b) && NewSize(b) <= INT_MAX && buf + bufsize <= |m| && bufsize <= INT_MAX
    requires OpenError(b, fdt, buf, bufsize) == 0
    ensures BootApart(fdt, b, buf) || !Reorders(b) || fdt + |b| + 32 <= |m|
    ensures BootWord(m, fdt, b, buf, bufsize) == U32(b, 28) <==>
              || !Reorders(b)
              || BootApart(fdt, b, buf)
              || SameWhereCovered(b[28..32], fdt + 28, buf,
                                  Image(BlocksOf(b), bufsize, m[fdt + |b| + 28..fdt + |b| + 32]))
  {
    hide U32, RsvCount, BlocksOf, BlocksSize, Misordered, Probe, Image, Overwrite, SameWhereCovered;
    SourceBlocks(m, fdt, b);
    if Reorders(b) {
      BootWordIs(m, fdt, b, buf, bufsize);
      if !BootApart(fdt, b, buf) {
        ReorderFits(m, fdt, b, buf, bufsize);
        var boot := m[fdt + |b| + 28..fdt + |b| + 32];
        var img := Image(BlocksOf(b), bufsize, boot);
        SliceSlice(m, fdt, fdt + |b|, 28, 32);
        CoveredIs(m, fdt + 28, b[28..32], buf, img);
        WordEqual(Overwrite(m, buf, img), fdt + 28, b, 28);
      }
    } else {
      BootOrdered(m, fdt, b, buf, bufsize);
    }
  }

  lemma HeaderSlices(w: bytes)
    requires |w| >= HEADER_SIZE
    ensures w[0..4] + w[4..8] + w[8..12] + w[12..16] + w[16..20] + w[20..24] + w[24..28] + w[28..32] + w[32..36]
        + w[36..40]
            == w[0..40]
  {
    SliceJoin(w, 0, 4, 8);
    SliceJoin(w, 0, 8, 12);
    SliceJoin(w, 0, 12, 16);
    SliceJoin(w, 0, 16, 20);
    SliceJoin(w, 0, 20, 24);
    SliceJoin(w, 0, 24, 28);
    SliceJoin(w, 0, 28, 32);
    SliceJoin(w, 0, 32, 36);
    SliceJoin(w, 0, 36, 40);
  }

  lemma PackedBody(w: bytes, v: Blocks)
    requires Packed(w, v)
    ensures w[40..40 + BlocksSize(v)] == v.rsv + v.struct + v.strings
  {
    hide U32;
    var y := 40 + |v.rsv|;
    var z := y + |v.struct|;
    SliceJoin(w, 40, y, z);
    SliceJoin(w, 40, z, z + |v.strings|);
  }

  lemma ImageIs(w: bytes, v: Blocks, total: u32)
    requires Packed(w, v) && 40 + BlocksSize(v) <= INT_MAX
    requires Magic(w) == MAGIC && TotalSize(w) == total && Version(w) == 17 && LastComp(w) == 16
    ensures 40 + BlocksSize(v) <= |w| && w[0..40 + BlocksSize(v)] == Image(v, total, w[28..32])
  {
    hide U32, BE32, BlocksSize;
    PackedWords(w, v);
    PackedBody(w, v);
    HeaderSlices(w);
    U32RoundTrip(w, 0);
    U32RoundTrip(w, 4);
    U32RoundTrip(w, 8);
    U32RoundTrip(w, 12);
    U32RoundTrip(w, 16);
    U32RoundTrip(w, 20);
    U32RoundTrip(w, 24);
    U32RoundTrip(w, 32);
    U32RoundTrip(w, 36);
    SliceJoin(w, 0, 40, 40 + BlocksSize(v));
  }

  /** The stores before the last reach the first 28 bytes of the buffer only. */
  lemma StoresLow(w: bytes, i: nat, j: nat)
    requires HEADER_SIZE <= |w| < TWO32 && 28 <= i <= j <= |w|
    ensures Stored(w)[i..j] == w[i..j]
  {
    hide Put;
    PutSlice(w, 0, MAGIC, i, j);
    PutSlice(Put(w, 0, MAGIC), 4, |w|, i, j);
    PutSlice(Put(Put(w, 0, MAGIC), 4, |w|), 20, 17, i, j);
    PutSlice(Put(Put(Put(w, 0, MAGIC), 4, |w|), 20, 17), 24, 16, i, j);
  }

  lemma StoredImage(w: bytes, v: Blocks)
    requires Packed(w, v) && 40 + BlocksSize(v) <= INT_MAX && |w| < TWO32
    ensures 40 + BlocksSize(v) <= |w|
    ensures Stored(w)[0..40 + BlocksSize(v)] == Image(v, |w|, w[28..32])
  {
    hide U32, Put, Packed, BlocksSize, Image;
    FieldsAligned();
    PackedWords(w, v);
    var w1 := Put(w, 0, MAGIC);
    PackedPut(w, v, 0, MAGIC);
    HeaderPut(w, 0, MAGIC);
    var w2 := Put(w1, 4, |w|);
    PackedPut(w1, v, 4, |w|);
    HeaderPut(w1, 4, |w|);
    var w3 := Put(w2, 20, 17);
    PackedPut(w2, v, 20, 17);
    HeaderPut(w2, 20, 17);
    PackedPut(w3, v, 24, 16);
    HeaderPut(w3, 24, 16);
    ImageIs(Stored(w), v, |w|);
    StoresLow(w, 28, 32);
  }

  /** The header and the reservation map, then the structure block, of a blob
      with one empty root node whose strings block, itself empty, is said to
      start with the structure block. Its boot CPU number is 1. */
  function SampleWords(): seq<u32> {
    [MAGIC, 72, 56, 56, 40, 17, 16, 1, 0, 16, 0, 0, 0, 0, 1, 0, 2, 9]
  }

  lemma SampleHeader(b: bytes)
    requires b == Words(SampleWords())
    ensures |b| == 72 && Magic(b) == MAGIC && TotalSize(b) == 72 && OffStruct(b) == 56 && OffStrings(b) == 56
    ensures OffRsv(b) == 40 && Version(b) == 17 && LastComp(b) == 16 && U32(b, 28) == 1
    ensures SizeStrings(b) == 0 && SizeStruct(b) == 16 && U32(b, 48) == 0 && U32(b, 52) == 0
  {
    hide U32, Words;
    var ws := SampleWords();
    forall k: nat | k in {0, 1, 2, 3, 4, 5, 6, 7, 8, 9, 12, 13}
      ensures U32(b, 4 * k) == ws[k]
    {
      WordsAt(ws, k);
    }
    assert U32(b, 4 * 0) == ws[0] && U32(b, 4 * 1) == ws[1] && U32(b, 4 * 2) == ws[2] && U32(b, 4 * 3) == ws[3];
    assert U32(b, 4 * 4) == ws[4] && U32(b, 4 * 5) == ws[5] && U32(b, 4 * 6) == ws[6] && U32(b, 4 * 7) == ws[7];
    assert U32(b, 4 * 8) == ws[8] && U32(b, 4 * 9) == ws[9] && U32(b, 4 * 12) == ws[12] && U32(b, 4 * 13) == ws[13];
  }

  lemma SampleSource(m: bytes, b: bytes)
    requires b == Words(SampleWords()) && |m| == 144 && m[0..72] == b
    ensures Source(m, 0, b) && NewSize(b) == 72 && Reorders(b) && OpenError(b, 0, 0, 144) == 0
  {
    hide U32, Words;
    SampleHeader(b);
    assert RsvCount(b, 0) == 0;
    hide RsvCount;
    SourceBlocks(m, 0, b);
  }

  /** Opened in place, with as many zero bytes behind it, that blob comes out
      with the boot CPU number 0. */
  lemma BootLost(m: bytes, b: bytes)
    requires b == Words(SampleWords()) && m == b + Words(seq(18, _ => 0))
    ensures Source(m, 0, b) && NewSize(b) == 72 && Reorders(b) && OpenError(b, 0, 0, 144) == 0
    ensures U32(b, 28) == 1 && BootWord(m, 0, b, 0, 144) == 0
  {
    hide U32, Words, SampleWords, Source, BootWord, Reorders, OpenError, NewSize;
    var z := seq(18, _ => 0);
    assert |b| == 72 && m[0..72] == b by {
      SampleHeader(b);
    }
    SampleSource(m, b);
    SampleHeader(b);
    WordsAt(z, 7);
    assert m[100..104] == Words(z)[28..32];
    WordSame(m, Words(z), 100, 28);
    BootInPlace(m, 0, b, 144);
  }

  /** fdt_open_into: whether or not the buffer overlaps the blob, a success
      leaves in the buffer the same blocks in the order that editing needs, and
      nothing outside the buffer changes. The boot CPU number is whatever stands
      in the old header after the reordered blob has been put in the buffer. */
  method OpenInto(mem: array<byte>, fdt: nat, n: nat, buf: nat, bufsize: nat) returns (r: int)
    requires fdt + n <= mem.Length && Source(mem[..], fdt, mem[fdt..fdt + n])
    requires buf + bufsize <= mem.Length && bufsize <= INT_MAX && NewSize(mem[fdt..fdt + n]) <= INT_MAX
    modifies mem
    ensures r == OpenError(old(mem[fdt..fdt + n]), fdt, buf, bufsize)
    ensures r != 0 ==> mem[..] == old(mem[..])
    ensures r == 0 ==> Window(mem[..], old(mem[..]), buf, mem[buf..buf + bufsize])
    ensures r == 0 ==> OpenResult(old(mem[fdt..fdt + n]), mem[buf..buf + bufsize])
    ensures r == 0 ==>
              U32(mem[buf..buf + bufsize], 28)
              == BootWord(old(mem[..]), fdt, old(mem[fdt..fdt + n]), buf, bufsize)
  {
    hide U32, PackFrom, RsvCount, Misordered, Probe, Packed, Put, BlocksOf, BlocksSize, Overwrite, Source, OpenResult;
    hide Window, BootWord;
    var b := mem[fdt..fdt + n];
    ghost var m := mem[..];
    SourceInside(m, fdt, b);
    r := Probe(b, fdt);
    if r < 0 {
      return;
    }
    var num := CountRsv(b);
    var rsvSize := (num + 1) * 16;
    if !Misordered(b, rsvSize, SizeStruct(b)) {
      if TotalSize(b) > bufsize {
        return ERR_NOSPACE;
      }
      MoveWhole(mem, fdt, b, buf, bufsize);
      BootOrdered(m, fdt, b, buf, bufsize);
      return 0;
    }
    var newSize := 40 + rsvSize + SizeStruct(b) + SizeStrings(b);
    if bufsize < newSize {
      return ERR_NOSPACE;
    }
    var tmp := buf;
    if tmp + newSize > fdt && tmp < fdt + TotalSize(b) {
      tmp := fdt + TotalSize(b);
      if tmp + newSize > buf + bufsize {
        return ERR_NOSPACE;
      }
    }
    Rebuild(mem, fdt, b, buf, bufsize, tmp, rsvSize, newSize);
    r := 0;
  }

  lemma SourceInside(m: bytes, fdt: nat, b: bytes)
    requires Source(m, fdt, b)
    ensures BlocksInside(b) && |b| == TotalSize(b) && RsvEnds(b) && fdt + |b| <= |m| && m[fdt..fdt + |b|] == b
    ensures Probe(b, fdt) < 0 || Probe(b, fdt) == |b|
    ensures NewSize(b) == 40 + RsvSize(b) + SizeStruct(b) + SizeStrings(b) && RsvSize(b) >= 16
  {
    hide U32, RsvCount, BlocksOf;
    SourceBlocks(m, fdt, b);
  }

  /** fdt_move and the three words stored behind it. */
  method MoveWhole(mem: array<byte>, fdt: nat, b: bytes, buf: nat, bufsize: nat)
    requires Source(mem[..], fdt, b) && !Reorders(b) && |b| <= bufsize <= INT_MAX && buf + bufsize <= mem.Length
    modifies mem
    ensures Window(mem[..], old(mem[..]), buf, mem[buf..buf + bufsize])
    ensures OpenResult(b, mem[buf..buf + bufsize])
    ensures U32(mem[buf..buf + bufsize], 28) == U32(b, 28)
  {
    hide U32, RsvCount, Misordered, Put, BlocksOf, BlocksSize, Overwrite, Source, Window, Reorders, RsvEnds, NewSize;
    hide OpenResult, Probe;
    ghost var m := mem[..];
    SourceInside(m, fdt, b);
    Moved(m, fdt, b, buf, bufsize);
    assert mem[fdt..fdt + |b|] == m[fdt..fdt + |b|];
    MemMove(mem, buf, fdt, |b|);
    StoreMoved(mem, buf, bufsize, SizeStruct(b), m, mem[..][buf..buf + bufsize]);
  }

  method StoreMoved(mem: array<byte>, buf: nat, bufsize: nat, n: u32, ghost m: bytes, ghost w: bytes)
    requires Window(mem[..], m, buf, w) && HEADER_SIZE <= |w| == bufsize <= INT_MAX && buf + bufsize <= mem.Length
    modifies mem
    ensures Window(mem[..], m, buf, mem[buf..buf + bufsize])
    ensures mem[buf..buf + bufsize] == Put(Put(Put(w, 20, 17), 36, n), 4, bufsize)
  {
    hide Put, Window;
    StoreField(mem, buf, 20, 17, m, w);
    StoreField(mem, buf, 36, n, m, Put(w, 20, 17));
    StoreField(mem, buf, 4, bufsize, m, Put(Put(w, 20, 17), 36, n));
    WindowRead(mem[..], m, buf, Put(Put(Put(w, 20, 17), 36, n), 4, bufsize));
    assert mem[buf..buf + bufsize] == mem[..][buf..buf + bufsize];
  }

  /** Packing, moving into place, and the header words. */
  method Rebuild(mem: array<byte>, fdt: nat, b: bytes, buf: nat, bufsize: nat, tmp: nat, rsvSize: nat, newSize: nat)
    requires Source(mem[..], fdt, b) && NewSize(b) <= INT_MAX && buf + bufsize <= mem.Length && bufsize <= INT_MAX
    requires Probe(b, fdt) >= 0 && Reorders(b) && OpenError(b, fdt, buf, bufsize) == 0
    requires tmp == BuildAt(b, fdt, buf) && rsvSize == RsvSize(b) && newSize == NewSize(b)
    modifies mem
    ensures Window(mem[..], old(mem[..]), buf, mem[buf..buf + bufsize])
    ensures OpenResult(b, mem[buf..buf + bufsize])
    ensures U32(mem[buf..buf + bufsize], 28) == BootWord(old(mem[..]), fdt, b, buf, bufsize)
  {
    hide U32, PackFrom, RsvCount, Misordered, Put, BlocksOf, BlocksSize, Overwrite, Source, Window, Packed, Reorders;
    hide RsvEnds, Finish, Probe, Holds, BuildAt, OpenError, HeaderApart, Stored, BootWord;
    ghost var m := mem[..];
    SourceInside(m, fdt, b);
    Reordered(m, fdt, b, buf, bufsize);
    PackFromAt(mem, fdt, tmp, rsvSize, SizeStruct(b), SizeStrings(b), m, b);
    assert mem[tmp..tmp + newSize] == mem[..][tmp..tmp + newSize];
    MemMove(mem, buf, tmp, newSize);
    ghost var w := mem[..][buf..buf + bufsize];
    ghost var m4 := StoreFinish(mem, fdt, buf, bufsize, m, w);
    BootRead(m, fdt, b, buf, bufsize, m4, w);
    FinishHolds(w, BlocksOf(b), U32(m4, fdt + 28));
  }

  method StoreFinish(mem: array<byte>, fdt: nat, buf: nat, bufsize: nat, ghost m: bytes, ghost w: bytes)
    returns (ghost m4: bytes)
    requires Window(mem[..], m, buf, w) && HEADER_SIZE <= |w| == bufsize <= INT_MAX
    requires fdt + HEADER_SIZE <= mem.Length && buf + bufsize <= mem.Length
    modifies mem
    ensures Window(mem[..], m, buf, mem[buf..buf + bufsize])
    ensures |m4| == mem.Length && Window(m4, m, buf, Stored(w))
    ensures mem[buf..buf + bufsize] == Finish(w, U32(m4, fdt + 28))
  {
    hide Put, Window, U32;
    StoreField(mem, buf, 0, MAGIC, m, w);
    ghost var w1 := Put(w, 0, MAGIC);
    StoreField(mem, buf, 4, bufsize, m, w1);
    ghost var w2 := Put(w1, 4, bufsize);
    StoreField(mem, buf, 20, 17, m, w2);
    ghost var w3 := Put(w2, 20, 17);
    StoreField(mem, buf, 24, 16, m, w3);
    ghost var w4 := Put(w3, 24, 16);
    m4 := mem[..];
    var boot := ReadWord(mem, fdt + 28);
    StoreField(mem, buf, 28, boot, m, w4);
    WindowRead(mem[..], m, buf, Finish(w, boot));
    assert mem[buf..buf + bufsize] == mem[..][buf..buf + bufsize];
  }

  /** Four bytes of the memory `m4` in whose window the stores have made `w4` of
      `w`: where the moved blob stands those of its image, else what `m` held. */
  lemma ReadThrough(m: bytes, p: bytes, t: bytes, buf: nat, w: bytes, w4: bytes, m4: bytes, img: bytes, i: nat)
    requires |p| == |m| && buf + |t| <= |m| && Window(Overwrite(p, buf, t), m, buf, w) && Window(m4, m, buf, w4)
    requires 28 <= |t| == |img| <= |w| == |w4| && w4[28..] == w[28..] && w4[0..|img|] == img
    requires i + 4 <= |m| && p[i..i + 4] == m[i..i + 4]
    ensures m4[i..i + 4] == Overwrite(m, buf, img)[i..i + 4]
  {
    var q := Overwrite(p, buf, t);
    var r := Overwrite(m, buf, img);
    forall j | i <= j < i + 4
      ensures m4[j] == r[j]
    {
      assert p[j] == p[i..i + 4][j - i] == m[i..i + 4][j - i] == m[j];
      if buf <= j < buf + |img| {
        assert m4[j] == w4[j - buf] == w4[0..|img|][j - buf];
      } else if buf <= j < buf + |w| {
        assert w4[j - buf] == w4[28..][j - buf - 28] == w[28..][j - buf - 28] == w[j - buf];
        assert q[j] == w[j - buf] && q[j] == p[j];
      }
    }
  }

  lemma BootRead(m: bytes, fdt: nat, b: bytes, buf: nat, bufsize: nat, m4: bytes, w: bytes)
    requires Source(m, fdt, b) && NewSize(b) <= INT_MAX && buf + bufsize <= |m| && bufsize <= INT_MAX
    requires Reorders(b) && OpenError(b, fdt, buf, bufsize) == 0
    requires BuildAt(b, fdt, buf) + NewSize(b) <= buf + bufsize
    requires var tmp := BuildAt(b, fdt, buf);
             var p := PackFrom(m, fdt, b, tmp);
             var q := Overwrite(p, buf, p[tmp..tmp + NewSize(b)]);
             w == q[buf..buf + bufsize] && Window(q, m, buf, w)
    requires |w| == bufsize >= HEADER_SIZE && Packed(w, BlocksOf(b)) && Window(m4, m, buf, Stored(w))
    ensures |m4| == |m| && U32(m4, fdt + 28) == BootWord(m, fdt, b, buf, bufsize)
  {
    hide U32, PackFrom, RsvCount, Misordered, Stored, BlocksOf, BlocksSize, Overwrite, Probe, Packed, Image, Window;
    SourceInside(m, fdt, b);
    ReorderFits(m, fdt, b, buf, bufsize);
    var tmp, size, i := BuildAt(b, fdt, buf), NewSize(b), fdt + 28;
    var p := PackFrom(m, fdt, b, tmp);
    var t := p[tmp..tmp + size];
    Unpacked(m, fdt, b, tmp, i);
    Unpacked(m, fdt, b, tmp, tmp + 28);
    SpareKept(p, buf, t, bufsize, tmp);
    StoredImage(w, BlocksOf(b));
    StoresLow(w, 28, |w|);
    assert Stored(w)[28..] == Stored(w)[28..|w|] && w[28..] == w[28..|w|];
    WindowRead(m4, m, buf, Stored(w));
    var img := Image(BlocksOf(b), bufsize, m[tmp + 28..tmp + 32]);
    ReadThrough(m, p, t, buf, w, Stored(w), m4, img, i);
    U32Same(m4, Overwrite(m, buf, img), i);
  }

  /** The bytes of the boot CPU number in the moved blob. */
  lemma SpareKept(p: bytes, buf: nat, t: bytes, bufsize: nat, tmp: nat)
    requires tmp + |t| <= |p| && 32 <= |t| <= bufsize && buf + bufsize <= |p| && t == p[tmp..tmp + |t|]
    ensures Overwrite(p, buf, t)[buf..buf + bufsize][28..32] == p[tmp + 28..tmp + 32]
  {
    hide Overwrite;
    SliceSlice(Overwrite(p, buf, t), buf, buf + bufsize, 28, 32);
    OverwriteSlice(p, buf, t, buf + 28, buf + 32);
    SliceSlice(p, tmp, tmp + |t|, 28, 32);
  }

  lemma Unpacked(m: bytes, fdt: nat, b: bytes, tmp: nat, i: nat)
    requires Source(m, fdt, b) && tmp + NewSize(b) <= |m| && NewSize(b) <= INT_MAX && i + 4 <= |m|
    requires i + 4 <= tmp || tmp + NewSize(b) <= i || i == tmp + 28
    ensures PackFrom(m, fdt, b, tmp)[i..i + 4] == m[i..i + 4]
  {
    hide U32, PackBlocks, RsvCount, BlocksOf;
    SourceBlocks(m, fdt, b);
    PackedElsewhere(m, tmp, fdt + OffRsv(b), fdt + OffStruct(b), fdt + OffStrings(b),
                    RsvSize(b), SizeStruct(b), SizeStrings(b), i, i + 4);
  }
}