/** external/libfdt/fdt.c: reading tags and walking from node to node.

    Every routine of that file is first described on arbitrary bytes `s` of a
    structure block, with the C return conventions (a negative number is an
    error code); the methods are the C loops, proved against those
    descriptions. */
module FdtWalk {
  import opened Bytes
  import opened FdtFormat

  const ERR_NOTFOUND: int := -1
  const ERR_EXISTS: int := -2
  const ERR_NOSPACE: int := -3
  const ERR_BADOFFSET: int := -4
  const ERR_BADPATH: int := -5
  const ERR_BADSTATE: int := -7
  const ERR_TRUNCATED: int := -8
  const ERR_BADMAGIC: int := -9
  const ERR_BADVERSION: int := -10
  const ERR_BADSTRUCTURE: int := -11
  const ERR_BADLAYOUT: int := -12
  const ERR_INTERNAL: int := -13
  const ERR_BADFLAGS: int := -18
  const ERR_ALIGNMENT: int := -19

  const MAGIC: u32 := 0xd00d_feed
  const SW_MAGIC: u32 := 0x2ff2_0112
  const HEADER_SIZE: nat := 40

  // The header, section 5.2 of the Devicetree Specification.
  function Magic(b: bytes): u32 requires |b| >= HEADER_SIZE { U32(b, 0) }
  function TotalSize(b: bytes): u32 requires |b| >= HEADER_SIZE { U32(b, 4) }
  function OffStruct(b: bytes): u32 requires |b| >= HEADER_SIZE { U32(b, 8) }
  function OffStrings(b: bytes): u32 requires |b| >= HEADER_SIZE { U32(b, 12) }
  function OffRsv(b: bytes): u32 requires |b| >= HEADER_SIZE { U32(b, 16) }
  function Version(b: bytes): u32 requires |b| >= HEADER_SIZE { U32(b, 20) }
  function LastComp(b: bytes): u32 requires |b| >= HEADER_SIZE { U32(b, 24) }
  function SizeStrings(b: bytes): u32 requires |b| >= HEADER_SIZE { U32(b, 32) }
  function SizeStruct(b: bytes): u32 requires |b| >= HEADER_SIZE { U32(b, 36) }

  /** Memory that a C caller may pass as a version 17 blob: the header, as many
      bytes as the header announces (less than 2 GiB), and a structure block
      that does not start inside the header. */
  predicate InMemory(b: bytes) {
    && |b| >= HEADER_SIZE && TotalSize(b) <= |b| && TotalSize(b) < INT_MAX
    && Version(b) >= 17 && OffStruct(b) >= HEADER_SIZE
  }

  /** The part of the structure block that may be read. */
  function StructOf(b: bytes): (s: bytes)
    requires InMemory(b)
    ensures |s| < INT_MAX - 8
  {
    var lo := OffStruct(b);
    if lo > TotalSize(b) then []
    else b[lo..if lo + SizeStruct(b) <= TotalSize(b) then lo + SizeStruct(b) else TotalSize(b)]
  }

  /** fdt_offset_ptr: whether `len` bytes at `offset` may be read, computed in
      32-bit unsigned arithmetic as the C code does. */
  predicate OffsetPtr(b: bytes, offset: int, len: u32)
    requires InMemory(b) && offset < INT_MAX + 1
  {
    offset >= 0 &&
    var absoffset := (offset + OffStruct(b)) % TWO32;
    && absoffset >= offset
    && (absoffset + len) % TWO32 >= absoffset
    && (absoffset + len) % TWO32 <= TotalSize(b)
    && (offset + len) % TWO32 >= offset
    && (offset + len) % TWO32 <= SizeStruct(b)
  }

  /** None of the wrap-arounds lets a read escape the block. */
  lemma OffsetPtrIs(b: bytes, offset: int, len: u32)
    requires InMemory(b) && offset < INT_MAX + 1 && len > 0
    ensures OffsetPtr(b, offset, len) <==> offset >= 0 && offset + len <= |StructOf(b)|
  {
    hide U32;
    if offset >= 0 {
      var a := offset + OffStruct(b);
      if a >= TWO32 {
        assert a % TWO32 == a - TWO32 < offset;
      } else {
        assert a % TWO32 == a;
        if a + len >= TWO32 {
          assert (a + len) % TWO32 == a + len - TWO32 < a;
        }
        if offset + len >= TWO32 {
          assert (offset + len) % TWO32 == offset + len - TWO32 < offset;
        }
      }
    }
  }

  // ----- fdt_next_tag

  datatype Step = Step(tag: u32, next: int)

  /** The index of the first NUL at or after `o`; `|s|` when there is none. */
  function NameEnd(s: bytes, o: nat): (e: nat)
    requires o <= |s|
    ensures o <= e <= |s| && (e < |s| ==> s[e] == 0)
    ensures forall i :: o <= i < e ==> s[i] != 0
    decreases |s| - o
  {
    if o == |s| || s[o] == 0 then o else NameEnd(s, o + 1)
  }

  lemma NameEndExtends(s: bytes, u: bytes, o: nat)
    requires u <= s && o <= |u| && NameEnd(u, o) < |u|
    ensures NameEnd(s, o) == NameEnd(u, o)
    decreases |u| - o
  {
    if u[o] != 0 { NameEndExtends(s, u, o + 1); }
  }

  function NextTag(s: bytes, o: int): (r: Step)
    ensures r.next >= 0 ==> o >= 0 && o + 4 <= |s| && r.next >= o + 4 && Aligned(r.next)
    ensures r.next < 0 ==> r.tag == END
    ensures r.next <= |s| + 3
    ensures r.tag == BEGIN_NODE ==> r.next >= o + 5
    ensures r.tag != END ==> r.next >= 0
    ensures r.tag in {BEGIN_NODE, END_NODE, PROP, NOP, END}
  {
    if o < 0 || o + 4 > |s| then Step(END, ERR_TRUNCATED)
    else
      var tag := U32(s, o);
      if tag == BEGIN_NODE then
        var e := NameEnd(s, o + 4);
        if e == |s| then Step(END, ERR_BADSTRUCTURE) else Step(tag, Align4(e + 1))
      else if tag == PROP then
        if o + 8 > |s| || o + 12 + U32(s, o + 4) > |s| then Step(END, ERR_BADSTRUCTURE)
        else Step(tag, Align4(o + 12 + U32(s, o + 4)))
      else if tag == END || tag == END_NODE || tag == NOP then Step(tag, Align4(o + 4))
      else Step(END, ERR_BADSTRUCTURE)
  }

  lemma StructByte(b: bytes, o: nat)
    requires InMemory(b) && o < |StructOf(b)|
    ensures OffStruct(b) + o < |b| && b[OffStruct(b) + o] == StructOf(b)[o]
  {
    hide U32;
  }

  lemma StructWord(b: bytes, o: nat)
    requires InMemory(b) && o + 4 <= |StructOf(b)|
    ensures OffStruct(b) + o + 4 <= |b| && U32(b, OffStruct(b) + o) == U32(StructOf(b), o)
  {
    hide InMemory, StructOf, OffStruct;
    StructByte(b, o);
    StructByte(b, o + 1);
    StructByte(b, o + 2);
    StructByte(b, o + 3);
  }

  /** fdt_next_tag, with its loop over the name and its unsigned sums. */
  method ReadTag(b: bytes, startoffset: int) returns (tag: u32, nextoffset: int)
    requires InMemory(b) && startoffset <= INT_MAX
    ensures Step(tag, nextoffset) == NextTag(StructOf(b), startoffset)
  {
    hide U32, OffsetPtr, StructOf, Align4, Aligned;
    ghost var s := StructOf(b);
    OffsetPtrIs(b, startoffset, 4);
    if !OffsetPtr(b, startoffset, 4) {
      return END, ERR_TRUNCATED;
    }
    StructWord(b, startoffset);
    tag := U32(b, OffStruct(b) + startoffset);
    var offset := startoffset + 4;
    if tag == BEGIN_NODE {
      OffsetPtrIs(b, offset, 1);
      while OffsetPtr(b, offset, 1) && (StructByte(b, offset); b[OffStruct(b) + offset] != 0)
        invariant startoffset + 4 <= offset <= |s|
        invariant NameEnd(s, startoffset + 4) == NameEnd(s, offset)
        invariant OffsetPtr(b, offset, 1) <==> offset < |s|
        decreases |s| - offset
      {
        StructByte(b, offset);
        offset := offset + 1;
        OffsetPtrIs(b, offset, 1);
      }
      if !OffsetPtr(b, offset, 1) {
        return END, ERR_BADSTRUCTURE;
      }
      offset := offset + 1;
    } else if tag == PROP {
      OffsetPtrIs(b, offset, 4);
      if !OffsetPtr(b, offset, 4) {
        return END, ERR_BADSTRUCTURE;
      }
      StructWord(b, offset);
      var len := U32(b, OffStruct(b) + offset);
      var sum := (len + offset) % TWO32;
      SumIs(len, offset);
      if INT_MAX <= sum || sum < offset {
        return END, ERR_BADSTRUCTURE;
      }
      offset := offset + 8 + len;
    } else if tag != END && tag != END_NODE && tag != NOP {
      return END, ERR_BADSTRUCTURE;
    }
    OffsetPtrIs(b, startoffset, offset - startoffset);
    if !OffsetPtr(b, startoffset, offset - startoffset) {
      return END, ERR_BADSTRUCTURE;
    }
    nextoffset := Align4(offset);
  }

  lemma SumIs(len: u32, offset: nat)
    requires offset <= INT_MAX
    ensures INT_MAX <= (len + offset) % TWO32 || (len + offset) % TWO32 < offset <==>
              INT_MAX <= len + offset
  {
    if len + offset >= TWO32 {
      assert (len + offset) % TWO32 == len + offset - TWO32;
    } else {
      assert (len + offset) % TWO32 == len + offset;
    }
  }
}
