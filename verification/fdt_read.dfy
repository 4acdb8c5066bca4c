/** external/libfdt/fdt_ro.c: names, children, parents and properties. */
module FdtRead {
  import opened Bytes
  import opened FdtFormat
  import opened FdtWalk
  import opened FdtNodes

  /** fdt_ro_probe_ for the blob `b` at address `at`. */
  function Probe(b: bytes, at: nat): (r: int)
    requires |b| >= HEADER_SIZE
    ensures r < INT_MAX
  {
    if at % 8 != 0 then ERR_ALIGNMENT
    else if Magic(b) == MAGIC && (Version(b) < 2 || LastComp(b) > 17) then ERR_BADVERSION
    else if Magic(b) == SW_MAGIC && SizeStruct(b) == 0 then ERR_BADSTATE
    else if Magic(b) != MAGIC && Magic(b) != SW_MAGIC then ERR_BADMAGIC
    else if TotalSize(b) < INT_MAX then TotalSize(b)
    else ERR_TRUNCATED
  }

  // ----- strings

  /** A C string, or the error that stands for it. */
  datatype Text = Found(text: bytes) | Missing(error: int)

  /** The NUL-terminated string of `t` at `o`. */
  function CString(t: bytes, o: int): (r: Text)
    ensures r.Found? ==> 0 <= o && o + |r.text| < |t| && t[o..o + |r.text|] == r.text && 0 !in r.text
    ensures r.Found? ==> t[o + |r.text|] == 0
    ensures r.Missing? ==> r.error < 0
  {
    if o < 0 || o >= |t| then Missing(ERR_BADOFFSET)
    else if NameEnd(t, o) == |t| then Missing(ERR_TRUNCATED)
    else Found(t[o..NameEnd(t, o)])
  }

  /** A 32-bit word as the C code converts it to int. */
  function ToInt(v: u32): int {
    if v <= INT_MAX then v else v - TWO32
  }

  /** fdt_get_string, with its unsigned sum. */
  function GetString(b: bytes, at: nat, stroffset: int): (r: Text)
    requires InMemory(b)
    ensures r.Missing? ==> r.error < 0
    ensures r.Found? ==> 0 !in r.text
  {
    var total := Probe(b, at);
    if total < 0 then Missing(total) else
    var absoffset := (stroffset + OffStrings(b)) % TWO32;
    if absoffset >= total then Missing(ERR_BADOFFSET) else
    var room := total - absoffset;
    if Magic(b) == MAGIC then
      if stroffset < 0 || stroffset >= SizeStrings(b) then Missing(ERR_BADOFFSET) else
      var len := if SizeStrings(b) - stroffset < room then SizeStrings(b) - stroffset else room;
      CString(b[absoffset..absoffset + len], 0)
    else
      if stroffset >= 0 || -stroffset > SizeStrings(b) then Missing(ERR_BADOFFSET) else
      var len := if -stroffset < room then -stroffset else room;
      CString(b[absoffset..absoffset + len], 0)
  }

  /** The blocks lie inside the blob, as fdt_check_header demands. */
  predicate BlocksInside(b: bytes) {
    && InMemory(b)
    && OffStruct(b) + SizeStruct(b) <= TotalSize(b)
    && HEADER_SIZE <= OffStrings(b) && OffStrings(b) + SizeStrings(b) <= TotalSize(b)
    && HEADER_SIZE <= OffRsv(b) <= TotalSize(b)
  }

  function StringsOf(b: bytes): bytes
    requires BlocksInside(b)
  {
    b[OffStrings(b)..OffStrings(b) + SizeStrings(b)]
  }

  lemma NameEndSlice(t: bytes, o: nat, hi: nat)
    requires o <= hi <= |t|
    ensures NameEnd(t[o..hi], 0) + o == if NameEnd(t, o) < hi then NameEnd(t, o) else hi
  {
    var u := t[o..hi];
    var e, e' := NameEnd(u, 0), NameEnd(t, o);
    assert forall i :: 0 <= i < |u| ==> u[i] == t[o + i];
  }

  /** In a finished blob the string is the one the strings block holds. */
  lemma GetStringIs(b: bytes, at: nat, stroffset: int)
    requires BlocksInside(b) && Probe(b, at) >= 0 && Magic(b) == MAGIC && stroffset <= INT_MAX
    ensures GetString(b, at, stroffset) == CString(StringsOf(b), stroffset)
  {
    hide U32, NameEnd, Probe;
    var t, lo := StringsOf(b), OffStrings(b);
    if 0 <= stroffset < |t| {
      hide CString;
      ProbeIs(b, at);
      assert (stroffset + lo) % TWO32 == stroffset + lo;
      SliceSlice(b, lo, lo + |t|, stroffset, |t|);
      CStringTail(t, stroffset);
    }
  }

  lemma ProbeIs(b: bytes, at: nat)
    requires |b| >= HEADER_SIZE && Probe(b, at) >= 0
    ensures Probe(b, at) == TotalSize(b)
  {
    hide U32;
  }

  /** A string read at an offset is the string at the start of what follows. */
  lemma CStringTail(t: bytes, k: nat)
    requires k <= |t|
    ensures CString(t, k) == CString(t[k..], 0)
  {
    hide NameEnd;
    NameEndSlice(t, k, |t|);
    var u := t[k..|t|];
    assert u == t[k..];
    assert u[0..NameEnd(u, 0)] == t[k..k + NameEnd(u, 0)];
  }

  // ----- names

  /** The name of the node at `o`. */
  function NameAt(s: bytes, o: nat): (n: bytes)
    requires o + 4 <= |s|
    ensures 0 !in n
  {
    s[o + 4..NameEnd(s, o + 4)]
  }

  /** fdt_nodename_eq_ on the two names: equal, or equal up to an unit address
      that the wanted name does not mention. */
  predicate NameMatch(have: bytes, want: bytes) {
    && |have| >= |want| && have[..|want|] == want
    && (|have| == |want| || (have[|want|] == '@' as int && '@' as int !in want))
  }

  // ----- children

  /** The loop of fdt_subnode_offset_namelen over its visits. */
  function FirstMatch(s: bytes, w: seq<Visit>, name: bytes): int
    requires |w| > 0
  {
    var Visit(o, d) := w[0];
    if d < 0 then ERR_NOTFOUND
    else if o < 0 then o
    else if d == 1 && o + 4 <= |s| && NameMatch(NameAt(s, o), name) then o
    else if |w| == 1 then ERR_NOTFOUND
    else FirstMatch(s, w[1..], name)
  }

  function SubnodeOffset(b: bytes, at: nat, o: int, name: bytes): int
    requires InMemory(b)
  {
    if Probe(b, at) < 0 then Probe(b, at) else FirstMatch(StructOf(b), Trail(StructOf(b), o, 0), name)
  }

  method FindSubnode(b: bytes, at: nat, start: int, name: bytes) returns (offset: int)
    requires InMemory(b) && start <= INT_MAX
    ensures offset == SubnodeOffset(b, at, start, name)
  {
    hide NextTag, Probe, Aligned, NextNode, StructOf, Trail, NameMatch;
    var probe := Probe(b, at);
    if probe < 0 {
      return probe;
    }
    ghost var s := StructOf(b);
    var depth := 0;
    offset := start;
    while offset >= 0 && depth >= 0
      invariant offset <= INT_MAX
      invariant FirstMatch(s, Trail(s, start, 0), name) == FirstMatch(s, Trail(s, offset, depth), name)
      invariant offset >= 0 && depth > 0 ==> NextTag(s, offset).tag == BEGIN_NODE
      decreases TrailMeasure(s, offset, depth)
    {
      if depth == 1 {
        var have := NodeName(b, offset);
        if NameMatch(have, name) {
          return;
        }
      }
      TrailStep(s, offset, depth);
      offset, depth := FindNextNode(b, offset, depth);
    }
    if depth < 0 {
      return ERR_NOTFOUND;
    }
  }

  /** The name of a node that is known to begin at `offset`: strlen on it. */
  method NodeName(b: bytes, offset: nat) returns (name: bytes)
    requires InMemory(b) && NextTag(StructOf(b), offset).tag == BEGIN_NODE
    ensures offset + 4 <= |StructOf(b)| && name == NameAt(StructOf(b), offset)
  {
    hide U32;
    var s := StructOf(b);
    var e := offset + 4;
    while s[e] != 0
      invariant offset + 4 <= e < |s|
      invariant NameEnd(s, offset + 4) == NameEnd(s, e) < |s|
      decreases |s| - e
    {
      e := e + 1;
    }
    name := s[offset + 4..e];
  }
}
