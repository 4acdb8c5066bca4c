/** src/chainload/fit.c: reading the properties of a FIT and checking the hash of
    an image. The FIT is the blob `b` at address `at`. */
module FitImage {
  import opened Bytes
  import opened FdtWalk
  import opened FdtNodes
  import opened FdtRead
  import opened FdtProps
  import Sha256

  function Ascii(s: string): (t: bytes)
    ensures |t| == |s|
  {
    seq(|s|, i requires 0 <= i < |s| => s[i] as int % 0x100)
  }

  /** fdt_getprop: the data of a property and where in the blob they are. */
  datatype Field = NoField | Field(off: nat, data: bytes)

  function FieldOf(b: bytes, at: nat, node: int, name: string): Field
    requires InMemory(b)
  {
    hide *;
    FieldInside(b, at, node, Ascii(name));
    var o := PropOffset(b, at, node, Ascii(name));
    if o < 0 then NoField else Field(OffStruct(b) + o + 12, PropValue(StructOf(b), o))
  }

  lemma FieldIs(b: bytes, at: nat, node: int, name: string)
    requires InMemory(b)
    ensures var f := FieldOf(b, at, node, name);
            f.Field? ==> f.off + |f.data| <= |b| && b[f.off..f.off + |f.data|] == f.data
  {
    hide U32, PropOffset, NextTag, StructOf, PropValue;
    FieldInside(b, at, node, Ascii(name));
  }

  lemma FieldInside(b: bytes, at: nat, node: int, name: bytes)
    requires InMemory(b)
    ensures |b| >= HEADER_SIZE
    ensures var o := PropOffset(b, at, node, name);
            o >= 0 ==>
              && o + 12 <= |StructOf(b)| && o + 12 + U32(StructOf(b), o + 4) <= |StructOf(b)|
              && var v := PropValue(StructOf(b), o);
              && OffStruct(b) + o + 12 + |v| <= |b|
              && b[OffStruct(b) + o + 12..OffStruct(b) + o + 12 + |v|] == v
  {
    hide U32, PropOffset, NextTag, StructOf;
    var o := PropOffset(b, at, node, name);
    if o >= 0 { ValueInside(b, o, U32(StructOf(b), o + 4)); }
  }

  lemma ValueInside(b: bytes, o: nat, n: nat)
    requires InMemory(b) && o + 12 + n <= |StructOf(b)|
    ensures OffStruct(b) + o + 12 + n <= |b|
    ensures b[OffStruct(b) + o + 12..OffStruct(b) + o + 12 + n] == StructOf(b)[o + 12..o + 12 + n]
  {
    hide U32;
    SliceSlice(b, OffStruct(b), OffStruct(b) + |StructOf(b)|, o + 12, o + 12 + n);
  }

  /** string_prop: the first string of the property. */
  function StringProp(b: bytes, at: nat, node: int, name: string): Text
    requires InMemory(b)
  {
    var f := FieldOf(b, at, node, name);
    if f.NoField? then Missing(ERR_NOTFOUND) else CString(f.data, 0)
  }

  predicate Is(t: Text, s: string) {
    t == Found(Ascii(s))
  }

  /** address_prop: one or two cells. */
  datatype Address = Absent | Malformed | Address(value: u64)

  function AddressProp(b: bytes, at: nat, node: int, name: string): Address
    requires InMemory(b)
  {
    var f := FieldOf(b, at, node, name);
    if f.NoField? then Absent
    else if |f.data| == 4 then Address(U32(f.data, 0))
    else if |f.data| == 8 then Address(U32(f.data, 0) * TWO32 + U32(f.data, 4))
    else Malformed
  }

  // ----- validate_hash

  function NextSubnode(s: bytes, o: nat): int {
    ShallowVisit(Walk(s, o, 1))
  }

  lemma {:induction false} SubnodeLater(s: bytes, o: nat, d: nat)
    ensures ShallowVisit(Walk(s, o, d)) >= 0 ==> o < ShallowVisit(Walk(s, o, d)) <= |s|
    decreases |s| - o
  {
    hide NextTag, NextNode;
    TrailStep(s, o, d);
    var v := NextNode(s, o, d);
    if v.off >= 0 && v.depth >= 0 {
      assert Walk(s, o, d)[1..] == Walk(s, v.off, v.depth);
      SubnodeLater(s, v.off, v.depth);
    }
  }

  lemma FirstRange(s: bytes, o: int)
    ensures FirstSubnode(s, o) <= |s|
  {
    hide NextTag, Scan;
    if o >= 0 { TrailStep(s, o, 0); } else { StartRange(s); }
  }

  lemma StartRange(s: bytes)
    ensures Scan(s, 0, 0).off <= |s|
  {}

  /** The loop over the subnodes of an image from `hash` on, with the number of
      valid hashes so far: every sha256 node must carry the digest of the data. */
  predicate HashesFrom(b: bytes, at: nat, hash: int, data: bytes, count: nat)
    requires InMemory(b) && |data| < 0x2000_0000_0000_0000
    decreases if hash < 0 then 0 else 1, |StructOf(b)| - hash
  {
    if hash < 0 then count == 1
    else
      SubnodeLater(StructOf(b), hash, 1);
      var next := NextSubnode(StructOf(b), hash);
      if !Is(StringProp(b, at, hash, "algo"), "sha256") then HashesFrom(b, at, next, data, count)
      else
        var expected := FieldOf(b, at, hash, "value");
        && expected.Field? && |expected.data| == 32
        && expected.data == Sha256.Digest(data)
        && HashesFrom(b, at, next, data, count + 1)
  }

  predicate HashesMatch(b: bytes, at: nat, image: int, data: bytes)
    requires InMemory(b) && |data| < 0x2000_0000_0000_0000
  {
    HashesFrom(b, at, FirstSubnode(StructOf(b), image), data, 0)
  }

  /** The subnodes that the loop visits. */
  function Subnodes(s: bytes, o: int): (r: seq<int>)
    decreases if o < 0 then 0 else 1, |s| - o
  {
    if o < 0 then [] else SubnodeLater(s, o, 1); [o] + Subnodes(s, NextSubnode(s, o))
  }

  predicate IsHash(b: bytes, at: nat, node: int)
    requires InMemory(b)
  {
    Is(StringProp(b, at, node, "algo"), "sha256")
  }

  predicate Verifies(b: bytes, at: nat, node: int, data: bytes)
    requires InMemory(b) && |data| < 0x2000_0000_0000_0000
  {
    FieldOf(b, at, node, "value").Field? && FieldOf(b, at, node, "value").data == Sha256.Digest(data)
  }

  function Hashes(b: bytes, at: nat, nodes: seq<int>): nat
    requires InMemory(b)
  {
    if nodes == [] then 0 else (if IsHash(b, at, nodes[0]) then 1 else 0) + Hashes(b, at, nodes[1..])
  }

  /** An image passes exactly when it has one sha256 node and that node holds
      the digest of the data. */
  lemma {:induction false} HashesMatchIs(b: bytes, at: nat, image: int, data: bytes)
    requires InMemory(b) && |data| < 0x2000_0000_0000_0000
    ensures var nodes := Subnodes(StructOf(b), FirstSubnode(StructOf(b), image));
            HashesMatch(b, at, image, data) <==>
              && Hashes(b, at, nodes) == 1
              && forall n :: n in nodes && IsHash(b, at, n) ==> Verifies(b, at, n, data)
  {
    hide StructOf, InMemory, IsHash, Verifies, FirstSubnode, HashesFrom, Hashes, Subnodes;
    HashesFromIs(b, at, FirstSubnode(StructOf(b), image), data, 0);
  }

  lemma {:induction false} HashesFromIs(b: bytes, at: nat, hash: int, data: bytes, count: nat)
    requires InMemory(b) && |data| < 0x2000_0000_0000_0000
    ensures var nodes := Subnodes(StructOf(b), hash);
            HashesFrom(b, at, hash, data, count) <==>
              && count + Hashes(b, at, nodes) == 1
              && forall n :: n in nodes && IsHash(b, at, n) ==> Verifies(b, at, n, data)
    decreases if hash < 0 then 0 else 1, |StructOf(b)| - hash
  {
    hide StructOf, InMemory, FieldOf, StringProp, Is, Sha256.Digest, Walk, ShallowVisit;
    if hash >= 0 {
      SubnodeLater(StructOf(b), hash, 1);
      var next := NextSubnode(StructOf(b), hash);
      var rest := Subnodes(StructOf(b), next);
      assert Subnodes(StructOf(b), hash) == [hash] + rest;
      assert ([hash] + rest)[1..] == rest;
      HashesFromIs(b, at, next, data, count);
      HashesFromIs(b, at, next, data, count + 1);
    }
  }

  // ----- the C routines

  method GetProp(b: bytes, at: nat, node: int, name: string) returns (r: Field)
    requires InMemory(b) && node <= INT_MAX
    ensures r == FieldOf(b, at, node, name)
  {
    hide U32, PropOffset, NextTag, StructOf, Ascii;
    var o := FindProp(b, at, node, Ascii(name));
    if o < 0 {
      return NoField;
    }
    StructWord(b, o + 4);
    var len := U32(b, OffStruct(b) + o + 4);
    ValueInside(b, o, len);
    r := Field(OffStruct(b) + o + 12, b[OffStruct(b) + o + 12..OffStruct(b) + o + 12 + len]);
  }

  method GetText(b: bytes, at: nat, node: int, name: string) returns (r: Text)
    requires InMemory(b) && node <= INT_MAX
    ensures r == StringProp(b, at, node, name)
  {
    hide CString;
    var f := GetProp(b, at, node, name);
    r := if f.NoField? then Missing(ERR_NOTFOUND) else CString(f.data, 0);
  }

  method ValidateHash(b: bytes, at: nat, image: int, data: bytes) returns (ok: bool)
    requires InMemory(b) && image <= INT_MAX && |data| < 0x2000_0000_0000_0000
    ensures ok == HashesMatch(b, at, image, data)
  {
    hide StructOf, InMemory, FieldOf, StringProp, Sha256.Digest, FirstSubnode, Is, Walk, ShallowVisit, CString, U32;
    var count := 0;
    var hash := FindFirstSubnode(b, image);
    FirstRange(StructOf(b), image);
    StructShort(b);
    while hash >= 0
      invariant hash <= INT_MAX && count >= 0
      invariant HashesMatch(b, at, image, data) == HashesFrom(b, at, hash, data, count)
      decreases if hash < 0 then 0 else 1, |StructOf(b)| - hash
    {
      SubnodeLater(StructOf(b), hash, 1);
      var algo := GetText(b, at, hash, "algo");
      var next := FindNextSubnode(b, hash);
      if Is(algo, "sha256") {
        var expected := GetProp(b, at, hash, "value");
        if expected.NoField? || |expected.data| != 32 {
          return false;
        }
        var digest := Sha256.OneShot(data);
        if expected.data != digest {
          return false;
        }
        count := count + 1;
      }
      hash := next;
    }
    ok := count == 1;
  }

  lemma StructShort(b: bytes)
    requires InMemory(b)
    ensures |StructOf(b)| <= INT_MAX
  {}
}
