/** The device tree that a structure block and a strings block denote together:
    no padding, no NOP tags, property names resolved. */
module FdtMeaning {
  import opened Bytes
  import opened FdtFormat
  import opened FdtWalk
  import opened FdtRead
  import opened FdtUpdate

  datatype Tree =
    | TNil
    | TProp(name: bytes, value: bytes, rest: Tree)
    | TNode(name: bytes, kids: Tree, rest: Tree)

  function Meaning(t: bytes, f: Forest): Tree
    requires Resolved(t, f)
  {
    match f
    case Nil => TNil
    case Nop(r) => Meaning(t, r)
    case Prop(o, v, _, r) => TProp(CString(t, ToInt(o)).text, v, Meaning(t, r))
    case Node(n, _, k, r) => TNode(n, Meaning(t, k), Meaning(t, r))
  }

  function Followed(a: Tree, b: Tree): Tree {
    match a
    case TNil => b
    case TProp(n, v, r) => TProp(n, v, Followed(r, b))
    case TNode(n, k, r) => TNode(n, k, Followed(r, b))
  }

  /** The tree with `x` standing at `c`. */
  function Graft(t: bytes, c: Ctx, x: Tree): Tree
    requires ResolvedAround(t, c)
  {
    match c
    case Top(b) => Followed(Meaning(t, b), x)
    case In(u, n, _, b, a) => Graft(t, u, TNode(n, Followed(Meaning(t, b), x), Meaning(t, a)))
  }

  predicate ResolvedAround(t: bytes, c: Ctx) {
    match c
    case Top(b) => Resolved(t, b)
    case In(u, _, _, b, a) => ResolvedAround(t, u) && Resolved(t, b) && Resolved(t, a)
  }

  lemma {:induction false} ResolvedAppend(t: bytes, a: Forest, b: Forest)
    ensures Resolved(t, Append(a, b)) <==> Resolved(t, a) && Resolved(t, b)
    ensures Resolved(t, Append(a, b)) ==> Meaning(t, Append(a, b)) == Followed(Meaning(t, a), Meaning(t, b))
  {
    hide CString;
    if !a.Nil? { ResolvedAppend(t, a.rest, b); }
  }

  lemma {:induction false} ResolvedPlug(t: bytes, c: Ctx, f: Forest)
    ensures Resolved(t, Plug(c, f)) <==> ResolvedAround(t, c) && Resolved(t, f)
    ensures Resolved(t, Plug(c, f)) ==> Meaning(t, Plug(c, f)) == Graft(t, c, Meaning(t, f))
    decreases c
  {
    hide CString;
    match c
    case Top(b) => ResolvedAppend(t, b, f);
    case In(u, n, p, b, a) =>
      ResolvedAppend(t, b, f);
      ResolvedPlug(t, u, Node(n, p, Append(b, f), a));
  }

  // ----- a strings block that grows at its end

  lemma CStringExtends(t: bytes, u: bytes, o: int)
    requires t <= u && CString(t, o).Found?
    ensures CString(u, o) == CString(t, o)
  {
    var e := NameEnd(t, o);
    assert forall i :: 0 <= i < |t| ==> t[i] == u[i];
    NameEndExtends(u, t, o);
    assert t[o..e] == u[o..e];
  }

  lemma {:induction false} MeaningExtends(t: bytes, u: bytes, f: Forest)
    requires t <= u && Resolved(t, f)
    ensures Resolved(u, f) && Meaning(u, f) == Meaning(t, f)
    decreases f
  {
    hide CString;
    match f
    case Nil =>
    case Nop(r) => MeaningExtends(t, u, r);
    case Prop(o, v, p, r) =>
      CStringExtends(t, u, ToInt(o));
      MeaningExtends(t, u, r);
    case Node(n, p, k, r) =>
      MeaningExtends(t, u, k);
      MeaningExtends(t, u, r);
  }

  lemma {:induction false} GraftExtends(t: bytes, u: bytes, c: Ctx, x: Tree)
    requires t <= u && ResolvedAround(t, c)
    ensures ResolvedAround(u, c) && Graft(u, c, x) == Graft(t, c, x)
    decreases c
  {
    hide CString;
    MeaningExtends(t, u, c.before);
    match c
    case Top(b) =>
    case In(o, n, p, b, a) =>
      MeaningExtends(t, u, a);
      GraftExtends(t, u, o, TNode(n, Followed(Meaning(t, b), x), Meaning(t, a)));
  }

  // ----- setting and deleting a property of a list of items

  /** Whether a property of that name stands before the first node. */
  predicate HasProp(x: Tree, name: bytes) {
    match x
    case TProp(n, _, r) => n == name || HasProp(r, name)
    case _ => false
  }

  /** The first property of that name gets the value; if there is none, the
      property is put first. */
  function WithProp(x: Tree, name: bytes, val: bytes): Tree {
    if HasProp(x, name) then Assigned(x, name, val) else TProp(name, val, x)
  }

  function Assigned(x: Tree, name: bytes, val: bytes): Tree {
    match x
    case TProp(n, v, r) => if n == name then TProp(n, val, r) else TProp(n, v, Assigned(r, name, val))
    case _ => x
  }

  function WithoutProp(x: Tree, name: bytes): Tree {
    match x
    case TProp(n, v, r) => if n == name then r else TProp(n, v, WithoutProp(r, name))
    case _ => x
  }

  /** What a reader of the node gets for the name. */
  function Lookup(x: Tree, name: bytes): Tree {
    match x
    case TProp(n, v, r) => if n == name then TProp(n, v, TNil) else Lookup(r, name)
    case _ => TNil
  }

  /** Reading back what was set, and everything else unchanged. */
  lemma {:induction false} WithPropLookup(x: Tree, name: bytes, val: bytes, other: bytes)
    ensures Lookup(WithProp(x, name, val), name) == TProp(name, val, TNil)
    ensures other != name ==> Lookup(WithProp(x, name, val), other) == Lookup(x, other)
  {
    if HasProp(x, name) { AssignedLookup(x, name, val, other); }
  }

  lemma {:induction false} AssignedLookup(x: Tree, name: bytes, val: bytes, other: bytes)
    requires HasProp(x, name)
    ensures Lookup(Assigned(x, name, val), name) == TProp(name, val, TNil)
    ensures other != name ==> Lookup(Assigned(x, name, val), other) == Lookup(x, other)
  {
    if x.name != name { AssignedLookup(x.rest, name, val, other); }
  }
}
