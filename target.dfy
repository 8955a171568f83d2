/** The target document with reference semantics. The loaded document is an arena of nodes
    named by handles; a mapping or sequence entry holds either a handle or an inline value.
    An alias is the very handle of its anchor, so a write through either is seen at both.
    Handles are numbered children first, so every handle a node refers to is smaller than
    its own: the document has no cycles. */
module Target {
  import opened Base
  import opened Yaml
  import opened Dicts

  /** What a mapping value or sequence item holds: a shared node, or a plain object. Loading
      makes every mapping, sequence, anchored object and object with a `value` attribute a
      node, so in a loaded document a plain object is an unanchored scalar; other plain
      objects are values the merge wrote there. */
  datatype Slot = Ref(h: nat) | Val(y: YValue)

  datatype Body =
    | TMap(entries: seq<(string, Slot)>)
    | TSeq(items: seq<Slot>)
    | TAtom(content: Plain)

  /** A node: its body, its anchor name (`anchor.value`) and, for an object that has a
      `value` attribute, what that attribute holds. */
  datatype TNode = TNode(body: Body, anchor: Option<string>, valueSlot: Option<YValue>)

  type Arena = seq<TNode>

  /** A loaded document: its nodes and its root. */
  datatype Document = Document(nodes: Arena, root: Slot)

  predicate Below(s: Slot, bound: nat)
  {
    s.Ref? ==> s.h < bound
  }

  function Children(b: Body): seq<Slot>
  {
    match b
    case TMap(es) => seq(|es|, i requires 0 <= i < |es| => es[i].1)
    case TSeq(items) => items
    case TAtom(_) => []
  }

  predicate ChildrenBelow(b: Body, bound: nat)
  {
    forall i :: 0 <= i < |Children(b)| ==> Below(Children(b)[i], bound)
  }

  predicate Acyclic(a: Arena)
  {
    forall h :: 0 <= h < |a| ==> ChildrenBelow(a[h].body, h)
  }

  predicate InRange(a: Arena, s: Slot)
  {
    Below(s, |a|)
  }

  predicate ValidDocument(doc: Document)
  {
    Acyclic(doc.nodes) && InRange(doc.nodes, doc.root)
  }

  function Rank(s: Slot): nat
  {
    if s.Ref? then s.h + 1 else 0
  }

  lemma ChildRank(a: Arena, h: nat, i: nat)
    requires Acyclic(a) && h < |a| && i < |Children(a[h].body)|
    ensures InRange(a, Children(a[h].body)[i]) && Rank(Children(a[h].body)[i]) <= h
  {
  }

  /** `_get_anchor_name` of the object in a slot. */
  function AnchorName(a: Arena, s: Slot): Option<string>
    requires InRange(a, s)
  {
    match s
    case Ref(h) => a[h].anchor
    case Val(y) => AnchorNameOf(y)
  }

  /** `hasattr(x, "value")` of the object in a slot. */
  predicate HasValueSlot(a: Arena, s: Slot)
    requires InRange(a, s)
  {
    s.Ref? && a[s.h].valueSlot.Some?
  }

  /** What `==` compares of the object in a slot, after `_unwrap_value`: the `value`
      attribute when there is one, otherwise the object itself. */
  function SlotContent(a: Arena, s: Slot): Plain
    requires Acyclic(a) && InRange(a, s)
    decreases Rank(s), 1
  {
    match s
    case Val(y) => Content(y)
    case Ref(h) =>
      if a[h].valueSlot.Some? then Content(a[h].valueSlot.value) else BodyContent(a, h)
  }

  function BodyContent(a: Arena, h: nat): Plain
    requires Acyclic(a) && h < |a|
    decreases h + 1, 0
  {
    match a[h].body
    case TMap(es) =>
      assert forall i :: 0 <= i < |es| ==> Children(a[h].body)[i] == es[i].1 && Below(es[i].1, h);
      PMap(seq(|es|, i requires 0 <= i < |es| => (es[i].0, SlotContent(a, es[i].1))))
    case TSeq(items) =>
      assert forall i :: 0 <= i < |items| ==> Children(a[h].body)[i] == items[i] && Below(items[i], h);
      PSeq(seq(|items|, i requires 0 <= i < |items| => SlotContent(a, items[i])))
    case TAtom(c) => c
  }
}
