/** The merge pass of `update_yaml_from_wrapped_data`: the annotated desired tree is walked in
    lock-step with a freshly loaded target document, and each differing leaf is written into
    the target by one of the three routes of the leaf rule. This module states the pass as
    functions over a state; `Updater` runs it imperatively and is proved equal to it. */
module Merge {
  import opened Base
  import opened Yaml
  import opened Dicts
  import opened Processor
  import opened Target
  import opened Anchors

  /** The mutable state of one pass: the target's nodes, `anchor_map` and `updates_made`. */
  datatype PassState = PassState(nodes: Arena, anchors: map<string, Slot>, updates: seq<string>)

  predicate ValidState(st: PassState)
  {
    Acyclic(st.nodes) && forall k :: k in st.anchors ==> InRange(st.nodes, st.anchors[k])
  }

  /** How a node may change during a pass: it keeps its kind, anchor and `value` attribute;
      a mapping keeps its keys in order; a sequence only grows; and every entry either keeps
      what it held or now holds a plain value. No edge to a node is ever added. */
  predicate BodyEvolves(x: Body, y: Body)
  {
    match x
    case TMap(es) =>
      y.TMap? && Keys(y.entries) == Keys(es) &&
      forall i :: 0 <= i < |es| ==> y.entries[i].1 == es[i].1 || y.entries[i].1.Val?
    case TSeq(items) =>
      y.TSeq? && |items| <= |y.items| &&
      forall i :: 0 <= i < |y.items| ==> (i < |items| && y.items[i] == items[i]) || y.items[i].Val?
    case TAtom(_) => y == x
  }

  predicate Evolves(a: Arena, b: Arena)
  {
    |b| == |a| &&
    forall h :: 0 <= h < |a| ==>
      BodyEvolves(a[h].body, b[h].body) && b[h].anchor == a[h].anchor &&
      (b[h].valueSlot.Some? <==> a[h].valueSlot.Some?)
  }

  lemma EvolvesRefl(a: Arena)
    ensures Evolves(a, a)
  {
    forall h | 0 <= h < |a| ensures BodyEvolves(a[h].body, a[h].body) {
    }
  }

  lemma EvolvesTrans(a: Arena, b: Arena, c: Arena)
    requires Evolves(a, b) && Evolves(b, c)
    ensures Evolves(a, c)
  {
    forall h | 0 <= h < |a| ensures BodyEvolves(a[h].body, c[h].body) {
      assert BodyEvolves(a[h].body, b[h].body) && BodyEvolves(b[h].body, c[h].body);
      if a[h].body.TMap? {
        assert |b[h].body.entries| == |Keys(b[h].body.entries)|;
      }
    }
  }

  /** A pass never creates a cycle: writes only ever store plain values. */
  lemma EvolvesAcyclic(a: Arena, b: Arena)
    requires Acyclic(a) && Evolves(a, b)
    ensures Acyclic(b)
  {
    forall h | 0 <= h < |b| ensures ChildrenBelow(b[h].body, h) {
      assert ChildrenBelow(a[h].body, h);
      match a[h].body {
        case TMap(es) =>
          forall i | 0 <= i < |Children(b[h].body)| ensures Below(Children(b[h].body)[i], h) {
            assert Children(b[h].body)[i] == b[h].body.entries[i].1;
            assert |Keys(b[h].body.entries)| == |es|;
            assert Children(a[h].body)[i] == es[i].1;
          }
        case TSeq(items) =>
          forall i | 0 <= i < |Children(b[h].body)| ensures Below(Children(b[h].body)[i], h) {
            if i < |items| {
              assert Children(a[h].body)[i] == items[i];
            }
          }
        case TAtom(_) =>
      }
    }
  }

  predicate IsPrefix(p: seq<string>, q: seq<string>)
  {
    |p| <= |q| && q[..|p|] == p
  }

  lemma PrefixTrans(p: seq<string>, q: seq<string>, r: seq<string>)
    requires IsPrefix(p, q) && IsPrefix(q, r)
    ensures IsPrefix(p, r)
    ensures r == p ==> q == p
  {
    assert r[..|p|] == r[..|q|][..|p|];
  }

  /** The slot `target[key]` of a mapping node: a child, so it lies below the node. */
  function Entry(a: Arena, h: nat, k: string): (s: Slot)
    requires Acyclic(a) && h < |a| && a[h].body.TMap? && k in Keys(a[h].body.entries)
    ensures Below(s, h) && InRange(a, s)
  {
    var es := a[h].body.entries;
    assert Children(a[h].body)[IndexOf(es, k)] == es[IndexOf(es, k)].1;
    Get(es, k)
  }

  /** The slot `target[idx]` of a sequence node. */
  function Item(a: Arena, h: nat, i: nat): (s: Slot)
    requires Acyclic(a) && h < |a| && a[h].body.TSeq? && i < |a[h].body.items|
    ensures Below(s, h) && InRange(a, s)
  {
    assert Children(a[h].body)[i] == a[h].body.items[i];
    a[h].body.items[i]
  }

  /** `node.value = y` on a node that has a `value` attribute. */
  function SetValue(a: Arena, n: nat, y: YValue): (b: Arena)
    requires n < |a| && a[n].valueSlot.Some?
    ensures Evolves(a, b) && ValueContent(b, n) == Content(y)
  {
    var b := a[n := a[n].(valueSlot := Some(y))];
    forall h | 0 <= h < |a| ensures BodyEvolves(a[h].body, b[h].body) {
      EvolvesRefl(a);
    }
    b
  }

  /** What `_unwrap_value` of node `n` compares, when the node has a `value` attribute. */
  function ValueContent(a: Arena, n: nat): Plain
    requires n < |a| && a[n].valueSlot.Some?
  {
    Content(a[n].valueSlot.value)
  }

  /** `target[key] = y` for a key the mapping already has: the key keeps its place. */
  function SetEntry(a: Arena, h: nat, k: string, y: YValue): (b: Arena)
    requires h < |a| && a[h].body.TMap? && k in Keys(a[h].body.entries)
    ensures Evolves(a, b)
    ensures b[h].body.TMap? && k in Keys(b[h].body.entries) && Get(b[h].body.entries, k) == Val(y)
  {
    var es := a[h].body.entries;
    var es' := Set(es, k, Val(y));
    var b := a[h := a[h].(body := TMap(es'))];
    assert es' == es[IndexOf(es, k) := (k, Val(y))];
    assert forall i :: 0 <= i < |es| ==> es'[i].1 == es[i].1 || es'[i].1.Val?;
    assert BodyEvolves(a[h].body, b[h].body);
    assert IndexOf(es', k) == IndexOf(es, k) by {
      assert forall j :: 0 <= j < |es| ==> es'[j].0 == es[j].0;
    }
    EvolvesRefl(a);
    b
  }

  /** `target[idx] = y` for an index below the sequence's length. */
  function SetItem(a: Arena, h: nat, i: nat, y: YValue): (b: Arena)
    requires h < |a| && a[h].body.TSeq? && i < |a[h].body.items|
    ensures Evolves(a, b)
    ensures b[h].body.TSeq? && |b[h].body.items| == |a[h].body.items| && b[h].body.items[i] == Val(y)
  {
    var b := a[h := a[h].(body := TSeq(a[h].body.items[i := Val(y)]))];
    EvolvesRefl(a);
    b
  }

  /** `target.append(y)`. */
  function AppendItem(a: Arena, h: nat, y: YValue): (b: Arena)
    requires h < |a| && a[h].body.TSeq?
    ensures Evolves(a, b)
    ensures b[h].body.TSeq? && b[h].body.items == a[h].body.items + [Val(y)]
  {
    var b := a[h := a[h].(body := TSeq(a[h].body.items + [Val(y)]))];
    EvolvesRefl(a);
    b
  }

  /** A state whose nodes evolved from a valid state's nodes is valid, with the same index. */
  lemma EvolvesValid(st: PassState, nodes: Arena)
    requires ValidState(st) && Evolves(st.nodes, nodes)
    ensures ValidState(st.(nodes := nodes))
  {
    EvolvesAcyclic(st.nodes, nodes);
  }

  /** The source leaf names an anchor that the target document also defines. */
  predicate SourceAnchored(st: PassState, w: WrappedNode)
  {
    Truthy(w.anchorName) && w.anchorName.value in st.anchors
  }

  /** The source-anchor route: write the new value into the anchor-map node through its
      `value` attribute, or, when it has none, rebind the name in the map; without a usable
      source anchor, fall back to the positional replacement `fallback`. */
  function SourceRoute(st: PassState, w: WrappedNode, fallback: Arena): (r: PassState)
    requires ValidState(st) && Evolves(st.nodes, fallback)
    ensures ValidState(r) && Evolves(st.nodes, r.nodes) && r.updates == st.updates
  {
    EvolvesValid(st, fallback);
    if SourceAnchored(st, w) then
      var name := w.anchorName.value;
      var an := st.anchors[name];
      if HasValueSlot(st.nodes, an) then
        var b := SetValue(st.nodes, an.h, NewScalar(w));
        EvolvesValid(st, b);
        st.(nodes := b)
      else
        EvolvesRefl(st.nodes);
        st.(anchors := st.anchors[name := Val(NewScalar(w))])
    else
      st.(nodes := fallback)
  }

  /** `new_scalar = _unwrap_value(wrapped.value)`: what the leaf rule compares and writes. */
  function NewScalar(w: WrappedNode): YValue
  {
    Unwrap(w.value)
  }

  /** Whether the leaf rule leaves the target as it is: `new_scalar == current_scalar`. */
  predicate Unchanged(a: Arena, cur: Slot, w: WrappedNode)
    requires Acyclic(a) && InRange(a, cur)
  {
    Content(NewScalar(w)) == SlotContent(a, cur)
  }

  /** The leaf rule at `target[key]` of mapping node `h`, recording `cp` on a change. */
  function MapLeaf(st: PassState, h: nat, k: string, w: WrappedNode, cp: string): (r: PassState)
    requires ValidState(st) && h < |st.nodes| && st.nodes[h].body.TMap? && k in Keys(st.nodes[h].body.entries)
    ensures ValidState(r) && Evolves(st.nodes, r.nodes)
    ensures r.updates == (if r == st then st.updates else st.updates + [cp])
  {
    var a := st.nodes;
    var cur := Entry(a, h, k);
    if Unchanged(a, cur, w) then
      EvolvesRefl(a);
      st
    else
      var st' :=
        if Truthy(AnchorName(a, cur)) then
          (if HasValueSlot(a, cur) then st.(nodes := SetValue(a, cur.h, NewScalar(w)))
           else st.(nodes := SetEntry(a, h, k, NewScalar(w))))
        else SourceRoute(st, w, SetEntry(a, h, k, NewScalar(w)));
      EvolvesValid(st, st'.nodes);
      st'.(updates := st.updates + [cp])
  }

  /** The leaf rule at `target[idx]` of sequence node `h`. */
  function SeqLeaf(st: PassState, h: nat, i: nat, w: WrappedNode, cp: string): (r: PassState)
    requires ValidState(st) && h < |st.nodes| && st.nodes[h].body.TSeq? && i < |st.nodes[h].body.items|
    ensures ValidState(r) && Evolves(st.nodes, r.nodes)
    ensures r.updates == (if r == st then st.updates else st.updates + [cp])
  {
    var a := st.nodes;
    var cur := Item(a, h, i);
    if Unchanged(a, cur, w) then
      EvolvesRefl(a);
      st
    else
      var st' :=
        if Truthy(AnchorName(a, cur)) && HasValueSlot(a, cur) then st.(nodes := SetValue(a, cur.h, NewScalar(w)))
        else SourceRoute(st, w, SetItem(a, h, i, NewScalar(w)));
      EvolvesValid(st, st'.nodes);
      st'.(updates := st.updates + [cp])
  }

  /** A tagged item is compared by its `value`: when the target item reads the same, the
      leaf rule leaves everything as it is. */
  lemma TaggedItemCompared(st: PassState, h: nat, i: nat, w: WrappedNode, cp: string)
    requires ValidState(st) && h < |st.nodes| && st.nodes[h].body.TSeq? && i < |st.nodes[h].body.items|
    requires w.value.YOther? && w.value.valueAttr.Some?
    requires SlotContent(st.nodes, Item(st.nodes, h, i)) == Content(w.value.valueAttr.value)
    ensures SeqLeaf(st, h, i, w, cp) == st
  {
  }

  /** Beyond the target's end, a tagged item is appended as its `value`, not as itself. */
  lemma TaggedItemAppended(st: PassState, h: nat, w: WrappedNode, cp: string)
    requires ValidState(st) && h < |st.nodes| && st.nodes[h].body.TSeq?
    requires w.value.YOther? && w.value.valueAttr.Some?
    ensures AppendLeaf(st, h, w, cp).nodes[h].body.items == st.nodes[h].body.items + [Val(w.value.valueAttr.value)]
  {
  }

  /** Appending the plain value of an item beyond the target sequence's end. */
  function AppendLeaf(st: PassState, h: nat, w: WrappedNode, cp: string): (r: PassState)
    requires ValidState(st) && h < |st.nodes| && st.nodes[h].body.TSeq?
    ensures ValidState(r) && Evolves(st.nodes, r.nodes) && r.updates == st.updates + [cp]
    ensures r.nodes[h].body.TSeq? && r.nodes[h].body.items == st.nodes[h].body.items + [Val(NewScalar(w))]
  {
    var b := AppendItem(st.nodes, h, NewScalar(w));
    EvolvesValid(st, b);
    st.(nodes := b, updates := st.updates + [cp])
  }

  /** The facts every step of the pass keeps: the state stays valid, nodes only evolve,
      `updates_made` only grows, and nothing changes without a path being recorded. */
  predicate Step(st: PassState, r: PassState)
  {
    ValidState(r) && Evolves(st.nodes, r.nodes) && IsPrefix(st.updates, r.updates) &&
    (r.updates == st.updates ==> r == st)
  }

  lemma StepTrans(s1: PassState, s2: PassState, s3: PassState)
    requires Step(s1, s2) && Step(s2, s3)
    ensures Step(s1, s3)
  {
    EvolvesTrans(s1.nodes, s2.nodes, s3.nodes);
    PrefixTrans(s1.updates, s2.updates, s3.updates);
  }

  lemma StepRefl(st: PassState)
    requires ValidState(st)
    ensures Step(st, st)
  {
    EvolvesRefl(st.nodes);
  }

  /** `recursive_update(wrapped, target, base_path)`: only a mapping against a mapping node
      or a sequence against a sequence node is walked; any other pairing leaves the state
      as it is. */
  function Update(st: PassState, d: Desired, t: Slot, path: string): (r: PassState)
    requires ValidState(st) && InRange(st.nodes, t)
    ensures Step(st, r)
    decreases d, 2, 0, 0
  {
    if d.DMap? && t.Ref? && st.nodes[t.h].body.TMap? then MapLoop(st, d, t.h, 0, path)
    else if d.DSeq? && t.Ref? && st.nodes[t.h].body.TSeq? then SeqLoop(st, d.items, t.h, 0, path)
    else if d.DRaw? then RawUpdate(st, d.y, t, path)
    else StepRefl(st); st
  }

  /** The mapping branch from the `i`-th desired entry on. */
  function MapLoop(st: PassState, d: Desired, h: nat, i: nat, path: string): (r: PassState)
    requires ValidState(st) && d.DMap? && i <= |d.entries|
    requires h < |st.nodes| && st.nodes[h].body.TMap?
    ensures Step(st, r)
    decreases d, 1, |d.entries| - i, 1
  {
    if i == |d.entries| then StepRefl(st); st
    else
      var st1 := MapItem(st, d, h, i, path);
      var r := MapLoop(st1, d, h, i + 1, path);
      StepTrans(st, st1, r);
      r
  }

  /** The `i`-th desired entry of the mapping branch: a key the target lacks is skipped, a
      leaf goes through the leaf rule, anything else is walked recursively. */
  function MapItem(st: PassState, d: Desired, h: nat, i: nat, path: string): (r: PassState)
    requires ValidState(st) && d.DMap? && i < |d.entries|
    requires h < |st.nodes| && st.nodes[h].body.TMap?
    ensures Step(st, r) && r.nodes[h].body.TMap?
    decreases d, 1, |d.entries| - i, 0
  {
    var k := d.entries[i].0;
    var r :=
      if k !in Keys(st.nodes[h].body.entries) then StepRefl(st); st
      else if d.entries[i].1.DLeaf? then MapLeaf(st, h, k, d.entries[i].1.w, ChildPath(path, k))
      else Update(st, d.entries[i].1, Entry(st.nodes, h, k), ChildPath(path, k));
    assert BodyEvolves(st.nodes[h].body, r.nodes[h].body);
    r
  }

  /** The sequence branch from the `i`-th desired item on. */
  function SeqLoop(st: PassState, ws: seq<WrappedNode>, h: nat, i: nat, path: string): (r: PassState)
    requires ValidState(st) && i <= |ws| && h < |st.nodes| && st.nodes[h].body.TSeq?
    ensures Step(st, r)
    decreases |ws| - i
  {
    if i == |ws| then StepRefl(st); st
    else
      var st1 := SeqItem(st, ws, h, i, path);
      var r := SeqLoop(st1, ws, h, i + 1, path);
      StepTrans(st, st1, r);
      r
  }

  /** The `i`-th desired item of the sequence branch: within the target's current length it
      goes through the leaf rule, beyond it it is appended. */
  function SeqItem(st: PassState, ws: seq<WrappedNode>, h: nat, i: nat, path: string): (r: PassState)
    requires ValidState(st) && i < |ws| && h < |st.nodes| && st.nodes[h].body.TSeq?
    ensures Step(st, r) && r.nodes[h].body.TSeq?
  {
    var r :=
      if i < |st.nodes[h].body.items| then SeqLeaf(st, h, i, ws[i], IndexPath(path, i))
      else AppendLeaf(st, h, ws[i], IndexPath(path, i));
    assert BodyEvolves(st.nodes[h].body, r.nodes[h].body);
    r
  }

  // ---------------------------------------------------------------------------------------
  // Objects the annotator left as loaded

  /** How a walk of loaded objects may change a state: the anchor map stays, and every node
      is as it was, except that a sequence may have had items appended. */
  predicate OnlyAppended(st: PassState, r: PassState)
  {
    r.anchors == st.anchors && |r.nodes| == |st.nodes| &&
    forall h :: 0 <= h < |st.nodes| ==>
      r.nodes[h] == st.nodes[h] ||
      (st.nodes[h].body.TSeq? && r.nodes[h].body.TSeq? && st.nodes[h].body.items <= r.nodes[h].body.items &&
       r.nodes[h].anchor == st.nodes[h].anchor && r.nodes[h].valueSlot == st.nodes[h].valueSlot)
  }

  lemma OnlyAppendedTrans(s1: PassState, s2: PassState, s3: PassState)
    requires OnlyAppended(s1, s2) && OnlyAppended(s2, s3)
    ensures OnlyAppended(s1, s3)
  {
    forall h | 0 <= h < |s1.nodes| && s3.nodes[h] != s1.nodes[h]
      ensures s1.nodes[h].body.TSeq? && s3.nodes[h].body.TSeq? && s1.nodes[h].body.items <= s3.nodes[h].body.items
    {
      var x, y, z := s1.nodes[h].body, s2.nodes[h].body, s3.nodes[h].body;
      if x.TSeq? && y.TSeq? && z.TSeq? {
        assert x.items == y.items[..|x.items|] && y.items == z.items[..|y.items|];
        assert x.items == z.items[..|x.items|];
      }
    }
  }

  /** `recursive_update(item, target, base_path)` for a loaded object that is no wrapper: a
      raw sequence, and whatever lies inside one. No leaf is ever met, so nothing in the
      target is overwritten; only items beyond a target sequence's end are appended. */
  function RawUpdate(st: PassState, y: YValue, t: Slot, path: string): (r: PassState)
    requires ValidState(st) && InRange(st.nodes, t)
    ensures Step(st, r) && OnlyAppended(st, r)
    decreases y, 2, 0, 0
  {
    if y.YMap? && t.Ref? && st.nodes[t.h].body.TMap? then RawMapLoop(st, y, t.h, 0, path)
    else if y.YSeq? && t.Ref? && st.nodes[t.h].body.TSeq? then RawSeqLoop(st, y, t.h, 0, path)
    else StepRefl(st); st
  }

  /** The mapping branch over a loaded mapping, from its `i`-th entry on. */
  function RawMapLoop(st: PassState, y: YValue, h: nat, i: nat, path: string): (r: PassState)
    requires ValidState(st) && y.YMap? && i <= |y.entries| && h < |st.nodes| && st.nodes[h].body.TMap?
    ensures Step(st, r) && OnlyAppended(st, r)
    decreases y, 1, |y.entries| - i, 1
  {
    if i == |y.entries| then StepRefl(st); st
    else
      var st1 := RawMapItem(st, y, h, i, path);
      var r := RawMapLoop(st1, y, h, i + 1, path);
      StepTrans(st, st1, r);
      OnlyAppendedTrans(st, st1, r);
      r
  }

  /** One entry of a loaded mapping: a key the target lacks is skipped, any other value is
      walked against `target[key]`, since it is no wrapper. */
  function RawMapItem(st: PassState, y: YValue, h: nat, i: nat, path: string): (r: PassState)
    requires ValidState(st) && y.YMap? && i < |y.entries| && h < |st.nodes| && st.nodes[h].body.TMap?
    ensures Step(st, r) && OnlyAppended(st, r) && r.nodes[h].body.TMap?
    decreases y, 1, |y.entries| - i, 0
  {
    var k := y.entries[i].0;
    if k !in Keys(st.nodes[h].body.entries) then StepRefl(st); st
    else RawUpdate(st, y.entries[i].1, Entry(st.nodes, h, k), ChildPath(path, k))
  }

  /** The sequence branch over a loaded sequence, from its `i`-th item on. */
  function RawSeqLoop(st: PassState, y: YValue, h: nat, i: nat, path: string): (r: PassState)
    requires ValidState(st) && y.YSeq? && i <= |y.items| && h < |st.nodes| && st.nodes[h].body.TSeq?
    ensures Step(st, r) && OnlyAppended(st, r)
    decreases y, 1, |y.items| - i, 1
  {
    if i == |y.items| then StepRefl(st); st
    else
      var st1 := RawSeqItem(st, y, h, i, path);
      var r := RawSeqLoop(st1, y, h, i + 1, path);
      StepTrans(st, st1, r);
      OnlyAppendedTrans(st, st1, r);
      r
  }

  /** One item of a loaded sequence: within the target's current length it is walked
      against `target[idx]`; beyond it, the item itself is appended and its path recorded. */
  function RawSeqItem(st: PassState, y: YValue, h: nat, i: nat, path: string): (r: PassState)
    requires ValidState(st) && y.YSeq? && i < |y.items| && h < |st.nodes| && st.nodes[h].body.TSeq?
    ensures Step(st, r) && OnlyAppended(st, r) && r.nodes[h].body.TSeq?
    decreases y, 1, |y.items| - i, 0
  {
    if i < |st.nodes[h].body.items| then RawUpdate(st, y.items[i], Item(st.nodes, h, i), IndexPath(path, i))
    else RawAppend(st, h, y.items[i], IndexPath(path, i))
  }

  /** Appending a loaded object that is no wrapper: it goes in as it is, not unwrapped. */
  function RawAppend(st: PassState, h: nat, y: YValue, cp: string): (r: PassState)
    requires ValidState(st) && h < |st.nodes| && st.nodes[h].body.TSeq?
    ensures Step(st, r) && OnlyAppended(st, r) && r.updates == st.updates + [cp]
    ensures r.nodes[h].body.TSeq? && r.nodes[h].body.items == st.nodes[h].body.items + [Val(y)]
  {
    var b := AppendItem(st.nodes, h, y);
    EvolvesValid(st, b);
    var r := st.(nodes := b, updates := st.updates + [cp]);
    assert IsPrefix(st.updates, r.updates);
    assert st.nodes[h].body.items <= b[h].body.items;
    r
  }

  /** The state a pass starts from on a freshly loaded document. */
  function Initial(doc: Document): (st: PassState)
    requires ValidDocument(doc)
    ensures ValidState(st) && st.nodes == doc.nodes && st.updates == []
  {
    AnchorPairsSound(doc.nodes, doc.root);
    RecordInRange(doc.nodes, map[], Pairs(doc), if doc.root.Ref? then doc.root.h else 0);
    PassState(doc.nodes, AnchorIndex(doc), [])
  }

  /** One whole pass over a target document. */
  function PassResult(d: Desired, doc: Document): (r: PassState)
    requires ValidDocument(doc)
    ensures Step(Initial(doc), r)
    ensures ValidDocument(Document(r.nodes, doc.root))
  {
    Update(Initial(doc), d, doc.root, "")
  }

  // ---------------------------------------------------------------------------------------
  // The leaf rule, outcome by outcome

  /** `node.value = y` happened on node `n` and nothing else changed. */
  predicate WroteValue(st: PassState, r: PassState, n: nat, y: YValue)
  {
    n < |st.nodes| && st.nodes[n].valueSlot.Some? &&
    r.nodes == st.nodes[n := st.nodes[n].(valueSlot := Some(y))] && r.anchors == st.anchors
  }

  /** Only the anchor-map entry `name` was rebound; the document is as it was. */
  predicate Rebound(st: PassState, r: PassState, name: string, y: YValue)
  {
    r.nodes == st.nodes && r.anchors == st.anchors[name := Val(y)]
  }

  /** The anchor-map route: a write through the anchor node's `value`, or else a rebind. */
  predicate AnchorRouted(st: PassState, r: PassState, w: WrappedNode)
    requires ValidState(st) && SourceAnchored(st, w)
  {
    var name := w.anchorName.value;
    var an := st.anchors[name];
    if HasValueSlot(st.nodes, an) then WroteValue(st, r, an.h, NewScalar(w)) else Rebound(st, r, name, NewScalar(w))
  }

  /** The leaf rule in a mapping. Equal values: no change and no record. Otherwise the path
      is recorded once and: an anchored target is written through its `value` or replaced,
      without consulting the anchor map; an unanchored one goes the anchor-map route when
      the source leaf's anchor is known, and is replaced otherwise. */
  lemma MapLeafRule(st: PassState, h: nat, k: string, w: WrappedNode, cp: string)
    requires ValidState(st) && h < |st.nodes| && st.nodes[h].body.TMap? && k in Keys(st.nodes[h].body.entries)
    ensures var cur := Entry(st.nodes, h, k); var r := MapLeaf(st, h, k, w, cp);
      (Unchanged(st.nodes, cur, w) <==> r == st) &&
      (!Unchanged(st.nodes, cur, w) ==>
        r.updates == st.updates + [cp] &&
        (Truthy(AnchorName(st.nodes, cur)) && HasValueSlot(st.nodes, cur) ==> WroteValue(st, r, cur.h, NewScalar(w))) &&
        (Truthy(AnchorName(st.nodes, cur)) && !HasValueSlot(st.nodes, cur) ==>
           r.nodes == SetEntry(st.nodes, h, k, NewScalar(w)) && r.anchors == st.anchors) &&
        (!Truthy(AnchorName(st.nodes, cur)) && SourceAnchored(st, w) ==> AnchorRouted(st, r, w)) &&
        (!Truthy(AnchorName(st.nodes, cur)) && !SourceAnchored(st, w) ==>
           r.nodes == SetEntry(st.nodes, h, k, NewScalar(w)) && r.anchors == st.anchors))
  {
  }

  /** The leaf rule in a sequence: the target-anchor route needs a `value` attribute too;
      an anchored item without one falls through to the anchor-map lookup. */
  lemma SeqLeafRule(st: PassState, h: nat, i: nat, w: WrappedNode, cp: string)
    requires ValidState(st) && h < |st.nodes| && st.nodes[h].body.TSeq? && i < |st.nodes[h].body.items|
    ensures var cur := Item(st.nodes, h, i); var r := SeqLeaf(st, h, i, w, cp);
      (Unchanged(st.nodes, cur, w) <==> r == st) &&
      (!Unchanged(st.nodes, cur, w) ==>
        r.updates == st.updates + [cp] &&
        (Truthy(AnchorName(st.nodes, cur)) && HasValueSlot(st.nodes, cur) ==> WroteValue(st, r, cur.h, NewScalar(w))) &&
        (!(Truthy(AnchorName(st.nodes, cur)) && HasValueSlot(st.nodes, cur)) && SourceAnchored(st, w) ==>
           AnchorRouted(st, r, w)) &&
        (!(Truthy(AnchorName(st.nodes, cur)) && HasValueSlot(st.nodes, cur)) && !SourceAnchored(st, w) ==>
           r.nodes == SetItem(st.nodes, h, i, NewScalar(w)) && r.anchors == st.anchors))
  {
  }

  /** A write through a node's `value` is seen at every place that refers to the node: its
      anchor definition and all of its aliases read the new value. */
  lemma AliasesSeeWrite(st: PassState, r: PassState, n: nat, y: YValue)
    requires ValidState(st) && WroteValue(st, r, n, y)
    ensures Acyclic(r.nodes)
    ensures forall p, j ::
      0 <= p < |r.nodes| && 0 <= j < |Children(r.nodes[p].body)| && Children(r.nodes[p].body)[j] == Ref(n)
      ==> SlotContent(r.nodes, Children(r.nodes[p].body)[j]) == Content(y)
  {
    var b := SetValue(st.nodes, n, y);
    assert r.nodes == b;
    EvolvesAcyclic(st.nodes, b);
  }

  /** A positional replacement makes the mapping entry read the new value, detached from
      whatever node it referred to. */
  lemma ReplacementReadsNew(a: Arena, h: nat, k: string, y: YValue)
    requires Acyclic(a) && h < |a| && a[h].body.TMap? && k in Keys(a[h].body.entries)
    ensures var b := SetEntry(a, h, k, y);
      Acyclic(b) && Entry(b, h, k) == Val(y) && SlotContent(b, Entry(b, h, k)) == Content(y)
  {
    EvolvesAcyclic(a, SetEntry(a, h, k, y));
  }

  /** In a valid state, the leaf rule in a mapping either changes nothing or makes the
      updated place hold the new value: the entry itself, the anchored node it refers to,
      or the anchor-map node of the source's anchor (or the map's entry for that name). */
  lemma MapLeafTakesEffect(st: PassState, h: nat, k: string, w: WrappedNode, cp: string)
    requires ValidState(st) && h < |st.nodes| && st.nodes[h].body.TMap? && k in Keys(st.nodes[h].body.entries)
    ensures var cur := Entry(st.nodes, h, k); var r := MapLeaf(st, h, k, w, cp);
      r == st ||
      (SourceAnchored(st, w) && !Truthy(AnchorName(st.nodes, cur)) &&
        var an := r.anchors[w.anchorName.value];
        InRange(r.nodes, an) && SlotContent(r.nodes, an) == Content(NewScalar(w))) ||
      SlotContent(r.nodes, Entry(r.nodes, h, k)) == Content(NewScalar(w))
  {
    var a := st.nodes;
    var cur := Entry(a, h, k);
    var r := MapLeaf(st, h, k, w, cp);
    MapLeafRule(st, h, k, w, cp);
    if !Unchanged(a, cur, w) {
      if Truthy(AnchorName(a, cur)) {
        if HasValueSlot(a, cur) {
          assert r.nodes[h] == a[h];
        } else {
          ReplacementReadsNew(a, h, k, NewScalar(w));
        }
      } else if SourceAnchored(st, w) {
        var an := st.anchors[w.anchorName.value];
        assert r.anchors[w.anchorName.value] == an || r.anchors[w.anchorName.value] == Val(NewScalar(w));
      } else {
        ReplacementReadsNew(a, h, k, NewScalar(w));
      }
    }
  }

  // ---------------------------------------------------------------------------------------
  // The sequence tail

  /** The paths `path[lo]`, ..., `path[hi - 1]`. */
  function IndexPaths(path: string, lo: nat, hi: nat): (ps: seq<string>)
    requires lo <= hi
    ensures |ps| == hi - lo && forall j :: 0 <= j < |ps| ==> ps[j] == IndexPath(path, lo + j)
    decreases hi - lo
  {
    if lo == hi then [] else [IndexPath(path, lo)] + IndexPaths(path, lo + 1, hi)
  }

  /** The plain values of desired items `lo`, ..., `|ws| - 1`. */
  function PlainItems(ws: seq<WrappedNode>, lo: nat): (ss: seq<Slot>)
    requires lo <= |ws|
    ensures |ss| == |ws| - lo && forall j :: 0 <= j < |ss| ==> ss[j] == Val(NewScalar(ws[lo + j]))
    decreases |ws| - lo
  {
    if lo == |ws| then [] else [Val(NewScalar(ws[lo]))] + PlainItems(ws, lo + 1)
  }

  /** The sequence branch over a target sequence of length `n` (starting at or before its
      end): positions below `n` keep their item or hold a plain value, so nothing is removed
      or reordered; the final length is max(n, |ws|); item `j >= n` is the plain value of
      desired item `j`; and the appends are the last paths recorded, in order. */
  lemma SeqTail(st: PassState, ws: seq<WrappedNode>, h: nat, i: nat, path: string)
    requires ValidState(st) && i <= |ws| && h < |st.nodes| && st.nodes[h].body.TSeq?
    requires i <= |st.nodes[h].body.items|
    ensures var n := |st.nodes[h].body.items|; var r := SeqLoop(st, ws, h, i, path);
      var items := r.nodes[h].body.items;
      r.nodes[h].body.TSeq? &&
      |items| == (if |ws| > n then |ws| else n) &&
      (forall j :: 0 <= j < n ==> items[j] == st.nodes[h].body.items[j] || items[j].Val?) &&
      (forall j :: n <= j < |items| ==> items[j] == Val(NewScalar(ws[j]))) &&
      (n < |ws| ==>
         |r.updates| >= |ws| - n && r.updates[|r.updates| - (|ws| - n)..] == IndexPaths(path, n, |ws|))
  {
    var n := |st.nodes[h].body.items|;
    var r := SeqLoop(st, ws, h, i, path);
    assert BodyEvolves(st.nodes[h].body, r.nodes[h].body);
    var stm := LeafPhase(st, ws, h, i, path);
    if |ws| > n {
      AppendPhase(stm, ws, h, n, path);
      AppendedTail(stm.nodes[h].body.items, r.nodes[h].body.items, ws, n, stm.updates, r.updates, path);
    } else {
      assert r == stm;
    }
  }

  /** What an append phase leaves at the end of the items and of the recorded paths. */
  lemma AppendedTail(before: seq<Slot>, after: seq<Slot>, ws: seq<WrappedNode>, n: nat,
                     u0: seq<string>, u1: seq<string>, path: string)
    requires |before| == n < |ws|
    requires after == before + PlainItems(ws, n) && u1 == u0 + IndexPaths(path, n, |ws|)
    ensures |after| == |ws| && forall j :: n <= j < |after| ==> after[j] == Val(NewScalar(ws[j]))
    ensures |u1| >= |ws| - n && u1[|u1| - (|ws| - n)..] == IndexPaths(path, n, |ws|)
  {
    assert forall j :: n <= j < |after| ==> after[j] == PlainItems(ws, n)[j - n];
    assert u1[|u1| - (|ws| - n)..] == u1[|u0|..];
  }

  /** Walking the positions the target sequence already has changes no length and leaves
      the walk at the first position it lacks (or at the end of the desired items). */
  lemma {:induction false} LeafPhase(st: PassState, ws: seq<WrappedNode>, h: nat, i: nat, path: string)
    returns (stm: PassState)
    requires ValidState(st) && i <= |ws| && h < |st.nodes| && st.nodes[h].body.TSeq?
    requires i <= |st.nodes[h].body.items|
    ensures ValidState(stm) && Step(st, stm)
    ensures stm.nodes[h].body.TSeq? && |stm.nodes[h].body.items| == |st.nodes[h].body.items|
    ensures var n := |st.nodes[h].body.items|;
      SeqLoop(st, ws, h, i, path) == SeqLoop(stm, ws, h, if |ws| < n then |ws| else n, path)
    decreases |ws| - i
  {
    var n := |st.nodes[h].body.items|;
    if i == |ws| || i == n {
      StepRefl(st);
      stm := st;
    } else {
      var st1 := SeqLeaf(st, h, i, ws[i], IndexPath(path, i));
      assert BodyEvolves(st.nodes[h].body, st1.nodes[h].body);
      SeqLeafRule(st, h, i, ws[i], IndexPath(path, i));
      assert SeqLoop(st, ws, h, i, path) == SeqLoop(st1, ws, h, i + 1, path);
      stm := LeafPhase(st1, ws, h, i + 1, path);
      StepTrans(st, st1, stm);
    }
  }

  /** From the end of the target sequence on, every desired item is appended as a plain
      value and recorded with its path, in order. */
  lemma {:induction false} AppendPhase(st: PassState, ws: seq<WrappedNode>, h: nat, i: nat, path: string)
    requires ValidState(st) && i <= |ws| && h < |st.nodes| && st.nodes[h].body.TSeq?
    requires i == |st.nodes[h].body.items|
    ensures var r := SeqLoop(st, ws, h, i, path);
      r.nodes[h].body.TSeq? && r.nodes[h].body.items == st.nodes[h].body.items + PlainItems(ws, i) &&
      r.updates == st.updates + IndexPaths(path, i, |ws|)
    decreases |ws| - i
  {
    if i < |ws| {
      var st1 := AppendLeaf(st, h, ws[i], IndexPath(path, i));
      AppendStep(st, ws, h, i, path);
      AppendPhase(st1, ws, h, i + 1, path);
      PlainItemsCons(st.nodes[h].body.items, ws, i);
      IndexPathsCons(st.updates, path, i, |ws|);
    }
  }

  lemma PlainItemsCons(a: seq<Slot>, ws: seq<WrappedNode>, i: nat)
    requires i < |ws|
    ensures a + PlainItems(ws, i) == (a + [Val(NewScalar(ws[i]))]) + PlainItems(ws, i + 1)
  {
    assert PlainItems(ws, i) == [Val(NewScalar(ws[i]))] + PlainItems(ws, i + 1);
  }

  lemma IndexPathsCons(u: seq<string>, path: string, lo: nat, hi: nat)
    requires lo < hi
    ensures u + IndexPaths(path, lo, hi) == (u + [IndexPath(path, lo)]) + IndexPaths(path, lo + 1, hi)
  {
    assert IndexPaths(path, lo, hi) == [IndexPath(path, lo)] + IndexPaths(path, lo + 1, hi);
  }

  /** At or beyond the end of the target sequence, the next desired item is appended. */
  lemma AppendStep(st: PassState, ws: seq<WrappedNode>, h: nat, i: nat, path: string)
    requires ValidState(st) && i < |ws| && h < |st.nodes| && st.nodes[h].body.TSeq?
    requires i == |st.nodes[h].body.items|
    ensures SeqLoop(st, ws, h, i, path) == SeqLoop(AppendLeaf(st, h, ws[i], IndexPath(path, i)), ws, h, i + 1, path)
  {
    assert SeqItem(st, ws, h, i, path) == AppendLeaf(st, h, ws[i], IndexPath(path, i));
  }

  // ---------------------------------------------------------------------------------------
  // A second pass is not a no-op

  /** A document whose entry `a` defines the anchor `x` on a plain scalar (an object without
      a `value` attribute) and whose entry `b` is an unanchored `1`. */
  function RebindDocument(): Document
  {
    var one := YScalar(SInt(1), PlainScalar, Meta(None, None));
    Document(
      [TNode(TAtom(PScalar(SInt(1))), Some("x"), None),
       TNode(TMap([("a", Ref(0)), ("b", Val(one))]), None, None)],
      Ref(1))
  }

  /** A desired tree whose `b` is `2`, written with the anchor `x` in the source. */
  function RebindDesired(): Desired
  {
    var two := YScalar(SInt(2), PlainScalar, Meta(None, Some(Anchor(Some("x"), false))));
    DMap([("b", DLeaf(WrappedNode(two, "b", "values.yaml", None, None, true, Some("x"), false)))], Meta(None, None))
  }

  /** The pass reports `b` as updated but only rebinds the anchor map, so the document it
      writes back is the one it read, and a second pass over that output reports `b` again:
      the changed-path list of a second pass need not be empty. */
  lemma SecondPassNotNoOp()
    ensures ValidDocument(RebindDocument())
    ensures PassResult(RebindDesired(), RebindDocument()).nodes == RebindDocument().nodes
    ensures PassResult(RebindDesired(), RebindDocument()).updates == ["b"]
    ensures var again := Document(PassResult(RebindDesired(), RebindDocument()).nodes, RebindDocument().root);
      ValidDocument(again) && PassResult(RebindDesired(), again).updates == ["b"]
  {
    var doc := RebindDocument();
    var d := RebindDesired();
    RebindIndex();
    var st := Initial(doc);
    assert Keys(doc.nodes[1].body.entries) == ["a", "b"];
    assert Entry(doc.nodes, 1, "b") == Val(YScalar(SInt(1), PlainScalar, Meta(None, None)));
    var st1 := MapLeaf(st, 1, "b", d.entries[0].1.w, "b");
    assert st1 == st.(anchors := st.anchors["x" := Val(NewScalar(d.entries[0].1.w))], updates := ["b"]);
    assert MapLoop(st1, d, 1, 1, "") == st1;
  }

  /** The anchor index of that document holds `x`, defined by entry `a`. */
  lemma RebindIndex()
    ensures ValidDocument(RebindDocument()) && AnchorIndex(RebindDocument()) == map["x" := Ref(0)]
  {
    var doc := RebindDocument();
    var cs := Children(doc.nodes[1].body);
    var one := YScalar(SInt(1), PlainScalar, Meta(None, None));
    assert cs == [Ref(0), Val(one)];
    assert cs[..1] == [Ref(0)] && cs[..1][..0] == [];
    assert ChildPairs(doc.nodes, Children(doc.nodes[0].body), 1) == [];
    assert AnchorPairs(doc.nodes, Ref(0)) == [];
    assert Named(doc.nodes, Ref(0)) == [("x", Ref(0))];
    assert ChildPairs(doc.nodes, cs[..1][..0], 2) == [];
    assert ChildPairs(doc.nodes, cs[..1], 2) == [("x", Ref(0))];
    assert Named(doc.nodes, Val(one)) == [] && AnchorPairs(doc.nodes, Val(one)) == [];
    assert ChildPairs(doc.nodes, cs, 2) == ChildPairs(doc.nodes, cs[..1], 2) + [] + [];
    assert Pairs(doc) == [("x", Ref(0))];
  }
}
