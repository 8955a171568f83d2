/** `_collect_anchors`, `recursive_update` and `update_yaml_from_wrapped_data` as the code
    runs them: a pass object owns the target's nodes, `anchor_map` and `updates_made`, and
    its methods change them step by step. Each method is proved to compute what `Anchors`
    and `Merge` state. */
module Updater {
  import opened Base
  import opened Yaml
  import opened Dicts
  import opened Processor
  import opened Target
  import opened Anchors
  import opened Merge

  class UpdatePass {
    var nodes: Arena
    var anchorMap: map<string, Slot>
    var updatesMade: seq<string>

    function State(): PassState
      reads this
    {
      PassState(nodes, anchorMap, updatesMade)
    }

    /** A pass over a freshly loaded target document, with an empty index and no updates. */
    constructor (doc: Document)
      ensures nodes == doc.nodes && anchorMap == map[] && updatesMade == []
    {
      nodes := doc.nodes;
      anchorMap := map[];
      updatesMade := [];
    }

    /** `_collect_anchors(node, anchor_map)`: the children of a node are visited in order;
        each one with a non-empty anchor name is stored under that name, then its own
        children are visited. */
    method CollectAnchors(s: Slot)
      requires Acyclic(nodes) && InRange(nodes, s)
      modifies this
      ensures nodes == old(nodes) && updatesMade == old(updatesMade)
      ensures anchorMap == Record(old(anchorMap), AnchorPairs(nodes, s))
      decreases Rank(s), 2, 0
    {
      match s {
        case Val(y) =>
          CollectValueAnchors(y);
        case Ref(h) =>
          CollectNodeAnchors(h);
      }
    }

    /** `_collect_anchors` at node `h`: its children, in order. */
    method CollectNodeAnchors(h: nat)
      requires Acyclic(nodes) && h < |nodes|
      modifies this
      ensures nodes == old(nodes) && updatesMade == old(updatesMade)
      ensures anchorMap == Record(old(anchorMap), AnchorPairs(nodes, Ref(h)))
      decreases h + 1, 1, 0
    {
      var cs := Children(nodes[h].body);
      forall j | 0 <= j < |cs| ensures Rank(cs[j]) < h + 1 {
        ChildRank(nodes, h, j);
      }
      CollectChildren(cs, h + 1);
    }

    /** The loop of `_collect_anchors` over the children `cs` of a node. */
    method CollectChildren(cs: seq<Slot>, bound: nat)
      requires Acyclic(nodes) && bound <= |nodes| + 1
      requires forall j :: 0 <= j < |cs| ==> Rank(cs[j]) < bound
      modifies this
      ensures nodes == old(nodes) && updatesMade == old(updatesMade)
      ensures anchorMap == Record(old(anchorMap), ChildPairs(nodes, cs, bound))
      decreases bound, 0, 1
    {
      var i := 0;
      while i < |cs|
        invariant 0 <= i <= |cs|
        invariant nodes == old(nodes) && updatesMade == old(updatesMade)
        invariant anchorMap == Record(old(anchorMap), ChildPairs(nodes, cs[..i], bound))
      {
        VisitChild(cs[i], bound);
        ChildPairsStep(old(anchorMap), nodes, cs, bound, i);
        i := i + 1;
      }
      assert cs[..|cs|] == cs;
    }

    /** One child in that loop: stored under its name, if it has one, then searched. */
    method VisitChild(child: Slot, bound: nat)
      requires Acyclic(nodes) && bound <= |nodes| + 1 && Rank(child) < bound
      modifies this
      ensures nodes == old(nodes) && updatesMade == old(updatesMade)
      ensures anchorMap == Record(Record(old(anchorMap), Named(nodes, child)), AnchorPairs(nodes, child))
      decreases bound, 0, 0
    {
      var name := AnchorName(nodes, child);
      if Truthy(name) {
        anchorMap := anchorMap[name.value := child];
      }
      assert anchorMap == Record(old(anchorMap), Named(nodes, child));
      CollectAnchors(child);
    }

    /** `_collect_anchors` below a plain value held in the document: a mapping's values
        and a sequence's items are visited like a node's children. */
    method CollectValueAnchors(y: YValue)
      modifies this
      ensures nodes == old(nodes) && updatesMade == old(updatesMade)
      ensures anchorMap == Record(old(anchorMap), ValuePairs(y, Arity(y)))
      decreases y, 1
    {
      if y.YMap? {
        CollectMappingValueAnchors(y);
      } else if y.YSeq? {
        CollectSequenceValueAnchors(y);
      }
    }

    method CollectMappingValueAnchors(y: YValue)
      requires y.YMap?
      modifies this
      ensures nodes == old(nodes) && updatesMade == old(updatesMade)
      ensures anchorMap == Record(old(anchorMap), ValuePairs(y, Arity(y)))
      decreases y, 0
    {
      var es := y.entries;
      var i := 0;
      while i < |es|
        invariant 0 <= i <= |es|
        invariant nodes == old(nodes) && updatesMade == old(updatesMade)
        invariant anchorMap == Record(old(anchorMap), ValuePairs(y, i))
      {
        ghost var start := anchorMap;
        VisitValueChild(es[i].1);
        ValuePairsStep(old(anchorMap), y, i, start, anchorMap);
        i := i + 1;
      }
    }

    method CollectSequenceValueAnchors(y: YValue)
      requires y.YSeq?
      modifies this
      ensures nodes == old(nodes) && updatesMade == old(updatesMade)
      ensures anchorMap == Record(old(anchorMap), ValuePairs(y, Arity(y)))
      decreases y, 0
    {
      var items := y.items;
      var i := 0;
      while i < |items|
        invariant 0 <= i <= |items|
        invariant nodes == old(nodes) && updatesMade == old(updatesMade)
        invariant anchorMap == Record(old(anchorMap), ValuePairs(y, i))
      {
        ghost var start := anchorMap;
        VisitValueChild(items[i]);
        ValuePairsStep(old(anchorMap), y, i, start, anchorMap);
        i := i + 1;
      }
    }

    /** One child in those loops: stored under its name, if it has one, then searched. */
    method VisitValueChild(child: YValue)
      modifies this
      ensures nodes == old(nodes) && updatesMade == old(updatesMade)
      ensures anchorMap == Record(Record(old(anchorMap), OwnPair(child)), ValuePairs(child, Arity(child)))
      decreases child, 2
    {
      var name := AnchorNameOf(child);
      if Truthy(name) {
        anchorMap := anchorMap[name.value := Val(child)];
      }
      RecordOwn(old(anchorMap), child);
      CollectValueAnchors(child);
    }

    /** `recursive_update(wrapped, target, base_path)`: a mapping against a mapping and a
        sequence against a sequence are walked; anything else is left alone. */
    method RecursiveUpdate(d: Desired, t: Slot, path: string)
      requires ValidState(State()) && InRange(nodes, t)
      modifies this
      ensures State() == Update(old(State()), d, t, path)
      decreases d, 2
    {
      if d.DMap? && t.Ref? && nodes[t.h].body.TMap? {
        UpdateMapping(d, t.h, path);
      } else if d.DSeq? && t.Ref? && nodes[t.h].body.TSeq? {
        UpdateSequence(d.items, t.h, path);
      } else if d.DRaw? {
        UpdateRaw(d.y, t, path);
      }
    }

    /** The mapping branch of `recursive_update`. */
    method UpdateMapping(d: Desired, h: nat, path: string)
      requires ValidState(State()) && d.DMap? && h < |nodes| && nodes[h].body.TMap?
      modifies this
      ensures State() == MapLoop(old(State()), d, h, 0, path)
      decreases d, 1
    {
      var i := 0;
      while i < |d.entries|
        invariant 0 <= i <= |d.entries|
        invariant ValidState(State()) && h < |nodes| && nodes[h].body.TMap?
        invariant MapLoop(State(), d, h, i, path) == MapLoop(old(State()), d, h, 0, path)
      {
        UpdateMapEntry(d, h, i, path);
        i := i + 1;
      }
    }

    /** One entry `(key, value)` of the mapping branch. */
    method UpdateMapEntry(d: Desired, h: nat, i: nat, path: string)
      requires ValidState(State()) && d.DMap? && i < |d.entries| && h < |nodes| && nodes[h].body.TMap?
      modifies this
      ensures State() == MapItem(old(State()), d, h, i, path)
      decreases d, 0
    {
      var key := d.entries[i].0;
      if key in Keys(nodes[h].body.entries) {
        var childPath := ChildPath(path, key);
        match d.entries[i].1 {
          case DLeaf(w) =>
            UpdateMapLeaf(h, key, w, childPath);
          case _ =>
            RecursiveUpdate(d.entries[i].1, Entry(nodes, h, key), childPath);
        }
      }
    }

    /** The sequence branch of `recursive_update`. */
    method UpdateSequence(ws: seq<WrappedNode>, h: nat, path: string)
      requires ValidState(State()) && h < |nodes| && nodes[h].body.TSeq?
      modifies this
      ensures State() == SeqLoop(old(State()), ws, h, 0, path)
    {
      var idx := 0;
      while idx < |ws|
        invariant 0 <= idx <= |ws|
        invariant ValidState(State()) && h < |nodes| && nodes[h].body.TSeq?
        invariant SeqLoop(State(), ws, h, idx, path) == SeqLoop(old(State()), ws, h, 0, path)
      {
        UpdateSeqItem(ws, h, idx, path);
        idx := idx + 1;
      }
    }

    /** One item of the sequence branch: the leaf rule inside the target, an append beyond. */
    method UpdateSeqItem(ws: seq<WrappedNode>, h: nat, idx: nat, path: string)
      requires ValidState(State()) && idx < |ws| && h < |nodes| && nodes[h].body.TSeq?
      modifies this
      ensures State() == SeqItem(old(State()), ws, h, idx, path)
    {
      var item := ws[idx];
      var childPath := IndexPath(path, idx);
      if idx < |nodes[h].body.items| {
        UpdateSeqLeaf(h, idx, item, childPath);
      } else {
        nodes := AppendItem(nodes, h, Unwrap(item.value));
        updatesMade := updatesMade + [childPath];
      }
    }

    /** `recursive_update` on a loaded object that is no wrapper: a mapping against a mapping
        and a sequence against a sequence are walked; anything else is left alone. */
    method UpdateRaw(y: YValue, t: Slot, path: string)
      requires ValidState(State()) && InRange(nodes, t)
      modifies this
      ensures State() == RawUpdate(old(State()), y, t, path)
      decreases y, 2
    {
      if y.YMap? && t.Ref? && nodes[t.h].body.TMap? {
        UpdateRawMapping(y, t.h, path);
      } else if y.YSeq? && t.Ref? && nodes[t.h].body.TSeq? {
        UpdateRawSequence(y, t.h, path);
      }
    }

    /** The mapping branch over a loaded mapping. */
    method UpdateRawMapping(y: YValue, h: nat, path: string)
      requires ValidState(State()) && y.YMap? && h < |nodes| && nodes[h].body.TMap?
      modifies this
      ensures State() == RawMapLoop(old(State()), y, h, 0, path)
      decreases y, 1
    {
      var es := y.entries;
      var i := 0;
      while i < |es|
        invariant 0 <= i <= |es|
        invariant ValidState(State()) && h < |nodes| && nodes[h].body.TMap?
        invariant RawMapLoop(State(), y, h, i, path) == RawMapLoop(old(State()), y, h, 0, path)
      {
        UpdateRawMapEntry(y, h, i, path);
        i := i + 1;
      }
    }

    /** One entry of a loaded mapping: skipped when the target lacks the key, walked
        otherwise. */
    method UpdateRawMapEntry(y: YValue, h: nat, i: nat, path: string)
      requires ValidState(State()) && y.YMap? && i < |y.entries| && h < |nodes| && nodes[h].body.TMap?
      modifies this
      ensures State() == RawMapItem(old(State()), y, h, i, path)
      decreases y, 0
    {
      var key := y.entries[i].0;
      if key in Keys(nodes[h].body.entries) {
        UpdateRaw(y.entries[i].1, Entry(nodes, h, key), ChildPath(path, key));
      }
    }

    /** The sequence branch over a loaded sequence. */
    method UpdateRawSequence(y: YValue, h: nat, path: string)
      requires ValidState(State()) && y.YSeq? && h < |nodes| && nodes[h].body.TSeq?
      modifies this
      ensures State() == RawSeqLoop(old(State()), y, h, 0, path)
      decreases y, 1
    {
      var items := y.items;
      var idx := 0;
      while idx < |items|
        invariant 0 <= idx <= |items|
        invariant ValidState(State()) && h < |nodes| && nodes[h].body.TSeq?
        invariant RawSeqLoop(State(), y, h, idx, path) == RawSeqLoop(old(State()), y, h, 0, path)
      {
        UpdateRawSeqItem(y, h, idx, path);
        idx := idx + 1;
      }
    }

    /** One item of a loaded sequence: walked inside the target, appended as it is beyond. */
    method UpdateRawSeqItem(y: YValue, h: nat, idx: nat, path: string)
      requires ValidState(State()) && y.YSeq? && idx < |y.items| && h < |nodes| && nodes[h].body.TSeq?
      modifies this
      ensures State() == RawSeqItem(old(State()), y, h, idx, path)
      decreases y, 0
    {
      var item := y.items[idx];
      var childPath := IndexPath(path, idx);
      if idx < |nodes[h].body.items| {
        UpdateRaw(item, Item(nodes, h, idx), childPath);
      } else {
        nodes := AppendItem(nodes, h, item);
        updatesMade := updatesMade + [childPath];
      }
    }

    /** The leaf rule of the mapping branch, at `target[key]` of node `h`. */
    method UpdateMapLeaf(h: nat, key: string, w: WrappedNode, childPath: string)
      requires ValidState(State()) && h < |nodes| && nodes[h].body.TMap? && key in Keys(nodes[h].body.entries)
      modifies this
      ensures State() == MapLeaf(old(State()), h, key, w, childPath)
    {
      var newScalar := Unwrap(w.value);
      var currentTarget := Entry(nodes, h, key);
      if Content(newScalar) != SlotContent(nodes, currentTarget) {
        var targetAnchorName := AnchorName(nodes, currentTarget);
        if Truthy(targetAnchorName) {
          if HasValueSlot(nodes, currentTarget) {
            nodes := SetValue(nodes, currentTarget.h, newScalar);
          } else {
            nodes := SetEntry(nodes, h, key, newScalar);
          }
        } else {
          RedirectToAnchor(w, SetEntry(nodes, h, key, newScalar));
        }
        updatesMade := updatesMade + [childPath];
      }
    }

    /** The leaf rule of the sequence branch, at `target[idx]` of node `h`. */
    method UpdateSeqLeaf(h: nat, idx: nat, item: WrappedNode, childPath: string)
      requires ValidState(State()) && h < |nodes| && nodes[h].body.TSeq? && idx < |nodes[h].body.items|
      modifies this
      ensures State() == SeqLeaf(old(State()), h, idx, item, childPath)
    {
      var newScalar := Unwrap(item.value);
      var currentTarget := Item(nodes, h, idx);
      if Content(newScalar) != SlotContent(nodes, currentTarget) {
        var targetAnchorName := AnchorName(nodes, currentTarget);
        if Truthy(targetAnchorName) && HasValueSlot(nodes, currentTarget) {
          nodes := SetValue(nodes, currentTarget.h, newScalar);
        } else {
          RedirectToAnchor(item, SetItem(nodes, h, idx, newScalar));
        }
        updatesMade := updatesMade + [childPath];
      }
    }

    /** The source-anchor lookup both branches share: write through the anchor-map node's
        `value`, or rebind the map entry, or else perform the positional write `replaced`. */
    method RedirectToAnchor(w: WrappedNode, replaced: Arena)
      requires ValidState(State()) && Evolves(nodes, replaced)
      modifies this
      ensures State() == SourceRoute(old(State()), w, replaced)
    {
      var newScalar := Unwrap(w.value);
      var sourceAnchorName := w.anchorName;
      if Truthy(sourceAnchorName) && sourceAnchorName.value in anchorMap {
        var anchorNode := anchorMap[sourceAnchorName.value];
        if HasValueSlot(nodes, anchorNode) {
          nodes := SetValue(nodes, anchorNode.h, newScalar);
        } else {
          anchorMap := anchorMap[sourceAnchorName.value := Val(newScalar)];
        }
      } else {
        nodes := replaced;
      }
    }
  }

  /** `update_yaml_from_wrapped_data` on a loaded target document: index its anchors, walk
      the desired tree against it, and hand back the changed paths and the document to be
      written out. */
  method UpdateYamlFromWrappedData(wrapped: Desired, doc: Document) returns (updates: seq<string>, out: Document)
    requires ValidDocument(doc)
    ensures updates == PassResult(wrapped, doc).updates
    ensures out == Document(PassResult(wrapped, doc).nodes, doc.root) && ValidDocument(out)
  {
    var pass := new UpdatePass(doc);
    pass.CollectAnchors(doc.root);
    assert pass.State() == Initial(doc);
    pass.RecursiveUpdate(wrapped, doc.root, "");
    updates := pass.updatesMade;
    out := Document(pass.nodes, doc.root);
  }
}
