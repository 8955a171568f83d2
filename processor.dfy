/** The leaf annotator of `src/merge/helm_hander/processor.py`: every scalar of a loaded
    source document is wrapped with where it came from and how it was written. */
module Processor {
  import opened Base
  import opened Yaml
  import opened Strings
  import opened Dicts

  /** `WrappedNode`: a source value with its provenance. `value` is the original object. */
  datatype WrappedNode = WrappedNode(
    value: YValue,
    path: string,
    filePath: string,
    lineNo: Option<int>,
    quoteStyle: Option<char>,
    isAnchored: bool,
    anchorName: Option<string>,
    wasAliased: bool)

  /** The Python objects an annotated (desired-state) tree is made of: a wrapped leaf, a
      mapping whose values were annotated in place, the new sequence of wrapped items built
      for a sequence, an object the annotator passed through unchanged, and the pairs the
      ordered aggregation builds. */
  datatype Desired =
    | DLeaf(w: WrappedNode)
    | DMap(entries: seq<(string, Desired)>, meta: Meta)
    | DSeq(items: seq<WrappedNode>)
    | DRaw(y: RawValue)
    | DPair(first: Desired, second: Desired)

  /** `get_line_no`: one past `lc.line` when the object has `lc`. */
  function GetLineNo(node: YValue): (r: Option<int>)
    ensures r.Some? <==> node.meta.line.Some?
    ensures r.Some? ==> r.value == node.meta.line.value + 1
  {
    match node.meta.line
    case Some(l) => Some(l + 1)
    case None => None
  }

  /** `get_quote_style`: only a `ScalarString` reports a style. */
  function GetQuoteStyle(node: YValue): (r: Option<char>)
    ensures r.Some? ==> node.YScalar? && node.kind.ScalarString? && r == node.kind.style
    ensures node.YScalar? && node.kind.ScalarString? ==> r == node.kind.style
  {
    if node.YScalar? && node.kind.ScalarString? then node.kind.style else None
  }

  /** The path of a mapping child: `k` at top level, `path.k` below it. */
  function ChildPath(path: string, k: string): string
  {
    if path == "" then k else path + "." + k
  }

  /** The path of a sequence item: `path[i]`. */
  function IndexPath(path: string, i: nat): string
  {
    path + "[" + NatToString(i) + "]"
  }

  /** The wrapper the sequence branch builds for item `i`: no quoting or anchor data. */
  function WrapItem(item: YValue, path: string, i: nat, filePath: string): WrappedNode
  {
    WrappedNode(item, IndexPath(path, i), filePath, GetLineNo(item), None, false, None, false)
  }

  /** The wrapper the scalar branch builds, reading the node's style and anchor. */
  function WrapLeaf(node: YValue, path: string, filePath: string): WrappedNode
  {
    var anchor := node.meta.anchor;
    WrappedNode(
      node, path, filePath, GetLineNo(node), GetQuoteStyle(node),
      anchor.Some? && Truthy(anchor.value.name),
      AnchorNameOf(node),
      anchor.Some? && anchor.value.alwaysDump)
  }

  /** What `wrap_scalar_nodes(node, path, file_path)` returns. */
  function Wrap(node: YValue, path: string, filePath: string): Desired
  {
    match node
    case YMap(es, meta) =>
      DMap(seq(|es|, i requires 0 <= i < |es| =>
             (es[i].0, Wrap(es[i].1, ChildPath(path, es[i].0), filePath))), meta)
    case YSeq(items, _) =>
      DSeq(seq(|items|, i requires 0 <= i < |items| => WrapItem(items[i], path, i, filePath)))
    case YScalar(_, _, _) => DLeaf(WrapLeaf(node, path, filePath))
    case YOther(_, _, _) => DRaw(node)
  }

  /** `wrap_scalar_nodes`: a mapping keeps its keys and order and has each value replaced by
      its annotation; a sequence is rebuilt item by item into a new sequence. */
  method WrapScalarNodes(node: YValue, path: string, filePath: string) returns (r: Desired)
    ensures r == Wrap(node, path, filePath)
    decreases node
  {
    match node {
      case YMap(es, meta) =>
        var entries: seq<(string, Desired)> := [];
        var i := 0;
        while i < |es|
          invariant 0 <= i <= |es| && |entries| == i
          invariant forall j :: 0 <= j < i ==>
            entries[j] == (es[j].0, Wrap(es[j].1, ChildPath(path, es[j].0), filePath))
        {
          var k := es[i].0;
          var child := WrapScalarNodes(es[i].1, ChildPath(path, k), filePath);
          entries := entries + [(k, child)];
          i := i + 1;
        }
        r := DMap(entries, meta);
      case YSeq(items, _) =>
        var newSeq: seq<WrappedNode> := [];
        var idx := 0;
        while idx < |items|
          invariant 0 <= idx <= |items| && |newSeq| == idx
          invariant forall j :: 0 <= j < idx ==> newSeq[j] == WrapItem(items[j], path, j, filePath)
        {
          var childPath := IndexPath(path, idx);
          var lineNo := GetLineNo(items[idx]);
          newSeq := newSeq + [WrappedNode(items[idx], childPath, filePath, lineNo, None, false, None, false)];
          idx := idx + 1;
        }
        r := DSeq(newSeq);
      case YScalar(_, _, _) =>
        r := DLeaf(WrapLeaf(node, path, filePath));
      case YOther(_, _, _) =>
        r := DRaw(node);
    }
  }

  /** `load_yaml_with_wrapped_scalars(file_path)` on the document loaded from `filePath`:
      every wrapper records the file's name (`Path(file_path).name`), not its whole path;
      the return value of the annotator is dropped, so only a mapping root (annotated in
      place) comes back annotated, and any other root comes back as loaded. */
  function LoadYamlWithWrappedScalars(data: YValue, filePath: string): (r: Desired)
    ensures data.YMap? ==> r == Wrap(data, "", BaseName(filePath))
    ensures !data.YMap? ==> r == DRaw(data)
  {
    var fileName := BaseName(filePath);
    if data.YMap? then Wrap(data, "", fileName) else DRaw(data)
  }

  /** `strip_anchor`: clears the anchor name of an object that has an anchor. Nothing in
      the modelled code calls it. */
  function StripAnchor(node: YValue): (r: YValue)
    ensures Content(r) == Content(node)
    ensures AnchorNameOf(r) == None
    ensures r.meta.anchor.Some? <==> node.meta.anchor.Some?
  {
    match node.meta.anchor
    case None => node
    case Some(a) => node.(meta := node.meta.(anchor := Some(a.(name := None))))
  }

  /** The plain data an annotated tree stands for. */
  function DContent(d: Desired): Plain
  {
    match d
    case DLeaf(w) => Content(w.value)
    case DMap(es, _) => PMap(seq(|es|, i requires 0 <= i < |es| => (es[i].0, DContent(es[i].1))))
    case DSeq(ws) => PSeq(seq(|ws|, i requires 0 <= i < |ws| => Content(ws[i].value)))
    case DRaw(y) => Content(y)
    case DPair(a, b) => PPair(DContent(a), DContent(b))
  }

  /** Annotation loses no data: the annotated tree stands for exactly the loaded one. */
  lemma {:induction false} WrapKeepsContent(node: YValue, path: string, filePath: string)
    ensures DContent(Wrap(node, path, filePath)) == Content(node)
    decreases node
  {
    match node {
      case YMap(es, meta) =>
        var d := Wrap(node, path, filePath);
        forall i | 0 <= i < |es|
          ensures DContent(d.entries[i].1) == Content(es[i].1)
        {
          WrapKeepsContent(es[i].1, ChildPath(path, es[i].0), filePath);
        }
        assert DContent(d) == Content(node);
      case YSeq(items, _) =>
      case YScalar(_, _, _) =>
      case YOther(_, _, _) =>
    }
  }

  /** Every wrapper in `d` records the file and the structural path of its position below
      `path`; wrappers of sequence items carry no quoting or anchor data. */
  predicate Provenance(d: Desired, path: string, filePath: string)
  {
    match d
    case DLeaf(w) => w.path == path && w.filePath == filePath
    case DMap(es, _) => forall i :: 0 <= i < |es| ==> Provenance(es[i].1, ChildPath(path, es[i].0), filePath)
    case DSeq(ws) =>
      forall i :: 0 <= i < |ws| ==>
        ws[i].path == IndexPath(path, i) && ws[i].filePath == filePath &&
        ws[i].quoteStyle == None && !ws[i].isAnchored && ws[i].anchorName == None && !ws[i].wasAliased
    case DRaw(_) => true
    case DPair(_, _) => false
  }

  lemma {:induction false} WrapProvenance(node: YValue, path: string, filePath: string)
    ensures Provenance(Wrap(node, path, filePath), path, filePath)
    decreases node
  {
    match node {
      case YMap(es, meta) =>
        forall i | 0 <= i < |es|
          ensures Provenance(Wrap(es[i].1, ChildPath(path, es[i].0), filePath), ChildPath(path, es[i].0), filePath)
        {
          WrapProvenance(es[i].1, ChildPath(path, es[i].0), filePath);
        }
      case YSeq(items, _) =>
      case YScalar(_, _, _) =>
      case YOther(_, _, _) =>
    }
  }

  /** The leaf annotation: the wrapper holds the scalar itself at the given path; it is
      anchored exactly when the scalar's anchor has a non-empty name, and it carries that
      anchor name, which the merge's source-anchor route reads; it is marked aliased exactly
      when the anchor is always dumped; it reports the scalar's quote style and line. */
  lemma WrapScalarLeaf(node: YValue, path: string, filePath: string)
    requires node.YScalar?
    ensures Wrap(node, path, filePath).DLeaf?
    ensures var w := Wrap(node, path, filePath).w;
      w.value == node && w.path == path && w.filePath == filePath &&
      (w.isAnchored <==> Truthy(AnchorNameOf(node))) &&
      w.anchorName == AnchorNameOf(node) &&
      (w.wasAliased <==> node.meta.anchor.Some? && node.meta.anchor.value.alwaysDump) &&
      w.quoteStyle == GetQuoteStyle(node) &&
      (w.quoteStyle.Some? ==> node.kind.ScalarString?) &&
      w.lineNo == GetLineNo(node) &&
      (w.lineNo.Some? <==> node.meta.line.Some?)
  {
  }

  /** The sequence annotation: a new sequence as long as the old one whose item `i` wraps the
      original item itself, not an annotation of it. */
  lemma WrapSequence(node: YValue, path: string, filePath: string)
    requires node.YSeq?
    ensures Wrap(node, path, filePath).DSeq?
    ensures |Wrap(node, path, filePath).items| == |node.items|
    ensures forall i :: 0 <= i < |node.items| ==>
      Wrap(node, path, filePath).items[i].value == node.items[i] &&
      Wrap(node, path, filePath).items[i].path == IndexPath(path, i)
  {
  }

  /** The mapping annotation: the same keys in the same order, each key's value replaced by
      its own annotation at the child path. */
  lemma WrapMapping(node: YValue, path: string, filePath: string, k: string)
    requires node.YMap?
    ensures Wrap(node, path, filePath).DMap?
    ensures Keys(Wrap(node, path, filePath).entries) == Keys(node.entries)
    ensures k in Keys(node.entries) ==>
      Get(Wrap(node, path, filePath).entries, k) == Wrap(Get(node.entries, k), ChildPath(path, k), filePath)
  {
    var es := Wrap(node, path, filePath).entries;
    assert Keys(es) == Keys(node.entries);
    if k in Keys(node.entries) {
      var i := IndexOf(node.entries, k);
      var i' := IndexOf(es, k);
      assert es[i].0 == k;
      assert node.entries[i'].0 == k;
    }
  }
}
