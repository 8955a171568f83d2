# Helm values merge, modelled in Dafny

The modelled program takes the YAML values of one Helm chart and writes them into another
chart's value files. It works in five parts:

- It reads every values file of the source chart and annotates each scalar with its
  provenance: its path, file, line, quote style and anchor. These annotated files are aggregated
  into one desired-state tree, either by a recursive dictionary merge or by an ordered pair
  nesting, and components whose values switch them off can be removed.
- It loads a target document and indexes its YAML anchors with one depth-first,
  pre-order walk.
- It walks the desired tree and the target document together. Each leaf that differs is
  written by one of three routes:
  - through the `value` of an anchored target node;
  - through the anchor-map node named by the source leaf's anchor;
  - by replacing the value in its position.

  Extra sequence items are appended at the end. The pass answers the ordered list of
  changed paths.
- It walks the chart's directory tree top-down. Directories are pruned before descending and
  file names are filtered, both by "excluded unless included" glob rules.
- It parses the command line's `source_key:target_key` arguments and checks YAML file
  arguments.

The target document has reference semantics:
- A document is an arena of nodes addressed by handles (`Target`).
- An alias is the very handle of its anchor, so a write through either is seen at both.
- Handles are numbered children first, so the arena has no cycles. A loaded document is
  assumed to be acyclic: a recursive document cannot be represented (see "Left out").
- Every write stores a plain value and never a new edge, so a pass keeps the document
  acyclic (`Merge.EvolvesAcyclic`).
- Loading puts every mapping, every sequence, every anchored object and every object with a
  `value` attribute into a node of its own. A plain slot (`Target.Slot.Val`) of a loaded
  document therefore holds an unanchored plain scalar. Other plain slots arise only from
  what the pass writes.

Whether an object has a `value` attribute is explicit on both sides:
- A target node has a `valueSlot` field (`TNode.valueSlot`).
- A loaded source object that is neither a mapping, a sequence nor a plain scalar, such as
  a tagged scalar, is `Yaml.YValue.YOther`, and its optional `valueAttr` is its `value`
  attribute.

`_unwrap_value` (`Yaml.Unwrap`) reads that attribute, so the pass writes and compares a
tagged scalar's `value`, while a plain source leaf is written as itself.

The annotator leaves some objects unwrapped: a root that is not a mapping, and objects of
other kinds such as tagged scalars. The pass walks such a raw object as well
(`Merge.RawUpdate`). Its mappings and sequences are walked against the target, and nothing
in them is a wrapper, so that walk never overwrites anything. It only appends the items of a
raw sequence beyond the target's end, as they are.

Each imperative part of the code is a method proved against a specification function:
- `Updater.UpdatePass` is a class that owns the nodes, `anchor_map` and `updates_made`. Its
  methods are proved to leave exactly the state that `Anchors` and `Merge` define.
- `Utils.DeepMerge` is proved against `Merged`, `Processor.WrapScalarNodes` against `Wrap`,
  and the loops of `Metadata`, `Chart` and `Iterators` against the functions beside them.
- The properties are proved about those functions.

Modules, in dependency order:
- `Base`: Option, Result, the Python error kinds.
- `Strings`: strip, lstrip, replace, decimal text, string order.
- `Dicts`: insertion-ordered dict.
- `Yaml`: loaded objects.
- `Processor`: `WrappedNode`, the annotator.
- `Target`: the arena.
- `Anchors`: the anchor index.
- `Merge`: the pass as functions.
- `Updater`: the pass as a class.
- `Utils`: `deep_merge`, unique folder name.
- `Metadata`, `Chart`, `Iterators`, `Cli`.

Where the code does something other than what its documentation or its names promise, the
model follows the code:
- **A second pass is not a no-op.** When the anchor-map entry for a source anchor has no
  `value` attribute, the pass only rebinds the dictionary entry and still records the path
  (src/merge/helm_hander/processor.py:168 and 197). The written-back document is the input
  document, and a second pass reports the same path again. `Merge.SecondPassNotNoOp` proves
  this, on a concrete two-entry document.
- **`values_order` does not merge.** With a `values_order`, the aggregation nests pairs
  `(acc, processed_files.get(rel_path, {}))` instead of merging layers
  (src/merge/helm_hander/chart.py:56-58; `Chart.PairFilesShape`). Filtering disabled
  components then fails, because a pair has no `items` and cannot be indexed by a string
  (`Chart.RemoveDisabled`, `Metadata.GetDisabledComponents`).
- **Wrapped data is never disabled.** `get_disabled_components` is documented to report
  components with `enabled: false`. On annotated data a scalar `enabled` is a `WrappedNode`,
  which is always truthy, so such a component is never reported. Only an empty mapping or
  an empty list as `enabled` disables a component (`Metadata.WrappedEnabledNeverDisabled`,
  `Metadata.AnnotatedDisabled`).
- **Appended values keep their anchors.** `strip_anchor` is never called, so appended
  values are not stripped of their anchors (`Processor.StripAnchor` is modelled on its own).

## Model

| member | source | states |
|---|---|---|
| `Processor.GetLineNo` | src/merge/helm_hander/processor.py:48-49 | a line number is reported exactly when the object has `lc`, and it is one past `lc.line` |
| `Processor.GetQuoteStyle` | src/merge/helm_hander/processor.py:51-52 | a style is reported only for a `ScalarString`, and a `ScalarString` always reports its `style` attribute (which may be none) |
| `Processor.WrapScalarNodes` | src/merge/helm_hander/processor.py:54-94 | its loops build exactly the annotation `Wrap`: mapping entries in order, each value annotated at its child path, and sequence items wrapped one by one into a new list |
| `Processor.WrapMapping` | src/merge/helm_hander/processor.py:55-59 | a mapping keeps its keys in their order; each key's value is the annotation of the old value at path `k` at top level and `path.k` below it |
| `Processor.WrapSequence` | src/merge/helm_hander/processor.py:60-76 | a sequence becomes a new sequence of the same length; item `i` wraps the original item itself (not its annotation) at path `path[i]` |
| `Processor.WrapScalarLeaf` | src/merge/helm_hander/processor.py:77-92 | a scalar becomes a wrapper holding the scalar, the path and the file; it is anchored exactly when its anchor name is non-empty; it carries the scalar's anchor name; it is marked aliased exactly when the scalar's anchor is always dumped; its quote style is `get_quote_style` of the scalar, so only a `ScalarString` has one; its line is `get_line_no` of the scalar, present exactly when the scalar has `lc` |
| `Processor.WrapProvenance` | src/merge/helm_hander/processor.py:54-94 | every wrapper in an annotated tree records the file and the structural path of its position; sequence-item wrappers carry no quote style, anchor or alias flag |
| `Processor.WrapKeepsContent` | src/merge/helm_hander/processor.py:54-94 | annotation loses no data: the annotated tree stands for exactly the loaded one |
| `Processor.LoadYamlWithWrappedScalars` | src/merge/helm_hander/processor.py:96-100 | every wrapper records the file's base name (`Path(file_path).name`), not its whole path; the annotator's return value is dropped, so only a mapping root comes back annotated and any other root comes back as loaded |
| `Processor.StripAnchor` | src/merge/helm_hander/processor.py:112-115 | the result has no anchor name, keeps its content and has an anchor attribute exactly when the input did |
| `Anchors.AnchorIndexSpec` | src/merge/helm_hander/processor.py:123-141 | a name is in the index exactly when some visited object carries it; it maps to the last such object in pre-order; every entry is an object of the document with that very, non-empty, name, and never the root |
| `Anchors.AnchorPairsSound` | src/merge/helm_hander/processor.py:123-135 | every pair the walk records names an object by its own non-empty anchor name, and every recorded node lies strictly below the walk's start |
| `Anchors.ValuePairsSound` | src/merge/helm_hander/processor.py:123-135 | the same for the walk below a plain value that an earlier write placed in the document |
| `Anchors.RecordLookup` | src/merge/helm_hander/processor.py:127-134 | after storing a list of pairs into a dict, a name is present when it was before or some pair carries it, and it reads the last such pair's object |
| `Updater.UpdatePass.constructor` | src/merge/helm_hander/processor.py:138-140 | a pass starts on the loaded nodes with an empty `anchor_map` and no updates |
| `Updater.UpdatePass.CollectAnchors` | src/merge/helm_hander/processor.py:123-135 | `anchor_map` ends as the old map with the walk's pairs stored in order; nodes and `updates_made` are unchanged |
| `Updater.UpdatePass.CollectNodeAnchors` | src/merge/helm_hander/processor.py:123-135 | the walk below a document node stores that node's children's pairs in order |
| `Updater.UpdatePass.CollectChildren` | src/merge/helm_hander/processor.py:125-135 | the loop over a node's children leaves `anchor_map` with every child's record and subtree stored in order |
| `Updater.UpdatePass.VisitChild` | src/merge/helm_hander/processor.py:126-129 | one child is stored under its name when that name is non-empty, and then its own subtree is walked |
| `Updater.UpdatePass.CollectValueAnchors` | src/merge/helm_hander/processor.py:123-135 | the walk below a plain mapping or sequence stores its pairs; any other object stores nothing |
| `Updater.UpdatePass.CollectMappingValueAnchors` | src/merge/helm_hander/processor.py:124-129 | the loop over a plain mapping's values stores every value's record and subtree in order |
| `Updater.UpdatePass.CollectSequenceValueAnchors` | src/merge/helm_hander/processor.py:130-135 | the loop over a plain sequence's items stores every item's record and subtree in order |
| `Updater.UpdatePass.VisitValueChild` | src/merge/helm_hander/processor.py:132-135 | one plain child is stored under its non-empty name, and then its subtree is walked |
| `Updater.UpdatePass.RecursiveUpdate` | src/merge/helm_hander/processor.py:143-209 | the pass state after `recursive_update` is exactly `Merge.Update`: only a mapping against a mapping node or a sequence against a sequence node is walked, whether annotated or raw |
| `Updater.UpdatePass.UpdateMapping` | src/merge/helm_hander/processor.py:144-176 | the mapping loop leaves exactly the state `Merge.MapLoop` defines |
| `Updater.UpdatePass.UpdateMapEntry` | src/merge/helm_hander/processor.py:145-176 | one desired entry: a key the target lacks is skipped, a leaf goes through the leaf rule, anything else is walked at `target[key]` |
| `Updater.UpdatePass.UpdateSequence` | src/merge/helm_hander/processor.py:177-209 | the sequence loop leaves exactly the state `Merge.SeqLoop` defines |
| `Updater.UpdatePass.UpdateSeqItem` | src/merge/helm_hander/processor.py:178-209 | an item within the target's current length goes through the leaf rule; one beyond it is appended as a plain value and its path recorded |
| `Updater.UpdatePass.UpdateMapLeaf` | src/merge/helm_hander/processor.py:149-174 | the mapping leaf rule as written leaves exactly the state `Merge.MapLeaf` defines |
| `Updater.UpdatePass.UpdateRaw` | src/merge/helm_hander/processor.py:143-209 | `recursive_update` on an object the annotator left unwrapped leaves exactly the state `Merge.RawUpdate` defines |
| `Updater.UpdatePass.UpdateRawMapping` | src/merge/helm_hander/processor.py:144-176 | the mapping loop over a raw mapping leaves exactly the state `Merge.RawMapLoop` defines |
| `Updater.UpdatePass.UpdateRawMapEntry` | src/merge/helm_hander/processor.py:146-176 | one raw entry leaves exactly the state `Merge.RawMapItem` defines |
| `Updater.UpdatePass.UpdateRawSequence` | src/merge/helm_hander/processor.py:177-209 | the sequence loop over a raw sequence leaves exactly the state `Merge.RawSeqLoop` defines |
| `Updater.UpdatePass.UpdateRawSeqItem` | src/merge/helm_hander/processor.py:179-209 | one raw item leaves exactly the state `Merge.RawSeqItem` defines |
| `Updater.UpdatePass.UpdateSeqLeaf` | src/merge/helm_hander/processor.py:181-203 | the sequence leaf rule as written leaves exactly the state `Merge.SeqLeaf` defines |
| `Updater.UpdatePass.RedirectToAnchor` | src/merge/helm_hander/processor.py:162-171 | the source-anchor route: a write through the anchor node's `value`, a rebind of the map entry, or else the positional write |
| `Updater.UpdateYamlFromWrappedData` | src/merge/helm_hander/processor.py:137-214 | the changed paths and the document handed back are those of one whole pass, and the document stays valid |
| `Merge.Update` | src/merge/helm_hander/processor.py:143-209 | a pass step, over an annotated or a raw desired object, keeps the state valid; nodes only evolve (same kinds, anchors and `value` attributes; a mapping keeps its keys in order and a sequence only grows; every entry keeps its child or holds a plain value); `updates_made` only grows; nothing changes without a path being recorded |
| `Merge.MapLoop` | src/merge/helm_hander/processor.py:145-176 | the mapping branch is a step in that sense |
| `Merge.MapItem` | src/merge/helm_hander/processor.py:146-176 | one desired entry is a step, and the target node stays a mapping |
| `Merge.SeqLoop` | src/merge/helm_hander/processor.py:178-209 | the sequence branch is a step |
| `Merge.SeqItem` | src/merge/helm_hander/processor.py:180-209 | one desired item is a step, and the target node stays a sequence |
| `Merge.RawUpdate` | src/merge/helm_hander/processor.py:143-209 | walking a raw object is a pass step that only appends: the anchor map stays, and every node is as it was except that a sequence may have items appended |
| `Merge.RawMapLoop` | src/merge/helm_hander/processor.py:145-176 | the mapping branch over a raw mapping is a step that only appends |
| `Merge.RawMapItem` | src/merge/helm_hander/processor.py:146-176 | one raw entry (skipped without a target key, walked otherwise, since it is no wrapper) only appends, and the target node stays a mapping |
| `Merge.RawSeqLoop` | src/merge/helm_hander/processor.py:178-209 | the sequence branch over a raw sequence is a step that only appends |
| `Merge.RawSeqItem` | src/merge/helm_hander/processor.py:179-209 | one raw item (walked at line 205 within the target's length, appended beyond it) only appends, and the target node stays a sequence |
| `Merge.RawAppend` | src/merge/helm_hander/processor.py:207-208 | an item that is no wrapper is appended as it is, not unwrapped, and its path is recorded |
| `Merge.MapLeaf` | src/merge/helm_hander/processor.py:149-174 | the leaf rule in a mapping keeps the state valid and records its path at most once: exactly once when the state changed |
| `Merge.MapLeafRule` | src/merge/helm_hander/processor.py:149-174 | the rule works on the unwrapped value (`_unwrap_value(wrapped_value.value)`): equal values change nothing and record nothing, and a change is always recorded once. An anchored target is written through `value` or replaced, without consulting the anchor map. An unanchored target takes the anchor-map route when the source anchor is known, and is replaced otherwise |
| `Merge.SeqLeaf` | src/merge/helm_hander/processor.py:181-203 | the leaf rule in a sequence keeps the state valid and records its path once exactly when it changes something |
| `Merge.SeqLeafRule` | src/merge/helm_hander/processor.py:181-203 | the same three outcomes for the unwrapped value (`_unwrap_value(item.value)`), except that the target-anchor route needs a `value` attribute too; an anchored item without one falls through to the anchor-map lookup |
| `Merge.SourceRoute` | src/merge/helm_hander/processor.py:162-171 | the anchor-map route keeps the state valid and leaves the recorded paths to the caller |
| `Merge.MapLeafTakesEffect` | src/merge/helm_hander/processor.py:149-174 | the mapping leaf rule either changes nothing or makes the updated place read the new value: the entry itself, the anchored node it refers to, or the anchor-map entry of the source anchor |
| `Merge.AliasesSeeWrite` | src/merge/helm_hander/processor.py:157-158 | a write through a node's `value` is seen at every place that refers to the node: the anchor and all of its aliases |
| `Merge.ReplacementReadsNew` | src/merge/helm_hander/processor.py:160-171 | a positional replacement makes the entry hold and read the new plain value, detached from whatever node it referred to |
| `Merge.SeqTail` | src/merge/helm_hander/processor.py:177-209 | in the sequence branch, positions below the original length keep their item or hold a plain value (nothing is removed or reordered); the length becomes max(original, desired); item `j` beyond the original length is the unwrapped value of desired item `j`; the appends are the last paths recorded, in order |
| `Merge.LeafPhase` | src/merge/helm_hander/processor.py:180-205 | walking the positions the target already has changes no length and leaves the walk at the first position it lacks |
| `Merge.AppendPhase` | src/merge/helm_hander/processor.py:206-209 | from the end of the target on, every desired item is appended as its unwrapped value (`_unwrap_value(item.value)`) and recorded as `path[i]`, in order |
| `Merge.TaggedItemCompared` | src/merge/helm_hander/processor.py:182-185 | a tagged source item whose `value` equals the target item's content changes nothing, even though the tagged object itself differs |
| `Merge.TaggedItemAppended` | src/merge/helm_hander/processor.py:207-208 | a tagged source item beyond the target's end is appended as its `value`, not as the tagged object |
| `Merge.AppendLeaf` | src/merge/helm_hander/processor.py:207-209 | one append adds the unwrapped value at the end and records one path |
| `Merge.AppendItem` | src/merge/helm_hander/processor.py:208 | `target.append(v)` adds `v` after the existing items and changes nothing else that a pass may not change |
| `Merge.SetEntry` | src/merge/helm_hander/processor.py:171 | `target[key] = v` on an existing key keeps the key in its place and makes it hold `v` |
| `Merge.SetItem` | src/merge/helm_hander/processor.py:200 | `target[idx] = v` keeps the length and makes position `idx` hold `v` |
| `Merge.SetValue` | src/merge/helm_hander/processor.py:166 | `node.value = v` makes the node's unwrapped value read `v` |
| `Merge.Entry` | src/merge/helm_hander/processor.py:151 | `target[key]` is a child of the node, so it lies below it in the arena |
| `Merge.Item` | src/merge/helm_hander/processor.py:183 | `target[idx]` is a child of the node |
| `Merge.EvolvesAcyclic` | src/merge/helm_hander/processor.py:158-208 | a pass can never create a cycle, since every write stores a plain value |
| `Merge.Initial` | src/merge/helm_hander/processor.py:138-141 | the pass starts valid on the loaded nodes, with the anchor index and no updates |
| `Merge.PassResult` | src/merge/helm_hander/processor.py:137-214 | a whole pass is a step from the initial state and leaves a valid document |
| `Merge.IndexPaths` | src/merge/helm_hander/processor.py:179 | the recorded paths of positions `lo` to `hi - 1` are `path[lo]`, ..., `path[hi - 1]` |
| `Merge.PlainItems` | src/merge/helm_hander/processor.py:207 | the appended values are the desired items' unwrapped values, in order |
| `Merge.SecondPassNotNoOp` | src/merge/helm_hander/processor.py:163-172 | on a concrete document the pass records `b` but only rebinds the anchor map, so the document written back is the input one, and a second pass records `b` again |
| `Merge.RebindIndex` | src/merge/helm_hander/processor.py:123-141 | the anchor index of that document holds exactly `x`, naming the node that `a` refers to |
| `Utils.DeepMerge` | src/merge/common/utils.py:5-14 | the loop computes exactly `Merged(dest, src)` |
| `Utils.MergeEntry` | src/merge/common/utils.py:6-13 | one entry: a new key is added with the `src` value, two mappings are merged recursively, and anything else is replaced by the `src` value |
| `Utils.MergeKeys` | src/merge/common/utils.py:6-13 | the merged dict lists `dest`'s keys first, in their order, then the keys only `src` has, in `src`'s order |
| `Utils.MergeGet` | src/merge/common/utils.py:6-13 | the merged dict holds exactly the keys of both; a key `src` lacks keeps its value; a key `src` has gets the recursive merge of two mappings or else `src`'s value |
| `Utils.MergeUnique` | src/merge/common/utils.py:6-13 | merging keeps the keys distinct |
| `Utils.MergeKeeps` | src/merge/common/utils.py:6-13 | a key that `src` does not mention keeps its value |
| `Utils.MergeTakes` | src/merge/common/utils.py:10-13 | a key that `src` holds ends up with the merge of its two values, or `src`'s value |
| `Utils.MergeEmpty` | src/merge/common/utils.py:5-14 | `deep_merge(d, {})` leaves `d` as it was |
| `Utils.MergeWellKeyed` | src/merge/common/utils.py:5-14 | merging keeps distinct keys in every mapping all the way down |
| `Utils.MergeSelf` | src/merge/common/utils.py:5-14 | merging a dict into itself gives it back |
| `Utils.MergeIdempotent` | src/merge/common/utils.py:5-14 | merging the same `src` a second time changes nothing more |
| `Utils.UniqueFolderPath` | src/merge/common/utils.py:33-39 | the loop stops, at `name`, `name_copy1`, `name_copy2`, ... under the base: at the first candidate that does not exist, with every earlier one existing |
| `Utils.CandidatesDistinct` | src/merge/common/utils.py:33-39 | no two tries give the same path, which is why the loop must stop |
| `Metadata.LoadChartMetadata` | src/merge/helm_hander/metadata.py:10-17 | the metadata is accepted exactly when it is a mapping with `name`, and is then returned as loaded; otherwise `ValueError("Invalid Chart.yaml in <path>")` |
| `Metadata.EmptyChartRejected` | src/merge/helm_hander/metadata.py:14-16 | an empty `Chart.yaml` is rejected |
| `Metadata.DependencyNames` | src/merge/helm_hander/metadata.py:27-30 | a name is collected exactly when some dependency entry is a mapping whose `name` is a string |
| `Metadata.Insert` | src/merge/helm_hander/metadata.py:40 | adding a name to a strictly sorted list keeps it strictly sorted and adds exactly that name |
| `Metadata.SortedUnique` | src/merge/helm_hander/metadata.py:40 | `sorted(set(xs))` is strictly sorted and has exactly the elements of `xs` |
| `Metadata.SortedSet` | src/merge/helm_hander/metadata.py:40 | the insertion loop computes `sorted(set(xs))` |
| `Metadata.StrictlySortedUnique` | src/merge/helm_hander/metadata.py:40 | two strictly sorted lists with the same elements are equal, so `sorted(set(xs))` has one outcome |
| `Metadata.GetChartComponents` | src/merge/helm_hander/metadata.py:20-40 | the components are strictly sorted, with no repeats, and are exactly the dependency names and the sub-charts |
| `Metadata.DisabledAmong` | src/merge/helm_hander/metadata.py:43-51 | the reported components are exactly the listed ones whose value is a mapping with a falsy `enabled` |
| `Metadata.DisabledAmongKeepsOrder` | src/merge/helm_hander/metadata.py:47-51 | the loop appends in list order: the components disabled among `a + b` are those among `a` followed by those among `b` |
| `Metadata.FirstMissing` | src/merge/helm_hander/metadata.py:49 | the first component `data` lacks, with every earlier one present |
| `Metadata.GetDisabledComponents` | src/merge/helm_hander/metadata.py:43-51 | on a dict: `KeyError` for the first missing component, otherwise exactly the listed components that are disabled. On the pair the ordered aggregation builds, with any component listed, a `TypeError`. With no component, nothing is looked up and the answer is `[]` |
| `Metadata.WrappedEnabledNeverDisabled` | src/merge/helm_hander/metadata.py:49 | a wrapped `enabled` never disables its component, whatever its value |
| `Metadata.AnnotatedDisabled` | src/merge/helm_hander/metadata.py:49 | in annotated data a component is disabled exactly when its loaded `enabled` is an empty mapping or an empty list |
| `Chart.LoadFiles` | src/merge/helm_hander/chart.py:39-46 | the load loop computes `processed_files`: each loaded file annotated with its base name, under its relative path |
| `Chart.ProcessedFilesKeys` | src/merge/helm_hander/chart.py:39-46 | a relative path is stored exactly when some file with that path loads; a file whose load fails is skipped |
| `Chart.ProcessedFilesGet` | src/merge/helm_hander/chart.py:41-44 | a loaded file that no later file shares a relative path with is stored under that path, as its annotated tree, whose wrappers record the file's base name |
| `Chart.ProcessedFilesUnique` | src/merge/helm_hander/chart.py:44 | `processed_files` never holds a path twice |
| `Chart.MergeFiles` | src/merge/helm_hander/chart.py:52-54 | the unordered fold fails, with `AttributeError`, exactly when some file's tree is not a mapping |
| `Chart.MergeFilesKeys` | src/merge/helm_hander/chart.py:52-54 | every key of every merged file reaches the aggregate, no other key does, and the keys stay distinct |
| `Chart.Lookup` | src/merge/helm_hander/chart.py:58 | a name that was not loaded contributes `{}` |
| `Chart.PairFilesShape` | src/merge/helm_hander/chart.py:55-58 | the ordered aggregation nests one pair per listed name: the right-hand sides are the listed files in order (`{}` for names not loaded) and the innermost value is the starting accumulator |
| `Chart.WithoutKeys` | src/merge/helm_hander/chart.py:62 | the filter never grows the dict |
| `Chart.WithoutKeysMembers` | src/merge/helm_hander/chart.py:62 | the filter keeps exactly the keys not disabled, and only entries of the input |
| `Chart.WithoutKeysKeepsOrder` | src/merge/helm_hander/chart.py:62 | the filter works entry by entry, so it keeps the surviving entries in their order |
| `Chart.WithoutKeysUnique` | src/merge/helm_hander/chart.py:62 | the filtered dict has distinct keys |
| `Chart.WithoutKeysGet` | src/merge/helm_hander/chart.py:62 | a kept key keeps its value |
| `Chart.RemoveDisabled` | src/merge/helm_hander/chart.py:60-62 | on a dict: the first missing component's `KeyError`, otherwise the dict without the disabled components. On the ordered aggregation's pair, a `TypeError` when there is a component to look up, and otherwise the `AttributeError` of `.items()` |
| `Chart.ConsolidatedHelmChartData` | src/merge/helm_hander/chart.py:18-64 | `ValueError` before anything else when the path is not a chart; the metadata's error when it is invalid; otherwise the app version with the aggregate. With filtering on a dict, the first missing component gives its `KeyError` and otherwise the result is the dict without the disabled components, each kept entry with its value and in its order, so exactly the keys that are not disabled components remain; with filtering on the ordered aggregation's pair, a `TypeError` when the chart has components and otherwise the `AttributeError` of `.items()` |
| `Chart.DumpOne` | src/merge/helm_hander/chart.py:69-70 | a file that loads gets back its changed paths and a valid document with its own root; a file that fails to load gets nothing |
| `Chart.DumpAll` | src/merge/helm_hander/chart.py:66-72 | one outcome per yielded file |
| `Chart.DumpIsolation` | src/merge/helm_hander/chart.py:66-72 | what happens to a list of files is what happens to its parts, so a failing file changes nothing for the others; with value semantics this is immediate, and it states only that each file is processed on its own |
| `Chart.DumpConsolidatedDataToHelmChart` | src/merge/helm_hander/chart.py:66-72 | the loop computes each file's outcome independently, in order |
| `Iterators.Normalize` | src/merge/helm_hander/iterators.py:26-27 | `None` becomes no patterns; each pattern has every backslash made a slash and then its leading slashes removed |
| `Iterators.NormalizeOne` | src/merge/helm_hander/iterators.py:27 | a normalized pattern has no backslash and does not start with a slash |
| `Iterators.NormalizeIdempotent` | src/merge/helm_hander/iterators.py:26-27 | normalizing twice is normalizing once |
| `Iterators.RelJoinShape` | src/merge/helm_hander/iterators.py:46 | below the chart root an entry's path is its name; below any other directory it is `rel_root/name` |
| `Iterators.AsSet` | src/merge/helm_hander/iterators.py:30-33 | the pattern set holds exactly the normalized patterns |
| `Iterators.KeptDirs` | src/merge/helm_hander/iterators.py:44-54 | pruning only keeps subdirectories that were there |
| `Iterators.KeptDirsKeepsOrder` | src/merge/helm_hander/iterators.py:44-54 | pruning keeps the walk's order: the kept part of `a + b` is the kept part of `a` followed by that of `b` |
| `Iterators.KeptDirsMembers` | src/merge/helm_hander/iterators.py:44-54 | a subdirectory is descended into exactly when its relative path is not excluded, that is unless an exclude pattern matches and no include pattern does |
| `Iterators.PruneDirs` | src/merge/helm_hander/iterators.py:44-54 | the pruning loop computes the kept subdirectories, in order |
| `Iterators.KeptFilesMembers` | src/merge/helm_hander/iterators.py:57-69 | a path is yielded for a directory exactly when it names one of its `.yaml`/`.yml` files and is not excluded |
| `Iterators.KeepFiles` | src/merge/helm_hander/iterators.py:57-71 | the file loop computes those paths, in order |
| `Iterators.IterYamlFiles` | src/merge/helm_hander/iterators.py:9-71 | the generator yields exactly the walk of the tree under the normalized pattern sets |
| `Iterators.IterDir` | src/merge/helm_hander/iterators.py:37-71 | one directory: prune, yield the files, then descend into what is left |
| `Iterators.IterSubdirs` | src/merge/helm_hander/iterators.py:37 | the kept subdirectories are walked one after the other |
| `Iterators.NoExcludesYieldsAll` | src/merge/helm_hander/iterators.py:44-71 | with no exclude patterns, every `.yaml`/`.yml` file of the tree is yielded, in walk order |
| `Iterators.NoExcludesKeepsFiles` | src/merge/helm_hander/iterators.py:57-69 | with no file excludes, every YAML file of a directory is yielded |
| `Iterators.NoExcludesKeepsDirs` | src/merge/helm_hander/iterators.py:44-54 | with no directory excludes, nothing is pruned |
| `Iterators.PrunedContributesNothing` | src/merge/helm_hander/iterators.py:54 | a pruned directory contributes nothing, whatever it holds and whatever the file include patterns say |
| `Iterators.KeptDirsReplacePruned` | src/merge/helm_hander/iterators.py:44-54 | the contents of a pruned directory do not affect which directories are kept |
| `Cli.KeyMapping` | src/merge/cli.py:32-37 | a rejected value raises `ArgumentTypeError("Invalid format. Use 'source_key:target_key'")`; an accepted one gives the stripped parts before and after its first `:` |
| `Cli.KeyMappingMatchesPattern` | src/merge/cli.py:33-35 | a value is accepted exactly when `^\s*[^:]+:\s*[^:\s]*\s*$` matches it |
| `Cli.AcceptsIffPattern` | src/merge/cli.py:33-34 | the computable check and the pattern accept the same strings |
| `Cli.KeyMappingParts` | src/merge/cli.py:33-37 | an accepted value holds exactly one `:`; neither key holds one; the target key has no whitespace; both keys are stripped |
| `Cli.KeyMappingRoundTrip` | src/merge/cli.py:36-37 | a colon-free source key and a target key without `:` or whitespace, joined by `:`, parse back into the stripped source key and the target key |
| `Cli.BlankSourceKey` | src/merge/cli.py:33-37 | the source key may strip to empty: `" :b"` gives `("", "b")` |
| `Cli.ColonIndex` | src/merge/cli.py:36 | `split(":", 1)` cuts at the first `:` |
| `Cli.IsYamlFile` | src/merge/cli.py:8-13 | accepted exactly when the file exists and ends in `.yaml` or `.yml`; otherwise the "is not a valid file." error first, then "is not a YAML file." |
| `Strings.Strip` | src/merge/cli.py:37 | `strip()` neither begins nor ends with whitespace and is no longer than its input |
| `Strings.StripAt` | src/merge/cli.py:37 | `strip()` keeps exactly the slice between the leading and the trailing whitespace runs |
| `Strings.StripBlank` | src/merge/cli.py:37 | whitespace alone strips to the empty string |
| `Strings.StripNoSpace` | src/merge/cli.py:37 | a string without whitespace is its own `strip()` |
| `Strings.StripNoChar` | src/merge/cli.py:37 | `strip()` adds no character |
| `Strings.LStripChar` | src/merge/helm_hander/iterators.py:27 | `lstrip("/")` removes exactly the leading run of `/` |
| `Strings.ReplaceChar` | src/merge/helm_hander/iterators.py:27 | `replace("\\", "/")` changes every backslash and nothing else |
| `Strings.NatToString` | src/merge/helm_hander/processor.py:63 | the index text in `path[idx]` is a non-empty run of decimal digits |
| `Strings.NatToStringRoundTrip` | src/merge/helm_hander/processor.py:63 | that text reads back as the index |
| `Strings.NatToStringInjective` | src/merge/common/utils.py:37 | different counters give different texts |
| `Strings.StrLessTransitive` | src/merge/helm_hander/metadata.py:40 | Python's string order, which `sorted` uses, is transitive |
| `Strings.StrLessTotal` | src/merge/helm_hander/metadata.py:40 | any two strings are equal or ordered one way |
| `Strings.StrLessIrreflexive` | src/merge/helm_hander/metadata.py:40 | no string is below itself |
| `Strings.BaseNameShape` | src/merge/helm_hander/processor.py:98 | `Path(file_path).name` is the suffix of the path after its last `/`: it holds no `/`, and it is the whole path or is preceded by `/` |
| `Dicts.Set` | src/merge/common/utils.py:8 | `d[k] = v`: an existing key keeps its place, a new key goes last |
| `Dicts.SetGet` | src/merge/common/utils.py:8-13 | after `d[k] = v`, `d[k]` reads `v`, every other key reads as before, and no key repeats |

## Left out

- Loading and dumping YAML (ruamel.yaml: `make_yaml`, `remove_aliases_yaml`, `load_yaml`, `dump_yaml`) is a foreign library. A loaded document is an input of the model, and the document to be written back is an output.
- The line number, quote style and `always_dump` flag are opaque optional fields of a loaded object. Text-level formatting fidelity of the output belongs to the library.
- The filesystem is not modelled:
  - `os.walk` is a given directory tree (`Iterators.Dir`).
  - `os.path.isfile` is a given set of existing files (`Cli.IsYamlFile`).
  - `os.path.exists` is a given set of existing paths (`Utils.UniqueFolderPath`).
  - `is_helm_chart` is a given boolean.
  - The `charts/` directory scan is a given list of sub-chart names.
  - `shutil.copytree`, `os.makedirs` and the rest of `copy_chart_folder` around the loop are not modelled.
- Opening, reading and writing the values files is not modelled. A file that fails to load is an input of `None`. An exception while merging into a target file is modelled as that file failing to load. Other exceptions raised inside the pass are not modelled.
- `fnmatch` is a parameter `Match`, not a glob implementation.
- Logging and the `print` calls have no observable effect in the model.
- `argparse` set-up (`parse_args`), `is_folder`, `is_helm_folder`, `__main__.py` and `WrappedNode.__repr__` are not modelled.
- Floats and Python's cross-type equality (`1 == True == 1.0`): scalar equality is structural equality of `Plain` content, so e.g. `1` and `1.0` count as different.
- Loaded objects other than scalars, mappings and sequences (`Yaml.YValue.YOther`) compare by their tag alone where they are compared as they are, that is nested inside a compared mapping or sequence. Python's own `__eq__` of such classes is not modelled. A leaf compares its unwrapped value, so a tagged scalar leaf compares by its `value`.
- Mapping keys are strings. Non-string keys and the `str(key)` of a child path are not modelled.
- The source tree has object identity and the model does not. `remove_aliases_yaml` only affects dumping, so a source mapping referred to through an alias (`b: *a`) is one shared object in the loaded source. The model treats each alias in the source as an independent copy.
- `Processor.WrapProvenance`: the annotator rewrites a shared mapping in place at every place that refers to it, and the model, which annotates every place once with its own path, captures none of the following. Its scalar values are wrapped at the first visit. Later visits find wrappers and return them as they are, so these keep the first place's path (`a.p`, not `b.p`). Its sequences are rebuilt at every visit from the wrapper list the previous visit left. After `n` references, each item is `n` wrappers deep around the loaded item, with the last place's path and no line. The pass unwraps two levels (`_unwrap_value(item.value)`, src/merge/helm_hander/processor.py:182 and 207). With two references, a tagged item is compared and written as the tagged object rather than its `value`. With three or more, the value compared and written is itself a wrapper. It never equals the target item, so that item is always reported and overwritten, or appended, with a wrapper. ruamel.yaml cannot represent a wrapper, so dumping that document raises after the output file has been opened for writing (src/merge/helm_hander/processor.py:108-110). The error is caught per file at src/merge/helm_hander/chart.py:71.
- `Utils.MergeKeeps`: `deep_merge` mutates `dest` in place and returns it, and a value added for a new key is the very `src` object, so later merges also change that `src` dict and every place that shares it. The model computes the merged dict as a value, so neither the in-place update nor this aliasing is captured.
- `Utils.MergeGet`: for the same reason, a mapping shared by two keys (through a source alias) and merged at one key is, in the source, changed at the other key too. In the model it is not.
- Recursive documents (`a: &a [*a]`) cannot be represented: source values are finite trees and the target arena is acyclic by construction. On such a document the source recurses without end and raises `RecursionError`. For the annotator that happens in `wrap_scalar_nodes` and is caught per file by the load loop (src/merge/helm_hander/chart.py:45). For the pass it happens in `_collect_anchors` and is caught per file in src/merge/helm_hander/chart.py:71.
- `Utils.DeepMerge`: two nested values are merged only when both are annotated mappings. An annotated sequence, leaf or pair is always replaced. This is what `isinstance(..., dict)` decides for the annotator's own objects.
- `Metadata.GetChartComponents`, `Metadata.DependencyNames`: only dependency names that are strings are collected. A non-string `name` (which could make `sorted` raise `TypeError` or mix types) is dropped.
- The `value` of a wrapped sequence item is the original item, compared and written whole. `Merge.SeqItem` therefore has no recursive branch, since the annotator wraps every item of an annotated sequence. `recursive_update(item, ...)` at src/merge/helm_hander/processor.py:205 is reached only in the walk of a raw object (`Merge.RawSeqItem`).
- `Merge.RawUpdate`, `Updater.UpdatePass.UpdateRaw`: a mapping or sequence that the pass itself has put into the target (a plain slot, `Target.Slot.Val`) is not walked again. In the source it is the very source list, and a later visit to the same place, through a target alias, walks it and appends to it. For example, a raw root `[[1, [5]], [1, [7, 8]]]` against `[&x [1], *x]` gives `x == [1, [5, 8]]` and records `[0][1]` and `[1][1][1]`. The model leaves `x == [1, [5]]` and records only `[0][1]`. The same holds for `Merge.Update`, `Updater.UpdatePass.RecursiveUpdate` and a desired mapping or sequence met at such a plain slot. The chart flow never reaches this with a raw root, because a non-mapping file cannot be merged.
- `Strings.BaseName`: only the text after the last `/` is modelled. `Path.name`'s handling of trailing slashes, of `.` and `..` components and of Windows separators is not.
- `Chart.NoItems`: the message names the object's type only for the ordered aggregation's `tuple`. For other objects the type name is not modelled.
- `strip_anchor` is never called. Values appended to a sequence keep whatever anchor the source gave them.
- The walk's `abspath` and the `os.path.join(abs_root, file)` full path are not modelled. The model yields the path relative to the chart root, which is what the filters see.
- The `__main__.py` pitfalls (missing commas, parenthesised strings) are not modelled, because `__main__.py` is not part of this model.
