/** `src/merge/helm_hander/chart.py`: reading a whole chart into one annotated values tree,
    and writing an annotated tree back into every values file of a chart. */
module Chart {
  import opened Base
  import opened Yaml
  import opened Dicts
  import opened Processor
  import opened Utils
  import opened Metadata
  import opened Target
  import opened Merge
  import opened Updater

  /** A YAML file the iterator yields: its path, its path relative to the chart, and what
      the loader made of it (`None` when loading raised). */
  datatype ChartFile = ChartFile(path: string, relPath: string, loaded: Option<YValue>)

  /** The `AttributeError` that `x.items()` raises on an object that is not a dict. The
      type is named for the pair the ordered aggregation builds, a `tuple`. */
  function NoItems(d: Desired): (e: Error)
    ensures e.AttributeError?
  {
    if d.DPair? then AttributeError("'tuple' object has no attribute 'items'")
    else AttributeError("object has no attribute 'items'")
  }

  /** A plain `{}`. */
  function EmptyDict(): Desired
  {
    DMap([], Meta(None, None))
  }

  // ---------------------------------------------------------------------------------------
  // The load loop

  /** `processed_files` after the load loop: each file that loads is stored under its
      relative path; a file whose load raises is logged and skipped. */
  function ProcessedFiles(files: seq<ChartFile>): (r: Entries)
    decreases |files|
  {
    if files == [] then []
    else
      var acc := ProcessedFiles(files[..|files| - 1]);
      var f := files[|files| - 1];
      match f.loaded
      case None => acc
      case Some(y) => Set(acc, f.relPath, LoadYamlWithWrappedScalars(y, f.path))
  }

  /** A relative path is stored exactly when some file with that path loads. */
  lemma {:induction false} ProcessedFilesKeys(files: seq<ChartFile>, k: string)
    ensures k in Keys(ProcessedFiles(files)) <==>
      exists i :: 0 <= i < |files| && files[i].relPath == k && files[i].loaded.Some?
    decreases |files|
  {
    if files != [] {
      var n := |files| - 1;
      var init := files[..n];
      var f := files[n];
      ProcessedFilesKeys(init, k);
      var acc := ProcessedFiles(init);
      if f.loaded.Some? {
        var v := LoadYamlWithWrappedScalars(f.loaded.value, f.path);
        assert ProcessedFiles(files) == Set(acc, f.relPath, v);
        assert k in Keys(ProcessedFiles(files)) <==> k in Keys(acc) || k == f.relPath;
      } else {
        assert ProcessedFiles(files) == acc;
      }
      if k in Keys(acc) {
        var i :| 0 <= i < n && init[i].relPath == k && init[i].loaded.Some?;
        assert files[i] == init[i];
      }
      if exists i :: 0 <= i < |files| && files[i].relPath == k && files[i].loaded.Some? {
        var i :| 0 <= i < |files| && files[i].relPath == k && files[i].loaded.Some?;
        if i < n {
          assert init[i] == files[i];
        }
      }
    }
  }

  method LoadFiles(files: seq<ChartFile>) returns (processed: Entries)
    ensures processed == ProcessedFiles(files)
  {
    processed := [];
    var i := 0;
    while i < |files|
      invariant 0 <= i <= |files|
      invariant processed == ProcessedFiles(files[..i])
    {
      assert files[..i + 1][..i] == files[..i];
      match files[i].loaded {
        case None =>
        case Some(y) =>
          var data := LoadYamlWithWrappedScalars(y, files[i].path);
          processed := Set(processed, files[i].relPath, data);
      }
      i := i + 1;
    }
    assert files[..i] == files;
  }

  /** What a file that loads is stored as: its annotated tree, from the last file with that
      relative path. */
  lemma ProcessedFilesGet(files: seq<ChartFile>, i: nat)
    requires i < |files| && files[i].loaded.Some?
    requires forall j :: i < j < |files| ==> files[j].relPath != files[i].relPath
    ensures files[i].relPath in Keys(ProcessedFiles(files))
    ensures Get(ProcessedFiles(files), files[i].relPath) ==
      LoadYamlWithWrappedScalars(files[i].loaded.value, files[i].path)
    decreases |files|
  {
    var k := files[i].relPath;
    var init := files[..|files| - 1];
    ProcessedFilesUnique(init);
    if i < |files| - 1 {
      ProcessedFilesGet(init, i);
      var f := files[|files| - 1];
      if f.loaded.Some? {
        SetGet(ProcessedFiles(init), f.relPath, LoadYamlWithWrappedScalars(f.loaded.value, f.path), k);
      }
    } else {
      SetGet(ProcessedFiles(init), k, LoadYamlWithWrappedScalars(files[i].loaded.value, files[i].path), k);
    }
  }

  lemma ProcessedFilesUnique(files: seq<ChartFile>)
    ensures UniqueKeys(ProcessedFiles(files))
    decreases |files|
  {
    if files != [] {
      var init := files[..|files| - 1];
      ProcessedFilesUnique(init);
      var f := files[|files| - 1];
      if f.loaded.Some? {
        SetGet(ProcessedFiles(init), f.relPath, LoadYamlWithWrappedScalars(f.loaded.value, f.path), f.relPath);
      }
    }
  }

  // ---------------------------------------------------------------------------------------
  // Aggregation

  /** The unordered aggregation from the `i`-th processed file on: `deep_merge` of each
      file's tree into the accumulator, in insertion order. A file whose tree is not a
      mapping makes `src.items()` raise `AttributeError`. */
  function MergeFiles(processed: Entries, i: nat, acc: Entries): (r: Result<Entries>)
    requires i <= |processed|
    ensures r.Err? <==> exists j :: i <= j < |processed| && !processed[j].1.DMap?
    ensures r.Err? ==> r.error.AttributeError?
    decreases |processed| - i
  {
    if i == |processed| then Ok(acc)
    else
      var v := processed[i].1;
      if v.DMap? then MergeFiles(processed, i + 1, Merged(acc, v))
      else Err(NoItems(v))
  }

  /** Every key of every merged file reaches the aggregate, and no other key does. */
  lemma {:induction false} MergeFilesKeys(processed: Entries, i: nat, acc: Entries, k: string)
    requires i <= |processed| && UniqueKeys(acc)
    requires forall j :: 0 <= j < |processed| && processed[j].1.DMap? ==> UniqueKeys(processed[j].1.entries)
    requires MergeFiles(processed, i, acc).Ok?
    ensures UniqueKeys(MergeFiles(processed, i, acc).value)
    ensures k in Keys(MergeFiles(processed, i, acc).value) <==>
      k in Keys(acc) || exists j :: i <= j < |processed| && k in Keys(processed[j].1.entries)
    decreases |processed| - i
  {
    if i < |processed| {
      var v := processed[i].1;
      MergeGet(acc, v, 0, k);
      MergeFilesKeys(processed, i + 1, Merged(acc, v), k);
    }
  }

  /** The ordered aggregation: each name in `values_order` wraps the accumulator into the
      pair `(acc, processed_files.get(rel_path, {}))`; nothing is merged. */
  function PairFiles(processed: Entries, order: seq<string>, acc: Desired): Desired
    decreases |order|
  {
    if order == [] then acc
    else PairFiles(processed, order[1..], DPair(acc, Lookup(processed, order[0])))
  }

  /** `processed_files.get(rel_path, {})` */
  function Lookup(processed: Entries, relPath: string): (r: Desired)
    ensures relPath !in Keys(processed) ==> r == EmptyDict()
  {
    if relPath in Keys(processed) then Get(processed, relPath) else EmptyDict()
  }

  /** The right-hand sides of `n` nested pairs, innermost first. */
  function Seconds(d: Desired, n: nat): seq<Desired>
  {
    if n == 0 || !d.DPair? then [] else Seconds(d.first, n - 1) + [d.second]
  }

  /** What is left at the bottom of `n` nested pairs. */
  function Innermost(d: Desired, n: nat): Desired
  {
    if n == 0 || !d.DPair? then d else Innermost(d.first, n - 1)
  }

  /** The ordered aggregation nests one pair per listed name: the right-hand sides are the
      listed files in order (`{}` for a name that was not loaded) and the bottom is the
      starting `{}`. */
  lemma {:induction false} PairFilesShape(processed: Entries, order: seq<string>, acc: Desired, n: nat)
    ensures var r := PairFiles(processed, order, acc);
      Seconds(r, n + |order|) == Seconds(acc, n) + seq(|order|, i requires 0 <= i < |order| => Lookup(processed, order[i])) &&
      Innermost(r, n + |order|) == Innermost(acc, n)
    decreases |order|
  {
    if order != [] {
      var acc' := DPair(acc, Lookup(processed, order[0]));
      PairFilesShape(processed, order[1..], acc', n + 1);
      assert Seconds(acc', n + 1) == Seconds(acc, n) + [Lookup(processed, order[0])];
      assert Innermost(acc', n + 1) == Innermost(acc, n);
      assert [Lookup(processed, order[0])] + seq(|order[1..]|, i requires 0 <= i < |order[1..]| => Lookup(processed, order[1..][i]))
        == seq(|order|, i requires 0 <= i < |order| => Lookup(processed, order[i]));
    }
  }

  /** The aggregation of `consolidated_helm_chart_data`: `deep_merge` over the files when
      there is no (or an empty) `values_order`, the pair nesting otherwise. */
  function Aggregate(processed: Entries, valuesOrder: Option<seq<string>>): Result<Desired>
  {
    if valuesOrder.None? || valuesOrder.value == [] then
      match MergeFiles(processed, 0, [])
      case Ok(es) => Ok(DMap(es, Meta(None, None)))
      case Err(e) => Err(e)
    else Ok(PairFiles(processed, valuesOrder.value, EmptyDict()))
  }

  // ---------------------------------------------------------------------------------------
  // The disabled-key filter

  /** `{key: val for key, val in data.items() if key not in disabled}` */
  function WithoutKeys(es: Entries, disabled: seq<string>): (r: Entries)
    ensures |r| <= |es|
    decreases |es|
  {
    if es == [] then []
    else
      var rest := WithoutKeys(es[1..], disabled);
      if es[0].0 in disabled then rest else [es[0]] + rest
  }

  /** The filter keeps exactly the keys that are not disabled, and only entries of `es`. */
  lemma {:induction false} WithoutKeysMembers(es: Entries, disabled: seq<string>)
    ensures forall k :: k in Keys(WithoutKeys(es, disabled)) <==> k in Keys(es) && k !in disabled
    ensures forall i :: 0 <= i < |WithoutKeys(es, disabled)| ==> WithoutKeys(es, disabled)[i] in es
    decreases |es|
  {
    if es != [] {
      var rest := WithoutKeys(es[1..], disabled);
      WithoutKeysMembers(es[1..], disabled);
      assert Keys(es) == [es[0].0] + Keys(es[1..]);
      assert forall e :: e in es[1..] ==> e in es;
      if es[0].0 !in disabled {
        assert Keys([es[0]] + rest) == [es[0].0] + Keys(rest);
      }
    }
  }

  /** The filter keeps the surviving entries exactly as they were and in their order: its
      result is `es` with the dropped entries taken out. */
  lemma {:induction false} WithoutKeysKeepsOrder(es: Entries, disabled: seq<string>, i: nat)
    requires i <= |es|
    ensures WithoutKeys(es, disabled) == WithoutKeys(es[..i], disabled) + WithoutKeys(es[i..], disabled)
    decreases i
  {
    if i > 0 {
      WithoutKeysKeepsOrder(es[1..], disabled, i - 1);
      assert es[1..][..i - 1] == es[..i][1..];
      assert es[1..][i - 1..] == es[i..];
    } else {
      assert es[i..] == es;
    }
  }

  lemma {:induction false} WithoutKeysUnique(es: Entries, disabled: seq<string>)
    requires UniqueKeys(es)
    ensures UniqueKeys(WithoutKeys(es, disabled))
    decreases |es|
  {
    if es != [] {
      var rest := WithoutKeys(es[1..], disabled);
      WithoutKeysUnique(es[1..], disabled);
      WithoutKeysMembers(es[1..], disabled);
      if es[0].0 !in disabled {
        assert forall j :: 0 <= j < |es| - 1 ==> Keys(es[1..])[j] == es[j + 1].0;
        assert es[0].0 !in Keys(es[1..]);
        assert es[0].0 !in Keys(rest);
        var r := [es[0]] + rest;
        forall i, j | 0 <= i < j < |r| ensures r[i].0 != r[j].0 {
          if i == 0 {
            assert Keys(rest)[j - 1] == r[j].0;
          }
        }
      }
    }
  }

  /** A kept key keeps its value. */
  lemma WithoutKeysGet(es: Entries, disabled: seq<string>, k: string)
    requires UniqueKeys(es) && k in Keys(es) && k !in disabled
    ensures UniqueKeys(WithoutKeys(es, disabled))
    ensures k in Keys(WithoutKeys(es, disabled))
    ensures Get(WithoutKeys(es, disabled), k) == Get(es, k)
  {
    var r := WithoutKeys(es, disabled);
    WithoutKeysUnique(es, disabled);
    WithoutKeysMembers(es, disabled);
    assert k in Keys(r);
    var i := IndexOf(r, k);
    assert r[i] in es;
    var j :| 0 <= j < |es| && es[j] == r[i];
    UniqueIndex(es, j);
  }

  /** The `remove_disabled` step: `get_disabled_components` on the aggregate, then the
      comprehension, which needs `.items()` and so fails on the ordered aggregation's pair. */
  method RemoveDisabled(components: seq<string>, data: Desired) returns (r: Result<Desired>)
    ensures data.DMap? ==>
      match FirstMissing(components, data.entries)
      case Some(j) => r == Err(KeyError(components[j]))
      case None => r == Ok(DMap(WithoutKeys(data.entries, DisabledAmong(components, data.entries)), Meta(None, None)))
    ensures !data.DMap? ==> r.Err?
    ensures data.DPair? && components != [] ==> r.Err? && r.error.TypeError?
    ensures !data.DMap? && components == [] ==> r == Err(NoItems(data))
  {
    var disabled := GetDisabledComponents(components, data);
    if disabled.Err? {
      return Err(disabled.error);
    }
    if !data.DMap? {
      return Err(NoItems(data));
    }
    return Ok(DMap(WithoutKeys(data.entries, disabled.value), Meta(None, None)));
  }

  // ---------------------------------------------------------------------------------------
  // consolidated_helm_chart_data

  /** `consolidated_helm_chart_data`. The chart test, the loaded `Chart.yaml`, the charts
      found under `charts/` and the YAML files the iterator yields are its inputs. It
      answers `meta.get("appVersion")` and the aggregated, optionally filtered, tree. */
  method ConsolidatedHelmChartData(chartPath: string, isChart: bool, chartYaml: YValue,
                                   subcharts: seq<string>, files: seq<ChartFile>,
                                   removeDisabled: bool, valuesOrder: Option<seq<string>>)
    returns (r: Result<(Option<YValue>, Desired)>)
    ensures !isChart ==> r == Err(ValueError(chartPath + " is not a valid Helm chart (missing Chart.yaml)"))
    ensures isChart && LoadChartMetadata(chartYaml, chartPath).Err? ==>
      r == Err(LoadChartMetadata(chartYaml, chartPath).error)
    ensures isChart && LoadChartMetadata(chartYaml, chartPath).Ok? ==>
      match Aggregate(ProcessedFiles(files), valuesOrder)
      case Err(e) => r == Err(e)
      case Ok(data) =>
        (!removeDisabled ==> r == Ok((AppVersion(chartYaml), data))) &&
        (removeDisabled && data.DMap? ==>
           match FirstMissing(ChartComponents(chartYaml, subcharts), data.entries)
           case Some(j) => r == Err(KeyError(ChartComponents(chartYaml, subcharts)[j]))
           case None =>
             r == Ok((AppVersion(chartYaml), DMap(WithoutKeys(data.entries,
                        DisabledAmong(ChartComponents(chartYaml, subcharts), data.entries)), Meta(None, None)))) &&
             forall k :: k in Keys(r.value.1.entries) <==>
               k in Keys(data.entries) && !(k in ChartComponents(chartYaml, subcharts) && IsDisabled(Get(data.entries, k)))) &&
        (removeDisabled && !data.DMap? ==> r.Err?) &&
        (removeDisabled && data.DPair? && ChartComponents(chartYaml, subcharts) != [] ==> r.Err? && r.error.TypeError?) &&
        (removeDisabled && !data.DMap? && ChartComponents(chartYaml, subcharts) == [] ==> r == Err(NoItems(data)))
  {
    if !isChart {
      return Err(ValueError(chartPath + " is not a valid Helm chart (missing Chart.yaml)"));
    }
    var meta := LoadChartMetadata(chartYaml, chartPath);
    if meta.Err? {
      return Err(meta.error);
    }
    var appVersion := AppVersion(chartYaml);
    var components := GetChartComponents(chartYaml, subcharts);
    var processed := LoadFiles(files);
    var data: Desired := EmptyDict();
    if valuesOrder.None? || valuesOrder.value == [] {
      var acc: Entries := [];
      var i := 0;
      while i < |processed|
        invariant 0 <= i <= |processed|
        invariant MergeFiles(processed, i, acc) == MergeFiles(processed, 0, [])
      {
        var v := processed[i].1;
        if !v.DMap? {
          return Err(NoItems(v));
        }
        acc := DeepMerge(acc, v);
        i := i + 1;
      }
      data := DMap(acc, Meta(None, None));
    } else {
      var order := valuesOrder.value;
      var i := 0;
      while i < |order|
        invariant 0 <= i <= |order|
        invariant PairFiles(processed, order[i..], data) == PairFiles(processed, order, EmptyDict())
      {
        assert order[i..][1..] == order[i + 1..];
        data := DPair(data, Lookup(processed, order[i]));
        i := i + 1;
      }
    }
    if removeDisabled {
      var filtered := RemoveDisabled(components, data);
      if filtered.Err? {
        return Err(filtered.error);
      }
      if data.DMap? {
        WithoutKeysMembers(data.entries, DisabledAmong(components, data.entries));
      }
      data := filtered.value;
      assert data.DMap?;
    }
    return Ok((appVersion, data));
  }

  /** `meta.get("appVersion")` */
  function AppVersion(chartYaml: YValue): Option<YValue>
  {
    if chartYaml.YMap? && "appVersion" in Keys(chartYaml.entries) then Some(Get(chartYaml.entries, "appVersion"))
    else None
  }

  // ---------------------------------------------------------------------------------------
  // dump_consolidated_data_to_helm_chart

  /** A target values file: its path and its loaded document (`None` when loading raised). */
  datatype TargetFile = TargetFile(path: string, loaded: Option<Document>)

  predicate Loadable(t: TargetFile)
  {
    t.loaded.Some? ==> ValidDocument(t.loaded.value)
  }

  /** `update_yaml_from_wrapped_data(wrapped_data, f, f)` on one file: the changed paths and
      the document written back, or nothing when that file fails. */
  function DumpOne(wrapped: Desired, t: TargetFile): (r: Option<(seq<string>, Document)>)
    requires Loadable(t)
    ensures r.Some? <==> t.loaded.Some?
    ensures r.Some? ==> ValidDocument(r.value.1) && r.value.1.root == t.loaded.value.root
  {
    match t.loaded
    case None => None
    case Some(doc) =>
      var st := PassResult(wrapped, doc);
      Some((st.updates, Document(st.nodes, doc.root)))
  }

  function DumpAll(wrapped: Desired, targets: seq<TargetFile>): (r: seq<Option<(seq<string>, Document)>>)
    requires forall i :: 0 <= i < |targets| ==> Loadable(targets[i])
    ensures |r| == |targets|
  {
    seq(|targets|, i requires 0 <= i < |targets| => DumpOne(wrapped, targets[i]))
  }

  /** Each file is processed on its own: what happens to a list of files is what happens to
      its parts, so a failing file changes nothing for the others. */
  lemma DumpIsolation(wrapped: Desired, a: seq<TargetFile>, b: seq<TargetFile>)
    requires forall i :: 0 <= i < |a| ==> Loadable(a[i])
    requires forall i :: 0 <= i < |b| ==> Loadable(b[i])
    ensures DumpAll(wrapped, a + b) == DumpAll(wrapped, a) + DumpAll(wrapped, b)
  {
  }

  /** `dump_consolidated_data_to_helm_chart`: the same annotated tree is written into every
      yielded file; an exception from one file is logged and the loop goes on. */
  method DumpConsolidatedDataToHelmChart(wrapped: Desired, targets: seq<TargetFile>)
    returns (outcomes: seq<Option<(seq<string>, Document)>>)
    requires forall i :: 0 <= i < |targets| ==> Loadable(targets[i])
    ensures outcomes == DumpAll(wrapped, targets)
  {
    outcomes := [];
    var i := 0;
    while i < |targets|
      invariant 0 <= i <= |targets|
      invariant |outcomes| == i
      invariant forall j :: 0 <= j < i ==> outcomes[j] == DumpOne(wrapped, targets[j])
    {
      var outcome: Option<(seq<string>, Document)> := None;
      match targets[i].loaded {
        case None =>
        case Some(doc) =>
          var updates, out := UpdateYamlFromWrappedData(wrapped, doc);
          outcome := Some((updates, out));
      }
      assert outcome == DumpOne(wrapped, targets[i]);
      outcomes := outcomes + [outcome];
      i := i + 1;
    }
  }
}
