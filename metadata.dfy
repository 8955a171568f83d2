/** `src/merge/helm_hander/metadata.py`: reading `Chart.yaml`, collecting a chart's
    component names, and finding the components whose values switch them off. */
module Metadata {
  import opened Base
  import opened Yaml
  import opened Dicts
  import opened Strings
  import opened Processor

  // ---------------------------------------------------------------------------------------
  // load_chart_metadata

  /** What `yaml.load(f) or {}` holds: a falsy document (an empty file loads as `None`)
      becomes an empty mapping. */
  function OrEmpty(loaded: YValue): YValue
  {
    if IsTruthy(loaded) then loaded else YMap([], Meta(None, None))
  }

  /** The shape check of `load_chart_metadata` on the loaded content of `Chart.yaml`. */
  function LoadChartMetadata(loaded: YValue, chartPath: string): (r: Result<YValue>)
    ensures r.Ok? <==> loaded.YMap? && "name" in Keys(loaded.entries)
    ensures r.Ok? ==> r.value == loaded
    ensures r.Err? ==> r.error == ValueError("Invalid Chart.yaml in " + chartPath)
  {
    var meta := OrEmpty(loaded);
    if meta.YMap? && "name" in Keys(meta.entries) then Ok(meta)
    else Err(ValueError("Invalid Chart.yaml in " + chartPath))
  }

  /** An empty `Chart.yaml` is rejected. */
  lemma EmptyChartRejected(chartPath: string)
    ensures LoadChartMetadata(YScalar(SNull, PlainScalar, Meta(None, None)), chartPath).Err?
  {
  }

  // ---------------------------------------------------------------------------------------
  // get_chart_components

  /** The name a dependency entry contributes: only a mapping with a `name` key does. */
  function DependencyName(dep: YValue): Option<string>
  {
    if dep.YMap? && "name" in Keys(dep.entries) && Get(dep.entries, "name").YScalar?
       && Get(dep.entries, "name").s.SStr?
    then Some(Get(dep.entries, "name").s.s)
    else None
  }

  /** The names of `deps`, in order. */
  function DependencyNames(deps: seq<YValue>): (r: seq<string>)
    ensures forall x :: x in r <==> exists j :: 0 <= j < |deps| && DependencyName(deps[j]) == Some(x)
  {
    if deps == [] then []
    else
      var rest := DependencyNames(deps[..|deps| - 1]);
      var last := DependencyName(deps[|deps| - 1]);
      assert forall j :: 0 <= j < |deps| - 1 ==> deps[..|deps| - 1][j] == deps[j];
      if last.Some? then rest + [last.value] else rest
  }

  /** The dependency list of the chart, when `dependencies` is present and a list. */
  function Dependencies(meta: YValue): seq<YValue>
    requires meta.YMap?
  {
    if "dependencies" in Keys(meta.entries) && Get(meta.entries, "dependencies").YSeq?
    then Get(meta.entries, "dependencies").items
    else []
  }

  /** Strictly increasing in Python's string order: sorted and without duplicates. */
  predicate StrictlySorted(s: seq<string>)
  {
    forall i, j :: 0 <= i < j < |s| ==> StrLess(s[i], s[j])
  }

  /** Adds `x` to a strictly sorted list at its place, unless it is there already. */
  function Insert(s: seq<string>, x: string): (r: seq<string>)
    requires StrictlySorted(s)
    ensures StrictlySorted(r)
    ensures forall y :: y in r <==> y in s || y == x
    decreases |s|
  {
    if s == [] then [x]
    else if x == s[0] then s
    else if StrLess(x, s[0]) then
      assert forall j :: 0 <= j < |s| ==> StrLess(x, s[j]) by {
        forall j | 0 <= j < |s| ensures StrLess(x, s[j]) {
          if j > 0 {
            StrLessTransitive(x, s[0], s[j]);
          }
        }
      }
      [x] + s
    else
      StrLessTotal(x, s[0]);
      var t := Insert(s[1..], x);
      assert forall y :: y in t ==> StrLess(s[0], y) by {
        forall y | y in t ensures StrLess(s[0], y) {
          if y != x {
            var j :| 0 <= j < |s[1..]| && s[1..][j] == y;
            assert s[j + 1] == y;
          }
        }
      }
      assert s == [s[0]] + s[1..];
      [s[0]] + t
  }

  /** `sorted(set(xs))` */
  function SortedUnique(xs: seq<string>): (r: seq<string>)
    ensures StrictlySorted(r)
    ensures forall y :: y in r <==> y in xs
  {
    if xs == [] then []
    else
      assert xs == xs[..|xs| - 1] + [xs[|xs| - 1]];
      Insert(SortedUnique(xs[..|xs| - 1]), xs[|xs| - 1])
  }

  /** `sorted(set(xs))`, one insertion at a time. */
  method SortedSet(xs: seq<string>) returns (r: seq<string>)
    ensures r == SortedUnique(xs)
  {
    r := [];
    var i := 0;
    while i < |xs|
      invariant 0 <= i <= |xs|
      invariant r == SortedUnique(xs[..i])
    {
      assert xs[..i + 1][..i] == xs[..i];
      r := Insert(r, xs[i]);
      i := i + 1;
    }
    assert xs[..i] == xs;
  }

  /** The head of a strictly sorted list is below every other element. */
  lemma HeadIsLeast(s: seq<string>, y: string)
    requires StrictlySorted(s) && s != [] && y in s
    ensures y == s[0] || StrLess(s[0], y)
  {
  }

  /** A strictly sorted list is determined by its elements: `sorted(set(...))` has one
      possible outcome. */
  lemma {:induction false} StrictlySortedUnique(a: seq<string>, b: seq<string>)
    requires StrictlySorted(a) && StrictlySorted(b)
    requires forall y :: y in a <==> y in b
    ensures a == b
    decreases |a|
  {
    if a != [] {
      assert a[0] in a;
    }
    if b != [] {
      assert b[0] in b;
    }
    if a != [] && b != [] {
      HeadIsLeast(a, b[0]);
      HeadIsLeast(b, a[0]);
      if a[0] != b[0] {
        StrLessTransitive(a[0], b[0], a[0]);
        StrLessIrreflexive(a[0]);
      }
      forall y ensures y in a[1..] <==> y in b[1..] {
        if y in a[1..] {
          var j :| 0 <= j < |a[1..]| && a[1..][j] == y;
          assert StrLess(a[0], a[j + 1]);
          StrLessIrreflexive(y);
          assert y in b;
        }
        if y in b[1..] {
          var j :| 0 <= j < |b[1..]| && b[1..][j] == y;
          assert StrLess(b[0], b[j + 1]);
          StrLessIrreflexive(y);
          assert y in a;
        }
      }
      StrictlySortedUnique(a[1..], b[1..]);
      assert a == [a[0]] + a[1..] && b == [b[0]] + b[1..];
    }
  }

  /** The names `get_chart_components` collects before sorting: the dependency names,
      then the sub-charts. */
  function ComponentNames(meta: YValue, subcharts: seq<string>): seq<string>
    requires meta.YMap?
  {
    DependencyNames(Dependencies(meta)) + subcharts
  }

  /** What `get_chart_components` returns. */
  function ChartComponents(meta: YValue, subcharts: seq<string>): seq<string>
    requires meta.YMap?
  {
    SortedUnique(ComponentNames(meta, subcharts))
  }

  /** `get_chart_components(chart_meta, chart_path)`: the dependency names, then the
      sub-charts found under `charts/` (given here as `subcharts`, the directory entries
      that are charts), sorted and without repeats. */
  method GetChartComponents(meta: YValue, subcharts: seq<string>) returns (r: seq<string>)
    requires meta.YMap?
    ensures r == ChartComponents(meta, subcharts)
    ensures StrictlySorted(r)
    ensures forall x :: x in r <==> x in DependencyNames(Dependencies(meta)) || x in subcharts
  {
    var components: seq<string> := [];
    if "dependencies" in Keys(meta.entries) && Get(meta.entries, "dependencies").YSeq? {
      var deps := Get(meta.entries, "dependencies").items;
      var i := 0;
      while i < |deps|
        invariant 0 <= i <= |deps|
        invariant components == DependencyNames(deps[..i])
      {
        var dep := deps[i];
        assert deps[..i + 1][..i] == deps[..i];
        if DependencyName(dep).Some? {
          components := components + [DependencyName(dep).value];
        }
        i := i + 1;
      }
      assert deps[..i] == deps;
    }
    var k := 0;
    ghost var fromDeps := components;
    while k < |subcharts|
      invariant 0 <= k <= |subcharts|
      invariant components == fromDeps + subcharts[..k]
    {
      assert subcharts[..k + 1] == subcharts[..k] + [subcharts[k]];
      components := components + [subcharts[k]];
      k := k + 1;
    }
    assert subcharts[..k] == subcharts;
    r := SortedSet(components);
  }

  // ---------------------------------------------------------------------------------------
  // get_disabled_components

  /** Python truthiness of an annotated value. A `WrappedNode` defines neither `__bool__`
      nor `__len__`, so it is always true. */
  predicate DTruthy(d: Desired)
  {
    match d
    case DLeaf(_) => true
    case DMap(es, _) => es != []
    case DSeq(ws) => ws != []
    case DRaw(y) => IsTruthy(y)
    case DPair(_, _) => true
  }

  /** A component is disabled when its value is a mapping whose `enabled` is present and
      falsy; a missing `enabled` counts as `True`. */
  predicate IsDisabled(v: Desired)
  {
    v.DMap? && "enabled" in Keys(v.entries) && !DTruthy(Get(v.entries, "enabled"))
  }

  /** The components of `components` that are disabled in `data`, in order. */
  function DisabledAmong(components: seq<string>, data: seq<(string, Desired)>): (r: seq<string>)
    requires forall c :: c in components ==> c in Keys(data)
    ensures forall x :: x in r <==> x in components && IsDisabled(Get(data, x))
  {
    if components == [] then []
    else
      var rest := DisabledAmong(components[..|components| - 1], data);
      var c := components[|components| - 1];
      assert forall x :: x in components <==> x in components[..|components| - 1] || x == c by {
        assert components == components[..|components| - 1] + [c];
      }
      if IsDisabled(Get(data, c)) then rest + [c] else rest
  }

  /** The report keeps the order of `components`: it splits over a concatenation. */
  lemma {:induction false} DisabledAmongKeepsOrder(a: seq<string>, b: seq<string>, data: seq<(string, Desired)>)
    requires forall c :: c in a ==> c in Keys(data)
    requires forall c :: c in b ==> c in Keys(data)
    ensures forall c :: c in a + b ==> c in Keys(data)
    ensures DisabledAmong(a + b, data) == DisabledAmong(a, data) + DisabledAmong(b, data)
    decreases |b|
  {
    if b == [] {
      assert a + b == a;
    } else {
      var n := |b| - 1;
      assert forall c :: c in b[..n] ==> c in b;
      assert (a + b)[..|a + b| - 1] == a + b[..n];
      assert (a + b)[|a + b| - 1] == b[n];
      DisabledAmongKeepsOrder(a, b[..n], data);
    }
  }

  /** The first component `data` lacks, if any. */
  function FirstMissing(components: seq<string>, data: seq<(string, Desired)>): (r: Option<nat>)
    ensures r.Some? ==>
      r.value < |components| && components[r.value] !in Keys(data) &&
      forall j :: 0 <= j < r.value ==> components[j] in Keys(data)
    ensures r.None? ==> forall c :: c in components ==> c in Keys(data)
  {
    if components == [] then None
    else if components[0] !in Keys(data) then Some(0)
    else
      var r := FirstMissing(components[1..], data);
      assert components == [components[0]] + components[1..];
      if r.Some? then Some(r.value + 1) else None
  }

  /** `get_disabled_components(components, data)`. `data[component]` raises `KeyError` for
      the first component `data` lacks, and `TypeError` when the aggregate is the tuple the
      ordered aggregation builds. */
  method GetDisabledComponents(components: seq<string>, data: Desired) returns (r: Result<seq<string>>)
    ensures components != [] && data.DPair? ==> r.Err? && r.error.TypeError?
    ensures components == [] ==> r == Ok([])
    ensures data.DMap? ==>
      match FirstMissing(components, data.entries)
      case Some(j) => r == Err(KeyError(components[j]))
      case None => r.Ok? && r.value == DisabledAmong(components, data.entries)
  {
    var disabled: seq<string> := [];
    var i := 0;
    while i < |components|
      invariant 0 <= i <= |components|
      invariant data.DMap? ==> forall j :: 0 <= j < i ==> components[j] in Keys(data.entries)
      invariant data.DMap? ==> disabled == DisabledAmong(components[..i], data.entries)
      invariant i > 0 ==> data.DMap?
      invariant i == 0 ==> disabled == []
    {
      var component := components[i];
      if !data.DMap? {
        return Err(TypeError("tuple indices must be integers or slices, not str"));
      }
      if component !in Keys(data.entries) {
        return Err(KeyError(component));
      }
      assert components[..i + 1][..i] == components[..i];
      var value := Get(data.entries, component);
      if IsDisabled(value) {
        disabled := disabled + [component];
      }
      i := i + 1;
    }
    assert components[..i] == components;
    r := Ok(disabled);
  }

  /** A component whose `enabled` is a wrapped leaf, as in annotated data, is never
      reported, whatever the value says. */
  lemma WrappedEnabledNeverDisabled(v: Desired, w: WrappedNode)
    requires v.DMap? && "enabled" in Keys(v.entries) && Get(v.entries, "enabled") == DLeaf(w)
    ensures !IsDisabled(v)
  {
  }

  /** An empty mapping or list: the only values an annotated `enabled` can be falsy as. */
  predicate EmptyContainer(y: YValue)
  {
    (y.YMap? && y.entries == []) || (y.YSeq? && y.items == [])
  }

  /** In annotated data a component is disabled exactly when its loaded `enabled` is an
      empty mapping or an empty list: a scalar `enabled`, even `false`, is wrapped and so
      always counts as enabled. */
  lemma AnnotatedDisabled(sub: YValue, path: string, fileName: string)
    ensures IsDisabled(Wrap(sub, path, fileName)) <==>
      sub.YMap? && "enabled" in Keys(sub.entries) && EmptyContainer(Get(sub.entries, "enabled"))
  {
    if sub.YMap? {
      WrapMapping(sub, path, fileName, "enabled");
    }
  }
}
