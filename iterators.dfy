/** `src/merge/helm_hander/iterators.py`: the YAML files of a chart, walked top-down, with
    directories pruned before descending and files filtered by name. Glob matching is a
    parameter: `Match(path, pattern)` stands for `fnmatch.fnmatch(path, pattern)`. */
module Iterators {
  import opened Base
  import opened Strings

  type Match = (string, string) -> bool

  /** `normalize(patterns)`: `None` is no patterns; each pattern gets forward slashes and
      loses its leading slashes. */
  function Normalize(patterns: Option<seq<string>>): (r: seq<string>)
    ensures patterns.None? ==> r == []
    ensures patterns.Some? ==> |r| == |patterns.value|
    ensures patterns.Some? ==> forall i :: 0 <= i < |r| ==>
      r[i] == LStripChar(ReplaceChar(patterns.value[i], '\\', '/'), '/')
  {
    match patterns
    case None => []
    case Some(ps) => seq(|ps|, i requires 0 <= i < |ps| => NormalizeOne(ps[i]))
  }

  function NormalizeOne(p: string): (r: string)
    ensures NoChar(r, '\\') && (r == [] || r[0] != '/')
  {
    var q := ReplaceChar(p, '\\', '/');
    var r := LStripChar(q, '/');
    assert forall i :: 0 <= i < |r| ==> r[i] == q[|q| - |r| + i];
    r
  }

  /** A normalized pattern is left as it is by a second normalization. */
  lemma NormalizeIdempotent(ps: seq<string>)
    ensures Normalize(Some(Normalize(Some(ps)))) == Normalize(Some(ps))
  {
    var once := Normalize(Some(ps));
    forall i | 0 <= i < |once| ensures NormalizeOne(once[i]) == once[i] {
      NormalizedFixed(once[i]);
    }
  }

  lemma NormalizedFixed(p: string)
    requires NoChar(p, '\\') && (p == [] || p[0] != '/')
    ensures NormalizeOne(p) == p
  {
    assert ReplaceChar(p, '\\', '/') == p;
    assert CharRunEnd(p, '/', 0) == 0;
    assert p[0..] == p;
  }

  /** The path of an entry `name` below the directory at relative path `relRoot`:
      `f"{rel_root}/{name}".lstrip("/")`. */
  function RelJoin(relRoot: string, name: string): string
  {
    LStripChar(relRoot + "/" + name, '/')
  }

  /** Below the chart root (`relRoot == ""`) an entry's path is its name; below any other
      directory it is `relRoot/name`. */
  lemma RelJoinShape(relRoot: string, name: string)
    requires relRoot == [] || relRoot[0] != '/'
    requires name == [] || name[0] != '/'
    ensures relRoot == [] ==> RelJoin(relRoot, name) == name
    ensures relRoot != [] ==> RelJoin(relRoot, name) == relRoot + "/" + name
  {
    var s := relRoot + "/" + name;
    if relRoot == [] {
      assert s[0] == '/' && s[1..] == name;
      assert CharRunEnd(s, '/', 0) == CharRunEnd(s, '/', 1) == 1;
    } else {
      assert s[0] == relRoot[0];
      assert CharRunEnd(s, '/', 0) == 0;
      assert s[0..] == s;
    }
  }

  /** `any(fnmatch(path, pat) for pat in patterns)` */
  predicate AnyMatch(m: Match, path: string, patterns: set<string>)
  {
    exists p :: p in patterns && m(path, p)
  }

  /** Excluded unless included: some exclude pattern matches and no include pattern does. */
  predicate Excluded(m: Match, path: string, excluded: set<string>, included: set<string>)
  {
    AnyMatch(m, path, excluded) && !AnyMatch(m, path, included)
  }

  /** `file.endswith((".yaml", ".yml"))` */
  predicate IsYamlName(name: string)
  {
    EndsWith(name, ".yaml") || EndsWith(name, ".yml")
  }

  /** A directory as `os.walk` lists it: its file names and its subdirectories in order. */
  datatype Dir = Dir(files: seq<string>, subdirs: seq<(string, Dir)>)

  /** The pattern sets, after `set(normalize(...))`. */
  datatype Filters = Filters(excludeDirs: set<string>, excludeFiles: set<string>,
                             includeDirs: set<string>, includeFiles: set<string>)

  function MakeFilters(excludeDirs: Option<seq<string>>, excludeFiles: Option<seq<string>>,
                       includeDirs: Option<seq<string>>, includeFiles: Option<seq<string>>): Filters
  {
    Filters(AsSet(Normalize(excludeDirs)), AsSet(Normalize(excludeFiles)),
            AsSet(Normalize(includeDirs)), AsSet(Normalize(includeFiles)))
  }

  function AsSet(ps: seq<string>): (r: set<string>)
    ensures forall p :: p in r <==> p in ps
  {
    set p | p in ps
  }

  /** The subdirectories kept by the pruning step, in their order. */
  function KeptDirs(m: Match, f: Filters, relRoot: string, dirs: seq<(string, Dir)>): (r: seq<(string, Dir)>)
    ensures forall e :: e in r ==> e in dirs
    decreases |dirs|
  {
    if dirs == [] then []
    else
      var last := dirs[|dirs| - 1];
      var rest := KeptDirs(m, f, relRoot, dirs[..|dirs| - 1]);
      assert forall e :: e in dirs[..|dirs| - 1] ==> e in dirs;
      if Excluded(m, RelJoin(relRoot, last.0), f.excludeDirs, f.includeDirs) then rest
      else rest + [last]
  }

  /** A subdirectory is descended into exactly when its relative path is not excluded. */
  lemma {:induction false} KeptDirsMembers(m: Match, f: Filters, relRoot: string, dirs: seq<(string, Dir)>, e: (string, Dir))
    ensures e in KeptDirs(m, f, relRoot, dirs) <==>
      e in dirs && !Excluded(m, RelJoin(relRoot, e.0), f.excludeDirs, f.includeDirs)
    decreases |dirs|
  {
    if dirs != [] {
      var n := |dirs| - 1;
      KeptDirsMembers(m, f, relRoot, dirs[..n], e);
      assert dirs == dirs[..n] + [dirs[n]];
    }
  }

  /** Pruning keeps the subdirectories' order: it splits over a concatenation. */
  lemma {:induction false} KeptDirsKeepsOrder(m: Match, f: Filters, relRoot: string, a: seq<(string, Dir)>, b: seq<(string, Dir)>)
    ensures KeptDirs(m, f, relRoot, a + b) == KeptDirs(m, f, relRoot, a) + KeptDirs(m, f, relRoot, b)
    decreases |b|
  {
    if b == [] {
      assert a + b == a;
    } else {
      var n := |b| - 1;
      assert (a + b)[..|a + b| - 1] == a + b[..n];
      assert (a + b)[|a + b| - 1] == b[n];
      KeptDirsKeepsOrder(m, f, relRoot, a, b[..n]);
    }
  }

  /** The relative paths yielded for the files of one directory, in their order. */
  function KeptFiles(m: Match, f: Filters, relRoot: string, files: seq<string>): (r: seq<string>)
    decreases |files|
  {
    if files == [] then []
    else
      var rest := KeptFiles(m, f, relRoot, files[..|files| - 1]);
      var n := files[|files| - 1];
      var x := RelJoin(relRoot, n);
      if IsYamlName(n) && !Excluded(m, x, f.excludeFiles, f.includeFiles) then rest + [x] else rest
  }

  /** A path is yielded for a directory exactly when it joins the name of one of its YAML
      files and is not excluded. */
  lemma {:induction false} KeptFilesMembers(m: Match, f: Filters, relRoot: string, files: seq<string>, x: string)
    ensures x in KeptFiles(m, f, relRoot, files) <==>
      exists n :: n in files && IsYamlName(n) && x == RelJoin(relRoot, n) &&
        !Excluded(m, x, f.excludeFiles, f.includeFiles)
    decreases |files|
  {
    if files != [] {
      var k := |files| - 1;
      KeptFilesMembers(m, f, relRoot, files[..k], x);
      assert files == files[..k] + [files[k]];
      assert forall y :: y in files <==> y == files[k] || y in files[..k];
    }
  }

  /** The relative path of the subdirectory `name` as `os.walk` reports it below `relRoot`. */
  function ChildRoot(relRoot: string, name: string): string
  {
    if relRoot == "" then ReplaceChar(name, '\\', '/') else relRoot + "/" + ReplaceChar(name, '\\', '/')
  }

  /** The relative paths `iter_yaml_files` yields for the walk of `d` at `relRoot`: this
      directory's files first, then each kept subdirectory's, in order. */
  function Walk(m: Match, f: Filters, relRoot: string, d: Dir): seq<string>
    decreases d, 1
  {
    KeptFiles(m, f, relRoot, d.files) + WalkDirs(m, f, relRoot, KeptDirs(m, f, relRoot, d.subdirs), 0, d)
  }

  /** The walks of `dirs[i..]`, one after the other. */
  function WalkDirs(m: Match, f: Filters, relRoot: string, dirs: seq<(string, Dir)>, i: nat, parent: Dir): seq<string>
    requires i <= |dirs| && forall e :: e in dirs ==> e in parent.subdirs
    decreases parent, 0, |dirs| - i
  {
    if i == |dirs| then []
    else
      assert dirs[i] in parent.subdirs;
      Walk(m, f, ChildRoot(relRoot, dirs[i].0), dirs[i].1) + WalkDirs(m, f, relRoot, dirs, i + 1, parent)
  }

  /** The pruning loop: `pruned_dirs` collects the subdirectories to descend into and then
      replaces `dirs` in place. */
  method PruneDirs(m: Match, f: Filters, relRoot: string, dirs: seq<(string, Dir)>) returns (kept: seq<(string, Dir)>)
    ensures kept == KeptDirs(m, f, relRoot, dirs)
  {
    var pruned: seq<(string, Dir)> := [];
    var i := 0;
    while i < |dirs|
      invariant 0 <= i <= |dirs|
      invariant pruned == KeptDirs(m, f, relRoot, dirs[..i])
    {
      assert dirs[..i + 1][..i] == dirs[..i];
      var relDirPath := RelJoin(relRoot, dirs[i].0);
      if !Excluded(m, relDirPath, f.excludeDirs, f.includeDirs) {
        pruned := pruned + [dirs[i]];
      }
      i := i + 1;
    }
    assert dirs[..i] == dirs;
    kept := pruned;
  }

  /** The file loop of one directory. */
  method KeepFiles(m: Match, f: Filters, relRoot: string, files: seq<string>) returns (out: seq<string>)
    ensures out == KeptFiles(m, f, relRoot, files)
  {
    out := [];
    var i := 0;
    while i < |files|
      invariant 0 <= i <= |files|
      invariant out == KeptFiles(m, f, relRoot, files[..i])
    {
      assert files[..i + 1][..i] == files[..i];
      var file := files[i];
      if IsYamlName(file) {
        var relFilePath := RelJoin(relRoot, file);
        if !Excluded(m, relFilePath, f.excludeFiles, f.includeFiles) {
          out := out + [relFilePath];
        }
      }
      i := i + 1;
    }
    assert files[..i] == files;
  }

  /** `iter_yaml_files(base_path, exclude_dirs, exclude_files, include_dirs, include_files)`
      over the directory tree `root`; the yielded paths are given relative to `base_path`. */
  method IterYamlFiles(m: Match, root: Dir, excludeDirs: Option<seq<string>>, excludeFiles: Option<seq<string>>,
                       includeDirs: Option<seq<string>>, includeFiles: Option<seq<string>>)
    returns (out: seq<string>)
    ensures out == Walk(m, MakeFilters(excludeDirs, excludeFiles, includeDirs, includeFiles), "", root)
  {
    var f := MakeFilters(excludeDirs, excludeFiles, includeDirs, includeFiles);
    out := IterDir(m, f, "", root);
  }

  /** One step of `os.walk` at `relRoot`: prune the subdirectories, yield the files, then
      descend into what is left. */
  method IterDir(m: Match, f: Filters, relRoot: string, d: Dir) returns (out: seq<string>)
    ensures out == Walk(m, f, relRoot, d)
    decreases d, 1
  {
    var kept := PruneDirs(m, f, relRoot, d.subdirs);
    var own := KeepFiles(m, f, relRoot, d.files);
    var below := IterSubdirs(m, f, relRoot, kept, d);
    out := own + below;
  }

  method IterSubdirs(m: Match, f: Filters, relRoot: string, dirs: seq<(string, Dir)>, parent: Dir)
    returns (out: seq<string>)
    requires forall e :: e in dirs ==> e in parent.subdirs
    ensures out == WalkDirs(m, f, relRoot, dirs, 0, parent)
    decreases parent, 0
  {
    out := [];
    var i := 0;
    while i < |dirs|
      invariant 0 <= i <= |dirs|
      invariant out + WalkDirs(m, f, relRoot, dirs, i, parent) == WalkDirs(m, f, relRoot, dirs, 0, parent)
    {
      assert dirs[i] in parent.subdirs;
      var sub := IterDir(m, f, ChildRoot(relRoot, dirs[i].0), dirs[i].1);
      out := out + sub;
      i := i + 1;
    }
  }

  // ---------------------------------------------------------------------------------------
  // Properties of the walk

  /** Every YAML file of the tree, in walk order, with no filtering at all. */
  function AllYaml(relRoot: string, d: Dir): seq<string>
    decreases d, 1
  {
    YamlFiles(relRoot, d.files) + AllYamlDirs(relRoot, d.subdirs, 0, d)
  }

  function YamlFiles(relRoot: string, files: seq<string>): seq<string>
  {
    if files == [] then []
    else
      var n := files[|files| - 1];
      YamlFiles(relRoot, files[..|files| - 1]) + (if IsYamlName(n) then [RelJoin(relRoot, n)] else [])
  }

  function AllYamlDirs(relRoot: string, dirs: seq<(string, Dir)>, i: nat, parent: Dir): seq<string>
    requires i <= |dirs| && forall e :: e in dirs ==> e in parent.subdirs
    decreases parent, 0, |dirs| - i
  {
    if i == |dirs| then []
    else
      assert dirs[i] in parent.subdirs;
      AllYaml(ChildRoot(relRoot, dirs[i].0), dirs[i].1) + AllYamlDirs(relRoot, dirs, i + 1, parent)
  }

  /** With no exclude patterns every `.yaml`/`.yml` file of the tree is yielded, in walk
      order. */
  lemma {:induction false} NoExcludesYieldsAll(m: Match, f: Filters, relRoot: string, d: Dir)
    requires f.excludeDirs == {} && f.excludeFiles == {}
    ensures Walk(m, f, relRoot, d) == AllYaml(relRoot, d)
    decreases d, 1
  {
    NoExcludesKeepsFiles(m, f, relRoot, d.files);
    NoExcludesKeepsDirs(m, f, relRoot, d.subdirs);
    NoExcludesWalkDirs(m, f, relRoot, d.subdirs, 0, d);
  }

  lemma {:induction false} NoExcludesWalkDirs(m: Match, f: Filters, relRoot: string, dirs: seq<(string, Dir)>, i: nat, parent: Dir)
    requires f.excludeDirs == {} && f.excludeFiles == {}
    requires i <= |dirs| && forall e :: e in dirs ==> e in parent.subdirs
    ensures WalkDirs(m, f, relRoot, dirs, i, parent) == AllYamlDirs(relRoot, dirs, i, parent)
    decreases parent, 0, |dirs| - i
  {
    if i < |dirs| {
      assert dirs[i] in parent.subdirs;
      NoExcludesYieldsAll(m, f, ChildRoot(relRoot, dirs[i].0), dirs[i].1);
      NoExcludesWalkDirs(m, f, relRoot, dirs, i + 1, parent);
    }
  }

  lemma {:induction false} NoExcludesKeepsFiles(m: Match, f: Filters, relRoot: string, files: seq<string>)
    requires f.excludeFiles == {}
    ensures KeptFiles(m, f, relRoot, files) == YamlFiles(relRoot, files)
    decreases |files|
  {
    if files != [] {
      NoExcludesKeepsFiles(m, f, relRoot, files[..|files| - 1]);
    }
  }

  lemma {:induction false} NoExcludesKeepsDirs(m: Match, f: Filters, relRoot: string, dirs: seq<(string, Dir)>)
    requires f.excludeDirs == {}
    ensures KeptDirs(m, f, relRoot, dirs) == dirs
    decreases |dirs|
  {
    if dirs != [] {
      NoExcludesKeepsDirs(m, f, relRoot, dirs[..|dirs| - 1]);
      assert dirs == dirs[..|dirs| - 1] + [dirs[|dirs| - 1]];
    }
  }

  /** A pruned directory contributes nothing, whatever it holds and whatever the file
      include patterns say: replacing its contents leaves the walk unchanged. */
  lemma PrunedContributesNothing(m: Match, f: Filters, relRoot: string, d: Dir, i: nat, other: Dir)
    requires i < |d.subdirs|
    requires Excluded(m, RelJoin(relRoot, d.subdirs[i].0), f.excludeDirs, f.includeDirs)
    ensures Walk(m, f, relRoot, Dir(d.files, d.subdirs[i := (d.subdirs[i].0, other)])) == Walk(m, f, relRoot, d)
  {
    var d' := Dir(d.files, d.subdirs[i := (d.subdirs[i].0, other)]);
    KeptDirsReplacePruned(m, f, relRoot, d.subdirs, i, other);
    WalkDirsParent(m, f, relRoot, KeptDirs(m, f, relRoot, d.subdirs), 0, d, d');
  }

  lemma {:induction false} KeptDirsReplacePruned(m: Match, f: Filters, relRoot: string, dirs: seq<(string, Dir)>, i: nat, other: Dir)
    requires i < |dirs|
    requires Excluded(m, RelJoin(relRoot, dirs[i].0), f.excludeDirs, f.includeDirs)
    ensures KeptDirs(m, f, relRoot, dirs[i := (dirs[i].0, other)]) == KeptDirs(m, f, relRoot, dirs)
    decreases |dirs|
  {
    var dirs' := dirs[i := (dirs[i].0, other)];
    var n := |dirs| - 1;
    if i < n {
      assert dirs'[..n] == dirs[..n][i := (dirs[i].0, other)];
      KeptDirsReplacePruned(m, f, relRoot, dirs[..n], i, other);
    } else {
      assert dirs'[..n] == dirs[..n];
    }
  }

  /** The walk of a list of subdirectories does not depend on which parent holds them. */
  lemma {:induction false} WalkDirsParent(m: Match, f: Filters, relRoot: string, dirs: seq<(string, Dir)>, i: nat, p: Dir, q: Dir)
    requires i <= |dirs| && forall e :: e in dirs ==> e in p.subdirs && e in q.subdirs
    ensures WalkDirs(m, f, relRoot, dirs, i, p) == WalkDirs(m, f, relRoot, dirs, i, q)
    decreases |dirs| - i
  {
    if i < |dirs| {
      WalkDirsParent(m, f, relRoot, dirs, i + 1, p, q);
    }
  }
}
