/** `src/merge/common/utils.py`: the recursive dictionary merge used to aggregate the
    annotated values files, and the choice of a fresh folder name when a chart is copied. */
module Utils {
  import opened Dicts
  import opened Strings
  import opened Processor

  type Entries = seq<(string, Desired)>

  // ---------------------------------------------------------------------------------------
  // deep_merge

  /** The value `deep_merge` leaves under `k` when `src[k]` is `v`: two mappings are merged
      into `dest[k]` itself; anything else replaces `dest[k]` or is added as it is. */
  function MergedValue(dest: Entries, k: string, v: Desired): Desired
    decreases v, 1
  {
    if k in Keys(dest) && Get(dest, k).DMap? && v.DMap? then
      DMap(MergeFrom(Get(dest, k).entries, v, 0), Get(dest, k).meta)
    else v
  }

  /** `deep_merge(dest, src)` from the `i`-th entry of `src` on. */
  function MergeFrom(dest: Entries, src: Desired, i: nat): Entries
    requires src.DMap? && i <= |src.entries|
    decreases src, 0, |src.entries| - i
  {
    if i == |src.entries| then dest
    else
      var k := src.entries[i].0;
      MergeFrom(Set(dest, k, MergedValue(dest, k, src.entries[i].1)), src, i + 1)
  }

  function Merged(dest: Entries, src: Desired): Entries
    requires src.DMap?
  {
    MergeFrom(dest, src, 0)
  }

  /** `deep_merge(dest, src)` for a mapping `src`, as its loop runs. */
  method DeepMerge(dest: Entries, src: Desired) returns (r: Entries)
    requires src.DMap?
    ensures r == Merged(dest, src)
    decreases src, 1
  {
    r := dest;
    var i := 0;
    while i < |src.entries|
      invariant 0 <= i <= |src.entries|
      invariant MergeFrom(r, src, i) == Merged(dest, src)
    {
      r := MergeEntry(r, src, i);
      i := i + 1;
    }
  }

  /** One turn of `deep_merge`'s loop: the `i`-th entry of `src` merged into `r`. */
  method MergeEntry(r: Entries, src: Desired, i: nat) returns (r': Entries)
    requires src.DMap? && i < |src.entries|
    ensures r' == Set(r, src.entries[i].0, MergedValue(r, src.entries[i].0, src.entries[i].1))
    decreases src, 0
  {
    var k := src.entries[i].0;
    var v := src.entries[i].1;
    if k !in Keys(r) {
      r' := Set(r, k, v);
    } else {
      var current := Get(r, k);
      if current.DMap? && v.DMap? {
        var sub := DeepMerge(current.entries, v);
        r' := Set(r, k, DMap(sub, current.meta));
      } else {
        r' := Set(r, k, v);
      }
    }
  }

  /** Every mapping in the tree has distinct keys, as a Python dict does. */
  predicate WellKeyed(d: Desired)
  {
    match d
    case DMap(es, _) => UniqueKeys(es) && forall i :: 0 <= i < |es| ==> WellKeyed(es[i].1)
    case _ => true
  }

  predicate WellKeyedEntries(es: Entries)
  {
    UniqueKeys(es) && forall i :: 0 <= i < |es| ==> WellKeyed(es[i].1)
  }

  /** The keys of `ss` not yet in `ks`, in order, each once. */
  function NewKeys(ks: seq<string>, ss: seq<string>): seq<string>
    decreases |ss|
  {
    if ss == [] then []
    else if ss[0] in ks then NewKeys(ks, ss[1..])
    else [ss[0]] + NewKeys(ks + [ss[0]], ss[1..])
  }

  lemma {:induction false} NewKeysIn(ks: seq<string>, ss: seq<string>, x: string)
    ensures x in NewKeys(ks, ss) <==> x in ss && x !in ks
    decreases |ss|
  {
    if ss != [] {
      if ss[0] in ks {
        NewKeysIn(ks, ss[1..], x);
      } else {
        NewKeysIn(ks + [ss[0]], ss[1..], x);
      }
      assert ss == [ss[0]] + ss[1..];
    }
  }

  lemma NewKeysNone(ks: seq<string>, ss: seq<string>)
    requires forall x :: x in ss ==> x in ks
    ensures NewKeys(ks, ss) == []
  {
    var r := NewKeys(ks, ss);
    if r != [] {
      NewKeysIn(ks, ss, r[0]);
    }
  }

  /** The merged dict lists the keys of `dest` first, in their order, then the keys only
      `src` has, in `src`'s order. */
  lemma {:induction false} MergeKeys(dest: Entries, src: Desired, i: nat)
    requires src.DMap? && i <= |src.entries|
    ensures Keys(MergeFrom(dest, src, i)) == Keys(dest) + NewKeys(Keys(dest), Keys(src.entries)[i..])
    decreases |src.entries| - i
  {
    if i < |src.entries| {
      var k := src.entries[i].0;
      MergeKeys(Set(dest, k, MergedValue(dest, k, src.entries[i].1)), src, i + 1);
      MergeKeysStep(dest, src, i);
    }
  }

  /** One entry of `src` moves its key, when new, from the pending keys to the dict. */
  lemma MergeKeysStep(dest: Entries, src: Desired, i: nat)
    requires src.DMap? && i < |src.entries|
    ensures
      var k := src.entries[i].0;
      var dest' := Set(dest, k, MergedValue(dest, k, src.entries[i].1));
      Keys(dest) + NewKeys(Keys(dest), Keys(src.entries)[i..]) ==
      Keys(dest') + NewKeys(Keys(dest'), Keys(src.entries)[i + 1..])
  {
    var k := src.entries[i].0;
    var ks := Keys(dest);
    var ss := Keys(src.entries)[i..];
    var rest := Keys(src.entries)[i + 1..];
    assert ss != [] && ss[0] == k && ss[1..] == rest;
    if k !in ks {
      var tail := NewKeys(ks + [k], rest);
      assert NewKeys(ks, ss) == [k] + tail;
      assert ks + ([k] + tail) == (ks + [k]) + tail;
    }
  }

  /** `src` holds no `k` from its `i`-th entry on. */
  predicate AbsentFrom(src: Entries, i: nat, k: string)
  {
    forall j :: i <= j < |src| ==> src[j].0 != k
  }

  lemma AbsentFromKeys(src: Entries, i: nat, k: string)
    requires i <= |src|
    ensures AbsentFrom(src, i, k) <==> k !in Keys(src)[i..]
  {
    assert forall j :: i <= j < |src| ==> Keys(src)[i..][j - i] == src[j].0;
  }

  /** Merging keeps the keys distinct. */
  lemma {:induction false} MergeUnique(dest: Entries, src: Desired, i: nat)
    requires src.DMap? && i <= |src.entries| && UniqueKeys(dest)
    ensures UniqueKeys(MergeFrom(dest, src, i))
    decreases |src.entries| - i
  {
    if i < |src.entries| {
      var k0 := src.entries[i].0;
      var v0 := MergedValue(dest, k0, src.entries[i].1);
      SetGet(dest, k0, v0, k0);
      MergeUnique(Set(dest, k0, v0), src, i + 1);
    }
  }

  /** A key of `dest` that `src` no longer mentions keeps its value. */
  lemma {:induction false} MergeKeeps(dest: Entries, src: Desired, i: nat, k: string)
    requires src.DMap? && i <= |src.entries| && UniqueKeys(dest)
    requires k in Keys(dest) && AbsentFrom(src.entries, i, k)
    ensures k in Keys(MergeFrom(dest, src, i)) && Get(MergeFrom(dest, src, i), k) == Get(dest, k)
    decreases |src.entries| - i
  {
    if i < |src.entries| {
      var k0 := src.entries[i].0;
      var v0 := MergedValue(dest, k0, src.entries[i].1);
      SetGet(dest, k0, v0, k);
      MergeKeeps(Set(dest, k0, v0), src, i + 1, k);
    }
  }

  /** A key `src` holds at index `j` ends up with `MergedValue` of what `dest` had. */
  lemma {:induction false} MergeTakes(dest: Entries, src: Desired, i: nat, j: nat, k: string)
    requires src.DMap? && i <= j < |src.entries| && UniqueKeys(dest) && UniqueKeys(src.entries)
    requires src.entries[j].0 == k
    ensures k in Keys(MergeFrom(dest, src, i))
    ensures Get(MergeFrom(dest, src, i), k) == MergedValue(dest, k, src.entries[j].1)
    decreases |src.entries| - i
  {
    var k0 := src.entries[i].0;
    var v0 := MergedValue(dest, k0, src.entries[i].1);
    var dest' := Set(dest, k0, v0);
    SetGet(dest, k0, v0, k);
    if j == i {
      MergeKeeps(dest', src, i + 1, k);
    } else {
      MergeTakes(dest', src, i + 1, j, k);
      assert MergedValue(dest', k, src.entries[j].1) == MergedValue(dest, k, src.entries[j].1);
    }
  }

  /** Which value each key ends up with, for dicts with distinct keys: a key `src` lacks
      keeps its value; a key `src` has gets `MergedValue` of the value `dest` had before. */
  lemma MergeGet(dest: Entries, src: Desired, i: nat, k: string)
    requires src.DMap? && i <= |src.entries| && UniqueKeys(dest) && UniqueKeys(src.entries)
    ensures UniqueKeys(MergeFrom(dest, src, i))
    ensures k in Keys(MergeFrom(dest, src, i)) <==> k in Keys(dest) || k in Keys(src.entries)[i..]
    ensures k in Keys(dest) && k !in Keys(src.entries)[i..] ==> Get(MergeFrom(dest, src, i), k) == Get(dest, k)
    ensures forall j :: i <= j < |src.entries| && src.entries[j].0 == k ==>
      Get(MergeFrom(dest, src, i), k) == MergedValue(dest, k, src.entries[j].1)
  {
    MergeUnique(dest, src, i);
    MergeKeys(dest, src, i);
    NewKeysIn(Keys(dest), Keys(src.entries)[i..], k);
    AbsentFromKeys(src.entries, i, k);
    if k in Keys(dest) && AbsentFrom(src.entries, i, k) {
      MergeKeeps(dest, src, i, k);
    }
    forall j | i <= j < |src.entries| && src.entries[j].0 == k
      ensures Get(MergeFrom(dest, src, i), k) == MergedValue(dest, k, src.entries[j].1)
    {
      MergeTakes(dest, src, i, j, k);
    }
  }

  /** `deep_merge(d, {})` leaves `d` as it was. */
  lemma MergeEmpty(dest: Entries, src: Desired)
    requires src.DMap? && src.entries == []
    ensures Merged(dest, src) == dest
  {
  }

  /** Merging keeps Python's dict discipline all the way down. */
  lemma {:induction false} MergeWellKeyed(dest: Entries, src: Desired)
    requires src.DMap? && WellKeyedEntries(dest) && WellKeyed(src)
    ensures WellKeyedEntries(Merged(dest, src))
    decreases src
  {
    var r := Merged(dest, src);
    forall j | 0 <= j < |r| ensures WellKeyed(r[j].1) {
      var k := r[j].0;
      assert k in Keys(r) by { assert Keys(r)[j] == k; }
      MergeGet(dest, src, 0, k);
      UniqueIndex(r, j);
      if k in Keys(src.entries) {
        var js := IndexOf(src.entries, k);
        assert WellKeyed(src.entries[js].1);
        var v := src.entries[js].1;
        if k in Keys(dest) && Get(dest, k).DMap? && v.DMap? {
          assert WellKeyed(Get(dest, k)) by { assert dest[IndexOf(dest, k)].1 == Get(dest, k); }
          MergeWellKeyed(Get(dest, k).entries, v);
        }
      } else {
        assert dest[IndexOf(dest, k)].1 == Get(dest, k);
      }
    }
    MergeGet(dest, src, 0, "");
  }

  /** Merging a dict into itself gives it back. */
  lemma {:induction false} MergeSelf(x: Desired)
    requires x.DMap? && WellKeyed(x)
    ensures Merged(x.entries, x) == x.entries
    decreases x
  {
    var r := Merged(x.entries, x);
    MergeKeys(x.entries, x, 0);
    NewKeysNone(Keys(x.entries), Keys(x.entries));
    assert Keys(r) == Keys(x.entries);
    forall k | k in Keys(x.entries) ensures Get(x.entries, k) == Get(r, k) {
      MergeGet(x.entries, x, 0, k);
      var j := IndexOf(x.entries, k);
      var v := x.entries[j].1;
      assert WellKeyed(v);
      if v.DMap? {
        MergeSelf(v);
      }
    }
    Extensionality(x.entries, r);
  }

  /** Merging the same `src` a second time changes nothing more. */
  lemma {:induction false} MergeIdempotent(dest: Entries, src: Desired)
    requires src.DMap? && WellKeyedEntries(dest) && WellKeyed(src)
    ensures Merged(Merged(dest, src), src) == Merged(dest, src)
    decreases src
  {
    var r1 := Merged(dest, src);
    var r2 := Merged(r1, src);
    MergeWellKeyed(dest, src);
    MergeKeys(r1, src, 0);
    MergeKeys(dest, src, 0);
    forall x | x in Keys(src.entries) ensures x in Keys(r1) {
      MergeGet(dest, src, 0, x);
    }
    NewKeysNone(Keys(r1), Keys(src.entries));
    assert Keys(r2) == Keys(r1);
    forall k | k in Keys(r1) ensures Get(r1, k) == Get(r2, k) {
      MergeGet(dest, src, 0, k);
      MergeGet(r1, src, 0, k);
      if k in Keys(src.entries) {
        var j := IndexOf(src.entries, k);
        var v := src.entries[j].1;
        assert WellKeyed(v);
        if k in Keys(dest) && Get(dest, k).DMap? && v.DMap? {
          assert WellKeyed(Get(dest, k)) by { assert dest[IndexOf(dest, k)].1 == Get(dest, k); }
          MergeIdempotent(Get(dest, k).entries, v);
        } else if v.DMap? {
          MergeSelf(v);
        }
      }
    }
    Extensionality(r1, r2);
  }

  // ---------------------------------------------------------------------------------------
  // The unique folder name of copy_chart_folder

  /** `os.path.join(base, name)` on POSIX. */
  function Join(base: string, name: string): string
  {
    if StartsWith(name, "/") then name
    else if base == [] || EndsWith(base, "/") then base + name
    else base + "/" + name
  }

  /** The folder name tried after `counter` failures: `name`, then `name_copy<counter>`. */
  function CandidateName(name: string, counter: nat): string
  {
    if counter == 0 then name else name + "_copy" + NatToString(counter)
  }

  function Candidate(base: string, name: string, counter: nat): string
  {
    Join(base, CandidateName(name, counter))
  }

  /** A renamed folder is absolute exactly when the original name is. */
  lemma CandidateHead(name: string, c: nat)
    ensures StartsWith(CandidateName(name, c), "/") <==> StartsWith(name, "/")
  {
    var x := CandidateName(name, c);
    if c != 0 {
      if name == [] {
        assert x[0] == '_';
      } else {
        assert x[0] == name[0];
      }
    }
  }

  /** No two tries give the same path. */
  lemma CandidatesDistinct(base: string, name: string, c1: nat, c2: nat)
    requires c1 != c2
    ensures Candidate(base, name, c1) != Candidate(base, name, c2)
  {
    var x1 := CandidateName(name, c1);
    var x2 := CandidateName(name, c2);
    assert x1 != x2 by {
      if c1 != 0 && c2 != 0 && x1 == x2 {
        var p := name + "_copy";
        assert x1 == p + NatToString(c1) && x2 == p + NatToString(c2);
        assert x1[|p|..] == NatToString(c1) && x2[|p|..] == NatToString(c2);
        NatToStringInjective(c1, c2);
      }
    }
    CandidateHead(name, c1);
    CandidateHead(name, c2);
    if !StartsWith(x1, "/") && !(base == [] || EndsWith(base, "/")) {
      assert Join(base, x1)[|base| + 1..] == x1 && Join(base, x2)[|base| + 1..] == x2;
    } else if !StartsWith(x1, "/") {
      assert Join(base, x1)[|base|..] == x1 && Join(base, x2)[|base|..] == x2;
    }
  }

  /** The loop of `copy_chart_folder` that picks the destination: it tries `name`,
      `name_copy1`, `name_copy2`, ... under `base` and stops at the first path that does not
      exist. It always stops, because only finitely many paths exist. */
  method UniqueFolderPath(base: string, name: string, existing: set<string>) returns (p: string, ghost tries: nat)
    ensures p == Candidate(base, name, tries) && p !in existing
    ensures forall c :: 0 <= c < tries ==> Candidate(base, name, c) in existing
  {
    p := Join(base, name);
    var counter := 1;
    ghost var seen: set<string> := {};
    while p in existing
      invariant 1 <= counter && p == Candidate(base, name, counter - 1)
      invariant forall c :: 0 <= c < counter - 1 ==> Candidate(base, name, c) in existing
      invariant seen == set c | 0 <= c < counter - 1 :: Candidate(base, name, c)
      invariant seen <= existing && |seen| == counter - 1
      decreases |existing| - |seen|
    {
      ghost var next := seen + {p};
      assert p !in seen by {
        forall c | 0 <= c < counter - 1 ensures Candidate(base, name, c) != p {
          CandidatesDistinct(base, name, c, counter - 1);
        }
      }
      assert next == set c | 0 <= c < counter :: Candidate(base, name, c);
      assert next <= existing;
      SubsetSize(next, existing);
      seen := next;
      p := Join(base, name + "_copy" + NatToString(counter));
      counter := counter + 1;
    }
    tries := counter - 1;
  }

  lemma SubsetSize(a: set<string>, b: set<string>)
    requires a <= b
    ensures |a| <= |b|
  {
    assert b == a + (b - a);
  }
}
