/** The anchor index `_collect_anchors` builds over a target document before the merge:
    a depth-first, pre-order walk that records every mapping value and sequence item whose
    anchor name is non-empty. */
module Anchors {
  import opened Base
  import opened Yaml
  import opened Target

  /** The record one visited object contributes: its anchor name and itself. */
  function Named(a: Arena, s: Slot): seq<(string, Slot)>
    requires InRange(a, s)
  {
    var n := AnchorName(a, s);
    if Truthy(n) then [(n.value, s)] else []
  }

  /** The `(name, object)` pairs `_collect_anchors(s, ...)` stores, in the order it stores
      them. The object `s` itself is not among them. */
  function AnchorPairs(a: Arena, s: Slot): seq<(string, Slot)>
    requires Acyclic(a) && InRange(a, s)
    decreases Rank(s), 1, 0
  {
    match s
    case Ref(h) =>
      forall i | 0 <= i < |Children(a[h].body)| ensures Rank(Children(a[h].body)[i]) < h + 1 {
        ChildRank(a, h, i);
      }
      ChildPairs(a, Children(a[h].body), h + 1)
    case Val(y) => ValuePairs(y, Arity(y))
  }

  /** The pairs stored while visiting the children `cs`, in order. */
  function ChildPairs(a: Arena, cs: seq<Slot>, bound: nat): seq<(string, Slot)>
    requires Acyclic(a) && bound <= |a| + 1
    requires forall i :: 0 <= i < |cs| ==> Rank(cs[i]) < bound
    decreases bound, 0, |cs|
  {
    if cs == [] then []
    else
      var c := cs[|cs| - 1];
      assert Rank(c) < bound;
      ChildPairs(a, cs[..|cs| - 1], bound) + Named(a, c) + AnchorPairs(a, c)
  }

  /** The number of children of a plain object: a mapping's values or a sequence's items. */
  function Arity(y: YValue): nat
  {
    match y
    case YMap(es, _) => |es|
    case YSeq(items, _) => |items|
    case _ => 0
  }

  /** The pairs stored while visiting the first `n` children of a plain object in the
      document (a value an earlier write put there). */
  function ValuePairs(y: YValue, n: nat): seq<(string, Slot)>
    requires n <= Arity(y)
    decreases y, n
  {
    if n == 0 then []
    else
      var c := match y case YMap(es, _) => es[n - 1].1 case YSeq(items, _) => items[n - 1];
      ValuePairs(y, n - 1) + OwnPair(c) + ValuePairs(c, Arity(c))
  }

  /** The record of a plain object's `i`-th child. */
  function OwnPair(c: YValue): seq<(string, Slot)>
  {
    var name := AnchorNameOf(c);
    if Truthy(name) then [(name.value, Val(c))] else []
  }

  /** Storing the pairs one after another into a dictionary: a later pair overwrites an
      earlier one with the same name. */
  function Record(m: map<string, Slot>, ps: seq<(string, Slot)>): map<string, Slot>
    decreases |ps|
  {
    if ps == [] then m else Record(m[ps[0].0 := ps[0].1], ps[1..])
  }

  lemma {:induction false} RecordConcat(m: map<string, Slot>, p: seq<(string, Slot)>, q: seq<(string, Slot)>)
    ensures Record(m, p + q) == Record(Record(m, p), q)
    decreases |p|
  {
    if p != [] {
      assert (p + q)[1..] == p[1..] + q;
      RecordConcat(m[p[0].0 := p[0].1], p[1..], q);
    } else {
      assert p + q == q;
    }
  }

  /** Visiting one more child of a plain object stores its own record, then its subtree's. */
  lemma ValuePairsStep(m0: map<string, Slot>, y: YValue, i: nat, m: map<string, Slot>, m': map<string, Slot>)
    requires i < Arity(y) && m == Record(m0, ValuePairs(y, i))
    requires var c := match y case YMap(es, _) => es[i].1 case YSeq(items, _) => items[i];
      m' == Record(Record(m, OwnPair(c)), ValuePairs(c, Arity(c)))
    ensures m' == Record(m0, ValuePairs(y, i + 1))
  {
    var c := match y case YMap(es, _) => es[i].1 case YSeq(items, _) => items[i];
    RecordConcat(m0, ValuePairs(y, i), OwnPair(c));
    RecordConcat(m0, ValuePairs(y, i) + OwnPair(c), ValuePairs(c, Arity(c)));
  }

  /** Storing an object's own record is storing it under its anchor name, if it has one. */
  lemma RecordOwn(m: map<string, Slot>, c: YValue)
    ensures Record(m, OwnPair(c)) == if Truthy(AnchorNameOf(c)) then m[AnchorNameOf(c).value := Val(c)] else m
  {
  }

  /** Visiting one more child of a node stores its own record, then its subtree's. */
  lemma ChildPairsStep(m: map<string, Slot>, a: Arena, cs: seq<Slot>, bound: nat, i: nat)
    requires Acyclic(a) && bound <= |a| + 1 && i < |cs|
    requires forall j :: 0 <= j < |cs| ==> Rank(cs[j]) < bound
    ensures Record(m, ChildPairs(a, cs[..i + 1], bound)) ==
      Record(Record(Record(m, ChildPairs(a, cs[..i], bound)), Named(a, cs[i])), AnchorPairs(a, cs[i]))
  {
    assert cs[..i + 1][..i] == cs[..i];
    RecordConcat(m, ChildPairs(a, cs[..i], bound), Named(a, cs[i]));
    RecordConcat(m, ChildPairs(a, cs[..i], bound) + Named(a, cs[i]), AnchorPairs(a, cs[i]));
  }

  /** The index after storing `ps` into `m`: a name is present when it was in `m` or some
      pair carries it, and then it maps to the LAST such pair's object. */
  lemma {:induction false} RecordLookup(m: map<string, Slot>, ps: seq<(string, Slot)>, k: string)
    ensures k in Record(m, ps) <==> k in m || exists i :: 0 <= i < |ps| && ps[i].0 == k
    ensures (forall i :: 0 <= i < |ps| ==> ps[i].0 != k) && k in m ==> Record(m, ps)[k] == m[k]
    ensures forall i :: 0 <= i < |ps| && ps[i].0 == k && (forall j :: i < j < |ps| ==> ps[j].0 != k) ==>
      Record(m, ps)[k] == ps[i].1
    decreases |ps|
  {
    if ps != [] {
      var m' := m[ps[0].0 := ps[0].1];
      RecordLookup(m', ps[1..], k);
      assert forall i :: 0 < i < |ps| ==> ps[i] == ps[1..][i - 1];
      if exists i :: 0 <= i < |ps[1..]| && ps[1..][i].0 == k {
        var i :| 0 <= i < |ps[1..]| && ps[1..][i].0 == k;
        assert ps[i + 1].0 == k;
      }
    }
  }

  /** Every stored pair names an object by its own non-empty anchor name, and every stored
      node lies strictly below the walk's start, which is therefore never stored itself. */
  predicate PairsSound(a: Arena, ps: seq<(string, Slot)>, bound: nat)
  {
    forall i :: 0 <= i < |ps| ==>
      ps[i].0 != "" && Below(ps[i].1, bound) && InRange(a, ps[i].1) &&
      AnchorName(a, ps[i].1) == Some(ps[i].0)
  }

  lemma {:induction false} AnchorPairsSound(a: Arena, s: Slot)
    requires Acyclic(a) && InRange(a, s)
    ensures PairsSound(a, AnchorPairs(a, s), if s.Ref? then s.h else 0)
    ensures s.Ref? ==> forall i :: 0 <= i < |AnchorPairs(a, s)| ==> AnchorPairs(a, s)[i].1 != s
    decreases Rank(s), 1, 0
  {
    match s {
      case Ref(h) =>
        forall i | 0 <= i < |Children(a[h].body)| ensures Rank(Children(a[h].body)[i]) < h + 1 {
          ChildRank(a, h, i);
        }
        ChildPairsSound(a, Children(a[h].body), h + 1);
      case Val(y) =>
        ValuePairsSound(a, y, Arity(y));
    }
  }

  lemma {:induction false} ChildPairsSound(a: Arena, cs: seq<Slot>, bound: nat)
    requires Acyclic(a) && 1 <= bound <= |a| + 1
    requires forall i :: 0 <= i < |cs| ==> Rank(cs[i]) < bound
    ensures PairsSound(a, ChildPairs(a, cs, bound), bound - 1)
    decreases bound, 0, |cs|
  {
    if cs != [] {
      var c := cs[|cs| - 1];
      ChildPairsSound(a, cs[..|cs| - 1], bound);
      AnchorPairsSound(a, c);
    }
  }

  lemma {:induction false} ValuePairsSound(a: Arena, y: YValue, n: nat)
    requires n <= Arity(y)
    ensures PairsSound(a, ValuePairs(y, n), 0)
    decreases y, n
  {
    if n > 0 {
      var c := match y case YMap(es, _) => es[n - 1].1 case YSeq(items, _) => items[n - 1];
      ValuePairsSound(a, y, n - 1);
      ValuePairsSound(a, c, Arity(c));
      PairsSoundConcat(a, ValuePairs(y, n - 1), OwnPair(c), 0);
      PairsSoundConcat(a, ValuePairs(y, n - 1) + OwnPair(c), ValuePairs(c, Arity(c)), 0);
    }
  }

  lemma PairsSoundConcat(a: Arena, p: seq<(string, Slot)>, q: seq<(string, Slot)>, bound: nat)
    requires PairsSound(a, p, bound) && PairsSound(a, q, bound)
    ensures PairsSound(a, p + q, bound)
  {
    assert forall i :: |p| <= i < |p + q| ==> (p + q)[i] == q[i - |p|];
  }

  /** Storing sound pairs keeps every entry of the index inside the document. */
  lemma {:induction false} RecordInRange(a: Arena, m: map<string, Slot>, ps: seq<(string, Slot)>, bound: nat)
    requires forall k :: k in m ==> InRange(a, m[k])
    requires PairsSound(a, ps, bound)
    ensures forall k :: k in Record(m, ps) ==> InRange(a, Record(m, ps)[k])
    decreases |ps|
  {
    if ps != [] {
      assert forall i :: 0 <= i < |ps[1..]| ==> ps[1..][i] == ps[i + 1];
      RecordInRange(a, m[ps[0].0 := ps[0].1], ps[1..], bound);
    }
  }

  /** The index `update_yaml_from_wrapped_data` builds for a freshly loaded document. */
  function AnchorIndex(doc: Document): map<string, Slot>
    requires ValidDocument(doc)
  {
    Record(map[], Pairs(doc))
  }

  /** The pairs the walk over a whole document stores. */
  function Pairs(doc: Document): seq<(string, Slot)>
    requires ValidDocument(doc)
  {
    AnchorPairs(doc.nodes, doc.root)
  }

  /** A name is in the index exactly when some object below the root carries it; it maps to
      the last such object in document order; and every entry is an object of the
      document carrying that very name. */
  lemma AnchorIndexSpec(doc: Document, k: string)
    requires ValidDocument(doc)
    ensures k in AnchorIndex(doc) <==> exists i :: 0 <= i < |Pairs(doc)| && Pairs(doc)[i].0 == k
    ensures forall i ::
      0 <= i < |Pairs(doc)| && Pairs(doc)[i].0 == k && (forall j :: i < j < |Pairs(doc)| ==> Pairs(doc)[j].0 != k)
      ==> AnchorIndex(doc)[k] == Pairs(doc)[i].1
    ensures k in AnchorIndex(doc) ==>
      k != "" && InRange(doc.nodes, AnchorIndex(doc)[k]) &&
      AnchorName(doc.nodes, AnchorIndex(doc)[k]) == Some(k) &&
      (doc.root.Ref? ==> AnchorIndex(doc)[k] != doc.root)
  {
    var ps := Pairs(doc);
    RecordLookup(map[], ps, k);
    AnchorPairsSound(doc.nodes, doc.root);
    if k in AnchorIndex(doc) {
      var i0 :| 0 <= i0 < |ps| && ps[i0].0 == k;
      LastWith(ps, k, i0);
      var l :| i0 <= l < |ps| && ps[l].0 == k && forall j :: l < j < |ps| ==> ps[j].0 != k;
      assert AnchorIndex(doc)[k] == ps[l].1;
    }
  }

  /** If some pair carries `k`, a last one does. */
  lemma {:induction false} LastWith(ps: seq<(string, Slot)>, k: string, i: nat)
    requires i < |ps| && ps[i].0 == k
    ensures exists l :: i <= l < |ps| && ps[l].0 == k && forall j :: l < j < |ps| ==> ps[j].0 != k
    decreases |ps| - i
  {
    if exists j :: i < j < |ps| && ps[j].0 == k {
      var j :| i < j < |ps| && ps[j].0 == k;
      LastWith(ps, k, j);
    }
  }
}
