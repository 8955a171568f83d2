/** Python's insertion-ordered `dict` with string keys, as a sequence of key/value pairs. */
module Dicts {

  function Keys<V>(es: seq<(string, V)>): (ks: seq<string>)
    ensures |ks| == |es|
    ensures forall i :: 0 <= i < |es| ==> ks[i] == es[i].0
  {
    seq(|es|, i requires 0 <= i < |es| => es[i].0)
  }

  /** A real dict never holds a key twice. */
  predicate UniqueKeys<V>(es: seq<(string, V)>)
  {
    forall i, j :: 0 <= i < j < |es| ==> es[i].0 != es[j].0
  }

  /** Where `k` sits in the dict's order. */
  function IndexOf<V>(es: seq<(string, V)>, k: string): (i: nat)
    requires k in Keys(es)
    ensures i < |es| && es[i].0 == k
    ensures forall j :: 0 <= j < i ==> es[j].0 != k
  {
    if es[0].0 == k then 0 else IndexOf(es[1..], k) + 1
  }

  /** `d[k]` for a key that is present. */
  function Get<V>(es: seq<(string, V)>, k: string): V
    requires k in Keys(es)
  {
    es[IndexOf(es, k)].1
  }

  /** `d[k] = v`: an existing key keeps its place, a new key goes last. */
  function Set<V>(es: seq<(string, V)>, k: string, v: V): (r: seq<(string, V)>)
    ensures k in Keys(es) ==> Keys(r) == Keys(es)
    ensures k !in Keys(es) ==> Keys(r) == Keys(es) + [k]
  {
    if k in Keys(es) then
      var r := es[IndexOf(es, k) := (k, v)];
      assert Keys(r) == Keys(es);
      r
    else
      var r := es + [(k, v)];
      assert Keys(r) == Keys(es) + [k];
      r
  }

  lemma UniqueIndex<V>(es: seq<(string, V)>, i: nat)
    requires UniqueKeys(es) && i < |es|
    ensures es[i].0 in Keys(es) && IndexOf(es, es[i].0) == i
  {
    assert Keys(es)[i] == es[i].0;
  }

  /** After `d[k] = v`: `d[k]` is `v`, every other key reads as before, and no key repeats. */
  lemma SetGet<V>(es: seq<(string, V)>, k: string, v: V, k': string)
    requires UniqueKeys(es)
    ensures UniqueKeys(Set(es, k, v))
    ensures k' in Keys(Set(es, k, v)) <==> k' == k || k' in Keys(es)
    ensures k' == k ==> Get(Set(es, k, v), k') == v
    ensures k' != k && k' in Keys(es) ==> Get(Set(es, k, v), k') == Get(es, k')
  {
    var r := Set(es, k, v);
    assert k' in Keys(r) ==> k' == k || k' in Keys(es);
    if k' in Keys(r) {
      var i := IndexOf(r, k');
      UniqueIndex(r, i);
      if k' != k {
        var j := IndexOf(es, k');
        assert r[j] == es[j];
        UniqueIndex(r, j);
      } else {
        if k in Keys(es) {
          UniqueIndex(r, IndexOf(es, k));
        } else {
          UniqueIndex(r, |es|);
        }
      }
    }
  }

  /** Two dicts with unique keys are equal when they list the same keys in the same order
      and agree on every key. */
  lemma Extensionality<V>(a: seq<(string, V)>, b: seq<(string, V)>)
    requires UniqueKeys(a) && Keys(a) == Keys(b)
    requires forall k :: k in Keys(a) ==> Get(a, k) == Get(b, k)
    ensures a == b
  {
    assert UniqueKeys(b) by {
      forall i, j | 0 <= i < j < |b| ensures b[i].0 != b[j].0 {
        assert Keys(b)[i] == Keys(a)[i] && Keys(b)[j] == Keys(a)[j];
      }
    }
    forall i | 0 <= i < |a| ensures a[i] == b[i] {
      assert Keys(a)[i] == Keys(b)[i];
      UniqueIndex(a, i);
      UniqueIndex(b, i);
      assert Get(a, a[i].0) == Get(b, a[i].0);
    }
  }
}
