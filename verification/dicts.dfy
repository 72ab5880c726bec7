/** Python dictionaries, as the sequence of their items in iteration
    (insertion) order. A real dictionary never repeats a key; the operations
    below are total on any item sequence, and a repeated key reads as its
    last item, which is what iterating and assigning in order produces. */
module Dicts {
  import opened Wrappers

  type Dict<V> = seq<(string, V)>

  function Keys<V>(d: Dict<V>): set<string> {
    set i | 0 <= i < |d| :: d[i].0
  }

  /** No key occurs twice: the invariant every Python dictionary keeps. */
  predicate DistinctKeys<V>(d: Dict<V>) {
    forall i, j | 0 <= i < j < |d| :: d[i].0 != d[j].0
  }

  lemma KeysSnoc<V>(d: Dict<V>, item: (string, V))
    ensures Keys(d + [item]) == Keys(d) + {item.0}
  {
    var e := d + [item];
    assert forall i | 0 <= i < |d| :: e[i] == d[i];
    assert e[|d|] == item;
  }

  lemma KeysCons<V>(d: Dict<V>)
    requires |d| > 0
    ensures Keys(d) == {d[0].0} + Keys(d[1..])
  {
    assert forall i | 0 < i < |d| :: d[i] == d[1..][i - 1];
    assert forall i | 0 <= i < |d| - 1 :: d[1..][i] == d[i + 1];
  }

  /** What `d[k]` reads: the value of the last item whose key is `k`. */
  function Lookup<V>(d: Dict<V>, k: string): (r: Option<V>)
    ensures r.Some? <==> k in Keys(d)
    ensures r.Some? ==> exists i | 0 <= i < |d| :: d[i] == (k, r.value) && forall j | i < j < |d| :: d[j].0 != k
    decreases |d|
  {
    if |d| == 0 then None
    else
      var front := d[..|d| - 1];
      KeysSnoc(front, d[|d| - 1]);
      assert d == front + [d[|d| - 1]];
      if d[|d| - 1].0 == k then Some(d[|d| - 1].1)
      else
        var r := Lookup(front, k);
        assert r.Some? ==> exists i | 0 <= i < |front| :: d[i] == (k, r.value) && forall j | i < j < |d| :: d[j].0 != k;
        r
  }

  /** `d` with every item whose key is `k` given the value `v`, in place. */
  function Replace<V>(d: Dict<V>, k: string, v: V): (r: Dict<V>)
    ensures |r| == |d|
    ensures forall i | 0 <= i < |d| :: r[i] == if d[i].0 == k then (k, v) else d[i]
    decreases |d|
  {
    if |d| == 0 then []
    else
      var last := d[|d| - 1];
      Replace(d[..|d| - 1], k, v) + [if last.0 == k then (k, v) else last]
  }

  /** Python's `d[k] = v`: an existing key keeps its place and takes the new
      value; a new key is added at the end. */
  function Put<V>(d: Dict<V>, k: string, v: V): (r: Dict<V>)
    ensures Keys(r) == Keys(d) + {k}
    ensures Lookup(r, k) == Some(v)
    ensures forall k' | k' != k :: Lookup(r, k') == Lookup(d, k')
    ensures k in Keys(d) ==> |r| == |d| && forall i | 0 <= i < |d| :: r[i].0 == d[i].0
    ensures k !in Keys(d) ==> |r| == |d| + 1 && r[..|d|] == d
    ensures DistinctKeys(d) ==> DistinctKeys(r)
  {
    if k in Keys(d) then
      var r := Replace(d, k, v);
      assert Keys(r) == Keys(d);
      LookupReplace(d, k, v);
      r
    else
      var r := d + [(k, v)];
      KeysSnoc(d, (k, v));
      assert r[..|d|] == d;
      r
  }

  lemma {:induction false} LookupReplace<V>(d: Dict<V>, k: string, v: V)
    ensures Lookup(Replace(d, k, v), k) == if k in Keys(d) then Some(v) else None
    ensures forall k' | k' != k :: Lookup(Replace(d, k, v), k') == Lookup(d, k')
    decreases |d|
  {
    if |d| > 0 {
      var front := d[..|d| - 1];
      var r := Replace(d, k, v);
      assert r[..|d| - 1] == Replace(front, k, v);
      KeysSnoc(front, d[|d| - 1]);
      assert d == front + [d[|d| - 1]];
      LookupReplace(front, k, v);
    }
  }

  /** The items of `d` with each value passed through `f`; keys and order stay. */
  function MapValues<V, W>(d: Dict<V>, f: V -> W): (r: Dict<W>)
    ensures Keys(r) == Keys(d)
    ensures forall k :: Lookup(r, k) == match Lookup(d, k) case None => None case Some(v) => Some(f(v))
    ensures DistinctKeys(d) ==> DistinctKeys(r)
    decreases |d|
  {
    if |d| == 0 then []
    else
      var front := d[..|d| - 1];
      var last := d[|d| - 1];
      var r := MapValues(front, f) + [(last.0, f(last.1))];
      KeysSnoc(front, last);
      KeysSnoc(MapValues(front, f), (last.0, f(last.1)));
      assert d == front + [last];
      assert r[..|r| - 1] == MapValues(front, f);
      r
  }
}
