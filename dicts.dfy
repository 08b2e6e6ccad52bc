/**
 * Python's `dict` as the program uses it: keys kept in insertion order, an
 * assignment to an existing key replaces its value in place, and a dict built
 * from a list of pairs (`dict(zip(...))`, a dict comprehension or a dict
 * display) keeps the first position and the last value of a repeated key.
 */
module Dicts {
  import opened Wrappers

  /** A dict as the sequence of its items, in insertion order. */
  type Dict<K, V> = seq<(K, V)>

  predicate DistinctKeys<K(==), V>(d: Dict<K, V>)
  {
    forall i, j :: 0 <= i < j < |d| ==> d[i].0 != d[j].0
  }

  predicate HasKey<K(==), V>(d: Dict<K, V>, k: K)
  {
    exists i :: 0 <= i < |d| && d[i].0 == k
  }

  /** Position of the first item whose key is `k`, or `|d|` if there is none. */
  function IndexOf<K(==), V>(d: Dict<K, V>, k: K): (r: nat)
    ensures r <= |d|
    ensures r < |d| ==> d[r].0 == k
    ensures forall j :: 0 <= j < r ==> d[j].0 != k
  {
    if d == [] then 0
    else if d[0].0 == k then 0
    else 1 + IndexOf(d[1..], k)
  }

  /** The three properties of IndexOf determine it. */
  lemma IndexOfUnique<K, V>(d: Dict<K, V>, k: K, m: nat)
    requires m <= |d| && (m < |d| ==> d[m].0 == k)
    requires forall j :: 0 <= j < m ==> d[j].0 != k
    ensures IndexOf(d, k) == m
  {
  }

  /** `d.get(k)`. */
  function Get<K(==), V>(d: Dict<K, V>, k: K): (r: Option<V>)
    ensures r.Some? <==> HasKey(d, k)
    ensures DistinctKeys(d) ==> forall i :: 0 <= i < |d| && d[i].0 == k ==> r == Some(d[i].1)
  {
    var i := IndexOf(d, k);
    if i < |d| then Some(d[i].1) else None
  }

  /** Writing a new value over the first item with key `k` changes only what `k` maps to. */
  lemma ReplaceKeepsOthers<K(!new), V>(d: Dict<K, V>, k: K, v: V)
    requires IndexOf(d, k) < |d|
    ensures Get(d[IndexOf(d, k) := (k, v)], k) == Some(v)
    ensures forall k' :: k' != k ==> Get(d[IndexOf(d, k) := (k, v)], k') == Get(d, k')
    ensures forall k' :: HasKey(d[IndexOf(d, k) := (k, v)], k') <==> HasKey(d, k')
  {
    var r := d[IndexOf(d, k) := (k, v)];
    ReplaceIndexOf(d, k, v);
    forall k' ensures HasKey(r, k') <==> HasKey(d, k') {
      assert Get(r, k').Some? <==> Get(d, k').Some?;
    }
  }

  /** Overwriting the first item with key `k` by another item with key `k` moves no key's first position. */
  lemma ReplaceIndexOf<K(!new), V>(d: Dict<K, V>, k: K, v: V)
    requires IndexOf(d, k) < |d|
    ensures forall k' :: IndexOf(d[IndexOf(d, k) := (k, v)], k') == IndexOf(d, k')
  {
    var r := d[IndexOf(d, k) := (k, v)];
    forall k' ensures IndexOf(r, k') == IndexOf(d, k') {
      IndexOfUnique(r, k', IndexOf(d, k'));
    }
  }

  /** Appending an item whose key is not yet present adds that key and changes nothing else. */
  lemma AppendKeepsOthers<K(!new), V>(d: Dict<K, V>, k: K, v: V)
    requires IndexOf(d, k) == |d|
    ensures Get(d + [(k, v)], k) == Some(v)
    ensures forall k' :: k' != k ==> Get(d + [(k, v)], k') == Get(d, k')
    ensures forall k' :: HasKey(d + [(k, v)], k') <==> HasKey(d, k') || k' == k
  {
    var r := d + [(k, v)];
    IndexOfUnique(r, k, |d|);
    forall k' | k' != k ensures IndexOf(r, k') == if IndexOf(d, k') < |d| then IndexOf(d, k') else |r| {
      if IndexOf(d, k') < |d| {
        IndexOfUnique(r, k', IndexOf(d, k'));
      } else {
        IndexOfUnique(r, k', |r|);
      }
    }
    forall k' ensures HasKey(r, k') <==> HasKey(d, k') || k' == k {
      assert Get(r, k').Some? <==> HasKey(r, k');
      assert Get(d, k').Some? <==> HasKey(d, k');
    }
  }

  /** `d[k] = v`: a new key goes to the end, an existing one keeps its place. */
  function Put<K(==), V>(d: Dict<K, V>, k: K, v: V): Dict<K, V>
  {
    var i := IndexOf(d, k);
    if i < |d| then d[i := (k, v)] else d + [(k, v)]
  }

  /**
   * After `d[k] = v`, `k` maps to `v`, every other key keeps its value, the keys are those of `d`
   * and `k`, no key is listed twice, and the dict grows only when `k` is new.
   */
  lemma PutSpec<K(!new), V>(d: Dict<K, V>, k: K, v: V)
    ensures DistinctKeys(d) ==> DistinctKeys(Put(d, k, v))
    ensures Get(Put(d, k, v), k) == Some(v)
    ensures forall k' :: k' != k ==> Get(Put(d, k, v), k') == Get(d, k')
    ensures forall k' :: HasKey(Put(d, k, v), k') <==> HasKey(d, k') || k' == k
    ensures forall j :: 0 <= j < |Put(d, k, v)| ==> Put(d, k, v)[j] in d || Put(d, k, v)[j] == (k, v)
    ensures |Put(d, k, v)| == if HasKey(d, k) then |d| else |d| + 1
  {
    if IndexOf(d, k) < |d| {
      ReplaceKeepsOthers(d, k, v);
    } else {
      AppendKeepsOthers(d, k, v);
    }
  }

  /** The keys of a list of pairs are those of all but its last pair, and the last pair's. */
  lemma HasKeyInit<K(!new), V>(ps: seq<(K, V)>)
    requires ps != []
    ensures forall k :: HasKey(ps, k) <==> HasKey(ps[..|ps| - 1], k) || ps[|ps| - 1].0 == k
  {
    var init := ps[..|ps| - 1];
    forall k ensures HasKey(ps, k) <==> HasKey(init, k) || ps[|ps| - 1].0 == k {
      if HasKey(init, k) {
        var i :| 0 <= i < |init| && init[i].0 == k;
        assert ps[i].0 == k;
      }
      if HasKey(ps, k) && ps[|ps| - 1].0 != k {
        var i :| 0 <= i < |ps| && ps[i].0 == k;
        assert init[i].0 == k;
      }
    }
  }

  /** `dict(pairs)`: the pairs are assigned one after the other. */
  function FromPairs<K(==), V>(ps: seq<(K, V)>): Dict<K, V>
  {
    if ps == [] then []
    else
      var last := ps[|ps| - 1];
      Put(FromPairs(ps[..|ps| - 1]), last.0, last.1)
  }

  /** `dict(pairs)` lists every key of the pairs once, and each of its items is one of the pairs. */
  lemma {:induction false} FromPairsItems<K(!new), V>(ps: seq<(K, V)>)
    ensures DistinctKeys(FromPairs(ps))
    ensures forall k :: HasKey(FromPairs(ps), k) <==> HasKey(ps, k)
    ensures forall j :: 0 <= j < |FromPairs(ps)| ==> FromPairs(ps)[j] in ps
  {
    if ps != [] {
      var init := ps[..|ps| - 1];
      FromPairsItems(init);
      HasKeyInit(ps);
      PutSpec(FromPairs(init), ps[|ps| - 1].0, ps[|ps| - 1].1);
      var d := FromPairs(init);
      var r := FromPairs(ps);
      forall j | 0 <= j < |r| ensures r[j] in ps {
        if r[j] in d {
          var i :| 0 <= i < |init| && init[i] == r[j];
          assert ps[i] == r[j];
        }
      }
    }
  }

  /** A repeated key ends up with the value of its LAST pair. */
  lemma {:induction false} FromPairsLastWins<K(!new), V>(ps: seq<(K, V)>, j: nat)
    requires j < |ps|
    requires forall j' :: j < j' < |ps| ==> ps[j'].0 != ps[j].0
    ensures Get(FromPairs(ps), ps[j].0) == Some(ps[j].1)
  {
    var init := ps[..|ps| - 1];
    PutSpec(FromPairs(init), ps[|ps| - 1].0, ps[|ps| - 1].1);
    if j < |ps| - 1 {
      FromPairsLastWins(init, j);
    }
  }

  /** Pairs with distinct keys build the dict that lists exactly them, in the same order. */
  lemma {:induction false} FromDistinctPairs<K(!new), V>(ps: seq<(K, V)>)
    requires DistinctKeys(ps)
    ensures FromPairs(ps) == ps
  {
    if ps != [] {
      var init := ps[..|ps| - 1];
      FromDistinctPairs(init);
      assert !HasKey(init, ps[|ps| - 1].0);
      assert IndexOf(init, ps[|ps| - 1].0) == |init|;
      assert init + [ps[|ps| - 1]] == ps;
    }
  }
}
