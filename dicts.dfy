/**
  Python's `dict` with string keys, as the cursor code uses it: an
  insertion-ordered list of entries. Assigning to a present key replaces its
  value in place; assigning to a new key appends an entry.
 */
module Dicts {
  import opened Wrappers

  type Dict<V> = seq<(string, V)>

  function Keys<V>(d: Dict<V>): (ks: seq<string>)
    ensures |ks| == |d|
    ensures forall i :: 0 <= i < |d| ==> ks[i] == d[i].0
  {
    if d == [] then [] else [d[0].0] + Keys(d[1..])
  }

  lemma KeysAppend<V>(a: Dict<V>, b: Dict<V>)
    ensures Keys(a + b) == Keys(a) + Keys(b)
  {
  }

  predicate DistinctKeys<V>(d: Dict<V>)
  {
    forall i, j :: 0 <= i < j < |d| ==> d[i].0 != d[j].0
  }

  /** `d.get(k)`: the value stored under `k`, if any. */
  function Get<V>(d: Dict<V>, k: string): (r: Option<V>)
    ensures r.None? <==> k !in Keys(d)
    ensures r.Some? ==> (k, r.value) in d
  {
    if d == [] then None
    else if d[0].0 == k then Some(d[0].1)
    else Get(d[1..], k)
  }

  /** `d[k] = v`: a new key goes to the end, a present one keeps its place. */
  function Put<V>(d: Dict<V>, k: string, v: V): (r: Dict<V>)
    ensures k !in Keys(d) ==> r == d + [(k, v)]
    ensures k in Keys(d) ==> Keys(r) == Keys(d)
  {
    if d == [] then [(k, v)]
    else if d[0].0 == k then [(k, v)] + d[1..]
    else [d[0]] + Put(d[1..], k, v)
  }

  /** After `d[k] = v`, `k` maps to `v` and every other key to what it did before. */
  lemma {:induction false} PutGet<V>(d: Dict<V>, k: string, v: V, other: string)
    ensures Get(Put(d, k, v), k) == Some(v)
    ensures other != k ==> Get(Put(d, k, v), other) == Get(d, other)
  {
    if d != [] && d[0].0 != k {
      PutGet(d[1..], k, v, other);
      assert Put(d, k, v)[1..] == Put(d[1..], k, v);
    }
  }

  /** Assignment never duplicates a key. */
  lemma PutDistinct<V>(d: Dict<V>, k: string, v: V)
    requires DistinctKeys(d)
    ensures DistinctKeys(Put(d, k, v))
  {
    var r := Put(d, k, v);
    if k in Keys(d) {
      assert forall i :: 0 <= i < |r| ==> r[i].0 == Keys(r)[i] == Keys(d)[i] == d[i].0;
    } else {
      assert forall i :: 0 <= i < |d| ==> d[i].0 == Keys(d)[i] != k;
    }
  }

  /** With distinct keys, every entry is what `Get` finds under its key. */
  lemma {:induction false} GetEntry<V>(d: Dict<V>, j: nat)
    requires DistinctKeys(d) && j < |d|
    ensures Get(d, d[j].0) == Some(d[j].1)
  {
    if j > 0 {
      assert d[0].0 != d[j].0;
      assert d[1..][j - 1] == d[j];
      GetEntry(d[1..], j - 1);
    }
  }

  /** Assignment adds its key to the keys and removes none. */
  lemma PutKeys<V>(d: Dict<V>, k: string, v: V)
    ensures forall key :: key in Keys(Put(d, k, v)) <==> key in Keys(d) || key == k
  {
    if k !in Keys(d) {
      KeysAppend(d, [(k, v)]);
    }
  }

  /** The keys of a dict are those of all its entries but the last, and the last one's. */
  lemma KeysDropLast<V>(d: Dict<V>)
    requires d != []
    ensures forall k :: k in Keys(d) <==> k in Keys(d[..|d| - 1]) || k == d[|d| - 1].0
  {
    var front := d[..|d| - 1];
    assert d == front + [d[|d| - 1]];
    KeysAppend(front, [d[|d| - 1]]);
  }
}
