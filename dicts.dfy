/** Python's insertion-ordered dictionary with string keys, as a sequence of
    (key, value) pairs. Assigning `d[k] = v` overwrites the value in place when
    `k` is present and appends the pair otherwise, so iteration order is the
    order in which keys were first inserted. */
module Dicts {
  import opened Wrappers

  type Dict<V> = seq<(string, V)>

  /** `d.get(k)`. */
  function Get<V>(d: Dict<V>, k: string): Option<V>
    decreases |d|
  {
    if |d| == 0 then None
    else if d[0].0 == k then Some(d[0].1)
    else Get(d[1..], k)
  }

  /** No key appears twice. */
  predicate UniqueKeys<V>(d: Dict<V>)
    decreases |d|
  {
    |d| == 0 || (Get(d[1..], d[0].0).None? && UniqueKeys(d[1..]))
  }

  /** `d[k] = v`: a new key is appended at the end; a present key keeps its
      position and only its value changes. */
  function Put<V>(d: Dict<V>, k: string, v: V): (r: Dict<V>)
    ensures Get(r, k) == Some(v)
    ensures forall k' :: k' != k ==> Get(r, k') == Get(d, k')
    ensures UniqueKeys(d) ==> UniqueKeys(r)
    ensures |d| > 0 ==> |r| > 0 && r[0].0 == d[0].0
    ensures |r| == if Get(d, k).Some? then |d| else |d| + 1
    ensures forall i :: 0 <= i < |r| ==> r[i] == (k, v) || r[i] in d
    ensures Get(d, k).None? ==> r == d + [(k, v)]
    ensures Get(d, k).Some? ==> forall i :: 0 <= i < |d| && d[i].0 != k ==> r[i] == d[i]
    decreases |d|
  {
    if |d| == 0 then [(k, v)]
    else if d[0].0 == k then [(k, v)] + d[1..]
    else [d[0]] + Put(d[1..], k, v)
  }

  /** The key at each position of a dictionary finds the value stored there,
      once keys are unique. */
  lemma {:induction false} GetAt<V>(d: Dict<V>, i: nat)
    requires UniqueKeys(d) && i < |d|
    ensures Get(d, d[i].0) == Some(d[i].1)
    decreases i
  {
    if i > 0 {
      GetAt(d[1..], i - 1);
      assert d[1..][i - 1] == d[i];
    }
  }
}
