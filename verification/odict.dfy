/** Python dictionaries: insertion-ordered maps whose update keeps a key's first position. */
module OrderedDicts {
  import opened Wrappers

  /** The entries of a dict, in insertion order. */
  type Dict<K, V> = seq<(K, V)>

  function Keys<K(==,!new), V>(d: Dict<K, V>): (ks: seq<K>)
    ensures |ks| == |d| && forall i :: 0 <= i < |d| ==> ks[i] == d[i].0
  {
    if d == [] then [] else [d[0].0] + Keys(d[1..])
  }

  predicate UniqueKeys<K(==,!new), V>(d: Dict<K, V>) {
    forall i, j :: 0 <= i < j < |d| ==> d[i].0 != d[j].0
  }

  /** The position of key `k`, if present. */
  function IndexOf<K(==,!new), V>(d: Dict<K, V>, k: K): (r: Option<nat>)
    ensures r.Some? ==> r.value < |d| && d[r.value].0 == k && forall j :: 0 <= j < r.value ==> d[j].0 != k
    ensures r.None? ==> forall j :: 0 <= j < |d| ==> d[j].0 != k
  {
    if d == [] then None
    else if d[0].0 == k then Some(0)
    else match IndexOf(d[1..], k)
      case None => None
      case Some(i) => Some(i + 1)
  }

  /** `d.get(k)`. */
  function Get<K(==,!new), V>(d: Dict<K, V>, k: K): (r: Option<V>)
    ensures r.Some? <==> k in Keys(d)
  {
    match IndexOf(d, k)
    case None => None
    case Some(i) => Some(d[i].1)
  }

  /** `d[k] = v`: an existing key keeps its position, a new one goes last. */
  function Put<K(==,!new), V>(d: Dict<K, V>, k: K, v: V): (r: Dict<K, V>)
    ensures Get(r, k) == Some(v)
    ensures forall k' :: k' != k ==> Get(r, k') == Get(d, k')
    ensures Keys(r) == if k in Keys(d) then Keys(d) else Keys(d) + [k]
    ensures UniqueKeys(d) ==> UniqueKeys(r)
  {
    match IndexOf(d, k)
    case Some(i) => PutExisting(d, i, k, v); d[i := (k, v)]
    case None => PutNew(d, k, v); d + [(k, v)]
  }

  lemma SameKeys<K(!new), V>(d: Dict<K, V>, r: Dict<K, V>, k: K)
    requires |d| == |r| && forall j :: 0 <= j < |d| ==> d[j].0 == r[j].0
    ensures IndexOf(d, k) == IndexOf(r, k)
  {
    if d != [] && d[0].0 != k {
      SameKeys(d[1..], r[1..], k);
    }
  }

  lemma PutExisting<K(!new), V>(d: Dict<K, V>, i: nat, k: K, v: V)
    requires i < |d| && IndexOf(d, k) == Some(i)
    ensures Get(d[i := (k, v)], k) == Some(v)
    ensures forall k' :: k' != k ==> Get(d[i := (k, v)], k') == Get(d, k')
    ensures k in Keys(d) && Keys(d[i := (k, v)]) == Keys(d)
    ensures UniqueKeys(d) ==> UniqueKeys(d[i := (k, v)])
  {
    var r := d[i := (k, v)];
    forall k' ensures IndexOf(r, k') == IndexOf(d, k') {
      SameKeys(d, r, k');
    }
    assert Keys(d)[i] == k;
    assert Keys(r) == Keys(d) by {
      assert forall j :: 0 <= j < |d| ==> Keys(r)[j] == Keys(d)[j];
    }
  }

  lemma IndexOfAppend<K(!new), V>(d: Dict<K, V>, e: (K, V), k: K)
    ensures IndexOf(d + [e], k) ==
      if IndexOf(d, k).Some? then IndexOf(d, k) else if e.0 == k then Some(|d|) else None
  {
    if d != [] {
      assert (d + [e])[1..] == d[1..] + [e];
      IndexOfAppend(d[1..], e, k);
    }
  }

  lemma PutNew<K(!new), V>(d: Dict<K, V>, k: K, v: V)
    requires IndexOf(d, k) == None
    ensures Get(d + [(k, v)], k) == Some(v)
    ensures forall k' :: k' != k ==> Get(d + [(k, v)], k') == Get(d, k')
    ensures k !in Keys(d) && Keys(d + [(k, v)]) == Keys(d) + [k]
    ensures UniqueKeys(d) ==> UniqueKeys(d + [(k, v)])
  {
    var r := d + [(k, v)];
    forall k' ensures IndexOf(r, k') == if k' == k then Some(|d|) else IndexOf(d, k') {
      IndexOfAppend(d, (k, v), k');
    }
    assert Keys(r) == Keys(d) + [k];
  }

  /** Storing a new key appends it. */
  lemma PutAppends<K(!new), V>(d: Dict<K, V>, k: K, v: V)
    requires k !in Keys(d)
    ensures Put(d, k, v) == d + [(k, v)]
  {
    assert IndexOf(d, k) == None;
  }

  /** With distinct keys, the key at position `i` reads back its own value. */
  lemma GetAt<K(!new), V>(d: Dict<K, V>, i: nat)
    requires UniqueKeys(d) && i < |d|
    ensures Get(d, d[i].0) == Some(d[i].1)
  {
    var j := IndexOf(d, d[i].0).value;
    assert j == i by {
      if j < i {
        assert d[j].0 == d[i].0;
      }
    }
  }

  /** `d.setdefault(k, v)`: a present key is left as it is. */
  function SetDefault<K(==,!new), V>(d: Dict<K, V>, k: K, v: V): (r: Dict<K, V>)
    ensures k in Keys(d) ==> r == d
    ensures k !in Keys(d) ==> r == Put(d, k, v)
  {
    if k in Keys(d) then d else Put(d, k, v)
  }
}
