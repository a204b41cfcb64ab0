/** Result types shared by every module. */
module Common {
  datatype Option<+T> = None | Some(value: T)

  datatype Result<+T, +E> = Ok(value: T) | Err(error: E)

  /** Identifiers are compared for equality only. */
  type Uuid = nat
}

/** A Python dict, as the list of its items in insertion order. */
module OrderedDict {
  type Dict<K, V> = seq<(K, V)>

  ghost predicate DistinctKeys<K, V>(d: Dict<K, V>) {
    forall i, j :: 0 <= i < j < |d| ==> d[i].0 != d[j].0
  }

  /** d[k] = v: an existing key keeps its place, a new key goes last. */
  function Put<K(==), V>(d: Dict<K, V>, k: K, v: V): Dict<K, V> {
    if d == [] then [(k, v)]
    else if d[0].0 == k then [(k, v)] + d[1..]
    else [d[0]] + Put(d[1..], k, v)
  }

  function Keys<K, V>(d: Dict<K, V>): (ks: seq<K>)
    ensures |ks| == |d|
    ensures forall i :: 0 <= i < |d| ==> ks[i] == d[i].0
  {
    seq(|d|, i requires 0 <= i < |d| => d[i].0)
  }

  /** The lookup table behind the list. */
  function ToMap<K, V>(d: Dict<K, V>): map<K, V> {
    if d == [] then map[] else ToMap(d[1..])[d[0].0 := d[0].1]
  }

  lemma {:induction false} PutToMap<K, V>(d: Dict<K, V>, k: K, v: V)
    ensures ToMap(Put(d, k, v)) == ToMap(d)[k := v]
  {
    if d != [] && d[0].0 != k {
      var rest := Put(d[1..], k, v);
      PutToMap(d[1..], k, v);
      assert ([d[0]] + rest)[0] == d[0] && ([d[0]] + rest)[1..] == rest;
    } else if d != [] {
      assert ([(k, v)] + d[1..])[1..] == d[1..];
    }
  }

  lemma {:induction false} PutOld<K, V>(d: Dict<K, V>, k: K, v: V, i: nat)
    requires i < |d| && d[i].0 == k
    ensures Keys(Put(d, k, v)) == Keys(d)
  {
    if d[0].0 == k {
      assert Put(d, k, v) == [(k, v)] + d[1..];
    } else {
      PutOld(d[1..], k, v, i - 1);
      assert Put(d, k, v) == [d[0]] + Put(d[1..], k, v);
      assert Keys(Put(d, k, v)) == [d[0].0] + Keys(Put(d[1..], k, v));
    }
  }

  lemma PutKeys<K, V>(d: Dict<K, V>, k: K, v: V)
    ensures Keys(Put(d, k, v)) == if k in Keys(d) then Keys(d) else Keys(d) + [k]
  {
    if k in Keys(d) {
      var i :| 0 <= i < |Keys(d)| && Keys(d)[i] == k;
      PutOld(d, k, v, i);
    } else {
      PutNew(d, k, v);
    }
  }

  /** Put changes one entry of the lookup table and adds a key only when it is new. */
  lemma PutMeaning<K, V>(d: Dict<K, V>, k: K, v: V)
    ensures ToMap(Put(d, k, v)) == ToMap(d)[k := v]
    ensures Keys(Put(d, k, v)) == if k in Keys(d) then Keys(d) else Keys(d) + [k]
  {
    hide *;
    PutToMap(d, k, v);
    PutKeys(d, k, v);
  }

  lemma {:induction false} PutNew<K, V>(d: Dict<K, V>, k: K, v: V)
    requires k !in Keys(d)
    ensures Put(d, k, v) == d + [(k, v)]
  {
    if d != [] {
      var rest := d[1..];
      assert Keys(d)[0] == d[0].0;
      forall i | 0 <= i < |Keys(rest)|
        ensures Keys(rest)[i] != k
      {
        assert Keys(d)[i + 1] == d[i + 1].0 == rest[i].0;
      }
      PutNew(rest, k, v);
      assert d == [d[0]] + rest;
    }
  }

  lemma PutKeepsDistinct<K, V>(d: Dict<K, V>, k: K, v: V)
    requires DistinctKeys(d)
    ensures DistinctKeys(Put(d, k, v))
  {
    PutMeaning(d, k, v);
    var e := Put(d, k, v);
    forall i, j | 0 <= i < j < |e|
      ensures e[i].0 != e[j].0
    {
      assert Keys(e)[i] == e[i].0 && Keys(e)[j] == e[j].0;
      assert i < |d| ==> Keys(d)[i] == d[i].0;
    }
  }

  /** The table holds exactly the listed keys. */
  lemma {:induction false} ToMapKeys<K, V>(d: Dict<K, V>)
    ensures forall k :: k in ToMap(d) <==> k in Keys(d)
  {
    if d != [] {
      assert Keys(d) == [d[0].0] + Keys(d[1..]);
      ToMapKeys(d[1..]);
    }
  }

  /** With distinct keys every item is found under its own key. */
  lemma {:induction false} ToMapAt<K, V>(d: Dict<K, V>, i: nat)
    requires DistinctKeys(d) && i < |d|
    ensures d[i].0 in ToMap(d) && ToMap(d)[d[i].0] == d[i].1
  {
    if i > 0 {
      assert d[1..][i - 1] == d[i];
      ToMapAt(d[1..], i - 1);
    }
  }

  /** With distinct keys the last item may as well have been put. */
  lemma ToMapLast<K, V>(d: Dict<K, V>)
    requires d != [] && DistinctKeys(d)
    ensures var last := d[|d| - 1]; ToMap(d) == ToMap(d[..|d| - 1])[last.0 := last.1]
  {
    hide ToMap;
    var init, last := d[..|d| - 1], d[|d| - 1];
    forall i | 0 <= i < |init|
      ensures Keys(init)[i] != last.0
    {
      assert Keys(init)[i] == d[i].0;
    }
    PutNew(init, last.0, last.1);
    PutToMap(init, last.0, last.1);
    assert d == init + [(last.0, last.1)];
  }
}
