/** Python's insertion-ordered `dict` (and `OrderedDict`) with string keys, as a sequence
    of entries: assigning to a present key replaces its value in place, assigning to a new
    key appends it. */
module OrderedDicts {
  import opened Results

  type Dict<V> = seq<(string, V)>

  function Keys<V>(d: Dict<V>): (ks: seq<string>)
    ensures |ks| == |d|
    ensures forall i :: 0 <= i < |d| ==> ks[i] == d[i].0
  {
    seq(|d|, i requires 0 <= i < |d| => d[i].0)
  }

  function Values<V>(d: Dict<V>): (vs: seq<V>)
    ensures |vs| == |d|
    ensures forall i :: 0 <= i < |d| ==> vs[i] == d[i].1
  {
    seq(|d|, i requires 0 <= i < |d| => d[i].1)
  }

  /** No key is entered twice; every dictionary `Put` builds has this shape. */
  predicate DistinctKeys<V>(d: Dict<V>) {
    forall i, j :: 0 <= i < j < |d| ==> d[i].0 != d[j].0
  }

  /** `d[k]`, or `None` where Python raises KeyError. */
  function Get<V>(d: Dict<V>, k: string): (r: Option<V>)
    ensures r.None? <==> k !in Keys(d)
    ensures r.Some? ==> (k, r.value) in d
  {
    if d == [] then None
    else if d[0].0 == k then Some(d[0].1)
    else
      var r := Get(d[1..], k);
      assert Keys(d) == [d[0].0] + Keys(d[1..]);
      r
  }

  /** `d[k] = v`. */
  function Put<V>(d: Dict<V>, k: string, v: V): Dict<V> {
    if d == [] then [(k, v)]
    else if d[0].0 == k then [(k, v)] + d[1..]
    else [d[0]] + Put(d[1..], k, v)
  }

  /** A present key keeps its position; a new key is appended. */
  lemma {:induction false} PutKeys<V>(d: Dict<V>, k: string, v: V)
    ensures k in Keys(d) ==> Keys(Put(d, k, v)) == Keys(d)
    ensures k !in Keys(d) ==> Put(d, k, v) == d + [(k, v)]
  {
    if d != [] {
      PutKeys(d[1..], k, v);
      assert Keys(d) == [d[0].0] + Keys(d[1..]);
      var d2 := Put(d, k, v);
      if d[0].0 == k {
        assert Keys(d2) == [k] + Keys(d[1..]);
      } else {
        assert d2 == [d[0]] + Put(d[1..], k, v);
        assert Keys(d2) == [d[0].0] + Keys(Put(d[1..], k, v));
        if k !in Keys(d) {
          assert d == [d[0]] + d[1..];
        }
      }
    }
  }

  /** After `d[k] = v`, `d[k]` is `v` and every other key reads as before. */
  lemma {:induction false} PutGet<V>(d: Dict<V>, k: string, v: V, k2: string)
    ensures Get(Put(d, k, v), k) == Some(v)
    ensures k2 != k ==> Get(Put(d, k, v), k2) == Get(d, k2)
  {
    if d != [] && d[0].0 != k {
      PutGet(d[1..], k, v, k2);
      assert Put(d, k, v)[1..] == Put(d[1..], k, v);
    }
  }

  lemma {:induction false} PutKeepsDistinct<V>(d: Dict<V>, k: string, v: V)
    requires DistinctKeys(d)
    ensures DistinctKeys(Put(d, k, v))
  {
    PutKeys(d, k, v);
    if k in Keys(d) {
      var d2 := Put(d, k, v);
      assert forall i :: 0 <= i < |d2| ==> d2[i].0 == Keys(d2)[i] == Keys(d)[i] == d[i].0;
    } else {
      assert forall i :: 0 <= i < |d| ==> d[i].0 == Keys(d)[i];
    }
  }

  /** Every entry after `d[k] = v` is an old entry or the new one. */
  lemma {:induction false} PutEntry<V>(d: Dict<V>, k: string, v: V, i: int)
    requires 0 <= i < |Put(d, k, v)|
    ensures Put(d, k, v)[i] == (k, v) || Put(d, k, v)[i] in d
  {
    if d != [] && d[0].0 != k && i > 0 {
      PutEntry(d[1..], k, v, i - 1);
    }
  }

  /** `d[k] = v` keeps every key and adds `k`. */
  lemma PutGrows<V>(d: Dict<V>, k: string, v: V)
    ensures k in Keys(Put(d, k, v))
    ensures forall x :: x in Keys(d) ==> x in Keys(Put(d, k, v))
  {
    PutKeys(d, k, v);
    PutGet(d, k, v, k);
    if k !in Keys(d) {
      forall x | x in Keys(d) ensures x in Keys(Put(d, k, v)) {
        var j :| 0 <= j < |d| && Keys(d)[j] == x;
        assert Keys(Put(d, k, v))[j] == x;
      }
    }
  }

  /** The position of the first entry whose value is `v`, or -1: the first element of
      `[k for k in d if d[k] == v]` when that list is not empty. */
  function IndexOfValue<V(==)>(d: Dict<V>, v: V): (i: int)
    ensures -1 <= i < |d|
    ensures i == -1 <==> v !in Values(d)
    ensures i >= 0 ==> d[i].1 == v && forall j :: 0 <= j < i ==> d[j].1 != v
  {
    if d == [] then -1
    else if d[0].1 == v then 0
    else
      var i := IndexOfValue(d[1..], v);
      ValuesTail(d);
      if i < 0 then -1
      else
        NoValueBefore(d, v, i);
        i + 1
  }

  lemma ValuesTail<V>(d: Dict<V>)
    requires d != []
    ensures Values(d) == [d[0].1] + Values(d[1..])
  {
  }

  lemma NoValueBefore<V>(d: Dict<V>, v: V, i: nat)
    requires i < |d| - 1 && d[0].1 != v
    requires forall j :: 0 <= j < i ==> d[1..][j].1 != v
    ensures forall j :: 0 <= j < i + 1 ==> d[j].1 != v
  {
    forall j | 1 <= j < i + 1 ensures d[j].1 != v {
      assert d[j] == d[1..][j - 1];
    }
  }
}
