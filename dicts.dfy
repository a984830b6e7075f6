/** A Python `dict` as the sequence of its items in insertion order.

    Item order matters for two things the dataset relies on: a comprehension
    that assigns the same key twice keeps the LAST value (last writer wins),
    and a key keeps the position of its FIRST assignment. */
module Dicts {
  import opened Wrappers

  type Dict<K, V> = seq<(K, V)>

  function Keys<K(==), V>(d: Dict<K, V>): set<K> {
    set i | 0 <= i < |d| :: d[i].0
  }

  function Values<K, V(==)>(d: Dict<K, V>): set<V> {
    set i | 0 <= i < |d| :: d[i].1
  }

  /** Every real dict: no key appears twice. */
  predicate DistinctKeys<K(==), V>(d: Dict<K, V>) {
    forall i, j :: 0 <= i < j < |d| ==> d[i].0 != d[j].0
  }

  /** A dict that maps different keys to different values. */
  predicate Injective<K(==), V(==)>(d: Dict<K, V>) {
    DistinctKeys(d) && forall i, j :: 0 <= i < j < |d| ==> d[i].1 != d[j].1
  }

  /** No later item carries the key of item i. */
  predicate LastKeyAt<K(==), V>(d: Dict<K, V>, i: int)
    requires 0 <= i < |d|
  {
    forall j :: i < j < |d| ==> d[j].0 != d[i].0
  }

  /** No later item carries the value of item i. */
  predicate LastValueAt<K, V(==)>(d: Dict<K, V>, i: int)
    requires 0 <= i < |d|
  {
    forall j :: i < j < |d| ==> d[j].1 != d[i].1
  }

  /** No earlier item carries the key of item i. */
  predicate FirstKeyAt<K(==), V>(d: Dict<K, V>, i: int)
    requires 0 <= i < |d|
  {
    forall j :: 0 <= j < i ==> d[j].0 != d[i].0
  }

  lemma KeysSnoc<K, V>(d: Dict<K, V>, x: (K, V))
    ensures Keys(d + [x]) == Keys(d) + {x.0}
    ensures Values(d + [x]) == Values(d) + {x.1}
  {
    var e := d + [x];
    assert e[|d|] == x;
    forall k | k in Keys(d) ensures k in Keys(e) {
      var i :| 0 <= i < |d| && d[i].0 == k;
      assert e[i] == d[i];
    }
    forall v | v in Values(d) ensures v in Values(e) {
      var i :| 0 <= i < |d| && d[i].1 == v;
      assert e[i] == d[i];
    }
  }

  /** `d[k]`: the value of the last item with key k, None where Python raises
      KeyError. On a real dict the last item with k is the only one. */
  function Get<K(==), V>(d: Dict<K, V>, k: K): (r: Option<V>)
    ensures r.Some? <==> k in Keys(d)
    ensures r.Some? ==> exists i :: 0 <= i < |d| && d[i] == (k, r.value) && LastKeyAt(d, i)
  {
    if d == [] then None
    else
      var n := |d| - 1;
      assert d == d[..n] + [d[n]];
      KeysSnoc(d[..n], d[n]);
      if d[n].0 == k then Some(d[n].1) else Get(d[..n], k)
  }

  /** The item that no later item overrides is what a lookup finds. */
  lemma {:induction false} GetLast<K, V>(d: Dict<K, V>, i: int)
    requires 0 <= i < |d| && LastKeyAt(d, i)
    ensures Get(d, d[i].0) == Some(d[i].1)
  {
    var n := |d| - 1;
    if i < n {
      GetLast(d[..n], i);
    }
  }

  /** `d[k] = v`: an existing key keeps its position and takes the new value,
      a new key is appended; every other key keeps its value. */
  function Set<K(==, !new), V(==)>(d: Dict<K, V>, k: K, v: V): (r: Dict<K, V>)
    requires DistinctKeys(d)
    ensures DistinctKeys(r)
    ensures Keys(r) == Keys(d) + {k} && Values(r) <= Values(d) + {v}
    ensures Get(r, k) == Some(v)
    ensures forall k' :: k' != k ==> Get(r, k') == Get(d, k')
    ensures k in Keys(d) ==> |r| == |d| && forall i :: 0 <= i < |d| ==> r[i].0 == d[i].0
    ensures k !in Keys(d) ==> |r| == |d| + 1 && r[..|d|] == d && r[|d|] == (k, v)
  {
    if k in Keys(d) then
      var r := seq(|d|, i requires 0 <= i < |d| => if d[i].0 == k then (k, v) else d[i]);
      SetExisting(d, k, v, r);
      r
    else
      assert (d + [(k, v)])[..|d|] == d;
      KeysSnoc(d, (k, v));
      d + [(k, v)]
  }

  lemma SetExisting<K(!new), V>(d: Dict<K, V>, k: K, v: V, r: Dict<K, V>)
    requires DistinctKeys(d) && k in Keys(d)
    requires |r| == |d| && forall i :: 0 <= i < |d| ==> r[i] == if d[i].0 == k then (k, v) else d[i]
    ensures DistinctKeys(r)
    ensures Keys(r) == Keys(d) && Values(r) <= Values(d) + {v}
    ensures Get(r, k) == Some(v)
    ensures forall k' :: k' != k ==> Get(r, k') == Get(d, k')
  {
    var i0 :| 0 <= i0 < |d| && d[i0].0 == k;
    assert r[i0] == (k, v);
    forall x | x in Keys(d) ensures x in Keys(r) {
      var i :| 0 <= i < |d| && d[i].0 == x;
      assert r[i].0 == x;
    }
    GetLast(r, i0);
    forall k' | k' != k ensures Get(r, k') == Get(d, k') {
      if k' in Keys(d) {
        var i :| 0 <= i < |d| && d[i].0 == k';
        GetLast(d, i);
        GetLast(r, i);
      }
    }
  }

  /** The position of the first item with key k. */
  function FirstIndex<K(==), V>(d: Dict<K, V>, k: K): (p: nat)
    requires k in Keys(d)
    ensures p < |d| && d[p].0 == k && FirstKeyAt(d, p)
  {
    if d[0].0 == k then 0
    else
      assert k in Keys(d[1..]) by {
        var i :| 0 <= i < |d| && d[i].0 == k;
        assert d[1..][i - 1] == d[i];
      }
      1 + FirstIndex(d[1..], k)
  }

  lemma FirstIndexUnique<K, V>(d: Dict<K, V>, p: int)
    requires 0 <= p < |d| && FirstKeyAt(d, p)
    ensures FirstIndex(d, d[p].0) == p
  {
    var q := FirstIndex(d, d[p].0);
    assert !(q < p) && !(p < q);
  }

  /** The keys of `r` appear in the order of their first item in `ps`. */
  predicate InFirstOrder<K(==), V>(ps: seq<(K, V)>, r: Dict<K, V>) {
    forall i, j :: 0 <= i < j < |r| && r[i].0 in Keys(ps) && r[j].0 in Keys(ps) ==>
      FirstIndex(ps, r[i].0) < FirstIndex(ps, r[j].0)
  }

  /** Appending an item leaves the first item of every earlier key in place. */
  lemma FirstIndexSnoc<K, V>(d: Dict<K, V>, y: (K, V), x: K)
    requires x in Keys(d)
    ensures x in Keys(d + [y]) && FirstIndex(d + [y], x) == FirstIndex(d, x)
  {
    var p := FirstIndex(d, x);
    assert (d + [y])[p] == d[p];
    FirstIndexUnique(d + [y], p);
  }

  /** Assigning a key already present keeps the order of the keys. */
  lemma SnocOrderOld<K, V>(init: seq<(K, V)>, y: (K, V), prev: Dict<K, V>, r: Dict<K, V>)
    requires Keys(prev) == Keys(init) && InFirstOrder(init, prev)
    requires |r| == |prev| && forall i :: 0 <= i < |prev| ==> r[i].0 == prev[i].0
    ensures InFirstOrder(init + [y], r)
  {
    KeysSnoc(init, y);
    forall i | 0 <= i < |prev|
      ensures prev[i].0 in Keys(init) && r[i].0 in Keys(init + [y])
      ensures FirstIndex(init + [y], r[i].0) == FirstIndex(init, prev[i].0)
    {
      assert prev[i].0 in Keys(prev);
      FirstIndexSnoc(init, y, prev[i].0);
    }
  }

  /** Assigning a new key puts it after every key already present. */
  lemma SnocOrderNew<K, V>(init: seq<(K, V)>, y: (K, V), prev: Dict<K, V>, r: Dict<K, V>)
    requires Keys(prev) == Keys(init) && InFirstOrder(init, prev) && y.0 !in Keys(init)
    requires r == prev + [y]
    ensures InFirstOrder(init + [y], r)
  {
    var ps := init + [y];
    assert FirstKeyAt(ps, |init|) by {
      forall j | 0 <= j < |init| ensures ps[j].0 != y.0 {
        assert ps[j] == init[j];
      }
    }
    FirstIndexUnique(ps, |init|);
    assert r[|prev|] == y;
    KeysSnoc(init, y);
    forall i | 0 <= i < |prev|
      ensures r[i] == prev[i] && prev[i].0 in Keys(init) && r[i].0 in Keys(ps)
      ensures FirstIndex(ps, r[i].0) == FirstIndex(init, prev[i].0) < |init|
    {
      assert prev[i].0 in Keys(prev);
      FirstIndexSnoc(init, y, prev[i].0);
    }
  }

  /** `{k: v for (k, v) in ps}`: assigns the pairs in list order, so each key
      holds the value of its last pair and sits where its first pair put it. */
  function FromPairs<K(==, !new), V(==)>(ps: seq<(K, V)>): (r: Dict<K, V>)
    ensures DistinctKeys(r)
    ensures Keys(r) == Keys(ps) && Values(r) <= Values(ps)
    ensures forall k :: Get(r, k) == Get(ps, k)
    ensures InFirstOrder(ps, r)
  {
    if ps == [] then []
    else
      var n := |ps| - 1;
      assert ps == ps[..n] + [ps[n]];
      KeysSnoc(ps[..n], ps[n]);
      var prev := FromPairs(ps[..n]);
      var r := Set(prev, ps[n].0, ps[n].1);
      if ps[n].0 in Keys(prev) then
        SnocOrderOld(ps[..n], ps[n], prev, r);
        r
      else
        assert r == prev + [ps[n]];
        SnocOrderNew(ps[..n], ps[n], prev, r);
        r
  }

  /** The items of `d` with key and value swapped, in the order `d.items()`
      yields them. */
  function Swapped<K, V>(d: Dict<K, V>): (ps: seq<(V, K)>)
    ensures |ps| == |d|
    ensures forall i :: 0 <= i < |d| ==> ps[i] == (d[i].1, d[i].0)
  {
    seq(|d|, i requires 0 <= i < |d| => (d[i].1, d[i].0))
  }

  /** `{v: k for k, v in d.items()}`: the keys are the values of `d`, and each
      maps to the key of the last item holding it. */
  function Invert<K(==), V(==, !new)>(d: Dict<K, V>): (r: Dict<V, K>)
    ensures DistinctKeys(r)
    ensures Keys(r) == Values(d)
    ensures forall i :: 0 <= i < |d| && LastValueAt(d, i) ==> Get(r, d[i].1) == Some(d[i].0)
    ensures InFirstOrder(Swapped(d), r)
  {
    var ps := Swapped(d);
    assert Keys(ps) == Values(d) by {
      forall v | v in Values(d) ensures v in Keys(ps) {
        var i :| 0 <= i < |d| && d[i].1 == v;
        assert ps[i].0 == v;
      }
    }
    forall i | 0 <= i < |d| && LastValueAt(d, i) ensures Get(ps, d[i].1) == Some(d[i].0) {
      GetLast(ps, i);
    }
    FromPairs(ps)
  }

  /** `[d[k] for k in ks]`: either every key is present and the list holds
      their values in order, or the first missing key is raised. */
  function GetAll<K(==), V>(d: Dict<K, V>, ks: seq<K>): (r: Result<seq<V>, K>)
    ensures r.Success? <==> forall i :: 0 <= i < |ks| ==> ks[i] in Keys(d)
    ensures r.Success? ==> |r.value| == |ks| && forall i :: 0 <= i < |ks| ==> Get(d, ks[i]) == Some(r.value[i])
    ensures r.Failure? ==>
      exists i :: 0 <= i < |ks| && ks[i] == r.error && ks[i] !in Keys(d) && forall j :: 0 <= j < i ==> ks[j] in Keys(d)
  {
    if ks == [] then Success([])
    else
      match Get(d, ks[0])
      case None => Failure(ks[0])
      case Some(v) =>
        match GetAll(d, ks[1..])
        case Success(vs) => Success([v] + vs)
        case Failure(k) =>
          assert forall i :: 1 <= i < |ks| ==> ks[i] == ks[1..][i - 1];
          Failure(k)
  }

  /** A successful `GetAll` is determined by the lookups of its keys. */
  lemma GetAllIs<K, V>(d: Dict<K, V>, ks: seq<K>, vs: seq<V>)
    requires |vs| == |ks| && forall i :: 0 <= i < |ks| ==> Get(d, ks[i]) == Some(vs[i])
    ensures GetAll(d, ks) == Success(vs)
  {
    var r := GetAll(d, ks);
    assert r.Success?;
    assert r.value == vs;
  }

  /** On an injective dict, the inverse maps each value back to its key. */
  lemma InvertAt<K, V(!new)>(d: Dict<K, V>, i: int)
    requires Injective(d) && 0 <= i < |d|
    ensures Get(d, d[i].0) == Some(d[i].1)
    ensures Get(Invert(d), d[i].1) == Some(d[i].0)
  {
    GetLast(d, i);
  }

  /** Every value of `d` has a last item holding it. */
  lemma {:induction false} LastValueIndex<K, V>(d: Dict<K, V>, v: V) returns (j: int)
    requires v in Values(d)
    ensures 0 <= j < |d| && d[j].1 == v && LastValueAt(d, j)
  {
    var n := |d| - 1;
    if d[n].1 == v {
      j := n;
    } else {
      assert v in Values(d[..n]) by {
        var i :| 0 <= i < |d| && d[i].1 == v;
        assert d[..n][i] == d[i];
      }
      j := LastValueIndex(d[..n], v);
      assert d[..n][j] == d[j];
    }
  }

  /** Looking values up in the inverse and then the keys found in `d` gives
      the values back, even when several keys share a value: the inverse
      keeps the last of them, and that key's value is the one looked up. */
  lemma RoundTripValues<K, V(!new)>(d: Dict<K, V>, vs: seq<V>)
    requires DistinctKeys(d)
    requires forall i :: 0 <= i < |vs| ==> vs[i] in Values(d)
    ensures GetAll(Invert(d), vs).Success?
    ensures GetAll(d, GetAll(Invert(d), vs).value) == Success(vs)
  {
    var ks := GetAll(Invert(d), vs).value;
    forall i | 0 <= i < |vs| ensures Get(d, ks[i]) == Some(vs[i]) {
      var j := LastValueIndex(d, vs[i]);
      GetLast(d, j);
    }
    GetAllIs(d, ks, vs);
  }

  /** Looking keys up in `d` and then the values found in the inverse gives
      the keys back. */
  lemma RoundTripKeys<K, V(!new)>(d: Dict<K, V>, ks: seq<K>)
    requires Injective(d)
    requires forall i :: 0 <= i < |ks| ==> ks[i] in Keys(d)
    ensures GetAll(d, ks).Success?
    ensures GetAll(Invert(d), GetAll(d, ks).value) == Success(ks)
  {
    var vs := GetAll(d, ks).value;
    forall i | 0 <= i < |ks| ensures Get(Invert(d), vs[i]) == Some(ks[i]) {
      var j :| 0 <= j < |d| && d[j].0 == ks[i];
      InvertAt(d, j);
    }
    GetAllIs(Invert(d), vs, ks);
  }

  /** Without injectivity the round trip from keys breaks: two indices share
      a token, and the inverse keeps only the later one. */
  lemma SharedValueBreaksRoundTrip()
    ensures GetAll([(0, "a"), (1, "a")], [0]) == Success(["a"])
    ensures GetAll(Invert([(0, "a"), (1, "a")]), ["a"]) == Success([1])
  {
    var d := [(0, "a"), (1, "a")];
    GetLast(d, 0);
    assert LastValueAt(d, 1);
    GetAllIs(d, [0], ["a"]);
    GetAllIs(Invert(d), ["a"], [1]);
  }
}
