/** Python's insertion-ordered `dict` with string keys, as a sequence of (key, value) entries. */
module OrderedDict {
  import opened Wrappers

  type Entries<V> = seq<(string, V)>

  /** A dict never holds the same key twice. */
  predicate UniqueKeys<V>(d: Entries<V>) {
    forall i, j :: 0 <= i < j < |d| ==> d[i].0 != d[j].0
  }

  function Keys<V>(d: Entries<V>): (ks: seq<string>)
    ensures |ks| == |d| && forall i :: 0 <= i < |d| ==> ks[i] == d[i].0
  {
    seq(|d|, i requires 0 <= i < |d| => d[i].0)
  }

  /** `d.get(k)`. */
  function Get<V>(d: Entries<V>, k: string): (r: Option<V>)
    ensures r.None? <==> k !in Keys(d)
    ensures r.Some? ==> (k, r.value) in d
    decreases |d|
  {
    if |d| == 0 then None
    else if d[0].0 == k then Some(d[0].1)
    else
      assert Keys(d) == [d[0].0] + Keys(d[1..]);
      Get(d[1..], k)
  }

  /** `d[k] = v`: an existing key keeps its position and takes the new value;
      a new key is appended at the end. */
  function Put<V>(d: Entries<V>, k: string, v: V): (r: Entries<V>)
    requires UniqueKeys(d)
    ensures UniqueKeys(r)
    ensures Get(r, k) == Some(v)
    ensures forall k' :: k' != k ==> Get(r, k') == Get(d, k')
    ensures Keys(r) == if k in Keys(d) then Keys(d) else Keys(d) + [k]
    decreases |d|
  {
    if |d| == 0 then [(k, v)]
    else if d[0].0 == k then
      var r := [(k, v)] + d[1..];
      PutAtHead(d, k, v, r);
      r
    else
      var rest := Put(d[1..], k, v);
      var r := [d[0]] + rest;
      PutBehindHead(d, k, v, rest, r);
      r
  }

  /** Put on a key held by the first entry replaces that entry. */
  lemma PutAtHead<V>(d: Entries<V>, k: string, v: V, r: Entries<V>)
    requires UniqueKeys(d) && |d| > 0 && d[0].0 == k
    requires r == [(k, v)] + d[1..]
    ensures UniqueKeys(r)
    ensures Get(r, k) == Some(v)
    ensures forall k' :: k' != k ==> Get(r, k') == Get(d, k')
    ensures Keys(r) == Keys(d)
  {
    assert r[1..] == d[1..];
    assert forall i :: 0 <= i < |r| ==> r[i].0 == d[i].0;
  }

  /** Put on a key not held by the first entry keeps that entry and puts into the rest. */
  lemma PutBehindHead<V>(d: Entries<V>, k: string, v: V, rest: Entries<V>, r: Entries<V>)
    requires UniqueKeys(d) && |d| > 0 && d[0].0 != k
    requires UniqueKeys(rest)
    requires forall k' :: k' != k ==> Get(rest, k') == Get(d[1..], k')
    requires Keys(rest) == if k in Keys(d[1..]) then Keys(d[1..]) else Keys(d[1..]) + [k]
    requires r == [d[0]] + rest
    ensures UniqueKeys(r)
    ensures forall k' :: k' != k ==> Get(r, k') == Get(d, k')
    ensures Keys(r) == if k in Keys(d) then Keys(d) else Keys(d) + [k]
  {
    assert r[1..] == rest;
    KeysCons(d);
    KeysCons(r);
    assert d[0].0 !in Keys(d[1..]);
    ConsUnique(d[0], rest);
    assert [d[0]] + d[1..] == d;
    forall k' | k' != k
      ensures Get(r, k') == Get(d, k')
    {
      GetCons(d[0], rest, k');
      GetCons(d[0], d[1..], k');
    }
  }

  lemma GetCons<V>(e: (string, V), rest: Entries<V>, k: string)
    ensures Get([e] + rest, k) == if e.0 == k then Some(e.1) else Get(rest, k)
  {
    assert ([e] + rest)[1..] == rest;
  }

  lemma KeysCons<V>(d: Entries<V>)
    requires |d| > 0
    ensures Keys(d) == [d[0].0] + Keys(d[1..])
  {
  }

  /** An entry whose key the rest lacks can go in front. */
  lemma ConsUnique<V>(e: (string, V), rest: Entries<V>)
    requires UniqueKeys(rest) && e.0 !in Keys(rest)
    ensures UniqueKeys([e] + rest)
  {
    var r := [e] + rest;
    forall i, j | 0 <= i < j < |r| ensures r[i].0 != r[j].0 {
      if i == 0 {
        assert r[j].0 == Keys(rest)[j - 1];
      } else {
        assert r[i] == rest[i - 1] && r[j] == rest[j - 1];
      }
    }
  }

  /** The value of the last pair whose key is `k`: the reference meaning of a
      dict built from pairs. */
  function LastValue<V>(pairs: seq<(string, V)>, k: string): Option<V>
    decreases |pairs|
  {
    if |pairs| == 0 then None
    else if pairs[|pairs| - 1].0 == k then Some(pairs[|pairs| - 1].1)
    else LastValue(pairs[..|pairs| - 1], k)
  }

  /** `dict(pairs)`: the pairs are inserted one after another. */
  function FromPairs<V>(pairs: seq<(string, V)>): (d: Entries<V>)
    ensures UniqueKeys(d)
    decreases |pairs|
  {
    if |pairs| == 0 then []
    else
      var last := pairs[|pairs| - 1];
      Put(FromPairs(pairs[..|pairs| - 1]), last.0, last.1)
  }

  /** Building a dict from pairs keeps, for every key, the value of its LAST pair;
      keys that occur in no pair are absent. */
  lemma {:induction false} FromPairsLastWins<V>(pairs: seq<(string, V)>, k: string)
    ensures Get(FromPairs(pairs), k) == LastValue(pairs, k)
    decreases |pairs|
  {
    if |pairs| > 0 {
      FromPairsLastWins(pairs[..|pairs| - 1], k);
    }
  }

  /** The dict holds exactly the keys that occur in some pair. */
  lemma FromPairsKeys<V>(pairs: seq<(string, V)>, k: string)
    ensures k in Keys(FromPairs(pairs)) <==> exists i :: 0 <= i < |pairs| && pairs[i].0 == k
  {
    FromPairsLastWins(pairs, k);
    LastValueFound(pairs, k);
  }

  /** Some pair has key `k` exactly when the last such pair exists. */
  lemma {:induction false} LastValueFound<V>(pairs: seq<(string, V)>, k: string)
    ensures LastValue(pairs, k).Some? <==> exists i :: 0 <= i < |pairs| && pairs[i].0 == k
    decreases |pairs|
  {
    if |pairs| > 0 {
      var init := pairs[..|pairs| - 1];
      LastValueFound(init, k);
      if exists i :: 0 <= i < |init| && init[i].0 == k {
        var i :| 0 <= i < |init| && init[i].0 == k;
        assert pairs[i].0 == k;
      }
      if exists i :: 0 <= i < |pairs| && pairs[i].0 == k {
        var i :| 0 <= i < |pairs| && pairs[i].0 == k;
        if i < |init| { assert init[i].0 == k; }
      }
    }
  }
}
