/** Filtered, descending-sorted listings over a collection, the shape of
    `Model.find(filter).sort({ field: -1 })`. */
module Ordering {

  /** Every entry of `r` is a key of `m`, and their `key`s never increase. */
  ghost predicate SortedDesc<K, V>(m: map<K, V>, key: V -> int, r: seq<K>) {
    && (forall i :: 0 <= i < |r| ==> r[i] in m)
    && (forall i, j :: 0 <= i < j < |r| ==> key(m[r[i]]) >= key(m[r[j]]))
  }

  /** No key is listed twice. */
  ghost predicate Distinct<K>(r: seq<K>) {
    forall i, j :: 0 <= i < j < |r| ==> r[i] != r[j]
  }

  /** Inserts `x` in front of the first entry whose key is not larger. */
  function InsertDesc<K(==,!new), V>(m: map<K, V>, key: V -> int, r: seq<K>, x: K): (r': seq<K>)
    requires x in m
    requires SortedDesc(m, key, r)
    ensures |r'| == |r| + 1
    ensures forall y :: y in r' <==> y == x || y in r
    ensures SortedDesc(m, key, r')
    ensures Distinct(r) && x !in r ==> Distinct(r')
    decreases |r|
  {
    if r == [] || key(m[x]) >= key(m[r[0]]) then
      [x] + r
    else
      var tail := InsertDesc(m, key, r[1..], x);
      forall j | 0 <= j < |tail|
        ensures key(m[r[0]]) >= key(m[tail[j]])
        ensures Distinct(r) && x !in r ==> r[0] != tail[j]
      {
        assert tail[j] in tail;
        if tail[j] != x {
          var i :| 0 <= i < |r[1..]| && r[1..][i] == tail[j];
          assert r[i + 1] == tail[j];
        }
      }
      [r[0]] + tail
  }

  /** The keys of `m` whose values satisfy `keep`, each once, from the
      largest `key` to the smallest; ties come in no particular order. */
  method SelectDesc<K(==,!new), V>(m: map<K, V>, keep: V -> bool, key: V -> int) returns (r: seq<K>)
    ensures forall k :: k in r <==> k in m && keep(m[k])
    ensures Distinct(r)
    ensures SortedDesc(m, key, r)
  {
    r := [];
    var rest := m.Keys;
    while rest != {}
      invariant rest <= m.Keys
      invariant forall k :: k in r <==> k in m && k !in rest && keep(m[k])
      invariant Distinct(r)
      invariant SortedDesc(m, key, r)
      decreases rest
    {
      var k :| k in rest;
      if keep(m[k]) {
        r := InsertDesc(m, key, r, k);
      }
      rest := rest - {k};
    }
  }

  /** The first `n` entries of a listing, or all of them when there are fewer:
      `.limit(n)`. */
  function Limit<K>(r: seq<K>, n: nat): (p: seq<K>)
    ensures |p| == if |r| < n then |r| else n
    ensures p == r[..|p|]
  {
    if |r| < n then r else r[..n]
  }

  /** A limited sorted listing keeps the top entries: anything the listing
      holds that the prefix left out sorts no higher than every kept entry. */
  lemma {:induction false} LimitKeepsLatest<K, V>(m: map<K, V>, key: V -> int, r: seq<K>, n: nat, k: K)
    requires SortedDesc(m, key, r) && Distinct(r)
    requires k in r && k !in Limit(r, n)
    ensures forall i :: 0 <= i < |Limit(r, n)| ==> key(m[Limit(r, n)[i]]) >= key(m[k])
  {
    var p := Limit(r, n);
    var j :| 0 <= j < |r| && r[j] == k;
    forall i | 0 <= i < |p|
      ensures r[i] != k
    {
      assert p[i] == r[i] && p[i] in p;
    }
  }
}
