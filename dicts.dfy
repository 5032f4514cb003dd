/**
 A Python `dict` with string keys, kept as the list of its entries in
 insertion order: assigning to a present key changes its value in place,
 assigning to a new key appends an entry, and iteration follows the list.
 */
module Dicts {
  import opened Wrappers

  type Dict<V> = seq<(string, V)>

  /** No key occurs twice. */
  predicate UniqueKeys<V>(d: Dict<V>) {
    forall i, j :: 0 <= i < j < |d| ==> d[i].0 != d[j].0
  }

  /** Two dicts with the same keys at the same positions. */
  predicate SameKeys<V>(d: Dict<V>, e: Dict<V>) {
    |d| == |e| && forall j :: 0 <= j < |d| ==> d[j].0 == e[j].0
  }

  /** The position of key `k`, or -1 when it is absent. */
  function IndexOf<V>(d: Dict<V>, k: string): (i: int)
    ensures -1 <= i < |d|
    ensures i >= 0 ==> d[i].0 == k
    ensures i < 0 <==> forall j :: 0 <= j < |d| ==> d[j].0 != k
    ensures forall j :: 0 <= j < i ==> d[j].0 != k
  {
    if |d| == 0 then -1
    else if d[0].0 == k then 0
    else
      var i := IndexOf(d[1..], k);
      if i < 0 then -1 else i + 1
  }

  /** `IndexOf` only looks at the keys. */
  lemma IndexOfSameKeys<V>(d: Dict<V>, e: Dict<V>, k: string)
    requires SameKeys(d, e)
    ensures IndexOf(d, k) == IndexOf(e, k)
  {
    var i, j := IndexOf(d, k), IndexOf(e, k);
    if i >= 0 && j >= 0 {
      assert !(i < j) && !(j < i);
    }
  }

  /** `d.get(k)`. */
  function Get<V>(d: Dict<V>, k: string): (r: Option<V>)
    ensures r.None? <==> forall j :: 0 <= j < |d| ==> d[j].0 != k
    ensures r.Some? ==> exists j :: 0 <= j < |d| && d[j] == (k, r.value)
  {
    var i := IndexOf(d, k);
    if i < 0 then None else Some(d[i].1)
  }

  /** The lookup in a dict that starts with entry `e`. */
  lemma GetCons<V>(e: (string, V), d: Dict<V>, k: string)
    ensures Get([e] + d, k) == if e.0 == k then Some(e.1) else Get(d, k)
  {
    assert ([e] + d)[1..] == d;
  }

  /** `d[k] = v`: an existing entry changes value where it stands, a new one goes last. */
  function Put<V>(d: Dict<V>, k: string, v: V): (r: Dict<V>)
    ensures Get(r, k) == Some(v)
    ensures forall k' :: k' != k ==> Get(r, k') == Get(d, k')
    ensures Get(d, k).Some? ==> SameKeys(r, d)
    ensures Get(d, k).None? ==> r == d + [(k, v)]
    ensures UniqueKeys(d) ==> UniqueKeys(r)
  {
    var i := IndexOf(d, k);
    if i >= 0 then
      var r := d[i := (k, v)];
      assert SameKeys(r, d);
      assert forall k' :: IndexOf(r, k') == IndexOf(d, k') by {
        forall k' { IndexOfSameKeys(r, d, k'); }
      }
      r
    else
      var r := d + [(k, v)];
      assert forall k' :: k' != k ==> IndexOf(r, k') == IndexOf(d, k') by {
        forall k' | k' != k { AppendIndexOf(d, k, v, k'); }
      }
      assert r[|d|].0 == k;
      assert forall j :: 0 <= j < |d| ==> r[j].0 == d[j].0 != k;
      assert IndexOf(r, k) == |d|;
      r
  }

  lemma AppendIndexOf<V>(d: Dict<V>, k: string, v: V, k': string)
    requires k' != k
    ensures IndexOf(d + [(k, v)], k') == IndexOf(d, k')
  {
    var r := d + [(k, v)];
    var i, j := IndexOf(r, k'), IndexOf(d, k');
    if j >= 0 {
      assert r[j].0 == k';
      assert !(j < i) && !(i < j);
    } else {
      assert forall x :: 0 <= x < |r| ==> r[x].0 != k';
    }
  }

  /** `dict(pairs)`: the pairs put one after the other. */
  function FromPairs<V>(pairs: seq<(string, V)>): (d: Dict<V>)
    ensures UniqueKeys(d)
  {
    if |pairs| == 0 then []
    else
      var last := pairs[|pairs| - 1];
      Put(FromPairs(pairs[..|pairs| - 1]), last.0, last.1)
  }

  /** Under `dict(pairs)` a key holds the value of the LAST pair that names it. */
  lemma {:induction false} FromPairsLastWins<V>(pairs: seq<(string, V)>, i: nat)
    requires i < |pairs|
    requires forall j :: i < j < |pairs| ==> pairs[j].0 != pairs[i].0
    ensures Get(FromPairs(pairs), pairs[i].0) == Some(pairs[i].1)
    decreases |pairs|
  {
    if i < |pairs| - 1 {
      var init := pairs[..|pairs| - 1];
      FromPairsLastWins(init, i);
    }
  }

  /** A key is present in `dict(pairs)` exactly when some pair names it. */
  lemma {:induction false} FromPairsKeys<V>(pairs: seq<(string, V)>, k: string)
    ensures Get(FromPairs(pairs), k).Some? <==> exists j :: 0 <= j < |pairs| && pairs[j].0 == k
    decreases |pairs|
  {
    if |pairs| > 0 {
      var n := |pairs|;
      var init := pairs[..n - 1];
      var last := pairs[n - 1];
      FromPairsKeys(init, k);
      var d0 := FromPairs(init);
      assert FromPairs(pairs) == Put(d0, last.0, last.1);
      if last.0 == k {
        assert Get(FromPairs(pairs), k).Some?;
        assert pairs[n - 1].0 == k;
      } else {
        assert Get(FromPairs(pairs), k) == Get(d0, k);
        assert (exists j :: 0 <= j < n && pairs[j].0 == k) ==> exists j :: 0 <= j < n - 1 && init[j].0 == k by {
          if exists j :: 0 <= j < n && pairs[j].0 == k {
            var j :| 0 <= j < n && pairs[j].0 == k;
            assert j < n - 1 && init[j] == pairs[j];
          }
        }
        assert (exists j :: 0 <= j < n - 1 && init[j].0 == k) ==> exists j :: 0 <= j < n && pairs[j].0 == k by {
          if exists j :: 0 <= j < n - 1 && init[j].0 == k {
            var j :| 0 <= j < n - 1 && init[j].0 == k;
            assert pairs[j] == init[j];
          }
        }
        assert Get(d0, k).Some? <==> exists j :: 0 <= j < n - 1 && init[j].0 == k;
      }
    }
  }
}
