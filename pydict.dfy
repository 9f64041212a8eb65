/** Python's `dict` as the scraper uses it: assignment `d[k] = v` adds a new key
    at the end of the iteration order, and overwrites an existing key's value
    without moving it. */
module PyDict {

  datatype Dict<K(==, !new), V> = Dict(keys: seq<K>, entries: map<K, V>)
  {
    /** The key order lists each key of `entries` exactly once. */
    ghost predicate Valid()
    {
      (forall i, j :: 0 <= i < j < |keys| ==> keys[i] != keys[j]) &&
      (forall k :: k in entries <==> k in keys)
    }

    /** `d[k] = v`. */
    function Put(k: K, v: V): (d: Dict<K, V>)
      ensures Valid() ==> d.Valid()
      ensures d.entries == entries[k := v]
    {
      Dict(if k in entries then keys else keys + [k], entries[k := v])
    }
  }

  /** `{}`. */
  function Empty<K(==, !new), V>(): (d: Dict<K, V>)
    ensures d.Valid() && d.entries == map[]
  {
    Dict([], map[])
  }

  /** The keys of a sequence of pairs, in order. */
  function Firsts<K, V>(ps: seq<(K, V)>): (ks: seq<K>)
    ensures |ks| == |ps| && forall j :: 0 <= j < |ps| ==> ks[j] == ps[j].0
  {
    seq(|ps|, j requires 0 <= j < |ps| => ps[j].0)
  }

  /** The keys of all pairs are those of all but the last, then the last one's. */
  lemma FirstsLast<K, V>(ps: seq<(K, V)>)
    requires ps != []
    ensures Firsts(ps) == Firsts(ps[..|ps| - 1]) + [ps[|ps| - 1].0]
  {
    var n := |ps| - 1;
    assert forall i :: 0 <= i < n ==> Firsts(ps)[i] == Firsts(ps[..n])[i];
  }

  /** The dict that assigning the pairs one after the other, from `{}`, leaves. */
  function FromPairs<K(==, !new), V>(ps: seq<(K, V)>): (d: Dict<K, V>)
    ensures d.Valid()
    ensures forall k :: k in d.entries <==> k in Firsts(ps)
  {
    if ps == [] then Empty()
    else
      var d := FromPairs(ps[..|ps| - 1]).Put(ps[|ps| - 1].0, ps[|ps| - 1].1);
      FirstsLast(ps);
      d
  }

  /** One more pair is one more assignment. */
  lemma FromPairsSnoc<K(!new), V>(ps: seq<(K, V)>, p: (K, V))
    ensures FromPairs(ps + [p]) == FromPairs(ps).Put(p.0, p.1)
  {
    assert (ps + [p])[..|ps|] == ps;
  }

  /** The position where `k` first appears in `ks`. */
  function FirstIndex<K(==, !new)>(ks: seq<K>, k: K): (i: nat)
    requires k in ks
    ensures i < |ks| && ks[i] == k
    ensures forall j :: 0 <= j < i ==> ks[j] != k
  {
    var n := |ks| - 1;
    if k in ks[..n] then FirstIndex(ks[..n], k)
    else
      assert forall j :: 0 <= j < n ==> ks[j] == ks[..n][j];
      n
  }

  /** The later assignment wins: a key holds the value of its last pair. */
  lemma {:induction false} FromPairsLastWins<K(!new), V>(ps: seq<(K, V)>, j: nat)
    requires j < |ps|
    requires forall j' :: j < j' < |ps| ==> ps[j'].0 != ps[j].0
    ensures ps[j].0 in FromPairs(ps).entries && FromPairs(ps).entries[ps[j].0] == ps[j].1
  {
    var n := |ps| - 1;
    assert FromPairs(ps).entries == FromPairs(ps[..n]).entries[ps[n].0 := ps[n].1];
    if j < n {
      assert forall j' :: j < j' < n ==> ps[..n][j'].0 != ps[..n][j].0;
      FromPairsLastWins(ps[..n], j);
      assert ps[..n][j] == ps[j];
    }
  }

  /** Every key of `keys` appears in `ks`, and `keys` lists them in the order
      of their first appearance there. */
  ghost predicate FirstSeenOrder<K(!new)>(ks: seq<K>, keys: seq<K>)
  {
    forall i, i' :: 0 <= i < i' < |keys| ==>
      keys[i] in ks && keys[i'] in ks && FirstIndex(ks, keys[i]) < FirstIndex(ks, keys[i'])
  }

  /** The key order is the order of first appearance. */
  lemma {:induction false} FromPairsOrder<K(!new), V>(ps: seq<(K, V)>)
    ensures FirstSeenOrder(Firsts(ps), FromPairs(ps).keys)
  {
    if ps != [] {
      var n := |ps| - 1;
      var prev := FromPairs(ps[..n]);
      FromPairsOrder(ps[..n]);
      var keys := FromPairs(ps).keys;
      var ks := Firsts(ps);
      assert ks[..n] == Firsts(ps[..n]);
      assert keys == if ps[n].0 in prev.entries then prev.keys else prev.keys + [ps[n].0];
      forall i, i' | 0 <= i < i' < |keys|
        ensures keys[i] in ks && keys[i'] in ks && FirstIndex(ks, keys[i]) < FirstIndex(ks, keys[i'])
      {
        assert keys[i] == prev.keys[i] && keys[i] in prev.entries;
        FirstIndexPrefix(ks, keys[i]);
        if i' < |prev.keys| {
          assert keys[i'] == prev.keys[i'] && keys[i'] in prev.entries;
          FirstIndexPrefix(ks, keys[i']);
        } else {
          assert keys[i'] == ps[n].0 && keys[i'] !in ks[..n];
          assert ks[n] == keys[i'];
        }
      }
    }
  }

  /** A key that already appears before the last position keeps its first position. */
  lemma FirstIndexPrefix<K(!new)>(ks: seq<K>, k: K)
    requires ks != [] && k in ks[..|ks| - 1]
    ensures k in ks && FirstIndex(ks, k) == FirstIndex(ks[..|ks| - 1], k)
  {
  }

  /** With no key repeated, the dict lists the keys in the order of the pairs. */
  lemma {:induction false} FromPairsDistinctKeys<K(!new), V>(ps: seq<(K, V)>)
    requires forall j, j' :: 0 <= j < j' < |ps| ==> ps[j].0 != ps[j'].0
    ensures FromPairs(ps).keys == Firsts(ps)
  {
    if ps != [] {
      var n := |ps| - 1;
      var prev := ps[..n];
      assert forall j, j' :: 0 <= j < j' < |prev| ==> prev[j].0 != prev[j'].0 by {
        assert forall j :: 0 <= j < n ==> prev[j] == ps[j];
      }
      FromPairsDistinctKeys(prev);
      assert ps[n].0 !in FromPairs(prev).entries by {
        assert forall i :: 0 <= i < n ==> Firsts(prev)[i] == ps[i].0;
      }
      FirstsLast(ps);
    }
  }

  /** With no key repeated, the dict keeps every pair, in order. */
  lemma FromPairsDistinct<K(!new), V>(ps: seq<(K, V)>)
    requires forall j, j' :: 0 <= j < j' < |ps| ==> ps[j].0 != ps[j'].0
    ensures FromPairs(ps).keys == Firsts(ps)
    ensures forall j :: 0 <= j < |ps| ==> ps[j].0 in FromPairs(ps).entries && FromPairs(ps).entries[ps[j].0] == ps[j].1
  {
    FromPairsDistinctKeys(ps);
    forall j | 0 <= j < |ps| ensures ps[j].0 in FromPairs(ps).entries && FromPairs(ps).entries[ps[j].0] == ps[j].1 {
      FromPairsLastWins(ps, j);
    }
  }
}
