/** The JavaScript `Map`: entries kept in insertion order under distinct keys.
    `set` on a present key overwrites the value in place, `set` on a new key
    appends, `delete` removes. The app uses it for the result of
    `getAllResponses`, for today's responses indexed by question, and for the
    check-in form's answers. */
module OrderedMaps {
  import opened Wrappers
  import opened Lists

  type OrderedMap<K, V> = seq<(K, V)>

  function KeyOf<K, V>(e: (K, V)): K {
    e.0
  }

  predicate Valid<K(==,!new), V>(m: OrderedMap<K, V>) {
    DistinctKeys(m, KeyOf)
  }

  /** `m.has(k)`. */
  predicate Has<K(==,!new), V>(m: OrderedMap<K, V>, k: K) {
    HasKey(m, KeyOf, k)
  }

  /** `m.get(k)`. */
  function Get<K(==,!new), V>(m: OrderedMap<K, V>, k: K): Option<V> {
    match Lookup(m, KeyOf, k)
    case Some(e) => Some(e.1)
    case None => None
  }

  /** `m.set(k, v)`. */
  function Set<K(==,!new), V>(m: OrderedMap<K, V>, k: K, v: V): (r: OrderedMap<K, V>)
    ensures Valid(m) ==> Valid(r)
    ensures Get(r, k) == Some(v)
    ensures forall j :: j != k ==> Get(r, j) == Get(m, j)
    ensures |r| == if Has(m, k) then |m| else |m| + 1
  {
    var r := UpsertBy(m, KeyOf, (k, v));
    UpsertLookupOthers(m, KeyOf, (k, v));
    r
  }

  /** `m.delete(k)`. */
  function Delete<K(==,!new), V>(m: OrderedMap<K, V>, k: K): (r: OrderedMap<K, V>)
    ensures Valid(m) ==> Valid(r)
    ensures Get(r, k) == None
    ensures forall j :: j != k ==> Get(r, j) == Get(m, j)
    ensures Valid(m) && Has(m, k) ==> |r| == |m| - 1
    ensures !Has(m, k) ==> r == m
  {
    var r := RemoveKeys(m, KeyOf, {k});
    assert forall j :: Get(r, j) == if j == k then None else Get(m, j) by {
      forall j {
        RemoveKeysLookup(m, KeyOf, {k}, j);
      }
    }
    RemoveKeyCount(m, KeyOf, k);
    assert !Has(m, k) ==> r == m by {
      if !Has(m, k) {
        RemoveAbsentKeys(m, KeyOf, {k});
      }
    }
    assert Valid(m) ==> Valid(r) by {
      if Valid(m) {
        RemoveKeysDistinct(m, KeyOf, {k});
      }
    }
    assert Valid(m) && Has(m, k) ==> CountKey(m, KeyOf, k) == 1 by {
      if Valid(m) && Has(m, k) {
        DistinctCountOne(m, KeyOf, k);
      }
    }
    r
  }

  /** The value of the last pair under key `k`. */
  function LastValue<K(==,!new), V>(ps: seq<(K, V)>, k: K): Option<V> {
    if |ps| == 0 then None
    else if ps[|ps| - 1].0 == k then Some(ps[|ps| - 1].1)
    else LastValue(ps[..|ps| - 1], k)
  }

  /** `new Map(pairs)`: the pairs are set one after another, so a repeated
      key keeps its first position and its last value. */
  function FromPairs<K(==,!new), V>(ps: seq<(K, V)>): (r: OrderedMap<K, V>)
    ensures Valid(r)
    ensures forall k :: Get(r, k) == LastValue(ps, k)
  {
    if |ps| == 0 then []
    else Set(FromPairs(ps[..|ps| - 1]), ps[|ps| - 1].0, ps[|ps| - 1].1)
  }

  /** Setting a key to the value it already holds changes nothing. */
  lemma SetSameValue<K(!new), V>(m: OrderedMap<K, V>, k: K, v: V)
    requires Get(m, k) == Some(v)
    ensures Set(m, k, v) == m
  {
    var i := FirstIndex(m, KeyOf, k).value;
    assert m[i] == (k, v);
    assert m[i := (k, v)] == m;
  }

  /** Pairs under distinct keys build a map holding exactly those pairs, in
      the same order. */
  lemma {:induction false} FromPairsDistinct<K(!new), V>(ps: seq<(K, V)>)
    requires DistinctKeys(ps, KeyOf)
    ensures FromPairs(ps) == ps
    decreases |ps|
  {
    if |ps| > 0 {
      var init := ps[..|ps| - 1];
      var last := ps[|ps| - 1];
      assert DistinctKeys(init, KeyOf) by {
        forall i, j | 0 <= i < j < |init|
          ensures KeyOf(init[i]) != KeyOf(init[j])
        {
          assert init[i] == ps[i] && init[j] == ps[j];
        }
      }
      FromPairsDistinct(init);
      assert !Has(init, last.0) by {
        forall i | 0 <= i < |init|
          ensures KeyOf(init[i]) != last.0
        {
          assert init[i] == ps[i];
        }
      }
      assert (last.0, last.1) == last;
      assert init + [last] == ps;
    }
  }

  /** The value of the last pair under the key of pair `i`, when no later
      pair repeats that key, is pair `i`'s. */
  lemma {:induction false} LastValueAt<K(!new), V>(ps: seq<(K, V)>, i: nat)
    requires i < |ps|
    requires forall j :: i < j < |ps| ==> ps[j].0 != ps[i].0
    ensures LastValue(ps, ps[i].0) == Some(ps[i].1)
    decreases |ps|
  {
    if i < |ps| - 1 {
      var init := ps[..|ps| - 1];
      assert init[i] == ps[i];
      LastValueAt(init, i);
    }
  }

  /** Some pair carries key `k` exactly when a last value for it exists. */
  lemma {:induction false} LastValuePresent<K(!new), V>(ps: seq<(K, V)>, k: K)
    ensures LastValue(ps, k).Some? <==> exists i :: 0 <= i < |ps| && ps[i].0 == k
    decreases |ps|
  {
    if |ps| > 0 {
      var init := ps[..|ps| - 1];
      LastValuePresent(init, k);
      assert forall i :: 0 <= i < |init| ==> init[i] == ps[i];
    }
  }
}
