/** Array operations the app performs on lists of records: `filter`,
    `findIndex`/`find` by a key, the replace-or-append update used for
    response buckets and JavaScript maps, and map-by-key replacement. */
module Lists {
  import opened Wrappers

  // ---------------------------------------------------------------------
  // filter
  // ---------------------------------------------------------------------

  /** `s.filter(p)`. */
  function Filter<T>(s: seq<T>, p: T -> bool): (r: seq<T>)
    ensures |r| <= |s|
    ensures forall i :: 0 <= i < |r| ==> r[i] in s && p(r[i])
    ensures forall i :: 0 <= i < |s| && p(s[i]) ==> s[i] in r
  {
    if |s| == 0 then []
    else if p(s[0]) then [s[0]] + Filter(s[1..], p)
    else Filter(s[1..], p)
  }

  /** Filtering keeps relative order: it distributes over concatenation. */
  lemma {:induction false} FilterAppend<T>(a: seq<T>, b: seq<T>, p: T -> bool)
    ensures Filter(a + b, p) == Filter(a, p) + Filter(b, p)
    decreases |a|
  {
    if |a| == 0 {
      assert a + b == b;
    } else {
      assert (a + b)[1..] == a[1..] + b;
      FilterAppend(a[1..], b, p);
    }
  }

  /** A filter that every element passes leaves the list as it was. */
  lemma {:induction false} FilterKeepsAll<T>(s: seq<T>, p: T -> bool)
    requires forall i :: 0 <= i < |s| ==> p(s[i])
    ensures Filter(s, p) == s
    decreases |s|
  {
    if |s| > 0 {
      FilterKeepsAll(s[1..], p);
      assert s == [s[0]] + s[1..];
    }
  }

  // ---------------------------------------------------------------------
  // Look-up by key
  // ---------------------------------------------------------------------

  /** `s.findIndex(e => key(e) === k)`, with `None` for -1. */
  function FirstIndex<T, K(==)>(s: seq<T>, key: T -> K, k: K): (r: Option<nat>)
    ensures r.Some? ==> r.value < |s| && key(s[r.value]) == k
    ensures r.Some? ==> forall j :: 0 <= j < r.value ==> key(s[j]) != k
    ensures r.None? <==> forall j :: 0 <= j < |s| ==> key(s[j]) != k
  {
    if |s| == 0 then None
    else if key(s[0]) == k then Some(0)
    else match FirstIndex(s[1..], key, k)
      case None => None
      case Some(i) => Some(i + 1)
  }

  /** `s.find(e => key(e) === k)`. */
  function Lookup<T, K(==)>(s: seq<T>, key: T -> K, k: K): Option<T> {
    match FirstIndex(s, key, k)
    case Some(i) => Some(s[i])
    case None => None
  }

  predicate HasKey<T, K(==)>(s: seq<T>, key: T -> K, k: K) {
    exists i :: 0 <= i < |s| && key(s[i]) == k
  }

  /** How many entries carry key `k`. */
  function CountKey<T, K(==)>(s: seq<T>, key: T -> K, k: K): (n: nat)
    ensures n <= |s|
    ensures n == 0 <==> !HasKey(s, key, k)
  {
    if |s| == 0 then 0
    else (if key(s[0]) == k then 1 else 0) + CountKey(s[1..], key, k)
  }

  predicate DistinctKeys<T, K(==)>(s: seq<T>, key: T -> K) {
    forall i, j :: 0 <= i < j < |s| ==> key(s[i]) != key(s[j])
  }

  /** The entries whose key is not in `ks`, in their original order. */
  function RemoveKeys<T, K(==)>(s: seq<T>, key: T -> K, ks: set<K>): (r: seq<T>)
    ensures |r| <= |s|
    ensures forall i :: 0 <= i < |r| ==> r[i] in s && key(r[i]) !in ks
    ensures forall i :: 0 <= i < |s| && key(s[i]) !in ks ==> s[i] in r
  {
    if |s| == 0 then []
    else if key(s[0]) in ks then RemoveKeys(s[1..], key, ks)
    else [s[0]] + RemoveKeys(s[1..], key, ks)
  }

  lemma {:induction false} RemoveKeysAppend<T, K>(a: seq<T>, b: seq<T>, key: T -> K, ks: set<K>)
    ensures RemoveKeys(a + b, key, ks) == RemoveKeys(a, key, ks) + RemoveKeys(b, key, ks)
    decreases |a|
  {
    if |a| == 0 {
      assert a + b == b;
    } else {
      assert (a + b)[1..] == a[1..] + b;
      RemoveKeysAppend(a[1..], b, key, ks);
    }
  }

  /** Removing keys no entry carries changes nothing. */
  lemma {:induction false} RemoveAbsentKeys<T, K>(s: seq<T>, key: T -> K, ks: set<K>)
    requires forall i :: 0 <= i < |s| ==> key(s[i]) !in ks
    ensures RemoveKeys(s, key, ks) == s
    decreases |s|
  {
    if |s| > 0 {
      RemoveAbsentKeys(s[1..], key, ks);
      assert s == [s[0]] + s[1..];
    }
  }

  /** Removing is idempotent. */
  lemma RemoveKeysTwice<T, K>(s: seq<T>, key: T -> K, ks: set<K>)
    ensures RemoveKeys(RemoveKeys(s, key, ks), key, ks) == RemoveKeys(s, key, ks)
  {
    var r := RemoveKeys(s, key, ks);
    RemoveAbsentKeys(r, key, ks);
  }

  /** A prefix of a list without repeated keys has none either. */
  lemma DistinctPrefix<T, K>(s: seq<T>, key: T -> K, n: nat)
    requires DistinctKeys(s, key)
    requires n <= |s|
    ensures DistinctKeys(s[..n], key)
  {
    forall i, j | 0 <= i < j < n
      ensures key(s[..n][i]) != key(s[..n][j])
    {
      assert s[..n][i] == s[i] && s[..n][j] == s[j];
    }
  }

  /** In a list without repeated keys, a present key occurs exactly once. */
  lemma {:induction false} DistinctCountOne<T, K>(s: seq<T>, key: T -> K, k: K)
    requires DistinctKeys(s, key)
    requires HasKey(s, key, k)
    ensures CountKey(s, key, k) == 1
    decreases |s|
  {
    assert DistinctKeys(s[1..], key) by {
      forall i, j | 0 <= i < j < |s[1..]|
        ensures key(s[1..][i]) != key(s[1..][j])
      {
        assert s[1..][i] == s[i + 1] && s[1..][j] == s[j + 1];
      }
    }
    if key(s[0]) == k {
      assert !HasKey(s[1..], key, k) by {
        forall i | 0 <= i < |s[1..]|
          ensures key(s[1..][i]) != k
        {
          assert s[1..][i] == s[i + 1];
        }
      }
    } else {
      var i :| 0 <= i < |s| && key(s[i]) == k;
      assert key(s[1..][i - 1]) == k;
      DistinctCountOne(s[1..], key, k);
    }
  }

  /** `find` looks at the head first, then at the rest. */
  lemma LookupCons<T, K>(s: seq<T>, key: T -> K, k: K)
    requires |s| > 0
    ensures Lookup(s, key, k) == if key(s[0]) == k then Some(s[0]) else Lookup(s[1..], key, k)
  {
  }

  /** Removing other keys does not change what `find` returns for `k`;
      removing `k` itself makes it unfindable. */
  lemma {:induction false} RemoveKeysLookup<T, K>(s: seq<T>, key: T -> K, ks: set<K>, k: K)
    ensures Lookup(RemoveKeys(s, key, ks), key, k) == if k in ks then None else Lookup(s, key, k)
    decreases |s|
  {
    var r := RemoveKeys(s, key, ks);
    if k in ks {
      assert FirstIndex(r, key, k).None?;
    } else if |s| > 0 {
      RemoveKeysLookup(s[1..], key, ks, k);
      LookupCons(s, key, k);
      if key(s[0]) !in ks {
        LookupCons(r, key, k);
        assert r[1..] == RemoveKeys(s[1..], key, ks);
      }
    }
  }

  /** Removing keeps keys pairwise distinct. */
  lemma {:induction false} RemoveKeysDistinct<T, K>(s: seq<T>, key: T -> K, ks: set<K>)
    requires DistinctKeys(s, key)
    ensures DistinctKeys(RemoveKeys(s, key, ks), key)
    decreases |s|
  {
    if |s| > 0 {
      assert DistinctKeys(s[1..], key) by {
        forall i, j | 0 <= i < j < |s[1..]|
          ensures key(s[1..][i]) != key(s[1..][j])
        {
          assert s[1..][i] == s[i + 1] && s[1..][j] == s[j + 1];
        }
      }
      RemoveKeysDistinct(s[1..], key, ks);
      var rest := RemoveKeys(s[1..], key, ks);
      forall i | 0 <= i < |rest|
        ensures key(rest[i]) != key(s[0])
      {
        var j :| 0 <= j < |s[1..]| && s[1..][j] == rest[i];
        assert s[j + 1] == rest[i];
      }
    }
  }

  /** Removing a single key drops exactly the entries that carry it. */
  /** Filtering on one key keeps as many entries as carry that key. */
  lemma {:induction false} FilterByKeyCount<T, K>(s: seq<T>, key: T -> K, k: K, p: T -> bool)
    requires forall x :: p(x) == (key(x) == k)
    ensures |Filter(s, p)| == CountKey(s, key, k)
    decreases |s|
  {
    if |s| > 0 {
      FilterByKeyCount(s[1..], key, k, p);
    }
  }

  lemma {:induction false} RemoveKeyCount<T, K>(s: seq<T>, key: T -> K, k: K)
    ensures |RemoveKeys(s, key, {k})| + CountKey(s, key, k) == |s|
    decreases |s|
  {
    if |s| > 0 {
      RemoveKeyCount(s[1..], key, k);
    }
  }

  // ---------------------------------------------------------------------
  // Replace-or-append
  // ---------------------------------------------------------------------

  /** `const i = s.findIndex(e => key(e) === key(x)); if (i >= 0) s[i] = x; else s.push(x);` */
  function UpsertBy<T, K(==)>(s: seq<T>, key: T -> K, x: T): (r: seq<T>)
    ensures HasKey(s, key, key(x)) ==> |r| == |s|
    ensures !HasKey(s, key, key(x)) ==> r == s + [x]
    ensures Lookup(r, key, key(x)) == Some(x)
  {
    match FirstIndex(s, key, key(x))
    case Some(i) =>
      assert FirstIndex(s[i := x], key, key(x)) == Some(i) by {
        FirstIndexSameKeys(s, s[i := x], key, key(x));
      }
      s[i := x]
    case None =>
      FirstIndexAppendNew(s, key, x);
      s + [x]
  }

  /** Two lists that agree on where key `k` occurs have the same first index for it. */
  lemma FirstIndexSameKeys<T, K>(s: seq<T>, t: seq<T>, key: T -> K, k: K)
    requires |s| == |t|
    requires forall j :: 0 <= j < |s| ==> (key(s[j]) == k <==> key(t[j]) == k)
    ensures FirstIndex(s, key, k) == FirstIndex(t, key, k)
  {
  }

  /** Appending an entry under a key the list lacks: that entry is where the key is first found. */
  lemma FirstIndexAppendNew<T, K>(s: seq<T>, key: T -> K, x: T)
    requires !HasKey(s, key, key(x))
    ensures FirstIndex(s + [x], key, key(x)) == Some(|s|)
  {
    var r := FirstIndex(s + [x], key, key(x));
    assert key((s + [x])[|s|]) == key(x);
  }

  /** An upsert leaves the entry found for every other key as it was. */
  lemma UpsertLookupOther<T, K>(s: seq<T>, key: T -> K, x: T, k: K)
    requires k != key(x)
    ensures Lookup(UpsertBy(s, key, x), key, k) == Lookup(s, key, k)
  {
    var r := UpsertBy(s, key, x);
    match FirstIndex(s, key, key(x))
    case Some(i) =>
      FirstIndexSameKeys(s, r, key, k);
    case None =>
      assert r == s + [x];
      match FirstIndex(s, key, k)
      case Some(j) =>
        FirstIndexSameKeys(s, r[..|s|], key, k);
        assert FirstIndex(r, key, k) == Some(j) by {
          assert key(r[j]) == k;
          assert forall i :: 0 <= i < j ==> r[i] == s[i];
        }
      case None =>
        assert forall i :: 0 <= i < |r| ==> key(r[i]) != k by {
          forall i | 0 <= i < |r|
            ensures key(r[i]) != k
          {
            if i < |s| {
              assert r[i] == s[i];
            }
          }
        }
  }

  lemma UpsertLookupOthers<T, K>(s: seq<T>, key: T -> K, x: T)
    ensures forall k :: k != key(x) ==> Lookup(UpsertBy(s, key, x), key, k) == Lookup(s, key, k)
  {
    forall k | k != key(x)
      ensures Lookup(UpsertBy(s, key, x), key, k) == Lookup(s, key, k)
    {
      UpsertLookupOther(s, key, x, k);
    }
  }

  /** An upsert never touches entries under other keys, nor their order. */
  lemma UpsertKeepsOthers<T, K>(s: seq<T>, key: T -> K, x: T, ks: set<K>)
    requires key(x) in ks
    ensures RemoveKeys(UpsertBy(s, key, x), key, ks) == RemoveKeys(s, key, ks)
  {
    match FirstIndex(s, key, key(x))
    case Some(i) =>
      assert s == s[..i] + [s[i]] + s[i + 1..];
      assert UpsertBy(s, key, x) == s[..i] + [x] + s[i + 1..];
      RemoveKeysAppend(s[..i] + [s[i]], s[i + 1..], key, ks);
      RemoveKeysAppend(s[..i], [s[i]], key, ks);
      RemoveKeysAppend(s[..i] + [x], s[i + 1..], key, ks);
      RemoveKeysAppend(s[..i], [x], key, ks);
    case None =>
      RemoveKeysAppend(s, [x], key, ks);
  }

  /** An upsert keeps keys pairwise distinct. */
  lemma UpsertDistinct<T, K>(s: seq<T>, key: T -> K, x: T)
    requires DistinctKeys(s, key)
    ensures DistinctKeys(UpsertBy(s, key, x), key)
  {
  }

  /** Upserting twice under one key is the same as upserting the second value
      alone: the first value leaves no trace. */
  lemma UpsertTwice<T, K>(s: seq<T>, key: T -> K, x: T, y: T)
    requires key(x) == key(y)
    ensures UpsertBy(UpsertBy(s, key, x), key, y) == UpsertBy(s, key, y)
  {
    match FirstIndex(s, key, key(x))
    case Some(i) =>
      FirstIndexSameKeys(s, s[i := x], key, key(x));
    case None =>
      FirstIndexAppendNew(s, key, x);
      assert (s + [x])[|s| := y] == s + [y];
  }

  /** `s.map(e => key(e) === key(x) ? x : e)`: every entry under the key of
      `x` becomes `x`. */
  function ReplaceByKey<T, K(==)>(s: seq<T>, key: T -> K, x: T): (r: seq<T>)
    ensures |r| == |s|
    ensures forall i :: 0 <= i < |s| && key(s[i]) != key(x) ==> r[i] == s[i]
    ensures forall i :: 0 <= i < |s| && key(s[i]) == key(x) ==> r[i] == x
  {
    seq(|s|, i requires 0 <= i < |s| => if key(s[i]) == key(x) then x else s[i])
  }

  /** After the replacement a look-up by the key of `x` finds `x` when the
      key was present, and every other look-up is unchanged. */
  lemma ReplaceByKeyLookup<T, K>(s: seq<T>, key: T -> K, x: T, k: K)
    ensures Lookup(ReplaceByKey(s, key, x), key, k) ==
              if k == key(x) && HasKey(s, key, k) then Some(x)
              else if k == key(x) then None
              else Lookup(s, key, k)
  {
    var r := ReplaceByKey(s, key, x);
    FirstIndexSameKeys(s, r, key, k);
  }

  // ---------------------------------------------------------------------
  // Counting distinct keys
  // ---------------------------------------------------------------------

  /** The keys that occur in `s`. */
  ghost function KeySet<T, K>(s: seq<T>, key: T -> K): set<K> {
    set i | 0 <= i < |s| :: key(s[i])
  }

  /** Under distinct keys there are exactly as many keys as entries. */
  lemma {:induction false} DistinctKeySetSize<T, K>(s: seq<T>, key: T -> K)
    requires DistinctKeys(s, key)
    ensures |KeySet(s, key)| == |s|
    decreases |s|
  {
    if |s| > 0 {
      var rest := s[1..];
      assert DistinctKeys(rest, key) by {
        forall i, j | 0 <= i < j < |rest|
          ensures key(rest[i]) != key(rest[j])
        {
          assert rest[i] == s[i + 1] && rest[j] == s[j + 1];
        }
      }
      DistinctKeySetSize(rest, key);
      assert KeySet(s, key) == {key(s[0])} + KeySet(rest, key) by {
        forall k | k in KeySet(s, key)
          ensures k in {key(s[0])} + KeySet(rest, key)
        {
          var i :| 0 <= i < |s| && key(s[i]) == k;
          if i > 0 {
            assert rest[i - 1] == s[i];
          }
        }
        forall k | k in KeySet(rest, key)
          ensures k in KeySet(s, key)
        {
          var i :| 0 <= i < |rest| && key(rest[i]) == k;
          assert s[i + 1] == rest[i];
        }
      }
      assert key(s[0]) !in KeySet(rest, key) by {
        forall i | 0 <= i < |rest|
          ensures key(rest[i]) != key(s[0])
        {
          assert rest[i] == s[i + 1];
        }
      }
    }
  }

  /** A subset is no larger, and a subset of the same size is the set. */
  lemma {:induction false} SubsetSize<T>(a: set<T>, b: set<T>)
    requires a <= b
    ensures |a| <= |b|
    ensures |a| == |b| ==> a == b
    decreases |b|
  {
    if b != {} {
      var x :| x in b;
      SubsetSize(a - {x}, b - {x});
      if x in a {
        assert a == (a - {x}) + {x};
        assert b == (b - {x}) + {x};
      } else {
        assert a - {x} == a;
      }
    }
  }
}
