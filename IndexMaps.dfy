/** The insertion-ordered map of the `indexmap` crate, as far as the rule
    engine uses it: `insert`, `entry(k).or_insert(Vec::new()).push(x)`,
    `retain`, and iteration in order.

    A map is the sequence of its entries in iteration order. Folding
    `Insert` (or `Push`) over a sequence of key/value pairs gives the key
    order of first occurrence (`FirstSeen`); `Insert` keeps the value of the
    last pair for each key, and `Push` collects every value of a key in
    order (`ValuesOf`). */
module IndexMaps {

  type IndexMap<K, V> = seq<(K, V)>

  /** The keys of `m`, in iteration order. */
  function Keys<K, V>(m: IndexMap<K, V>): (ks: seq<K>)
    ensures |ks| == |m| && forall i | 0 <= i < |m| :: ks[i] == m[i].0
  {
    seq(|m|, i requires 0 <= i < |m| => m[i].0)
  }

  ghost predicate Distinct<K>(s: seq<K>)
  {
    forall i, j | 0 <= i < j < |s| :: s[i] != s[j]
  }

  /** Index of the first occurrence of `k` in `s`; `|s|` when `k` is absent. */
  function Position<K(==)>(s: seq<K>, k: K): (i: nat)
    ensures i <= |s|
    ensures forall j | 0 <= j < i :: s[j] != k
    ensures i < |s| ==> s[i] == k
  {
    if s == [] then 0 else if s[0] == k then 0 else 1 + Position(s[1..], k)
  }

  lemma PositionAppend<K>(s: seq<K>, x: K)
    ensures forall k | k in s :: Position(s + [x], k) == Position(s, k)
    ensures x !in s ==> Position(s + [x], x) == |s|
  {
    forall k | k in s
      ensures Position(s + [x], k) == Position(s, k)
    {
      var p, q := Position(s + [x], k), Position(s, k);
      assert (s + [x])[q] == k;
    }
    if x !in s {
      assert (s + [x])[|s|] == x;
    }
  }

  predicate HasKey<K(==), V>(m: IndexMap<K, V>, k: K)
  {
    k in Keys(m)
  }

  /** Where `k` sits in the iteration order of `m` (`|m|` when absent). */
  function IndexOf<K(==), V>(m: IndexMap<K, V>, k: K): (i: nat)
    ensures i <= |m|
    ensures i < |m| <==> HasKey(m, k)
    ensures i < |m| ==> m[i].0 == k
  {
    Position(Keys(m), k)
  }

  function Get<K(==), V>(m: IndexMap<K, V>, k: K): V
    requires HasKey(m, k)
  {
    m[IndexOf(m, k)].1
  }

  /** In a map whose keys are distinct, each entry is what its key looks up. */
  lemma EntryLookup<K, V>(m: IndexMap<K, V>, g: nat)
    requires Distinct(Keys(m))
    requires g < |m|
    ensures HasKey(m, m[g].0) && IndexOf(m, m[g].0) == g && Get(m, m[g].0) == m[g].1
  {
    assert Keys(m)[g] == m[g].0;
    var p := IndexOf(m, m[g].0);
    assert Keys(m)[p] == Keys(m)[g];
  }

  /** `Insert` of a key not yet present appends an entry. */
  lemma InsertNew<K, V>(m: IndexMap<K, V>, k: K, v: V)
    requires !HasKey(m, k)
    ensures Insert(m, k, v) == m + [(k, v)]
  {
  }

  /** `IndexMap::insert`: a new key is appended; a present key keeps its
      place and takes the new value; no other key's value changes. */
  function Insert<K(==), V>(m: IndexMap<K, V>, k: K, v: V): (r: IndexMap<K, V>)
    ensures Keys(r) == if HasKey(m, k) then Keys(m) else Keys(m) + [k]
    ensures HasKey(r, k) && Get(r, k) == v
    ensures forall i | 0 <= i < |m| && m[i].0 != k :: HasKey(r, m[i].0) && Get(r, m[i].0) == Get(m, m[i].0)
  {
    var i := IndexOf(m, k);
    if i < |m| then
      var r := m[i := (k, v)];
      assert Keys(r) == Keys(m);
      r
    else
      var r := m + [(k, v)];
      assert Keys(r) == Keys(m) + [k];
      PositionAppend(Keys(m), k);
      r
  }

  /** `entry(k).or_insert(Vec::new()).push(x)`: appends `x` to the values
      of `k`, opening an empty group at the end for a new key. */
  function Push<K(==), X>(m: IndexMap<K, seq<X>>, k: K, x: X): (r: IndexMap<K, seq<X>>)
    ensures Keys(r) == if HasKey(m, k) then Keys(m) else Keys(m) + [k]
    ensures HasKey(r, k) && Get(r, k) == (if HasKey(m, k) then Get(m, k) else []) + [x]
    ensures forall i | 0 <= i < |m| && m[i].0 != k :: HasKey(r, m[i].0) && Get(r, m[i].0) == Get(m, m[i].0)
  {
    Insert(m, k, (if HasKey(m, k) then Get(m, k) else []) + [x])
  }

  /** `Push` of a key not yet present opens a group at the end. */
  lemma PushNew<K, X>(m: IndexMap<K, seq<X>>, k: K, x: X)
    requires !HasKey(m, k)
    ensures Push(m, k, x) == m + [(k, [x])]
  {
    assert [] + [x] == [x];
  }

  /** `Push` of a present key extends its group in place. */
  lemma PushPresent<K, X>(m: IndexMap<K, seq<X>>, k: K, x: X)
    requires HasKey(m, k)
    ensures Push(m, k, x) == m[IndexOf(m, k) := (k, Get(m, k) + [x])]
  {
  }

  /** `IndexMap::retain`: keeps exactly the entries that `keep` accepts. */
  function Retain<K(==), V>(m: IndexMap<K, V>, keep: (K, V) -> bool): (r: IndexMap<K, V>)
    ensures |r| <= |m|
    ensures forall i | 0 <= i < |r| :: keep(r[i].0, r[i].1) && r[i] in m
    ensures forall i | 0 <= i < |m| :: keep(m[i].0, m[i].1) ==> m[i] in r
  {
    if m == [] then []
    else
      var rest := Retain(m[..|m| - 1], keep);
      var last := m[|m| - 1];
      assert forall e | e in m[..|m| - 1] :: e in m;
      if keep(last.0, last.1) then rest + [last] else rest
  }

  /** Retaining never reorders: on a map with distinct keys, the kept
      entries appear in the order they had before (so their keys are still
      distinct). */
  lemma {:induction false} RetainKeepsOrder<K, V>(m: IndexMap<K, V>, keep: (K, V) -> bool)
    requires Distinct(Keys(m))
    ensures forall a, b | 0 <= a < b < |Retain(m, keep)| ::
              IndexOf(m, Retain(m, keep)[a].0) < IndexOf(m, Retain(m, keep)[b].0)
  {
    if m != [] {
      var init, last := m[..|m| - 1], m[|m| - 1];
      var rest := Retain(init, keep);
      DistinctKeysOfPrefix(m);
      RetainKeepsOrder(init, keep);
      assert m == init + [last];
      RetainedBeforeLast(init, last, keep);
      var r := Retain(m, keep);
      forall a, b | 0 <= a < b < |r| ensures IndexOf(m, r[a].0) < IndexOf(m, r[b].0) {
        if b < |rest| {
          assert r[a] == rest[a] && r[b] == rest[b];
        } else {
          assert r[b] == last && r[a] == rest[a];
          assert Keys(m)[|m| - 1] == last.0;
        }
      }
    }
  }

  lemma DistinctKeysOfPrefix<K, V>(m: IndexMap<K, V>)
    requires m != [] && Distinct(Keys(m))
    ensures Distinct(Keys(m[..|m| - 1]))
  {
    var init := m[..|m| - 1];
    forall i, j | 0 <= i < j < |init| ensures Keys(init)[i] != Keys(init)[j] {
      assert Keys(init)[i] == Keys(m)[i] && Keys(init)[j] == Keys(m)[j];
    }
  }

  /** The entries kept from all but the last entry sit where they sat, and
      the last key is found at the end. */
  lemma RetainedBeforeLast<K, V>(init: IndexMap<K, V>, last: (K, V), keep: (K, V) -> bool)
    requires Distinct(Keys(init + [last]))
    ensures forall i | 0 <= i < |Retain(init, keep)| ::
              IndexOf(init + [last], Retain(init, keep)[i].0) == IndexOf(init, Retain(init, keep)[i].0) < |init|
    ensures IndexOf(init + [last], last.0) == |init|
  {
    var m := init + [last];
    var rest := Retain(init, keep);
    assert m[..|m| - 1] == init;
    KeysOfPrefix(m);
    PositionAppend(Keys(init), last.0);
    forall i | 0 <= i < |rest|
      ensures IndexOf(m, rest[i].0) == IndexOf(init, rest[i].0) < |init|
    {
      var j :| 0 <= j < |init| && init[j] == rest[i];
      assert Keys(init)[j] == rest[i].0;
    }
    assert Keys(m)[|m| - 1] == last.0;
    assert last.0 !in Keys(init) by {
      forall j | 0 <= j < |init| ensures Keys(init)[j] != last.0 {
        assert Keys(init)[j] == Keys(m)[j];
      }
    }
  }

  /** `RetainKeepsOrder` for one pair of kept entries. */
  lemma RetainOrderAt<K, V>(m: IndexMap<K, V>, keep: (K, V) -> bool, a: nat, b: nat)
    requires Distinct(Keys(m))
    requires a < b < |Retain(m, keep)|
    ensures IndexOf(m, Retain(m, keep)[a].0) < IndexOf(m, Retain(m, keep)[b].0) < |m|
  {
    RetainKeepsOrder(m, keep);
    var r := Retain(m, keep);
    var g :| 0 <= g < |m| && m[g] == r[b];
    assert Keys(m)[g] == r[b].0;
  }

  /** The distinct elements of `s`, in the order of their first occurrence. */
  function FirstSeen<K(==)>(s: seq<K>): seq<K>
  {
    if s == [] then []
    else
      var d := FirstSeen(s[..|s| - 1]);
      if s[|s| - 1] in d then d else d + [s[|s| - 1]]
  }

  /** `FirstSeen(s)` lists every element of `s` once, and orders them by
      the position of their first occurrence in `s`. */
  lemma {:induction false} FirstSeenCharacterized<K>(s: seq<K>)
    ensures Distinct(FirstSeen(s))
    ensures forall i | 0 <= i < |FirstSeen(s)| :: FirstSeen(s)[i] in s
    ensures forall i | 0 <= i < |s| :: s[i] in FirstSeen(s)
    ensures forall a, b | 0 <= a < b < |FirstSeen(s)| ::
              Position(s, FirstSeen(s)[a]) < Position(s, FirstSeen(s)[b])
  {
    if s != [] {
      var init, x := s[..|s| - 1], s[|s| - 1];
      assert s == init + [x];
      FirstSeenCharacterized(init);
      PositionAppend(init, x);
      var d := FirstSeen(init);
      if x !in d {
        assert x !in init;
        forall a | 0 <= a < |d| ensures Position(s, d[a]) < |init| {
          assert d[a] in d;
          assert d[a] in init;
          assert Position(s, d[a]) == Position(init, d[a]);
        }
      }
    }
  }

  /** The order part of `FirstSeenCharacterized`, for one pair. */
  lemma FirstSeenOrderAt<K>(s: seq<K>, a: nat, b: nat)
    requires a < b < |FirstSeen(s)|
    ensures Position(s, FirstSeen(s)[a]) < Position(s, FirstSeen(s)[b])
  {
    FirstSeenCharacterized(s);
  }

  /** The map that inserting every pair, in order, into an empty map builds. */
  function FromPairs<K(==), V>(pairs: seq<(K, V)>): IndexMap<K, V>
  {
    if pairs == [] then []
    else Insert(FromPairs(pairs[..|pairs| - 1]), pairs[|pairs| - 1].0, pairs[|pairs| - 1].1)
  }

  /** The map that pushing every pair, in order, into its key's group builds. */
  function GroupPairs<K(==), X>(pairs: seq<(K, X)>): IndexMap<K, seq<X>>
  {
    if pairs == [] then []
    else Push(GroupPairs(pairs[..|pairs| - 1]), pairs[|pairs| - 1].0, pairs[|pairs| - 1].1)
  }

  /** The values paired with `k`, in the order of the pairs. */
  function ValuesOf<K(==), X>(pairs: seq<(K, X)>, k: K): seq<X>
  {
    if pairs == [] then []
    else
      ValuesOf(pairs[..|pairs| - 1], k)
      + (if pairs[|pairs| - 1].0 == k then [pairs[|pairs| - 1].1] else [])
  }

  /** One more round of the `insert` loop. */
  lemma FromPairsSnoc<K, V>(pairs: seq<(K, V)>, x: (K, V))
    ensures FromPairs(pairs + [x]) == Insert(FromPairs(pairs), x.0, x.1)
  {
    assert (pairs + [x])[..|pairs|] == pairs;
  }

  /** One more round of the `or_insert(..).push` loop. */
  lemma GroupPairsSnoc<K, X>(pairs: seq<(K, X)>, x: (K, X))
    ensures GroupPairs(pairs + [x]) == Push(GroupPairs(pairs), x.0, x.1)
  {
    assert (pairs + [x])[..|pairs|] == pairs;
  }

  lemma KeysOfPrefix<K, X>(pairs: seq<(K, X)>)
    requires pairs != []
    ensures Keys(pairs) == Keys(pairs[..|pairs| - 1]) + [pairs[|pairs| - 1].0]
  {
  }

  /** Inserting pairs keeps one entry per key, in first-occurrence order. */
  lemma {:induction false} FromPairsKeys<K, V>(pairs: seq<(K, V)>)
    ensures Keys(FromPairs(pairs)) == FirstSeen(Keys(pairs))
  {
    if pairs != [] {
      KeysOfPrefix(pairs);
      FromPairsKeys(pairs[..|pairs| - 1]);
    }
  }

  /** Grouping pairs opens one group per key, in first-occurrence order. */
  lemma {:induction false} GroupPairsKeys<K, X>(pairs: seq<(K, X)>)
    ensures Keys(GroupPairs(pairs)) == FirstSeen(Keys(pairs))
  {
    if pairs != [] {
      KeysOfPrefix(pairs);
      GroupPairsKeys(pairs[..|pairs| - 1]);
    }
  }

  /** After inserting every pair, a key maps to the value of its last pair. */
  lemma {:induction false} FromPairsLastWins<K, V>(pairs: seq<(K, V)>, j: nat)
    requires j < |pairs|
    requires forall l | j < l < |pairs| :: pairs[l].0 != pairs[j].0
    ensures HasKey(FromPairs(pairs), pairs[j].0) && Get(FromPairs(pairs), pairs[j].0) == pairs[j].1
  {
    if j < |pairs| - 1 {
      var init := pairs[..|pairs| - 1];
      assert init[j] == pairs[j];
      FromPairsLastWins(init, j);
    }
  }

  /** After grouping, each key's group holds all of its values, in order. */
  lemma {:induction false} GroupPairsValues<K, X>(pairs: seq<(K, X)>, k: K)
    ensures HasKey(GroupPairs(pairs), k) <==> k in Keys(pairs)
    ensures HasKey(GroupPairs(pairs), k) ==> Get(GroupPairs(pairs), k) == ValuesOf(pairs, k)
  {
    FirstSeenCharacterized(Keys(pairs));
    GroupPairsKeys(pairs);
    if pairs != [] {
      var init := pairs[..|pairs| - 1];
      GroupPairsValues(init, k);
      KeysOfPrefix(pairs);
      if k == pairs[|pairs| - 1].0 && !HasKey(GroupPairs(init), k) {
        ValuesOfAbsent(init, k);
      }
    }
  }

  lemma {:induction false} ValuesOfAbsent<K, X>(pairs: seq<(K, X)>, k: K)
    requires k !in Keys(pairs)
    ensures ValuesOf(pairs, k) == []
  {
    if pairs != [] {
      KeysOfPrefix(pairs);
      ValuesOfAbsent(pairs[..|pairs| - 1], k);
    }
  }

  /** A key has at least one value iff some pair has it. */
  lemma {:induction false} ValuesOfPresent<K, X>(pairs: seq<(K, X)>, k: K)
    ensures |ValuesOf(pairs, k)| >= 1 <==> exists i | 0 <= i < |pairs| :: pairs[i].0 == k
  {
    if pairs != [] {
      var n := |pairs|;
      var init := pairs[..n - 1];
      ValuesOfPresent(init, k);
      if exists i | 0 <= i < n :: pairs[i].0 == k {
        var i :| 0 <= i < n && pairs[i].0 == k;
        if i < n - 1 { assert init[i].0 == k; }
      }
      if exists i | 0 <= i < n - 1 :: init[i].0 == k {
        var i :| 0 <= i < n - 1 && init[i].0 == k;
        assert pairs[i].0 == k;
      }
    }
  }

  /** A key has at least two values iff two different pairs have it. */
  lemma {:induction false} ValuesOfCount<K, X>(pairs: seq<(K, X)>, k: K)
    ensures |ValuesOf(pairs, k)| >= 2 <==>
              exists i, j | 0 <= i < j < |pairs| :: pairs[i].0 == k && pairs[j].0 == k
  {
    if pairs != [] {
      var n := |pairs|;
      var init := pairs[..n - 1];
      ValuesOfCount(init, k);
      ValuesOfPresent(init, k);
      if exists i, j | 0 <= i < j < n :: pairs[i].0 == k && pairs[j].0 == k {
        var i, j :| 0 <= i < j < n && pairs[i].0 == k && pairs[j].0 == k;
        assert init[i].0 == k;
        if j < n - 1 { assert init[j].0 == k; }
      }
      if |ValuesOf(pairs, k)| >= 2 && |ValuesOf(init, k)| < 2 {
        var i :| 0 <= i < n - 1 && init[i].0 == k;
        assert pairs[i].0 == k && pairs[n - 1].0 == k;
      }
      if exists i, j | 0 <= i < j < n - 1 :: init[i].0 == k && init[j].0 == k {
        var i, j :| 0 <= i < j < n - 1 && init[i].0 == k && init[j].0 == k;
        assert pairs[i].0 == k && pairs[j].0 == k;
      }
    }
  }
}
