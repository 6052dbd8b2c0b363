/**
 * The JavaScript `Map` that every table of the game server is built on,
 * modelled as its list of entries in insertion order. A Map never holds a
 * key twice (DistinctKeys); `set` on a present key overwrites the value in
 * its original position, `set` on a new key appends, `delete` drops the
 * entry and keeps the order of the others, and `new Map(entries)` replays
 * `set` over the entries from first to last.
 */
module OrderedMap {
  import opened Wrappers

  ghost predicate DistinctKeys<K, V>(m: seq<(K, V)>) {
    forall i, j :: 0 <= i < j < |m| ==> m[i].0 != m[j].0
  }

  /** The position of the entry for `k`, if there is one. */
  function Find<K(==, !new), V>(m: seq<(K, V)>, k: K): (r: Option<nat>)
    ensures r.Some? ==> r.value < |m| && m[r.value].0 == k
    ensures forall j :: 0 <= j < |m| && (r.None? || j < r.value) ==> m[j].0 != k
  {
    if m == [] then None
    else if m[0].0 == k then Some(0)
    else match Find(m[1..], k)
      case None => None
      case Some(i) => Some(i + 1)
  }

  /** Map.prototype.has */
  predicate Has<K(==, !new), V>(m: seq<(K, V)>, k: K) {
    Find(m, k).Some?
  }

  /** Map.prototype.get, with None for `undefined` */
  function Get<K(==, !new), V>(m: seq<(K, V)>, k: K): (r: Option<V>)
    ensures r.Some? <==> Has(m, k)
    ensures r.Some? ==> (k, r.value) in m
  {
    match Find(m, k)
    case None => None
    case Some(i) => Some(m[i].1)
  }

  /** Map.prototype.keys, in insertion order */
  function Keys<K(==, !new), V>(m: seq<(K, V)>): (ks: seq<K>)
    ensures |ks| == |m|
    ensures forall k {:trigger k in ks} :: k in ks <==> Has(m, k)
  {
    var ks := seq(|m|, i requires 0 <= i < |m| => m[i].0);
    forall k ensures k in ks <==> Has(m, k) {
      KeyListed(m, ks, k);
    }
    ks
  }

  /** The keys of a Map are listed once each. */
  lemma KeysDistinct<K(!new), V>(m: seq<(K, V)>)
    requires DistinctKeys(m)
    ensures forall i, j :: 0 <= i < j < |Keys(m)| ==> Keys(m)[i] != Keys(m)[j]
  {
  }

  /** A key is listed exactly when the map has it. */
  lemma KeyListed<K(!new), V>(m: seq<(K, V)>, ks: seq<K>, k: K)
    requires |ks| == |m| && forall i :: 0 <= i < |m| ==> ks[i] == m[i].0
    ensures k in ks <==> Has(m, k)
  {
    if Has(m, k) {
      assert ks[Find(m, k).value] == k;
    }
    if k in ks {
      var i :| 0 <= i < |ks| && ks[i] == k;
      assert m[i].0 == k;
    }
  }

  /** The entry for `k` sits at position `i` when `i` is the first position holding `k`. */
  lemma FindAt<K(!new), V>(m: seq<(K, V)>, k: K, i: nat)
    requires i < |m| && m[i].0 == k
    requires forall j :: 0 <= j < i ==> m[j].0 != k
    ensures Find(m, k) == Some(i)
  {
  }

  lemma DistinctFind<K(!new), V>(m: seq<(K, V)>, i: nat)
    requires DistinctKeys(m) && i < |m|
    ensures Find(m, m[i].0) == Some(i)
  {
    FindAt(m, m[i].0, i);
  }

  /** Two maps with the same keys in the same order find every key at the same position. */
  lemma {:induction false} SameKeysSameFind<K(!new), V, W>(a: seq<(K, V)>, b: seq<(K, W)>, k: K)
    requires Keys(a) == Keys(b)
    ensures Find(a, k) == Find(b, k)
    decreases |a|
  {
    if a != [] {
      assert a[0].0 == Keys(a)[0] == Keys(b)[0] == b[0].0;
      if a[0].0 != k {
        assert Keys(a[1..]) == Keys(a)[1..];
        assert Keys(b[1..]) == Keys(b)[1..];
        SameKeysSameFind(a[1..], b[1..], k);
      }
    }
  }

  /** Map.prototype.set */
  function Set<K(==, !new), V>(m: seq<(K, V)>, k: K, v: V): (r: seq<(K, V)>)
    ensures Get(r, k) == Some(v)
    ensures forall k' :: k' != k ==> Get(r, k') == Get(m, k')
    ensures Keys(r) == if Has(m, k) then Keys(m) else Keys(m) + [k]
    ensures DistinctKeys(m) ==> DistinctKeys(r)
    ensures Has(m, k) ==> r == m[Find(m, k).value := (k, v)]
    ensures !Has(m, k) ==> r == m + [(k, v)]
  {
    match Find(m, k)
    case Some(i) =>
      OverwriteKeepsFind(m, i, v);
      m[i := (k, v)]
    case None =>
      AppendKeepsFind(m, k, v);
      m + [(k, v)]
  }

  /** Overwriting the value at a position keeps every key where it was. */
  lemma OverwriteKeepsFind<K(!new), V>(m: seq<(K, V)>, i: nat, v: V)
    requires i < |m|
    ensures Keys(m[i := (m[i].0, v)]) == Keys(m)
    ensures forall k' :: Find(m[i := (m[i].0, v)], k') == Find(m, k')
  {
    var r := m[i := (m[i].0, v)];
    assert Keys(r) == Keys(m);
    forall k' ensures Find(r, k') == Find(m, k') {
      SameKeysSameFind(r, m, k');
    }
  }

  /** Appending an entry for a new key puts it last and keeps every other key where it was. */
  lemma AppendKeepsFind<K(!new), V>(m: seq<(K, V)>, k: K, v: V)
    requires Find(m, k).None?
    ensures Find(m + [(k, v)], k) == Some(|m|)
    ensures forall k' :: k' != k ==> Find(m + [(k, v)], k') == Find(m, k')
    ensures Keys(m + [(k, v)]) == Keys(m) + [k]
  {
    var r := m + [(k, v)];
    assert forall j :: 0 <= j < |m| ==> r[j] == m[j];
    FindAt(r, k, |m|);
    forall k' | k' != k ensures Find(r, k') == Find(m, k') {
      AppendOtherKey(m, k, v, k');
    }
    assert Keys(r) == Keys(m) + [k] by {
      assert forall j :: 0 <= j < |r| ==> Keys(r)[j] == (Keys(m) + [k])[j];
    }
  }

  /** Appending an entry for `k` does not change where another key is found. */
  lemma AppendOtherKey<K(!new), V>(m: seq<(K, V)>, k: K, v: V, k': K)
    requires k' != k
    ensures Find(m + [(k, v)], k') == Find(m, k')
  {
    var r := m + [(k, v)];
    assert forall j :: 0 <= j < |m| ==> r[j] == m[j];
    match Find(m, k')
    case Some(j) =>
      FindAt(r, k', j);
    case None =>
  }

  /** Map.prototype.delete: the entry for `k` goes, the others keep their order. */
  function Delete<K(==, !new), V>(m: seq<(K, V)>, k: K): (r: seq<(K, V)>)
    ensures forall k' :: k' != k ==> Get(r, k') == Get(m, k')
    ensures DistinctKeys(m) ==> !Has(r, k) && DistinctKeys(r)
    ensures !Has(m, k) ==> r == m
    ensures Has(m, k) ==> r == m[..Find(m, k).value] + m[Find(m, k).value + 1..]
  {
    match Find(m, k)
    case None => m
    case Some(i) =>
      forall k' | k' != k ensures Get(m[..i] + m[i + 1..], k') == Get(m, k') {
        RemoveAtKeepsGet(m, i, k');
      }
      RemoveAtDistinct(m, i);
      m[..i] + m[i + 1..]
  }

  /** Removing the entry at `i` leaves the entry of every other key as it was. */
  lemma RemoveAtKeepsGet<K(!new), V>(m: seq<(K, V)>, i: nat, k': K)
    requires i < |m| && m[i].0 != k'
    ensures Get(m[..i] + m[i + 1..], k') == Get(m, k')
  {
    var r := m[..i] + m[i + 1..];
    assert forall l :: 0 <= l < |r| ==> r[l] == (if l < i then m[l] else m[l + 1]);
    if Find(m, k').Some? {
      var j := Find(m, k').value;
      FindAt(r, k', if j < i then j else j - 1);
    }
  }

  /** In a Map, removing the entry at `i` removes its key and leaves a Map. */
  lemma RemoveAtDistinct<K(!new), V>(m: seq<(K, V)>, i: nat)
    requires i < |m|
    ensures DistinctKeys(m) ==> !Has(m[..i] + m[i + 1..], m[i].0) && DistinctKeys(m[..i] + m[i + 1..])
  {
    var r := m[..i] + m[i + 1..];
    assert forall l :: 0 <= l < |r| ==> r[l] == (if l < i then m[l] else m[l + 1]);
  }

  /** `new Map(entries)` continued from the map `acc` */
  function SetAll<K(==, !new), V>(acc: seq<(K, V)>, es: seq<(K, V)>): (r: seq<(K, V)>)
    ensures DistinctKeys(acc) ==> DistinctKeys(r)
    decreases |es|
  {
    if es == [] then acc else SetAll(Set(acc, es[0].0, es[0].1), es[1..])
  }

  /** `new Map(entries)`: a Map built from a list of entries, where a later entry for a key overwrites an earlier one. */
  function FromEntries<K(==, !new), V>(es: seq<(K, V)>): (r: seq<(K, V)>)
    ensures DistinctKeys(r)
  {
    SetAll([], es)
  }

  /** Replaying entries whose keys are new appends them unchanged. */
  lemma {:induction false} SetAllFresh<K(!new), V>(acc: seq<(K, V)>, es: seq<(K, V)>)
    requires DistinctKeys(acc + es)
    ensures SetAll(acc, es) == acc + es
    decreases |es|
  {
    if es != [] {
      FreshHead(acc, es);
      assert (acc + [es[0]]) + es[1..] == acc + es;
      SetAllFresh(acc + [es[0]], es[1..]);
    }
  }

  /** The first of the entries still to replay is not yet in the map, so setting it appends it. */
  lemma FreshHead<K(!new), V>(acc: seq<(K, V)>, es: seq<(K, V)>)
    requires DistinctKeys(acc + es) && es != []
    ensures Set(acc, es[0].0, es[0].1) == acc + [es[0]]
  {
    assert Find(acc, es[0].0).None? by {
      forall j | 0 <= j < |acc| ensures acc[j].0 != es[0].0 {
        assert (acc + es)[j] == acc[j] && (acc + es)[|acc|] == es[0];
      }
    }
  }

  /** `new Map(Array.from(m.entries()))` gives back `m`, entries in the same order. */
  lemma FromEntriesOfMap<K(!new), V>(m: seq<(K, V)>)
    ensures DistinctKeys(m) ==> FromEntries(m) == m
  {
    if DistinctKeys(m) {
      assert [] + m == m;
      SetAllFresh([], m);
    }
  }

  /** A map built from two entries: two entries when the keys differ, one holding the second value when they are equal. */
  lemma FromTwoEntries<K(!new), V>(a: K, x: V, b: K, y: V)
    ensures FromEntries([(a, x), (b, y)]) == if a == b then [(a, y)] else [(a, x), (b, y)]
  {
    FromTwoEntriesSteps(a, x, b, y);
    if a == b {
      assert Find([(a, x)], b) == Some(0);
    } else {
      assert Find([(a, x)], b) == None by { assert Find<K, V>([], b) == None; }
    }
  }

  /** Replaying two entries is setting the first on the empty map, then the second. */
  lemma FromTwoEntriesSteps<K(!new), V>(a: K, x: V, b: K, y: V)
    ensures FromEntries([(a, x), (b, y)]) == Set([(a, x)], b, y)
  {
    var es := [(a, x), (b, y)];
    assert Set([], a, x) == [(a, x)] by { assert !Has<K, V>([], a); }
    assert SetAll([], es) == SetAll([(a, x)], [(b, y)]) by { assert es[1..] == [(b, y)]; }
    assert SetAll([(a, x)], [(b, y)]) == Set([(a, x)], b, y) by { assert [(b, y)][1..] == []; }
  }
}
