/**
 * Insertion-ordered maps with string keys, the shape of a PHP array.
 *
 * A map is a sequence of (key, value) entries. Assigning to an existing key
 * replaces its value where it stands, assigning to a new key appends an entry,
 * and unsetting a key removes its entry; the other entries keep their order.
 */
module OrderedMap {
  import opened Wrappers

  /** The keys of a map, in insertion order. */
  function Keys<V>(m: seq<(string, V)>): seq<string>
  {
    seq(|m|, i requires 0 <= i < |m| => m[i].0)
  }

  /** No key occurs twice; every PHP array has this shape. */
  predicate DistinctKeys<V>(m: seq<(string, V)>)
  {
    forall i, j :: 0 <= i < j < |m| ==> m[i].0 != m[j].0
  }

  /** The position of the first entry with key `k`, or |m| when there is none. */
  function IndexOf<V>(m: seq<(string, V)>, k: string): (i: nat)
    ensures i <= |m|
    ensures i < |m| ==> m[i].0 == k
    ensures forall j :: 0 <= j < i ==> m[j].0 != k
  {
    if m == [] then 0
    else if m[0].0 == k then 0
    else 1 + IndexOf(m[1..], k)
  }

  /** The three properties of IndexOf determine it. */
  lemma IndexOfUnique<V>(m: seq<(string, V)>, k: string, i: nat)
    requires i <= |m|
    requires i < |m| ==> m[i].0 == k
    requires forall j :: 0 <= j < i ==> m[j].0 != k
    ensures IndexOf(m, k) == i
  {
  }

  /** The value stored under `k`, if any. */
  function Get<V>(m: seq<(string, V)>, k: string): (r: Option<V>)
    ensures r.Some? <==> k in Keys(m)
    ensures r.Some? ==> exists i :: 0 <= i < |m| && m[i] == (k, r.value)
  {
    var i := IndexOf(m, k);
    if i < |m| then
      assert Keys(m)[i] == k && m[i] == (k, m[i].1);
      Some(m[i].1)
    else
      assert forall j :: 0 <= j < |m| ==> Keys(m)[j] != k;
      None
  }

  /** In a map without repeated keys, every entry is what Get finds for its key. */
  lemma GetEntry<V>(m: seq<(string, V)>, i: nat)
    requires DistinctKeys(m) && i < |m|
    ensures Get(m, m[i].0) == Some(m[i].1)
  {
    IndexOfUnique(m, m[i].0, i);
  }

  /** `$m[k] = v`: replace the value of an existing key in place, or append a new entry. */
  function Set<V>(m: seq<(string, V)>, k: string, v: V): (r: seq<(string, V)>)
    ensures Get(r, k) == Some(v)
    ensures forall k' :: k' != k ==> Get(r, k') == Get(m, k')
    ensures Keys(r) == if k in Keys(m) then Keys(m) else Keys(m) + [k]
    ensures DistinctKeys(m) ==> DistinctKeys(r)
  {
    var i := IndexOf(m, k);
    if i < |m| then
      var r := m[i := (k, v)];
      assert Keys(r) == Keys(m);
      IndexOfUnique(r, k, i);
      forall k' | k' != k ensures Get(r, k') == Get(m, k') {
        IndexOfUnique(r, k', IndexOf(m, k'));
      }
      r
    else
      var r := m + [(k, v)];
      assert k !in Keys(m);
      IndexOfUnique(r, k, |m|);
      forall k' | k' != k ensures Get(r, k') == Get(m, k') {
        var j := IndexOf(m, k');
        if j < |m| { IndexOfUnique(r, k', j); } else { IndexOfUnique(r, k', |r|); }
      }
      r
  }

  /** `unset($m[k])`: drop the entry of `k`, keeping the others in order. */
  function Unset<V>(m: seq<(string, V)>, k: string): (r: seq<(string, V)>)
    ensures k !in Keys(m) ==> r == m
    ensures k in Keys(m) ==> exists i :: 0 <= i < |m| && m[i].0 == k && r == m[..i] + m[i + 1..]
    ensures forall k' :: k' != k ==> Get(r, k') == Get(m, k')
    ensures DistinctKeys(m) ==> DistinctKeys(r) && Get(r, k) == None
  {
    var i := IndexOf(m, k);
    if i < |m| then
      RemoveAtFacts(m, k, i);
      assert Keys(m)[i] == k;
      m[..i] + m[i + 1..]
    else
      assert forall j :: 0 <= j < |m| ==> Keys(m)[j] != k;
      m
  }

  /** Removing the first entry of `k` (at `i`) leaves every other key's value alone. */
  lemma RemoveAtFacts<V>(m: seq<(string, V)>, k: string, i: nat)
    requires i < |m| && i == IndexOf(m, k)
    ensures forall k' :: k' != k ==> Get(m[..i] + m[i + 1..], k') == Get(m, k')
    ensures DistinctKeys(m) ==> DistinctKeys(m[..i] + m[i + 1..]) && Get(m[..i] + m[i + 1..], k) == None
  {
    var r := m[..i] + m[i + 1..];
    forall k' | k' != k ensures Get(r, k') == Get(m, k') {
      RemoveAtOther(m, k, i, k');
    }
    if DistinctKeys(m) {
      RemovedAt(m, i, r);
      IndexOfUnique(r, k, |r|);
    }
  }

  /** RemoveAtFacts for one other key `k'`. */
  lemma RemoveAtOther<V>(m: seq<(string, V)>, k: string, i: nat, k': string)
    requires i < |m| && i == IndexOf(m, k) && k' != k
    ensures Get(m[..i] + m[i + 1..], k') == Get(m, k')
  {
    var r := m[..i] + m[i + 1..];
    var j := IndexOf(m, k');
    RemovedAt(m, i, r);
    if j < i {
      IndexOfUnique(r, k', j);
    } else if j < |m| {
      IndexOfUnique(r, k', j - 1);
    } else {
      IndexOfUnique(r, k', |r|);
    }
  }

  /** The entries left once position `i` is removed. */
  lemma RemovedAt<V>(m: seq<(string, V)>, i: nat, r: seq<(string, V)>)
    requires i < |m| && r == m[..i] + m[i + 1..]
    ensures |r| == |m| - 1
    ensures forall l :: 0 <= l < i ==> r[l] == m[l]
    ensures forall l :: i <= l < |r| ==> r[l] == m[l + 1]
  {
  }

  /**
   * `array_combine(ks, vs)`: the keys taken from `ks` and the values from `vs`,
   * position by position. A key that repeats keeps the place of its first
   * occurrence and the value of its last.
   */
  function Combine<V>(ks: seq<string>, vs: seq<V>): (r: seq<(string, V)>)
    requires |ks| == |vs|
    ensures DistinctKeys(r)
    ensures forall k :: k in Keys(r) <==> k in ks
    decreases |ks|
  {
    if ks == [] then []
    else
      var n := |ks| - 1;
      var prefix := Combine(ks[..n], vs[..n]);
      assert ks == ks[..n] + [ks[n]];
      Set(prefix, ks[n], vs[n])
  }

  /** Position `i` holds the last occurrence of its key in `ks`. */
  predicate LastOccurrence(ks: seq<string>, i: int)
    requires 0 <= i < |ks|
  {
    forall j :: i < j < |ks| ==> ks[j] != ks[i]
  }

  /** CombineLastWins for every position at once. */
  lemma CombineAllLastWins<V>(ks: seq<string>, vs: seq<V>)
    requires |ks| == |vs|
    ensures forall i :: 0 <= i < |ks| && LastOccurrence(ks, i) ==> Get(Combine(ks, vs), ks[i]) == Some(vs[i])
  {
    forall i | 0 <= i < |ks| && LastOccurrence(ks, i) ensures Get(Combine(ks, vs), ks[i]) == Some(vs[i]) {
      CombineLastWins(ks, vs, i);
    }
  }

  /** The value a key ends up with is the one paired with its last occurrence. */
  lemma {:induction false} CombineLastWins<V>(ks: seq<string>, vs: seq<V>, i: nat)
    requires |ks| == |vs| && i < |ks|
    requires forall j :: i < j < |ks| ==> ks[j] != ks[i]
    ensures Get(Combine(ks, vs), ks[i]) == Some(vs[i])
  {
    var n := |ks| - 1;
    var ks', vs' := ks[..n], vs[..n];
    var prefix := Combine(ks', vs');
    assert Combine(ks, vs) == Set(prefix, ks[n], vs[n]);
    if i < n {
      assert ks[n] != ks[i];
      assert ks'[i] == ks[i] && vs'[i] == vs[i];
      assert forall j :: i < j < n ==> ks'[j] != ks'[i];
      CombineLastWins(ks', vs', i);
      assert Get(prefix, ks[i]) == Some(vs[i]);
      assert Get(Set(prefix, ks[n], vs[n]), ks[i]) == Get(prefix, ks[i]);
    } else {
      assert i == n;
      assert Get(Set(prefix, ks[n], vs[n]), ks[n]) == Some(vs[n]);
    }
  }

  /** With no repeated field names, combining is plain pairing. */
  lemma {:induction false} CombineDistinct<V>(ks: seq<string>, vs: seq<V>)
    requires |ks| == |vs|
    requires forall i, j :: 0 <= i < j < |ks| ==> ks[i] != ks[j]
    ensures |Combine(ks, vs)| == |ks|
    ensures forall i :: 0 <= i < |ks| ==> Combine(ks, vs)[i] == (ks[i], vs[i])
  {
    if ks != [] {
      var n := |ks| - 1;
      var ks', vs' := ks[..n], vs[..n];
      var prefix := Combine(ks', vs');
      CombineDistinct(ks', vs');
      forall j | 0 <= j < n ensures ks'[j] != ks[n] {
        assert ks'[j] == ks[j];
      }
      CombineFresh(ks, vs);
      var r := prefix + [(ks[n], vs[n])];
      forall i | 0 <= i < n ensures r[i] == (ks[i], vs[i]) {
        assert r[i] == prefix[i] == (ks'[i], vs'[i]);
      }
    }
  }

  /** A key not seen before is appended, after the entries of the earlier keys. */
  lemma CombineFresh<V>(ks: seq<string>, vs: seq<V>)
    requires |ks| == |vs| && ks != []
    requires ks[|ks| - 1] !in ks[..|ks| - 1]
    ensures Combine(ks, vs) == Combine(ks[..|ks| - 1], vs[..|ks| - 1]) + [(ks[|ks| - 1], vs[|ks| - 1])]
  {
    var n := |ks| - 1;
    var prefix := Combine(ks[..n], vs[..n]);
    assert Combine(ks, vs) == Set(prefix, ks[n], vs[n]);
    assert ks[n] !in Keys(prefix);
    assert IndexOf(prefix, ks[n]) == |prefix|;
  }
}
