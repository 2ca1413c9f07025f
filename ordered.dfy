/** Insertion-ordered string-keyed maps and sets: the JavaScript `Map` and
    `Set` whose iteration order (first insertion first, unchanged by
    re-setting a key, closed up on deletion) the registry's answers expose. */
module Ordered {
  import opened Wrappers

  /** `s` without any occurrence of `x`, the rest in order. */
  function Without(s: seq<string>, x: string): (r: seq<string>)
    ensures x !in r
    ensures forall y :: y in r <==> y in s && y != x
    ensures |r| <= |s|
    ensures x !in s ==> r == s
  {
    if s == [] then []
    else
      var rest := Without(s[1..], x);
      assert s == [s[0]] + s[1..];
      if s[0] == x then rest else [s[0]] + rest
  }

  predicate Distinct(s: seq<string>) {
    forall i, j :: 0 <= i < j < |s| ==> s[i] != s[j]
  }

  lemma {:induction false} WithoutDistinct(s: seq<string>, x: string)
    requires Distinct(s)
    ensures Distinct(Without(s, x))
    ensures x in s ==> |Without(s, x)| == |s| - 1
  {
    if s != [] {
      var rest := s[1..];
      assert Distinct(rest);
      WithoutDistinct(rest, x);
      assert s[0] !in rest;
      if s[0] != x {
        var r := [s[0]] + Without(rest, x);
        forall i, j | 0 <= i < j < |r| ensures r[i] != r[j] {
          if i == 0 { assert r[j] in Without(rest, x); }
        }
      }
    }
  }

  // ----- sets -----

  /** `set.add(x)`: a new member goes last, an old one keeps its place. */
  function Add(s: seq<string>, x: string): (r: seq<string>)
    requires Distinct(s)
    ensures Distinct(r) && x in r
    ensures forall y :: y in r <==> y in s || y == x
    ensures |s| <= |r| && r[..|s|] == s
  {
    if x in s then s else s + [x]
  }

  // ----- maps -----

  /** A `Map` from strings: its keys in iteration order and its contents. */
  datatype OMap<V> = OMap(keys: seq<string>, values: map<string, V>)

  ghost predicate Valid<V>(m: OMap<V>) {
    Distinct(m.keys) && forall k :: k in m.values <==> k in m.keys
  }

  function Empty<V>(): (m: OMap<V>)
    ensures Valid(m) && m.keys == []
  {
    OMap([], map[])
  }

  /** `map.get(k)`. */
  function Get<V>(m: OMap<V>, k: string): (r: Option<V>)
    ensures r.Some? <==> k in m.values
  {
    if k in m.values then Some(m.values[k]) else None
  }

  function Size<V>(m: OMap<V>): nat { |m.keys| }

  /** `map.set(k, v)`: `k` now gives `v`, no other key changes, and `k` is
      last in the order only when it was absent before. */
  function Put<V>(m: OMap<V>, k: string, v: V): (r: OMap<V>)
    requires Valid(m)
    ensures Valid(r)
    ensures Get(r, k) == Some(v)
    ensures forall k' :: k' != k ==> Get(r, k') == Get(m, k')
    ensures k in m.values ==> r.keys == m.keys
    ensures k !in m.values ==> r.keys == m.keys + [k]
    ensures r.values == m.values[k := v]
  {
    OMap(Add(m.keys, k), m.values[k := v])
  }

  /** `map.delete(k)`; the answer is whether `k` was there. */
  function Remove<V>(m: OMap<V>, k: string): (r: OMap<V>)
    requires Valid(m)
    ensures Valid(r)
    ensures Get(r, k) == None
    ensures forall k' :: k' != k ==> Get(r, k') == Get(m, k')
    ensures r.keys == Without(m.keys, k)
    ensures Size(r) == if k in m.values then Size(m) - 1 else Size(m)
    ensures r.values == m.values - {k}
  {
    WithoutDistinct(m.keys, k);
    OMap(Without(m.keys, k), m.values - {k})
  }

  /** The values in iteration order, as `map.values()` yields them. */
  function ValuesInOrder<V>(m: OMap<V>): (r: seq<V>)
    requires Valid(m)
    ensures |r| == |m.keys|
    ensures forall i :: 0 <= i < |r| ==> Get(m, m.keys[i]) == Some(r[i])
  {
    seq(|m.keys|, i requires 0 <= i < |m.keys| => m.values[m.keys[i]])
  }

  /** Setting a key twice is setting it once, to the second value. */
  lemma PutTwice<V>(m: OMap<V>, k: string, a: V, b: V)
    requires Valid(m)
    ensures Put(Put(m, k, a), k, b) == Put(m, k, b)
  {
    assert Put(Put(m, k, a), k, b).values == m.values[k := b];
  }

  /** Deleting a key forgets whatever was last set for it. */
  lemma RemoveAfterPut<V>(m: OMap<V>, k: string, v: V)
    requires Valid(m)
    ensures Remove(Put(m, k, v), k) == Remove(m, k)
  {
    assert Remove(Put(m, k, v), k).values == m.values - {k};
    WithoutLast(m.keys, k);
  }

  /** Removing `x` also removes an `x` appended last. */
  lemma {:induction false} WithoutLast(s: seq<string>, x: string)
    ensures Without(s + [x], x) == Without(s, x)
  {
    if s != [] {
      assert (s + [x])[1..] == s[1..] + [x];
      WithoutLast(s[1..], x);
    }
  }
}
