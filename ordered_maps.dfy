/**
 * JavaScript `Map` and `Set` values as the plugin uses them: a finite map or set
 * that remembers the order in which its keys were first inserted. Re-setting a
 * present key keeps its place; deleting a key and setting it again moves it to
 * the end.
 */
module OrderedMaps {

  /** No element occurs twice in `s`. */
  predicate Distinct<K(==)>(s: seq<K>) {
    forall i, j :: 0 <= i < j < |s| ==> s[i] != s[j]
  }

  /** `s` without the elements equal to `x`, in order. */
  function Without<K(==,!new)>(s: seq<K>, x: K): (r: seq<K>)
    ensures forall y :: y in r <==> y in s && y != x
    ensures |r| <= |s|
    ensures x !in s ==> r == s
    ensures Distinct(s) ==> Distinct(r)
    ensures Distinct(s) && x in s ==> |r| == |s| - 1
    decreases |s|
  {
    if s == [] then []
    else if s[0] == x then Without(s[1..], x)
    else
      TailDistinct(s);
      [s[0]] + Without(s[1..], x)
  }

  /** `r` is `s` with some elements left out: an increasing index map `f` picks `r` out of `s`. */
  ghost predicate PicksOut<K>(f: seq<nat>, r: seq<K>, s: seq<K>) {
    && |f| == |r|
    && (forall i :: 0 <= i < |f| ==> f[i] < |s| && r[i] == s[f[i]])
    && (forall i, j :: 0 <= i < j < |f| ==> f[i] < f[j])
  }

  /** `r` is a subsequence of `s`: its elements occur in `s` in the same order. */
  ghost predicate SubsequenceOf<K>(r: seq<K>, s: seq<K>) {
    exists f :: PicksOut(f, r, s)
  }

  /** `Without` keeps the other elements in their order. */
  lemma {:induction false} WithoutKeepsOrder<K(!new)>(s: seq<K>, x: K)
    ensures SubsequenceOf(Without(s, x), s)
    decreases |s|
  {
    if s == [] {
      assert PicksOut([], Without(s, x), s);
    } else {
      WithoutKeepsOrder(s[1..], x);
      var rest := Without(s[1..], x);
      var g :| PicksOut(g, rest, s[1..]);
      PicksOutCons(g, rest, s);
      if s[0] != x {
        assert Without(s, x) == [s[0]] + rest;
      }
    }
  }

  /** Index maps into the tail, moved one place on, and with the head in front. */
  lemma {:induction false} PicksOutCons<K>(g: seq<nat>, rest: seq<K>, s: seq<K>)
    requires s != [] && PicksOut(g, rest, s[1..])
    ensures PicksOut(Shift(g), rest, s)
    ensures PicksOut([0] + Shift(g), [s[0]] + rest, s)
  {
    var f := [0] + Shift(g);
    forall i | 0 <= i < |f| ensures f[i] < |s| && ([s[0]] + rest)[i] == s[f[i]] {
      if i > 0 {
        assert f[i] == g[i - 1] + 1;
        assert s[1..][g[i - 1]] == s[g[i - 1] + 1];
      }
    }
  }

  /** Index maps into a prefix stay index maps, and may take the next element too. */
  lemma {:induction false} PicksOutSnoc<K>(g: seq<nat>, front: seq<K>, s: seq<K>)
    requires s != [] && PicksOut(g, front, s[..|s| - 1])
    ensures PicksOut(g, front, s)
    ensures PicksOut(g + [|s| - 1], front + [s[|s| - 1]], s)
  {
    var f := g + [|s| - 1];
    forall i | 0 <= i < |f| ensures f[i] < |s| && (front + [s[|s| - 1]])[i] == s[f[i]] {
      if i < |g| {
        assert s[..|s| - 1][g[i]] == s[g[i]];
      }
    }
  }

  /** Every index one place on. */
  function Shift(g: seq<nat>): (r: seq<nat>)
    ensures |r| == |g| && forall i :: 0 <= i < |g| ==> r[i] == g[i] + 1
  {
    seq(|g|, i requires 0 <= i < |g| => g[i] + 1)
  }

  /**
   * `Without` drops every copy of `x` and keeps every other element as often as it occurs;
   * a distinct sequence, as a `Set`'s or a `Map`'s key list is, has at most one copy.
   */
  lemma {:induction false} WithoutCounts<K(!new)>(s: seq<K>, x: K)
    ensures forall y :: multiset(Without(s, x))[y] == if y == x then 0 else multiset(s)[y]
    decreases |s|
  {
    if s != [] {
      WithoutCounts(s[1..], x);
      assert s == [s[0]] + s[1..];
      assert multiset(s) == multiset{s[0]} + multiset(s[1..]);
      if s[0] != x {
        assert Without(s, x) == [s[0]] + Without(s[1..], x);
        assert multiset(Without(s, x)) == multiset{s[0]} + multiset(Without(s[1..], x));
      }
    }
  }

  /** The front of a sequence without repeats has none, and misses the last element. */
  lemma {:induction false} DistinctFront<K>(ks: seq<K>)
    requires ks != [] && Distinct(ks)
    ensures Distinct(ks[..|ks| - 1]) && ks[|ks| - 1] !in ks[..|ks| - 1]
  {
    var front := ks[..|ks| - 1];
    forall i, j | 0 <= i < j < |front| ensures front[i] != front[j] {
      assert front[i] == ks[i] && front[j] == ks[j];
    }
    forall i | 0 <= i < |front| ensures front[i] != ks[|ks| - 1] {
      assert front[i] == ks[i];
    }
  }

  /** The tail of a distinct sequence is distinct and misses the head. */
  lemma {:induction false} TailDistinct<K>(s: seq<K>)
    requires s != []
    ensures Distinct(s) ==> Distinct(s[1..]) && s[0] !in s[1..]
  {
    if Distinct(s) {
      var t := s[1..];
      forall i, j | 0 <= i < j < |t| ensures t[i] != t[j] {
        assert t[i] == s[i + 1] && t[j] == s[j + 1];
      }
      forall i | 0 <= i < |t| ensures t[i] != s[0] {
        assert t[i] == s[i + 1];
      }
    }
  }

  /** An insertion-ordered map: `keys` lists the keys of `entries` in insertion order. */
  datatype OMap<K(==,!new), V> = OMap(keys: seq<K>, entries: map<K, V>) {

    predicate Valid() {
      && Distinct(keys)
      && (forall k :: k in entries ==> k in keys)
      && (forall k :: k in keys ==> k in entries)
    }

    /** `map.size`. */
    function Size(): nat {
      |keys|
    }

    /** `map.set(k, v)`: a present key keeps its position, a new one goes last. */
    function Put(k: K, v: V): (r: OMap<K, V>)
      ensures r.entries == entries[k := v]
      ensures r.keys == if k in entries then keys else keys + [k]
      ensures Valid() ==> r.Valid()
    {
      if k in entries then OMap(keys, entries[k := v]) else OMap(keys + [k], entries[k := v])
    }

    /** `map.delete(k)`. */
    function Remove(k: K): (r: OMap<K, V>)
      ensures r.entries == entries - {k}
      ensures r.keys == Without(keys, k)
      ensures Valid() ==> r.Valid()
      ensures Valid() && k in entries ==> r.Size() == Size() - 1
      ensures k !in entries && Valid() ==> r == this
    {
      OMap(Without(keys, k), entries - {k})
    }

    /** `Array.from(map.values())`. */
    function Values(): (vs: seq<V>)
      requires Valid()
      ensures |vs| == |keys|
      ensures forall i :: 0 <= i < |keys| ==> vs[i] == entries[keys[i]]
    {
      seq(|keys|, i requires 0 <= i < |keys| && Valid() => entries[keys[i]])
    }
  }

  /** `new Map()`. */
  function Empty<K(==,!new), V>(): (r: OMap<K, V>)
    ensures r.Valid() && r.Size() == 0 && r.entries == map[]
  {
    OMap([], map[])
  }

  /** A valid map's size is the number of its keys. */
  lemma {:induction false} SizeIsCardinality<K(!new), V>(m: OMap<K, V>)
    requires m.Valid()
    ensures m.Size() == |m.entries.Keys|
  {
    DistinctCardinality(m.keys);
    assert (set k | k in m.keys) == m.entries.Keys;
  }

  lemma {:induction false} DistinctCardinality<K>(s: seq<K>)
    requires Distinct(s)
    ensures |set k | k in s| == |s|
    decreases |s|
  {
    if s != [] {
      var t := s[1..];
      TailDistinct(s);
      DistinctCardinality(t);
      assert (set k | k in s) == (set k | k in t) + {s[0]} by {
        assert s == [s[0]] + t;
      }
    }
  }
}
