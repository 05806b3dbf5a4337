/**
 * Python dictionaries as the model uses them: insertion-ordered, assigning to
 * an existing key keeps its place, `setdefault` adds only a missing key.
 */
module OrderedMaps {
  import opened Options

  /** Entries in insertion order; the keys are pairwise distinct. */
  type OMap<K, V> = seq<(K, V)>

  function Keys<K(==), V>(m: OMap<K, V>): (ks: seq<K>)
    ensures |ks| == |m| && forall i :: 0 <= i < |m| ==> ks[i] == m[i].0
  {
    if m == [] then [] else [m[0].0] + Keys(m[1..])
  }

  function Values<K, V>(m: OMap<K, V>): (vs: seq<V>)
    ensures |vs| == |m| && forall i :: 0 <= i < |m| ==> vs[i] == m[i].1
  {
    if m == [] then [] else [m[0].1] + Values(m[1..])
  }

  predicate Distinct<K(==)>(ks: seq<K>)
  {
    forall i, j :: 0 <= i < j < |ks| ==> ks[i] != ks[j]
  }

  predicate WellFormed<K(==), V>(m: OMap<K, V>)
  {
    Distinct(Keys(m))
  }

  predicate HasKey<K(==), V>(m: OMap<K, V>, k: K)
  {
    exists i :: 0 <= i < |m| && m[i].0 == k
  }

  /** `m.get(k)`. */
  function Get<K(==), V>(m: OMap<K, V>, k: K): (r: Option<V>)
    ensures r.None? <==> !HasKey(m, k)
    ensures r.Some? ==> exists i :: 0 <= i < |m| && m[i] == (k, r.value)
  {
    if m == [] then None
    else if m[0].0 == k then Some(m[0].1)
    else
      var r := Get(m[1..], k);
      assert r.Some? ==> exists i :: 0 <= i < |m[1..]| && m[1..][i] == (k, r.value);
      assert r.None? ==> forall i :: 1 <= i < |m| ==> m[i].0 != k by {
        if r.None? {
          forall i | 1 <= i < |m| ensures m[i].0 != k {
            assert m[1..][i - 1] == m[i];
          }
        }
      }
      r
  }

  /** `m[k] = v`: replaces the value in place, or appends a new entry. */
  function Put<K(==), V>(m: OMap<K, V>, k: K, v: V): (r: OMap<K, V>)
    ensures HasKey(m, k) ==> Keys(r) == Keys(m)
    ensures !HasKey(m, k) ==> Keys(r) == Keys(m) + [k]
    ensures WellFormed(m) && HasKey(m, k) ==> |r| == |m| && forall i :: 0 <= i < |m| ==> r[i] == (if m[i].0 == k then (k, v) else m[i])
    ensures !HasKey(m, k) ==> r == m + [(k, v)]
  {
    if m == [] then [(k, v)]
    else if m[0].0 == k then
      assert WellFormed(m) ==> forall i :: 0 < i < |m| ==> m[i].0 != k by {
        if WellFormed(m) {
          forall i | 0 < i < |m| ensures m[i].0 != k {
            assert Keys(m)[0] != Keys(m)[i];
          }
        }
      }
      [(k, v)] + m[1..]
    else
      var rest := Put(m[1..], k, v);
      PutTail(m, k);
      assert Keys([m[0]] + rest) == [m[0].0] + Keys(rest);
      [m[0]] + rest
  }

  /** Past a first entry with another key, the rest of the map is well
      formed when the map is, and holds the key when the map does. */
  lemma PutTail<K, V>(m: OMap<K, V>, k: K)
    requires m != [] && m[0].0 != k
    ensures WellFormed(m) ==> WellFormed(m[1..])
    ensures HasKey(m, k) ==> HasKey(m[1..], k)
    ensures Keys(m) == [m[0].0] + Keys(m[1..])
  {
    if WellFormed(m) {
      forall i, j | 0 <= i < j < |m[1..]| ensures Keys(m[1..])[i] != Keys(m[1..])[j] {
        assert Keys(m)[i + 1] != Keys(m)[j + 1];
      }
    }
    if HasKey(m, k) {
      var i :| 0 <= i < |m| && m[i].0 == k;
      assert m[1..][i - 1] == m[i];
    }
  }

  /** `m.setdefault(k, v)`. */
  function SetDefault<K(==), V>(m: OMap<K, V>, k: K, v: V): (r: OMap<K, V>)
    ensures HasKey(m, k) ==> r == m
    ensures !HasKey(m, k) ==> r == m + [(k, v)]
  {
    if HasKey(m, k) then m else m + [(k, v)]
  }

  lemma KeysAppend<K, V>(m: OMap<K, V>, e: (K, V))
    ensures Keys(m + [e]) == Keys(m) + [e.0]
  {
  }

  lemma ValuesAppend<K, V>(m: OMap<K, V>, e: (K, V))
    ensures Values(m + [e]) == Values(m) + [e.1]
  {
  }

  lemma HasKeyIn<K, V>(m: OMap<K, V>, k: K)
    ensures HasKey(m, k) <==> k in Keys(m)
  {
    if k in Keys(m) {
      var i :| 0 <= i < |Keys(m)| && Keys(m)[i] == k;
    }
  }

  /** Assignment keeps the keys distinct. */
  lemma PutWellFormed<K, V>(m: OMap<K, V>, k: K, v: V)
    requires WellFormed(m)
    ensures WellFormed(Put(m, k, v))
  {
    HasKeyIn(m, k);
  }

  /** `setdefault` keeps the keys distinct. */
  lemma SetDefaultWellFormed<K, V>(m: OMap<K, V>, k: K, v: V)
    requires WellFormed(m)
    ensures WellFormed(SetDefault(m, k, v))
  {
    HasKeyIn(m, k);
    if !HasKey(m, k) {
      KeysAppend(m, (k, v));
    }
  }

  /** Reading back what was assigned. */
  lemma {:induction false} GetPut<K, V>(m: OMap<K, V>, k: K, v: V, j: K)
    ensures Get(Put(m, k, v), j) == if j == k then Some(v) else Get(m, j)
  {
    if m != [] && m[0].0 != k {
      GetPut(m[1..], k, v, j);
    }
  }

  /** `{c: v for c in cs}`: later duplicates of a key change nothing. */
  function FromKeys<K(==), V>(cs: seq<K>, v: V): (m: OMap<K, V>)
    ensures WellFormed(m)
    decreases |cs|
  {
    if cs == [] then []
    else
      var prev := FromKeys(cs[..|cs| - 1], v);
      PutWellFormed(prev, cs[|cs| - 1], v);
      Put(prev, cs[|cs| - 1], v)
  }

  /** The dictionary has exactly the keys of `cs`. */
  lemma {:induction false} FromKeysHas<K(!new), V>(cs: seq<K>, v: V)
    ensures forall c :: c in cs <==> HasKey(FromKeys(cs, v), c)
    decreases |cs|
  {
    if cs != [] {
      var init := cs[..|cs| - 1];
      FromKeysHas(init, v);
      var prev := FromKeys(init, v);
      var r := Put(prev, cs[|cs| - 1], v);
      assert cs == init + [cs[|cs| - 1]];
      forall c ensures c in cs <==> HasKey(r, c) {
        HasKeyIn(prev, c);
        HasKeyIn(r, c);
      }
    }
  }

  /** With distinct keys, the dictionary has exactly the given keys in order. */
  lemma {:induction false} FromKeysDistinct<K(!new), V>(cs: seq<K>, v: V)
    requires Distinct(cs)
    ensures Keys(FromKeys(cs, v)) == cs
    decreases |cs|
  {
    if cs != [] {
      var init, last := cs[..|cs| - 1], cs[|cs| - 1];
      assert init + [last] == cs;
      assert Distinct(init) by {
        forall i, j | 0 <= i < j < |init| ensures init[i] != init[j] {
          assert init[i] == cs[i] && init[j] == cs[j];
        }
      }
      assert last !in init by {
        forall i | 0 <= i < |init| ensures init[i] != last {
          assert init[i] == cs[i];
        }
      }
      var prev := FromKeys(init, v);
      FromKeysDistinct(init, v);
      HasKeyIn(prev, last);
      assert !HasKey(prev, last);
      assert FromKeys(cs, v) == Put(prev, last, v);
      assert Keys(Put(prev, last, v)) == init + [last];
    }
  }
}
