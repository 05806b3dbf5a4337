/**
 * `list.sort(key=...)` with string keys: Python's sort is stable and orders
 * keys with `<` on `str`.  Insertion sort is the reference definition; the
 * lemmas show it sorts, permutes and keeps equal-keyed elements in order.
 */
module StableSort {
  import opened Strings

  predicate SortedBy<T>(s: seq<T>, key: T -> string)
  {
    forall i, j :: 0 <= i < j < |s| ==> LexLe(key(s[i]), key(s[j]))
  }

  /** Places `x` after every element whose key is not greater than its own. */
  function Insert<T>(x: T, s: seq<T>, key: T -> string): (r: seq<T>)
    ensures |r| == |s| + 1
  {
    if s == [] then [x]
    else if LexLe(key(s[0]), key(x)) then [s[0]] + Insert(x, s[1..], key)
    else [x] + s
  }

  /** Sorts the elements before the last one, then inserts the last. */
  function SortBy<T>(s: seq<T>, key: T -> string): (r: seq<T>)
    ensures |r| == |s|
    decreases |s|
  {
    if s == [] then [] else Insert(s[|s| - 1], SortBy(s[..|s| - 1], key), key)
  }

  /** The elements whose key is `k`, in their order. */
  function Filter<T>(s: seq<T>, key: T -> string, k: string): seq<T>
  {
    if s == [] then [] else (if key(s[0]) == k then [s[0]] else []) + Filter(s[1..], key, k)
  }

  lemma {:induction false} FilterAppend<T>(a: seq<T>, b: seq<T>, key: T -> string, k: string)
    ensures Filter(a + b, key, k) == Filter(a, key, k) + Filter(b, key, k)
  {
    if a != [] {
      assert (a + b)[1..] == a[1..] + b;
      FilterAppend(a[1..], b, key, k);
      AppendAssoc(if key(a[0]) == k then [a[0]] else [], Filter(a[1..], key, k), Filter(b, key, k));
    } else {
      assert a + b == b;
    }
  }

  lemma {:induction false} FilterNone<T>(s: seq<T>, key: T -> string, k: string)
    requires forall i :: 0 <= i < |s| ==> key(s[i]) != k
    ensures Filter(s, key, k) == []
  {
    if s != [] {
      FilterNone(s[1..], key, k);
    }
  }

  /** Every key of `Insert(x, s)` is at least any common lower bound. */
  lemma {:induction false} InsertLowerBound<T>(x: T, s: seq<T>, key: T -> string, b: string)
    requires LexLe(b, key(x))
    requires forall i :: 0 <= i < |s| ==> LexLe(b, key(s[i]))
    ensures forall i :: 0 <= i < |s| + 1 ==> LexLe(b, key(Insert(x, s, key)[i]))
  {
    if s != [] && LexLe(key(s[0]), key(x)) {
      InsertLowerBound(x, s[1..], key, b);
      forall i | 1 <= i < |s| + 1 ensures LexLe(b, key(Insert(x, s, key)[i])) {
        assert Insert(x, s, key)[i] == Insert(x, s[1..], key)[i - 1];
      }
    }
  }

  lemma {:induction false} InsertSorted<T>(x: T, s: seq<T>, key: T -> string)
    requires SortedBy(s, key)
    ensures SortedBy(Insert(x, s, key), key)
  {
    if s == [] {
    } else if LexLe(key(s[0]), key(x)) {
      InsertSorted(x, s[1..], key);
      InsertLowerBound(x, s[1..], key, key(s[0]));
      var r := Insert(x, s, key);
      forall i, j | 0 <= i < j < |r| ensures LexLe(key(r[i]), key(r[j])) {
        if i > 0 {
          assert r[i] == Insert(x, s[1..], key)[i - 1];
          assert r[j] == Insert(x, s[1..], key)[j - 1];
        } else {
          assert r[j] == Insert(x, s[1..], key)[j - 1];
        }
      }
    } else {
      LexLeTotal(key(s[0]), key(x));
      forall j | 0 <= j < |s| ensures LexLe(key(x), key(s[j])) {
        if j > 0 {
          LexLeTransitive(key(x), key(s[0]), key(s[j]));
        }
      }
    }
  }

  lemma {:induction false} InsertPermutes<T>(x: T, s: seq<T>, key: T -> string)
    ensures multiset(Insert(x, s, key)) == multiset(s) + multiset{x}
  {
    if s != [] && LexLe(key(s[0]), key(x)) {
      InsertPermutes(x, s[1..], key);
      assert s == [s[0]] + s[1..];
    }
  }

  /** Inserting into a sorted sequence puts `x` after every element with
      the same key. */
  lemma {:induction false} InsertFilter<T>(x: T, s: seq<T>, key: T -> string, k: string)
    requires SortedBy(s, key)
    ensures Filter(Insert(x, s, key), key, k) == Filter(s, key, k) + (if key(x) == k then [x] else [])
  {
    var xs: seq<T> := if key(x) == k then [x] else [];
    if s == [] {
      assert Filter([x], key, k) == xs + Filter([], key, k);
    } else if LexLe(key(s[0]), key(x)) {
      var h: seq<T> := if key(s[0]) == k then [s[0]] else [];
      InsertFilter(x, s[1..], key, k);
      assert ([s[0]] + Insert(x, s[1..], key))[1..] == Insert(x, s[1..], key);
      AppendAssoc(h, Filter(s[1..], key, k), xs);
    } else {
      assert ([x] + s)[1..] == s;
      if key(x) == k {
        LexLeReflexive(k);
        forall j | 0 <= j < |s| ensures key(s[j]) != k {
          if j > 0 {
            assert LexLe(key(s[0]), key(s[j]));
          }
        }
        FilterNone(s, key, k);
      }
    }
  }

  /** The result is ordered by key. */
  lemma {:induction false} SortBySorted<T>(s: seq<T>, key: T -> string)
    ensures SortedBy(SortBy(s, key), key)
    decreases |s|
  {
    if s != [] {
      SortBySorted(s[..|s| - 1], key);
      InsertSorted(s[|s| - 1], SortBy(s[..|s| - 1], key), key);
    }
  }

  /** The result holds the same elements, counted with repetition. */
  lemma {:induction false} SortByPermutes<T>(s: seq<T>, key: T -> string)
    ensures multiset(SortBy(s, key)) == multiset(s)
    decreases |s|
  {
    if s != [] {
      SortByPermutes(s[..|s| - 1], key);
      InsertPermutes(s[|s| - 1], SortBy(s[..|s| - 1], key), key);
      assert s == s[..|s| - 1] + [s[|s| - 1]];
    }
  }

  /** Stability: the elements sharing any one key keep their relative order. */
  lemma {:induction false} SortByStable<T>(s: seq<T>, key: T -> string, k: string)
    ensures Filter(SortBy(s, key), key, k) == Filter(s, key, k)
    decreases |s|
  {
    if s != [] {
      var init := s[..|s| - 1];
      var last := s[|s| - 1];
      SortByStable(init, key, k);
      SortBySorted(init, key);
      InsertFilter(last, SortBy(init, key), key, k);
      assert s == init + [last];
      FilterAppend(init, [last], key, k);
      assert Filter([last], key, k) == (if key(last) == k then [last] else []) + Filter([], key, k);
    }
  }
}
