/** Sums by key: what a loop that accumulates into a map has added up, and what the groups add up to. */
module Grouping {
  import opened Sequences

  function Sum<T>(s: seq<T>, value: T -> real): real {
    if s == [] then 0.0 else Sum(s[..|s| - 1], value) + value(s[|s| - 1])
  }

  function One<T>(): T -> real {
    (x: T) => 1.0
  }

  function HasKey<T, K(==)>(keyOf: T -> K, key: K): T -> bool {
    (x: T) => keyOf(x) == key
  }

  /** The sum of the values of the elements with this key. */
  function GroupSum<T, K(==)>(s: seq<T>, keyOf: T -> K, value: T -> real, key: K): real {
    Sum(Filter(s, HasKey(keyOf, key)), value)
  }

  function GroupSums<T, K(==)>(s: seq<T>, keyOf: T -> K, value: T -> real): K -> real {
    (key: K) => GroupSum(s, keyOf, value, key)
  }

  lemma SumSnoc<T>(s: seq<T>, x: T, value: T -> real)
    ensures Sum(s + [x], value) == Sum(s, value) + value(x)
  {
    assert (s + [x])[..|s|] == s;
  }

  lemma GroupSumSnoc<T, K>(s: seq<T>, x: T, keyOf: T -> K, value: T -> real, key: K)
    ensures GroupSum(s + [x], keyOf, value, key)
            == GroupSum(s, keyOf, value, key) + if keyOf(x) == key then value(x) else 0.0
  {
    hide Filter, Sum;
    FilterSnoc(s, x, HasKey(keyOf, key));
    if keyOf(x) == key {
      SumSnoc(Filter(s, HasKey(keyOf, key)), x, value);
    } else {
      assert Filter(s, HasKey(keyOf, key)) + [] == Filter(s, HasKey(keyOf, key));
    }
  }

  lemma {:induction false} InsertSum<T>(s: seq<T>, x: T, key: T -> real, value: T -> real)
    ensures Sum(Insert(s, x, key), value) == Sum(s, value) + value(x)
  {
    if s == [] || key(s[|s| - 1]) <= key(x) {
      SumSnoc(s, x, value);
    } else {
      InsertSum(s[..|s| - 1], x, key, value);
      SumSnoc(Insert(s[..|s| - 1], x, key), s[|s| - 1], value);
    }
  }

  lemma {:induction false} SortSum<T>(s: seq<T>, key: T -> real, value: T -> real)
    ensures Sum(SortBy(s, key), value) == Sum(s, value)
  {
    if s != [] {
      SortSum(s[..|s| - 1], key, value);
      InsertSum(SortBy(s[..|s| - 1], key), s[|s| - 1], key, value);
    }
  }

  lemma {:induction false} SumOfOnes<T>(s: seq<T>)
    ensures Sum(s, One()) == |s| as real
  {
    if s != [] {
      SumOfOnes(s[..|s| - 1]);
    }
  }

  lemma {:induction false} SumAgree<T>(s: seq<T>, f: T -> real, g: T -> real)
    requires forall x :: x in s ==> f(x) == g(x)
    ensures Sum(s, f) == Sum(s, g)
  {
    if s != [] {
      assert s[|s| - 1] in s;
      SumAgree(s[..|s| - 1], f, g);
    }
  }

  lemma {:induction false} NoGroups<T, K>(keyOf: T -> K, value: T -> real, keys: seq<K>)
    ensures Sum(keys, GroupSums([], keyOf, value)) == 0.0
  {
    if keys != [] {
      NoGroups(keyOf, value, keys[..|keys| - 1]);
    }
  }

  /** One more element raises the sum over distinct keys by its value if its key is among them. */
  lemma {:induction false} GroupsSnoc<T, K>(s: seq<T>, x: T, keyOf: T -> K, value: T -> real, keys: seq<K>)
    requires Distinct(keys)
    ensures Sum(keys, GroupSums(s + [x], keyOf, value))
            == Sum(keys, GroupSums(s, keyOf, value)) + if keyOf(x) in keys then value(x) else 0.0
  {
    if keys != [] {
      hide GroupSum;
      var init, last := keys[..|keys| - 1], keys[|keys| - 1];
      assert keys == init + [last];
      GroupsSnoc(s, x, keyOf, value, init);
      GroupSumSnoc(s, x, keyOf, value, last);
    }
  }

  function KeyIn<T, K(==)>(keyOf: T -> K, keys: seq<K>): T -> bool {
    (x: T) => keyOf(x) in keys
  }

  /** Over distinct keys, the groups add up to the total of exactly those elements whose key is a group. */
  lemma {:induction false} GroupsAddUp<T, K>(s: seq<T>, keyOf: T -> K, value: T -> real, keys: seq<K>)
    requires Distinct(keys)
    ensures Sum(keys, GroupSums(s, keyOf, value)) == Sum(Filter(s, KeyIn(keyOf, keys)), value)
  {
    if s == [] {
      NoGroups(keyOf, value, keys);
    } else {
      hide Sum, GroupSums, Filter;
      var init, last := s[..|s| - 1], s[|s| - 1];
      assert s == init + [last];
      GroupsAddUp(init, keyOf, value, keys);
      GroupsSnoc(init, last, keyOf, value, keys);
      FilterSnoc(init, last, KeyIn(keyOf, keys));
      if keyOf(last) in keys {
        SumSnoc(Filter(init, KeyIn(keyOf, keys)), last, value);
      } else {
        assert Filter(init, KeyIn(keyOf, keys)) + [] == Filter(init, KeyIn(keyOf, keys));
      }
    }
  }

  /** If every key is a group nothing is lost. */
  lemma GroupsConserve<T, K>(s: seq<T>, keyOf: T -> K, value: T -> real, keys: seq<K>)
    requires Distinct(keys) && forall x :: x in s ==> keyOf(x) in keys
    ensures Sum(keys, GroupSums(s, keyOf, value)) == Sum(s, value)
  {
    hide Sum, GroupSums, Filter;
    GroupsAddUp(s, keyOf, value, keys);
    AllKept(s, KeyIn(keyOf, keys));
  }

  // ---- Accumulating into a map ----

  /** `order` lists, once each, exactly the keys seen in `s`, and the map has an entry for each. */
  ghost predicate Keyed<T(!new), K(!new), R>(s: seq<T>, keyOf: T -> K, order: seq<K>, m: map<K, R>) {
    && Distinct(order)
    && (forall k :: k in order <==> k in m)
    && (forall x :: x in s ==> keyOf(x) in m)
    && (forall k :: k in m ==> exists x :: x in s && keyOf(x) == k)
  }

  /** What `read` finds in an entry is the sum over that key. */
  ghost predicate Totals<T, K(!new), R>(s: seq<T>, keyOf: T -> K, value: T -> real, m: map<K, R>, read: R -> real) {
    forall k :: k in m ==> read(m[k]) == GroupSum(s, keyOf, value, k)
  }

  lemma KeyedStep<T(!new), K(!new), R>(s: seq<T>, x: T, keyOf: T -> K, order: seq<K>, m: map<K, R>, r: R)
    requires Keyed(s, keyOf, order, m)
    ensures Keyed(s + [x], keyOf, if keyOf(x) in m then order else order + [keyOf(x)], m[keyOf(x) := r])
  {
    var more, m' := s + [x], m[keyOf(x) := r];
    assert x in more;
    forall k | k in m' ensures exists y :: y in more && keyOf(y) == k {
      if k != keyOf(x) {
        var y :| y in s && keyOf(y) == k;
        assert y in more;
      }
    }
  }

  lemma TotalsStep<T(!new), K(!new), R>(s: seq<T>, x: T, keyOf: T -> K, order: seq<K>, m: map<K, R>, value: T -> real,
                            read: R -> real, r: R)
    requires Keyed(s, keyOf, order, m) && Totals(s, keyOf, value, m, read)
    requires read(r) == (if keyOf(x) in m then read(m[keyOf(x)]) else 0.0) + value(x)
    ensures Totals(s + [x], keyOf, value, m[keyOf(x) := r], read)
  {
    var m' := m[keyOf(x) := r];
    forall k | k in m' ensures read(m'[k]) == GroupSum(s + [x], keyOf, value, k) {
      GroupSumSnoc(s, x, keyOf, value, k);
      if k == keyOf(x) && k !in m {
        NoneInGroup(s, keyOf, value, k);
      }
    }
  }

  /** Over a fixed set of keys, an element whose key is not among them leaves every entry as it is. */
  lemma TotalsFixedStep<T, K(!new), R>(s: seq<T>, x: T, keyOf: T -> K, m: map<K, R>, value: T -> real,
                                       read: R -> real, m': map<K, R>)
    requires Totals(s, keyOf, value, m, read) && m'.Keys == m.Keys
    requires forall k :: k in m ==> read(m'[k]) == read(m[k]) + if keyOf(x) == k then value(x) else 0.0
    ensures Totals(s + [x], keyOf, value, m', read)
  {
    forall k | k in m' ensures read(m'[k]) == GroupSum(s + [x], keyOf, value, k) {
      GroupSumSnoc(s, x, keyOf, value, k);
    }
  }

  lemma NoneInGroup<T, K>(s: seq<T>, keyOf: T -> K, value: T -> real, k: K)
    requires forall x :: x in s ==> keyOf(x) != k
    ensures GroupSum(s, keyOf, value, k) == 0.0
  {
    NoneCounted(s, HasKey(keyOf, k));
  }

  /** What all entries of a complete accumulation add up to. */
  lemma TotalsConserve<T(!new), K(!new), R>(s: seq<T>, keyOf: T -> K, order: seq<K>, m: map<K, R>, value: T -> real)
    requires Keyed(s, keyOf, order, m)
    ensures Sum(order, GroupSums(s, keyOf, value)) == Sum(s, value)
  {
    hide Sum, GroupSums;
    GroupsConserve(s, keyOf, value, order);
  }
}
