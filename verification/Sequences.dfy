/** Sub-sequences, counts and sums over finite sequences, grown at the end as event logs are. */
module Sequences {

  datatype Option<+T> = None | Some(value: T)

  /** The elements of `s` that satisfy `p`, in order. */
  function Filter<T>(s: seq<T>, p: T -> bool): (r: seq<T>)
    ensures |r| <= |s|
  {
    if s == [] then []
    else
      var rest := Filter(s[..|s| - 1], p);
      if p(s[|s| - 1]) then rest + [s[|s| - 1]] else rest
  }

  function Count<T>(s: seq<T>, p: T -> bool): nat {
    |Filter(s, p)|
  }

  lemma FilterSnoc<T>(s: seq<T>, x: T, p: T -> bool)
    ensures Filter(s + [x], p) == Filter(s, p) + if p(x) then [x] else []
  {
    assert (s + [x])[..|s|] == s;
  }

  lemma {:induction false} FilterConcat<T>(s: seq<T>, t: seq<T>, p: T -> bool)
    ensures Filter(s + t, p) == Filter(s, p) + Filter(t, p)
  {
    if t == [] {
      assert s + t == s;
    } else {
      var init, last := t[..|t| - 1], t[|t| - 1];
      assert s + t == (s + init) + [last];
      assert t == init + [last];
      FilterConcat(s, init, p);
      FilterSnoc(s + init, last, p);
      FilterSnoc(init, last, p);
    }
  }

  lemma {:induction false} FilterMembers<T>(s: seq<T>, p: T -> bool)
    ensures forall x :: x in Filter(s, p) <==> x in s && p(x)
  {
    if s != [] {
      var init, last := s[..|s| - 1], s[|s| - 1];
      assert s == init + [last];
      FilterMembers(init, p);
    }
  }

  /** Filtering by two predicates that agree on the elements gives the same sub-sequence. */
  lemma {:induction false} FilterAgree<T>(s: seq<T>, p: T -> bool, q: T -> bool)
    requires forall x :: x in s ==> p(x) == q(x)
    ensures Filter(s, p) == Filter(s, q)
  {
    if s != [] {
      assert s == s[..|s| - 1] + [s[|s| - 1]];
      FilterAgree(s[..|s| - 1], p, q);
    }
  }

  lemma {:induction false} FilterBoth<T>(s: seq<T>, p: T -> bool, q: T -> bool, both: T -> bool)
    requires forall x :: x in s ==> both(x) == (p(x) && q(x))
    ensures Filter(Filter(s, p), q) == Filter(s, both)
  {
    if s != [] {
      var init, last := s[..|s| - 1], s[|s| - 1];
      assert s == init + [last];
      FilterBoth(init, p, q, both);
      FilterSnoc(Filter(init, p), last, q);
    }
  }

  /** A weaker predicate keeps at least as many elements. */
  lemma {:induction false} CountMonotone<T>(s: seq<T>, p: T -> bool, q: T -> bool)
    requires forall x :: x in s && p(x) ==> q(x)
    ensures Count(s, p) <= Count(s, q)
  {
    if s != [] {
      assert s == s[..|s| - 1] + [s[|s| - 1]];
      CountMonotone(s[..|s| - 1], p, q);
    }
  }

  lemma {:induction false} NoneCounted<T>(s: seq<T>, p: T -> bool)
    requires forall x :: x in s ==> !p(x)
    ensures Count(s, p) == 0
  {
    if s != [] {
      assert s == s[..|s| - 1] + [s[|s| - 1]];
      NoneCounted(s[..|s| - 1], p);
    }
  }

  lemma {:induction false} AllKept<T>(s: seq<T>, p: T -> bool)
    requires forall x :: x in s ==> p(x)
    ensures Filter(s, p) == s
  {
    if s != [] {
      assert s == s[..|s| - 1] + [s[|s| - 1]];
      AllKept(s[..|s| - 1], p);
    }
  }

  ghost function Positions<T>(s: seq<T>, p: T -> bool): set<int> {
    set i | 0 <= i < |s| && p(s[i])
  }

  lemma PositionsSnoc<T>(s: seq<T>, x: T, p: T -> bool)
    ensures |Positions(s + [x], p)| == |Positions(s, p)| + if p(x) then 1 else 0
  {
    var more := s + [x];
    assert more[|s|] == x && forall i :: 0 <= i < |s| ==> more[i] == s[i];
    assert Positions(more, p) == Positions(s, p) + if p(x) then {|s|} else {};
  }

  /** What is counted, by position. */
  lemma {:induction false} CountIsPositions<T>(s: seq<T>, p: T -> bool)
    ensures Count(s, p) == |Positions(s, p)|
  {
    if s == [] {
      assert Positions([], p) == {};
    } else {
      hide Positions, Count;
      var init, last := s[..|s| - 1], s[|s| - 1];
      assert s == init + [last];
      CountIsPositions(init, p);
      CountSnoc(init, last, p);
      PositionsSnoc(init, last, p);
    }
  }

  /** Counting by one of two exclusive alternatives. */
  lemma {:induction false} CountDisjoint<T>(s: seq<T>, p: T -> bool, q: T -> bool, either: T -> bool)
    requires forall x :: x in s ==> either(x) == (p(x) || q(x)) && !(p(x) && q(x))
    ensures Count(s, either) == Count(s, p) + Count(s, q)
  {
    if s != [] {
      assert s == s[..|s| - 1] + [s[|s| - 1]];
      CountDisjoint(s[..|s| - 1], p, q, either);
    }
  }

  function RemoveAt<T>(s: seq<T>, i: nat): seq<T>
    requires i < |s|
  {
    s[..i] + s[i + 1..]
  }

  lemma CountRemoveAt<T>(s: seq<T>, i: nat, p: T -> bool)
    requires i < |s|
    ensures Count(RemoveAt(s, i), p) == Count(s, p) - if p(s[i]) then 1 else 0
  {
    assert s == s[..i] + ([s[i]] + s[i + 1..]);
    FilterConcat(s[..i], [s[i]] + s[i + 1..], p);
    FilterConcat([s[i]], s[i + 1..], p);
    FilterConcat(s[..i], s[i + 1..], p);
    FilterSnoc([], s[i], p);
    assert [] + [s[i]] == [s[i]];
  }

  ghost predicate Sorted(s: seq<int>) {
    forall i, j :: 0 <= i < j < |s| ==> s[i] <= s[j]
  }

  ghost predicate Distinct<T>(s: seq<T>) {
    forall i, j :: 0 <= i < j < |s| ==> s[i] != s[j]
  }

  function Max(a: int, b: int): int {
    if a >= b then a else b
  }

  lemma CountSnoc<T>(s: seq<T>, x: T, p: T -> bool)
    ensures Count(s + [x], p) == Count(s, p) + if p(x) then 1 else 0
  {
    FilterSnoc(s, x, p);
  }

  lemma CountUpdate<T>(s: seq<T>, i: nat, x: T, p: T -> bool)
    requires i < |s|
    ensures Count(s[i := x], p) == Count(s, p) - (if p(s[i]) then 1 else 0) + if p(x) then 1 else 0
  {
    hide Count, Filter;
    var t := s[i := x];
    assert RemoveAt(t, i) == RemoveAt(s, i);
    CountRemoveAt(s, i, p);
    CountRemoveAt(t, i, p);
  }

  // ---- Sorting by a key ----

  /** `x` after every element whose key is at most its own. */
  function Insert<T>(s: seq<T>, x: T, key: T -> real): (r: seq<T>)
    ensures |r| == |s| + 1
  {
    if s == [] || key(s[|s| - 1]) <= key(x) then s + [x]
    else Insert(s[..|s| - 1], x, key) + [s[|s| - 1]]
  }

  function SortBy<T>(s: seq<T>, key: T -> real): (r: seq<T>)
    ensures |r| == |s|
  {
    if s == [] then [] else Insert(SortBy(s[..|s| - 1], key), s[|s| - 1], key)
  }

  ghost predicate SortedBy<T>(s: seq<T>, key: T -> real) {
    forall i, j :: 0 <= i < j < |s| ==> key(s[i]) <= key(s[j])
  }

  function WithKey<T>(key: T -> real, k: real): T -> bool {
    (x: T) => key(x) == k
  }

  /** Elements of one key stay in the order they had. */
  lemma {:induction false} InsertStable<T>(s: seq<T>, x: T, key: T -> real, k: real)
    ensures Filter(Insert(s, x, key), WithKey(key, k)) == Filter(s + [x], WithKey(key, k))
  {
    FilterSnoc(s, x, WithKey(key, k));
    if s != [] && key(s[|s| - 1]) > key(x) {
      var init, last := s[..|s| - 1], s[|s| - 1];
      assert s == init + [last];
      InsertStable(init, x, key, k);
      FilterSnoc(init, x, WithKey(key, k));
      FilterSnoc(init, last, WithKey(key, k));
      FilterSnoc(Insert(init, x, key), last, WithKey(key, k));
    }
  }

  lemma {:induction false} SortStable<T>(s: seq<T>, key: T -> real, k: real)
    ensures Filter(SortBy(s, key), WithKey(key, k)) == Filter(s, WithKey(key, k))
  {
    if s != [] {
      hide Filter, Insert;
      var init, last := s[..|s| - 1], s[|s| - 1];
      assert s == init + [last];
      SortStable(init, key, k);
      InsertStable(SortBy(init, key), last, key, k);
      FilterSnoc(SortBy(init, key), last, WithKey(key, k));
      FilterSnoc(init, last, WithKey(key, k));
    }
  }

  lemma {:induction false} InsertMember<T>(s: seq<T>, x: T, key: T -> real, y: T)
    ensures y in Insert(s, x, key) <==> y == x || y in s
  {
    if s != [] && key(s[|s| - 1]) > key(x) {
      InsertMember(s[..|s| - 1], x, key, y);
      assert s == s[..|s| - 1] + [s[|s| - 1]];
    }
  }

  lemma {:induction false} InsertSorted<T>(s: seq<T>, x: T, key: T -> real)
    requires SortedBy(s, key)
    ensures SortedBy(Insert(s, x, key), key)
  {
    if s != [] && key(s[|s| - 1]) > key(x) {
      var init, last := s[..|s| - 1], s[|s| - 1];
      InsertSorted(init, x, key);
      var r := Insert(init, x, key);
      forall i | 0 <= i < |r| ensures key(r[i]) <= key(last) {
        InsertMember(init, x, key, r[i]);
        if r[i] in init {
          var k :| 0 <= k < |init| && init[k] == r[i];
          assert s[k] == r[i];
        }
      }
    }
  }

  lemma {:induction false} InsertCount<T>(s: seq<T>, x: T, key: T -> real, p: T -> bool)
    ensures Count(Insert(s, x, key), p) == Count(s, p) + if p(x) then 1 else 0
  {
    hide Filter;
    if s == [] || key(s[|s| - 1]) <= key(x) {
      FilterSnoc(s, x, p);
    } else {
      var init, last := s[..|s| - 1], s[|s| - 1];
      assert s == init + [last];
      InsertCount(init, x, key, p);
      FilterSnoc(init, last, p);
      FilterSnoc(Insert(init, x, key), last, p);
    }
  }

  lemma {:induction false} SortSorted<T>(s: seq<T>, key: T -> real)
    ensures SortedBy(SortBy(s, key), key)
  {
    if s != [] {
      SortSorted(s[..|s| - 1], key);
      InsertSorted(SortBy(s[..|s| - 1], key), s[|s| - 1], key);
    }
  }

  lemma {:induction false} SortMember<T>(s: seq<T>, key: T -> real, y: T)
    ensures y in SortBy(s, key) <==> y in s
  {
    if s != [] {
      assert s == s[..|s| - 1] + [s[|s| - 1]];
      SortMember(s[..|s| - 1], key, y);
      InsertMember(SortBy(s[..|s| - 1], key), s[|s| - 1], key, y);
    }
  }

  /** Sorting keeps how many elements satisfy any predicate. */
  lemma {:induction false} SortCount<T>(s: seq<T>, key: T -> real, p: T -> bool)
    ensures Count(SortBy(s, key), p) == Count(s, p)
  {
    hide Filter;
    if s == [] {
      assert SortBy(s, key) == s;
    } else {
      var init, last := s[..|s| - 1], s[|s| - 1];
      assert s == init + [last];
      SortCount(init, key, p);
      InsertCount(SortBy(init, key), last, key, p);
      FilterSnoc(init, last, p);
    }
  }

  lemma {:induction false} InsertMultiset<T>(s: seq<T>, x: T, key: T -> real)
    ensures multiset(Insert(s, x, key)) == multiset(s) + multiset{x}
  {
    if s != [] && key(s[|s| - 1]) > key(x) {
      InsertMultiset(s[..|s| - 1], x, key);
      assert s == s[..|s| - 1] + [s[|s| - 1]];
    }
  }

  /** Sorting only rearranges. */
  lemma {:induction false} SortMultiset<T>(s: seq<T>, key: T -> real)
    ensures multiset(SortBy(s, key)) == multiset(s)
  {
    if s != [] {
      assert s == s[..|s| - 1] + [s[|s| - 1]];
      SortMultiset(s[..|s| - 1], key);
      InsertMultiset(SortBy(s[..|s| - 1], key), s[|s| - 1], key);
    }
  }
}
