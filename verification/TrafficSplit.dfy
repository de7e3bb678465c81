/** Splitting users over the variants of a test by cumulative traffic. */
module TrafficSplit {
  import opened Sequences

  datatype Variant = Variant(name: string, traffic: real)

  /** The traffic of the first `n` variants together. */
  function Cumulative(vs: seq<Variant>, n: nat): real
    requires n <= |vs|
  {
    if n == 0 then 0.0 else Cumulative(vs, n - 1) + vs[n - 1].traffic
  }

  /** What test creation checks: the total is within 0.01 of 100. */
  predicate Accepts(vs: seq<Variant>) {
    -0.01 <= Cumulative(vs, |vs|) - 100.0 <= 0.01
  }

  /** Variant `i` is the first whose cumulative traffic exceeds the residue. */
  ghost predicate FirstAbove(vs: seq<Variant>, residue: int, i: nat) {
    && i < |vs| && residue as real < Cumulative(vs, i + 1)
    && forall k: nat :: 0 < k <= i ==> residue as real >= Cumulative(vs, k)
  }

  /** For any accepted configuration, even with negative traffic entries, the loop returns from inside
      for every residue of 100: the fallback to the first variant is dead code. */
  method AssignVariant(vs: seq<Variant>, residue: int) returns (index: Option<nat>)
    ensures index.None? <==> vs == []
    ensures index.Some? ==>
              FirstAbove(vs, residue, index.value)
              || (index.value == 0 && forall k: nat :: 0 < k <= |vs| ==> residue as real >= Cumulative(vs, k))
    ensures vs != [] ==> index == Some(AssignedIndex(vs, residue, 0))
    ensures Accepts(vs) && 0 <= residue < 100 ==> index.Some? && FirstAbove(vs, residue, index.value)
  {
    var cumulative := 0.0;
    for i := 0 to |vs|
      invariant cumulative == Cumulative(vs, i)
      invariant forall k: nat :: 0 < k <= i ==> residue as real >= Cumulative(vs, k)
      invariant AssignedIndex(vs, residue, 0) == AssignedIndex(vs, residue, i)
    {
      cumulative := cumulative + vs[i].traffic;
      if residue as real < cumulative {
        return Some(i);
      }
    }
    if vs == [] {
      return None;
    }
    return Some(0);
  }

  function AssignedIndex(vs: seq<Variant>, residue: int, from: nat): nat
    requires from <= |vs|
    decreases |vs| - from
  {
    if from == |vs| then 0
    else if residue as real < Cumulative(vs, from + 1) then from
    else AssignedIndex(vs, residue, from + 1)
  }

  lemma {:induction false} AssignedIsFirstAbove(vs: seq<Variant>, residue: int, from: nat)
    requires from <= |vs| && forall k: nat :: 0 < k <= from ==> residue as real >= Cumulative(vs, k)
    requires Accepts(vs) && 0 <= residue < 100
    ensures FirstAbove(vs, residue, AssignedIndex(vs, residue, from))
    decreases |vs| - from
  {
    if from < |vs| && residue as real >= Cumulative(vs, from + 1) {
      AssignedIsFirstAbove(vs, residue, from + 1);
    }
  }

  // ---- Shares ----

  ghost predicate NonNegative(vs: seq<Variant>) {
    forall i :: 0 <= i < |vs| ==> vs[i].traffic >= 0.0
  }

  lemma {:induction false} CumulativeMonotone(vs: seq<Variant>, i: nat, j: nat)
    requires NonNegative(vs) && i <= j <= |vs|
    ensures 0.0 <= Cumulative(vs, i) <= Cumulative(vs, j)
    decreases j
  {
    if i < j {
      CumulativeMonotone(vs, i, j - 1);
    } else if i > 0 {
      CumulativeMonotone(vs, i - 1, i - 1);
    }
  }

  /** With non-negative traffic a variant gets the residues between the two cumulative sums. */
  lemma {:induction false} AssignedByInterval(vs: seq<Variant>, residue: int, i: nat)
    requires NonNegative(vs) && i < |vs|
    requires residue >= 0
    ensures FirstAbove(vs, residue, i) <==> Cumulative(vs, i) <= residue as real < Cumulative(vs, i + 1)
  {
    forall k: nat | 0 < k <= i ensures Cumulative(vs, k) <= Cumulative(vs, i) {
      CumulativeMonotone(vs, k, i);
    }
  }

  /** The residues of 100 that lead to variant `i`. */
  ghost function ResiduesOf(vs: seq<Variant>, i: nat): set<int> {
    set r | 0 <= r < 100 && FirstAbove(vs, r, i)
  }

  function Ceil(x: real): int {
    -((-x).Floor)
  }

  lemma CeilBounds(x: real, r: int)
    ensures r as real >= x <==> r >= Ceil(x)
    ensures x <= Ceil(x) as real < x + 1.0
  {
  }

  lemma {:induction false} RangeSize(s: set<int>, lo: int, hi: int)
    requires lo <= hi
    requires forall r :: r in s <==> lo <= r < hi
    ensures |s| == hi - lo
    decreases hi - lo
  {
    if lo == hi {
      assert forall r :: r in s ==> false;
      assert s == {};
    } else {
      assert hi - 1 in s;
      RangeSize(s - {hi - 1}, lo, hi - 1);
    }
  }

  function Cut(x: real): int {
    if Ceil(x) <= 100 then Ceil(x) else 100
  }

  /** Each variant's share of the 100 residues, for any non-negative accepted traffic. */
  lemma {:induction false} ShareIsCeilingDifference(vs: seq<Variant>, i: nat)
    requires NonNegative(vs) && Accepts(vs) && i < |vs|
    ensures Cut(Cumulative(vs, i)) <= Cut(Cumulative(vs, i + 1))
    ensures |ResiduesOf(vs, i)| == Cut(Cumulative(vs, i + 1)) - Cut(Cumulative(vs, i))
  {
    var p, q := Cumulative(vs, i), Cumulative(vs, i + 1);
    CumulativeMonotone(vs, 0, i);
    CumulativeMonotone(vs, i, i + 1);
    CeilBounds(p, Ceil(q));
    CeilBounds(q, Ceil(q));
    CeilBounds(p, 0);
    forall r: int
      ensures r in ResiduesOf(vs, i) <==> Cut(p) <= r < Cut(q)
    {
      if r >= 0 {
        AssignedByInterval(vs, r, i);
      }
      CeilBounds(p, r);
      CeilBounds(q, r);
    }
    RangeSize(ResiduesOf(vs, i), Cut(p), Cut(q));
  }

  /** A variant's share is within about one percentage point of its traffic. */
  lemma {:induction false} ShareNearTraffic(vs: seq<Variant>, i: nat)
    requires NonNegative(vs) && Accepts(vs) && i < |vs|
    ensures vs[i].traffic - 1.01 < |ResiduesOf(vs, i)| as real < vs[i].traffic + 1.0
  {
    ShareIsCeilingDifference(vs, i);
    var p, q := Cumulative(vs, i), Cumulative(vs, i + 1);
    CumulativeMonotone(vs, i, i + 1);
    CumulativeMonotone(vs, i + 1, |vs|);
    CeilBounds(p, 100);
    CeilBounds(q, 100);
  }

  ghost predicate WholePercentages(vs: seq<Variant>) {
    forall i :: 0 <= i < |vs| ==> vs[i].traffic == vs[i].traffic.Floor as real
  }

  lemma {:induction false} WholeCumulative(vs: seq<Variant>, n: nat)
    requires WholePercentages(vs) && n <= |vs|
    ensures Cumulative(vs, n) == Cumulative(vs, n).Floor as real
  {
    if n > 0 {
      WholeCumulative(vs, n - 1);
      var a, b := Cumulative(vs, n - 1).Floor, vs[n - 1].traffic.Floor;
      assert Cumulative(vs, n) == (a + b) as real;
    }
  }

  /** Whole percentages are met exactly: each variant gets as many residues as its traffic. */
  lemma {:induction false} ExactShares(vs: seq<Variant>, i: nat)
    requires NonNegative(vs) && WholePercentages(vs) && Cumulative(vs, |vs|) == 100.0 && i < |vs|
    ensures |ResiduesOf(vs, i)| as real == vs[i].traffic
  {
    ShareIsCeilingDifference(vs, i);
    WholeCumulative(vs, i);
    WholeCumulative(vs, i + 1);
    CumulativeMonotone(vs, i, |vs|);
    CumulativeMonotone(vs, i + 1, |vs|);
    CeilBounds(Cumulative(vs, i), Cumulative(vs, i).Floor);
    CeilBounds(Cumulative(vs, i + 1), Cumulative(vs, i + 1).Floor);
  }
}
