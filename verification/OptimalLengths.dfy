/** What package-merge is for: a complete prefix code of least cost within a length limit. */
module OptimalLengths {
  import opened Bits
  import opened PackageMerge

  // ---------------------------------------------------------------------------------------------
  // Kraft's equality
  // ---------------------------------------------------------------------------------------------

  /** The share of leaf `i` in what the leaf counts amount to. */
  function Used(b: seq<nat>, i: nat): nat {
    if b == [] then 0 else (if i < b[0] then Pow2(|b| - 1) else 0) + Used(b[1..], i)
  }

  lemma {:induction false} UsedByNone(b: seq<nat>, i: nat)
    requires Nested(b) && (b == [] || b[0] <= i)
    ensures Used(b, i) == 0 && LengthOf(b, i) == 0
    decreases |b|
  {
    if b != [] {
      UsedByNone(b[1..], i);
    }
  }

  /** A leaf used by the first l lists only has a share of 1 - 2^-l. */
  lemma {:induction false} UsedShare(b: seq<nat>, i: nat)
    requires Nested(b)
    ensures Used(b, i) + Pow2(|b| - LengthOf(b, i)) == Pow2(|b|)
    decreases |b|
  {
    if b != [] && i < b[0] {
      UsedShare(b[1..], i);
    } else {
      UsedByNone(b, i);
    }
  }

  function UsedSum(b: seq<nat>, m: nat): nat {
    if m == 0 then 0 else UsedSum(b, m - 1) + Used(b, m - 1)
  }

  function Min(x: nat, y: nat): nat {
    if x < y then x else y
  }

  lemma {:induction false} UsedSumStep(b: seq<nat>, m: nat)
    requires b != []
    ensures UsedSum(b, m) == Shl(Min(b[0], m), |b| - 1) + UsedSum(b[1..], m)
  {
    ShlOne(|b| - 1);
    if m > 0 {
      UsedSumStep(b, m - 1);
      ShlLinear(m - 1, 1, |b| - 1);
    }
  }

  lemma {:induction false} UsedSumNone(m: nat)
    ensures UsedSum([], m) == 0
  {
    if m > 0 {
      UsedSumNone(m - 1);
    }
  }

  lemma {:induction false} UsedSumAll(b: seq<nat>, m: nat)
    requires forall i :: 0 <= i < |b| ==> b[i] <= m
    ensures UsedSum(b, m) == Scaled(b)
    decreases |b|
  {
    if b == [] {
      UsedSumNone(m);
    } else {
      UsedSumAll(b[1..], m);
      UsedSumStep(b, m);
    }
  }

  lemma {:induction false} KraftUsed(b: seq<nat>, l: seq<nat>)
    requires Nested(b) && forall i :: 0 <= i < |l| ==> l[i] == LengthOf(b, i) && l[i] <= |b|
    ensures Kraft(l, |b|) + UsedSum(b, |l|) == Shl(|l|, |b|)
  {
    ShlOne(|b|);
    if l != [] {
      var m := |l| - 1;
      KraftUsed(b, l[..m]);
      UsedShare(b, m);
      ShlLinear(m, 1, |b|);
    }
  }

  lemma {:induction false} KraftAtLeast(l: seq<nat>, L: nat, i: nat)
    requires (forall j :: 0 <= j < |l| ==> l[j] <= L) && i < |l|
    ensures Kraft(l, L) >= Pow2(L - l[i]) + |l| - 1
  {
    var m := |l| - 1;
    if i < m {
      KraftAtLeast(l[..m], L, i);
    } else {
      KraftCount(l[..m], L);
    }
  }

  lemma {:induction false} KraftCount(l: seq<nat>, L: nat)
    requires forall j :: 0 <= j < |l| ==> l[j] <= L
    ensures Kraft(l, L) >= |l|
  {
    if l != [] {
      KraftCount(l[..|l| - 1], L);
    }
  }

  /** The lengths are a complete prefix code: between 1 and L bits each, with a Kraft sum of one. */
  lemma LengthsComplete(w: seq<int>, L: nat)
    requires Sorted(w) && Positive(w) && |w| >= 2 && L >= 1 && |w| <= Pow2(L)
    ensures Kraft(Lengths(w, L), L) == Pow2(L)
    ensures forall i :: 0 <= i < |w| ==> 1 <= Lengths(w, L)[i] <= L
  {
    hide Chain;
    hide List;
    hide Kraft;
    hide UsedSum;
    hide Scaled;
    var n, l, b := |w|, Lengths(w, L), Chain(w, L - 1, 2 * |w| - 2);
    EnoughItems(w, L);
    ChainNested(w, L - 1, 2 * n - 2);
    ChainFits(w, L - 1, 2 * n - 2);
    KraftUsed(b, l);
    UsedSumAll(b, n);
    ChainScaled(w, L - 1, 2 * n - 2);
    ShlDouble(n - 1, L - 1);
    ShlLinear(n - 1, 1, L);
    ShlOne(L);
    forall i | 0 <= i < n
      ensures l[i] >= 1
    {
      KraftAtLeast(l, L, i);
    }
  }

  // ---------------------------------------------------------------------------------------------
  // Least cost
  // ---------------------------------------------------------------------------------------------

  lemma {:induction false} CostOfNone(w: seq<int>, l: seq<nat>)
    requires |w| == |l| && forall i :: 0 <= i < |l| ==> l[i] == 0
    ensures Cost(w, l) == 0
  {
    if w != [] {
      CostOfNone(w[..|w| - 1], l[..|l| - 1]);
    }
  }

  /** Taking the first list off the leaf counts takes one bit off each leaf it uses. */
  lemma {:induction false} CostStep(w: seq<int>, b: seq<nat>, l: seq<nat>, l': seq<nat>)
    requires |w| == |l| == |l'| && b != []
    requires forall i :: 0 <= i < |l| ==> l[i] == LengthOf(b, i) && l'[i] == LengthOf(b[1..], i)
    ensures Cost(w, l) == Prefix(w, Min(b[0], |w|)) + Cost(w, l')
  {
    if w != [] {
      var m := |w| - 1;
      CostStep(w[..m], b, l[..m], l'[..m]);
      assert w[..m][..Min(b[0], m)] == w[..Min(b[0], m)];
      if m < b[0] {
        PrefixStep(w, m);
        assert w[m] * (1 + l'[m]) == w[m] + w[m] * l'[m];
      }
    }
  }

  lemma {:induction false} CostOfChain(w: seq<int>, b: seq<nat>, l: seq<nat>)
    requires |w| == |l| && forall i :: 0 <= i < |l| ==> l[i] == LengthOf(b, i)
    requires forall i :: 0 <= i < |b| ==> b[i] <= |w|
    ensures Cost(w, l) == ChainCost(w, b)
    decreases |b|
  {
    if b == [] {
      CostOfNone(w, l);
    } else {
      var l' := seq(|l|, i requires 0 <= i < |l| => LengthOf(b[1..], i));
      CostOfChain(w, b[1..], l');
      CostStep(w, b, l, l');
    }
  }

  /** How many of the lengths are above `j`. */
  function Above(l: seq<nat>, j: nat): (a: nat)
    ensures a <= |l|
  {
    if l == [] then 0 else Above(l[..|l| - 1], j) + if l[|l| - 1] > j then 1 else 0
  }

  /** Any lengths within L bits as leaf counts, from the j-th list on. */
  function Counts(l: seq<nat>, j: nat, L: nat): (b: seq<nat>)
    requires j <= L
    ensures |b| == L - j && forall i :: 0 <= i < |b| ==> b[i] <= |l|
    decreases L - j
  {
    if j == L then [] else [Above(l, j)] + Counts(l, j + 1, L)
  }

  function Reduced(l: seq<nat>, j: nat): (r: seq<nat>)
    ensures |r| == |l| && forall i :: 0 <= i < |l| ==> r[i] == if l[i] > j then l[i] - j else 0
  {
    seq(|l|, i requires 0 <= i < |l| => if l[i] > j then l[i] - j else 0)
  }

  lemma AboveLast(l: seq<nat>, j: nat)
    ensures Above(l, j) == if l == [] then 0 else Above(l[..|l| - 1], j) + if l[|l| - 1] > j then 1 else 0
  {
  }

  lemma CostNothing(l: seq<nat>, l': seq<nat>)
    requires l == [] && l' == []
    ensures Cost([], l) == 0 && Cost([], l') == 0 && Prefix([], 0) == 0
  {
  }

  lemma CostLast(w: seq<int>, l: seq<nat>)
    requires w != [] && |w| == |l|
    ensures var m := |w| - 1; Cost(w, l) == Cost(w[..m], l[..m]) + w[m] * l[m]
  {
  }

  lemma PrefixOfPart(w: seq<int>, m: nat, a: nat)
    requires a <= m <= |w|
    ensures Prefix(w[..m], a) == Prefix(w, a)
  {
    assert w[..m][..a] == w[..a];
  }

  lemma {:induction false} ReducedStep(w: seq<int>, l: seq<nat>, j: nat)
    requires Sorted(w) && |w| == |l|
    ensures Cost(w, Reduced(l, j)) >= Prefix(w, Above(l, j)) + Cost(w, Reduced(l, j + 1))
  {
    hide Cost;
    hide Above;
    hide Prefix;
    AboveLast(l, j);
    if w == [] {
      CostNothing(Reduced(l, j), Reduced(l, j + 1));
    } else {
      var m := |w| - 1;
      var r, r' := Reduced(l, j), Reduced(l, j + 1);
      var a := Above(l[..m], j);
      ReducedStep(w[..m], l[..m], j);
      assert Reduced(l[..m], j) == r[..m] && Reduced(l[..m], j + 1) == r'[..m];
      assert w[..m][..a] == w[..a];
      PrefixOfPart(w, m, a);
      CostLast(w, r);
      CostLast(w, r');
      if l[m] > j {
        PrefixStep(w, a);
        assert w[a] <= w[m];
        MulDist(1, r'[m], w[m]);
      }
    }
  }

  lemma {:induction false} CostOfCounts(w: seq<int>, l: seq<nat>, j: nat, L: nat)
    requires Sorted(w) && |w| == |l| && j <= L && forall i :: 0 <= i < |l| ==> l[i] <= L
    ensures Cost(w, Reduced(l, j)) >= ChainCost(w, Counts(l, j, L))
    decreases L - j
  {
    if j == L {
      CostOfNone(w, Reduced(l, j));
    } else {
      CostOfCounts(w, l, j + 1, L);
      ReducedStep(w, l, j);
      assert Counts(l, j, L)[1..] == Counts(l, j + 1, L);
    }
  }

  /** The lengths, but at least `j`. */
  function Raised(l: seq<nat>, j: nat): (r: seq<nat>)
    ensures |r| == |l| && forall i :: 0 <= i < |l| ==> r[i] == if l[i] > j then l[i] else j
  {
    seq(|l|, i requires 0 <= i < |l| => if l[i] > j then l[i] else j)
  }

  lemma KraftLast(l: seq<nat>, L: nat)
    requires l != [] && forall i :: 0 <= i < |l| ==> l[i] <= L
    ensures Kraft(l, L) == Kraft(l[..|l| - 1], L) + Pow2(L - l[|l| - 1])
  {
  }

  lemma PowerDoubles(n: nat)
    ensures Pow2(n + 1) == 2 * Pow2(n)
  {
  }

  lemma RaisedLast(l: seq<nat>, j: nat, L: nat)
    requires l != [] && j <= L && forall i :: 0 <= i < |l| ==> l[i] <= L
    ensures var m := |l| - 1;
      Kraft(Raised(l, j), L) == Kraft(Raised(l[..m], j), L) + Pow2(L - if l[m] > j then l[m] else j)
  {
    hide Kraft;
    var m := |l| - 1;
    var r := Raised(l, j);
    assert Raised(l[..m], j) == r[..m];
    KraftLast(r, L);
  }

  lemma {:induction false} RaisedStep(l: seq<nat>, j: nat, L: nat)
    requires j < L && forall i :: 0 <= i < |l| ==> l[i] <= L
    ensures Kraft(Raised(l, j), L) == Kraft(Raised(l, j + 1), L) + Shl(|l| - Above(l, j), L - j - 1)
  {
    hide *;
    var n := L - j - 1;
    ShlLinear(0, 0, n);
    if l == [] {
      AboveLast(l, j);
      assert Raised(l, j) == Raised(l, j + 1) == [] && |l| - Above(l, j) == 0;
    } else {
      var m := |l| - 1;
      var a := Above(l[..m], j);
      AboveLast(l, j);
      RaisedStep(l[..m], j, L);
      RaisedLast(l, j, L);
      RaisedLast(l, j + 1, L);
      if l[m] <= j {
        PowerDoubles(n);
        ShlOne(n);
        ShlLinear(m - a, 1, n);
        assert |l| - Above(l, j) == (m - a) + 1;
      } else {
        assert |l| - Above(l, j) == m - a;
      }
    }
  }

  lemma {:induction false} KraftOfAll(l: seq<nat>, L: nat)
    requires forall i :: 0 <= i < |l| ==> l[i] == L
    ensures Kraft(l, L) == |l|
  {
    if l != [] {
      KraftOfAll(l[..|l| - 1], L);
    }
  }

  lemma {:induction false} ScaledCounts(l: seq<nat>, j: nat, L: nat)
    requires j <= L && forall i :: 0 <= i < |l| ==> l[i] <= L
    ensures Scaled(Counts(l, j, L)) + Kraft(Raised(l, j), L) == Shl(|l|, L - j)
    decreases L - j
  {
    if j == L {
      KraftOfAll(Raised(l, j), L);
    } else {
      var a := Above(l, j);
      ScaledCounts(l, j + 1, L);
      RaisedStep(l, j, L);
      assert Counts(l, j, L)[1..] == Counts(l, j + 1, L);
      ShlLinear(a, |l| - a, L - j - 1);
    }
  }

  /** The lengths cost what the items of the last list weigh. */
  lemma CostOfLengths(w: seq<int>, L: nat)
    requires Sorted(w) && Positive(w) && |w| >= 2 && L >= 1 && |w| <= Pow2(L)
    ensures 2 * |w| - 2 <= |List(w, L - 1)|
    ensures Cost(w, Lengths(w, L)) == Prefix(List(w, L - 1), 2 * |w| - 2)
  {
    hide Chain;
    hide List;
    hide Cost;
    hide ChainCost;
    var n := |w|;
    EnoughItems(w, L);
    ChainFits(w, L - 1, 2 * n - 2);
    CostOfChain(w, Chain(w, L - 1, 2 * n - 2), Lengths(w, L));
  }

  /** The lengths of a prefix code amount to 2n - 2 items of the last list. */
  lemma CodeReaches(l: seq<nat>, L: nat)
    requires |l| >= 2 && L >= 1
    requires (forall i :: 0 <= i < |l| ==> l[i] <= L) && Kraft(l, L) <= Pow2(L)
    ensures Reaches(Counts(l, 0, L), 2 * |l| - 2)
  {
    hide Kraft;
    hide Scaled;
    hide Counts;
    hide Reaches;
    var n := |l|;
    assert Raised(l, 0) == l;
    ScaledCounts(l, 0, L);
    ShlDouble(n - 1, L - 1);
    ShlLinear(n - 1, 1, L);
    ShlOne(L);
    ReachesScaled(Counts(l, 0, L), 2 * n - 2);
  }

  /** No prefix code within L bits, complete or not, has a lower total weight. */
  lemma LengthsOptimal(w: seq<int>, L: nat, l: seq<nat>)
    requires Sorted(w) && Positive(w) && |w| >= 2 && L >= 1 && |w| <= Pow2(L)
    requires |l| == |w| && (forall i :: 0 <= i < |l| ==> l[i] <= L) && Kraft(l, L) <= Pow2(L)
    ensures Cost(w, Lengths(w, L)) <= Cost(w, l)
  {
    hide List;
    hide Kraft;
    hide Cost;
    hide ChainCost;
    hide Counts;
    hide Reaches;
    hide Sorted;
    hide Positive;
    hide Prefix;
    CostOfLengths(w, L);
    assert Reduced(l, 0) == l;
    CostOfCounts(w, l, 0, L);
    CodeReaches(l, L);
    ListIsCheapest(w, Counts(l, 0, L), 2 * |w| - 2);
  }
}
