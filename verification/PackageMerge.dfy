/** The package-merge method for length-limited prefix codes, as a function of the sorted weights.

    List 0 holds the leaves. List c merges the leaves with the packages made of consecutive pairs of
    list c - 1. The first 2n - 2 items of list L - 1 say how often each leaf is used, and so how long
    its code is. This file states the method without any bookkeeping and proves what it is for: the
    lengths satisfy Kraft's equality, and no other lengths of at most L bits cost less. The algorithm
    that computes only the boundary of the lists is proved to agree with it in
    BoundaryPackageMerge.dfy. */
module PackageMerge {
  import opened Bits

  predicate Sorted(s: seq<int>) {
    forall i, j :: 0 <= i < j < |s| ==> s[i] <= s[j]
  }

  predicate Positive(s: seq<int>) {
    forall i :: 0 <= i < |s| ==> s[i] > 0
  }

  /** Whether the next merged item is a leaf, when `a` leaves and `p` packages have been merged. */
  predicate TakesLeaf(w: seq<int>, g: seq<int>, a: nat, p: nat) {
    a < |w| && (p >= |g| || g[p] > w[a])
  }

  /** The number of leaves among the first `k` items of the merge of leaves `w` and packages `g`. */
  function Taken(w: seq<int>, g: seq<int>, k: nat): (a: nat)
    ensures a <= k && a <= |w|
    ensures k <= |w| + |g| ==> k - a <= |g|
  {
    if k == 0 then 0
    else
      var a := Taken(w, g, k - 1);
      if TakesLeaf(w, g, a, k - 1 - a) then a + 1 else a
  }

  function Item(w: seq<int>, g: seq<int>, k: nat): int
    requires k < |w| + |g|
  {
    var a := Taken(w, g, k);
    if TakesLeaf(w, g, a, k - a) then w[a] else g[k - a]
  }

  function Merge(w: seq<int>, g: seq<int>): (m: seq<int>)
    ensures |m| == |w| + |g|
  {
    seq(|w| + |g|, k requires 0 <= k < |w| + |g| => Item(w, g, k))
  }

  function Pairs(s: seq<int>): (g: seq<int>)
    ensures |g| == |s| / 2
  {
    seq(|s| / 2, i requires 0 <= i < |s| / 2 => s[2 * i] + s[2 * i + 1])
  }

  function List(w: seq<int>, c: nat): seq<int>
    decreases c, 1
  {
    if c == 0 then w else Merge(w, Packages(w, c))
  }

  /** The packages offered to list `c`. */
  function Packages(w: seq<int>, c: nat): seq<int>
    requires c > 0
    decreases c, 0
  {
    Pairs(List(w, c - 1))
  }

  /** How many leaves the first `k` items of list `c` contain. */
  function LeafCount(w: seq<int>, c: nat, k: nat): (a: nat)
    ensures a <= k
  {
    if c == 0 then k else Taken(w, Packages(w, c), k)
  }

  /** The leaf counts of lists `c`, `c - 1`, ..., 0 that the first `k` items of list `c` stand for. */
  function Chain(w: seq<int>, c: nat, k: nat): (b: seq<nat>)
    ensures |b| == c + 1
  {
    var a := LeafCount(w, c, k);
    [a] + if c == 0 then [] else Chain(w, c - 1, 2 * (k - a))
  }

  /** The code length of leaf `i`: the number of lists that use it. */
  function LengthOf(b: seq<nat>, i: nat): (l: nat)
    ensures l <= |b|
  {
    if b == [] then 0 else (if i < b[0] then 1 else 0) + LengthOf(b[1..], i)
  }

  function Sum(s: seq<int>): int {
    if s == [] then 0 else Sum(s[..|s| - 1]) + s[|s| - 1]
  }

  /** Total weight times length. */
  function Cost(w: seq<int>, l: seq<nat>): int
    requires |w| == |l|
  {
    if w == [] then 0 else Cost(w[..|w| - 1], l[..|l| - 1]) + w[|w| - 1] * l[|l| - 1]
  }

  /** Kraft's sum in units of 2^-L. */
  function Kraft(l: seq<nat>, L: nat): nat
    requires forall i :: 0 <= i < |l| ==> l[i] <= L
  {
    if l == [] then 0 else Kraft(l[..|l| - 1], L) + Pow2(L - l[|l| - 1])
  }

  /** The lengths that the method gives to `n` leaves within `L` bits. */
  function Lengths(w: seq<int>, L: nat): (l: seq<nat>)
    requires |w| >= 2 && L >= 1
    ensures |l| == |w|
    ensures forall i :: 0 <= i < |l| ==> l[i] <= L
  {
    var b := Chain(w, L - 1, 2 * |w| - 2);
    seq(|w|, i requires 0 <= i < |w| => LengthOf(b, i))
  }

  // ---------------------------------------------------------------------------------------------
  // The lists are sorted, and long enough
  // ---------------------------------------------------------------------------------------------

  lemma PairsSorted(s: seq<int>)
    requires Sorted(s)
    ensures Sorted(Pairs(s))
  {
    forall i, j | 0 <= i < j < |s| / 2
      ensures Pairs(s)[i] <= Pairs(s)[j]
    {
      assert s[2 * i] <= s[2 * j] && s[2 * i + 1] <= s[2 * j + 1];
    }
  }

  lemma ItemStep(w: seq<int>, g: seq<int>, k: nat)
    requires Sorted(w) && Sorted(g) && k + 1 < |w| + |g|
    ensures Item(w, g, k) <= Item(w, g, k + 1)
  {
    var a := Taken(w, g, k);
    assert Taken(w, g, k + 1) == if TakesLeaf(w, g, a, k - a) then a + 1 else a;
  }

  lemma {:induction false} ItemMono(w: seq<int>, g: seq<int>, i: nat, j: nat)
    requires Sorted(w) && Sorted(g) && i <= j < |w| + |g|
    ensures Item(w, g, i) <= Item(w, g, j)
    decreases j
  {
    if i < j {
      ItemMono(w, g, i, j - 1);
      ItemStep(w, g, j - 1);
    }
  }

  lemma MergeSorted(w: seq<int>, g: seq<int>)
    requires Sorted(w) && Sorted(g)
    ensures Sorted(Merge(w, g))
  {
    forall i, j | 0 <= i < j < |w| + |g|
      ensures Merge(w, g)[i] <= Merge(w, g)[j]
    {
      ItemMono(w, g, i, j);
    }
  }

  lemma {:induction false} ListSorted(w: seq<int>, c: nat)
    requires Sorted(w)
    ensures Sorted(List(w, c))
  {
    if c > 0 {
      ListSorted(w, c - 1);
      PairsSorted(List(w, c - 1));
      MergeSorted(w, Packages(w, c));
    }
  }

  lemma {:induction false} ListPositive(w: seq<int>, c: nat)
    requires Positive(w)
    ensures Positive(List(w, c))
  {
    if c > 0 {
      ListPositive(w, c - 1);
      var s, g := List(w, c - 1), Packages(w, c);
      assert Positive(g) by {
        forall i | 0 <= i < |g| ensures g[i] > 0 {
          assert s[2 * i] > 0 && s[2 * i + 1] > 0;
        }
      }
    }
  }

  /** List c falls short of 2n items by at most n / 2^c, rounded up. */
  lemma {:induction false} ListLength(w: seq<int>, c: nat)
    ensures |w| <= |List(w, c)| <= 2 * |w|
    ensures Shl(2 * |w| - |List(w, c)|, c) < |w| + Pow2(c)
  {
    if c > 0 {
      ListLength(w, c - 1);
      var n, m, m' := |w|, |List(w, c)|, |List(w, c - 1)|;
      assert m == n + m' / 2;
      assert 2 * (2 * n - m) <= 2 * n - m' + 1;
      ShlDouble(2 * n - m, c - 1);
      ShlMono(2 * (2 * n - m), 2 * n - m' + 1, c - 1);
      ShlLinear(2 * n - m', 1, c - 1);
      ShlOne(c - 1);
    }
  }

  /** With at most 2^L leaves, list L - 1 has the 2n - 2 items that the method asks for. */
  lemma EnoughItems(w: seq<int>, L: nat)
    requires L >= 1 && |w| <= Pow2(L)
    ensures 2 * |w| - 2 <= |List(w, L - 1)|
  {
    var d := 2 * |w| - |List(w, L - 1)|;
    ListLength(w, L - 1);
    if d >= 3 {
      ShlMono(3, d, L - 1);
      ShlLinear(1, 2, L - 1);
      ShlLinear(1, 1, L - 1);
      ShlOne(L - 1);
      assert false;
    }
  }

  // ---------------------------------------------------------------------------------------------
  // What the first k items of a list cost
  // ---------------------------------------------------------------------------------------------

  function Prefix(s: seq<int>, k: nat): int
    requires k <= |s|
  {
    Sum(s[..k])
  }

  lemma PrefixStep(s: seq<int>, k: nat)
    requires k < |s|
    ensures Prefix(s, k + 1) == Prefix(s, k) + s[k]
  {
    assert s[..k + 1][..k] == s[..k];
  }

  lemma {:induction false} PrefixPairs(s: seq<int>, p: nat)
    requires p <= |s| / 2
    ensures Prefix(Pairs(s), p) == Prefix(s, 2 * p)
  {
    if p > 0 {
      PrefixPairs(s, p - 1);
      PrefixStep(Pairs(s), p - 1);
      PrefixStep(s, 2 * p - 2);
      PrefixStep(s, 2 * p - 1);
    }
  }

  lemma PrefixOfNone(m: seq<int>, w: seq<int>, g: seq<int>)
    ensures Prefix(m, 0) == 0 && Prefix(w, 0) == 0 && Prefix(g, 0) == 0
  {
  }

  /** The next item is the next leaf or the next package. */
  lemma ItemTaken(w: seq<int>, g: seq<int>, k: nat)
    requires k < |w| + |g|
    ensures var a := Taken(w, g, k);
      && Taken(w, g, k + 1) == (if TakesLeaf(w, g, a, k - a) then a + 1 else a)
      && Merge(w, g)[k] == if TakesLeaf(w, g, a, k - a) then w[a] else g[k - a]
  {
  }

  lemma {:induction false} PrefixMerge(w: seq<int>, g: seq<int>, k: nat)
    requires k <= |w| + |g|
    ensures Prefix(Merge(w, g), k) == Prefix(w, Taken(w, g, k)) + Prefix(g, k - Taken(w, g, k))
  {
    hide *;
    if k > 0 {
      var j := k - 1;
      PrefixMerge(w, g, j);
      PrefixStep(Merge(w, g), j);
      ItemTaken(w, g, j);
      var a := Taken(w, g, j);
      if TakesLeaf(w, g, a, j - a) {
        PrefixStep(w, a);
      } else {
        PrefixStep(g, j - a);
        assert k - a == (j - a) + 1;
      }
    } else {
      PrefixOfNone(Merge(w, g), w, g);
    }
  }

  /** The next item is not above any leaf or package that is still to come. */
  lemma ItemIsLeast(w: seq<int>, g: seq<int>, k: nat, a: nat, p: nat)
    requires Sorted(w) && Sorted(g) && a <= |w| && p <= |g| && k + 1 == a + p
    ensures a > Taken(w, g, k) ==> Item(w, g, k) <= w[a - 1]
    ensures a <= Taken(w, g, k) ==> p > 0 && Item(w, g, k) <= g[p - 1]
  {
    var a' := Taken(w, g, k);
    if a > a' {
      assert w[a'] <= w[a - 1];
    } else {
      assert g[k - a'] <= g[p - 1];
    }
  }

  lemma MergeAt(w: seq<int>, g: seq<int>, k: nat)
    requires k < |w| + |g|
    ensures Merge(w, g)[k] == Item(w, g, k)
  {
  }

  /** The merge takes the cheapest: no other choice of leaves and packages is below its first k items. */
  lemma {:induction false} MergeIsCheapest(w: seq<int>, g: seq<int>, a: nat, p: nat)
    requires Sorted(w) && Sorted(g) && a <= |w| && p <= |g|
    ensures Prefix(w, a) + Prefix(g, p) >= Prefix(Merge(w, g), a + p)
    decreases a + p
  {
    hide *;
    if a + p == 0 {
      PrefixNone(w);
      PrefixNone(g);
      PrefixNone(Merge(w, g));
    } else {
      var k := a + p - 1;
      MergeAt(w, g, k);
      PrefixStep(Merge(w, g), k);
      ItemIsLeast(w, g, k, a, p);
      if a > Taken(w, g, k) {
        MergeIsCheapest(w, g, a - 1, p);
        PrefixStep(w, a - 1);
      } else {
        MergeIsCheapest(w, g, a, p - 1);
        PrefixStep(g, p - 1);
      }
    }
  }

  /** The weight of a vector of leaf counts. */
  function ChainCost(w: seq<int>, b: seq<nat>): int
    requires forall i :: 0 <= i < |b| ==> b[i] <= |w|
  {
    if b == [] then 0 else Prefix(w, b[0]) + ChainCost(w, b[1..])
  }

  lemma ChainUnfold(w: seq<int>, c: nat, k: nat)
    ensures Chain(w, c, k)[0] == LeafCount(w, c, k)
    ensures Chain(w, c, k)[1..] == if c == 0 then [] else Chain(w, c - 1, 2 * (k - LeafCount(w, c, k)))
  {
  }

  lemma ListUnfold(w: seq<int>, c: nat, k: nat)
    requires c > 0
    ensures List(w, c) == Merge(w, Packages(w, c)) && Packages(w, c) == Pairs(List(w, c - 1))
    ensures LeafCount(w, c, k) == Taken(w, Packages(w, c), k)
  {
  }

  lemma LeafCountFits(w: seq<int>, c: nat, k: nat)
    requires k <= |List(w, c)|
    ensures LeafCount(w, c, k) <= |w|
    ensures c > 0 ==> 2 * (k - LeafCount(w, c, k)) <= |List(w, c - 1)|
    ensures c == 0 ==> LeafCount(w, c, k) == k && List(w, c) == w
  {
  }

  lemma NextIsPackage(w: seq<int>, c: nat, k: nat)
    requires c > 0 && k < |List(w, c)|
    requires !TakesLeaf(w, Packages(w, c), LeafCount(w, c, k), k - LeafCount(w, c, k))
    ensures k - LeafCount(w, c, k) < |Packages(w, c)|
  {
  }

  /** What the first k items of list c > 0 are: so many leaves, and the items the packages are made of. */
  lemma PrefixList(w: seq<int>, c: nat, k: nat)
    requires c > 0 && k <= |List(w, c)|
    ensures var a := LeafCount(w, c, k);
      a <= |w| && 2 * (k - a) <= |List(w, c - 1)|
      && Prefix(List(w, c), k) == Prefix(w, a) + Prefix(List(w, c - 1), 2 * (k - a))
  {
    hide List;
    hide Packages;
    hide LeafCount;
    hide Prefix;
    ListUnfold(w, c, k);
    LeafCountFits(w, c, k);
    PrefixMerge(w, Packages(w, c), k);
    PrefixPairs(List(w, c - 1), k - LeafCount(w, c, k));
  }

  lemma {:induction false} ChainFits(w: seq<int>, c: nat, k: nat)
    requires k <= |List(w, c)|
    ensures forall i :: 0 <= i <= c ==> Chain(w, c, k)[i] <= |w|
    ensures ChainCost(w, Chain(w, c, k)) == Prefix(List(w, c), k)
  {
    hide List;
    hide LeafCount;
    var b := Chain(w, c, k);
    var a := LeafCount(w, c, k);
    ChainUnfold(w, c, k);
    LeafCountFits(w, c, k);
    if c > 0 {
      ChainFits(w, c - 1, 2 * (k - a));
      PrefixList(w, c, k);
      assert forall i :: 0 < i <= c ==> b[i] == b[1..][i - 1];
    }
  }

  /** Whether leaf counts `b` for lists |b| - 1, ..., 0 amount to at least `k` items of the first. */
  predicate Reaches(b: seq<nat>, k: nat) {
    b != [] && (b[0] >= k || Reaches(b[1..], 2 * (k - b[0])))
  }

  lemma {:induction false} ReachesFits(w: seq<int>, b: seq<nat>, k: nat)
    requires Reaches(b, k) && forall i :: 0 <= i < |b| ==> b[i] <= |w|
    ensures k <= |List(w, |b| - 1)|
    decreases |b|
  {
    var c := |b| - 1;
    if b[0] >= k {
      ListLength(w, c);
    } else {
      ReachesFits(w, b[1..], 2 * (k - b[0]));
    }
  }

  lemma PackagesSorted(w: seq<int>, c: nat)
    requires Sorted(w) && c > 0
    ensures Sorted(Packages(w, c))
  {
    ListSorted(w, c - 1);
    PairsSorted(List(w, c - 1));
  }

  lemma PrefixNone(s: seq<int>)
    ensures Prefix(s, 0) == 0
  {
  }

  lemma FirstList(w: seq<int>)
    ensures List(w, 0) == w
  {
  }

  /** Any leaf counts that amount to k items of list c cost at least as much as its first k. */
  lemma {:induction false} ListIsCheapest(w: seq<int>, b: seq<nat>, k: nat)
    requires Sorted(w) && Positive(w)
    requires Reaches(b, k) && forall i :: 0 <= i < |b| ==> b[i] <= |w|
    ensures k <= |List(w, |b| - 1)| && ChainCost(w, b) >= Prefix(List(w, |b| - 1), k)
    decreases |b|
  {
    hide List;
    hide Packages;
    hide Merge;
    hide Pairs;
    hide Sorted;
    hide Positive;
    hide Prefix;
    var c := |b| - 1;
    ReachesFits(w, b, k);
    ChainCostNonNegative(w, b[1..]);
    if b[0] >= k {
      PrefixMono(w, k, b[0]);
      if c > 0 {
        ListUnfold(w, c, k);
        PackagesSorted(w, c);
        MergeIsCheapest(w, Packages(w, c), k, 0);
        PrefixNone(Packages(w, c));
      } else {
        FirstList(w);
      }
    } else {
      var p := k - b[0];
      ListIsCheapest(w, b[1..], 2 * p);
      ListUnfold(w, c, k);
      PackagesSorted(w, c);
      PrefixPairs(List(w, c - 1), p);
      MergeIsCheapest(w, Packages(w, c), b[0], p);
    }
  }

  lemma {:induction false} PrefixMono(w: seq<int>, a: nat, b: nat)
    requires Positive(w) && a <= b <= |w|
    ensures Prefix(w, a) <= Prefix(w, b)
    decreases b
  {
    if a < b {
      PrefixMono(w, a, b - 1);
      PrefixStep(w, b - 1);
    }
  }

  lemma {:induction false} ChainCostNonNegative(w: seq<int>, b: seq<nat>)
    requires Positive(w) && forall i :: 0 <= i < |b| ==> b[i] <= |w|
    ensures ChainCost(w, b) >= 0
  {
    if b != [] {
      ChainCostNonNegative(w, b[1..]);
      PrefixMono(w, 0, b[0]);
    }
  }

  // ---------------------------------------------------------------------------------------------
  // Kraft's equality
  // ---------------------------------------------------------------------------------------------

  /** What leaf counts amount to, in units of an item of list 0 split |b| - 1 times. */
  function Scaled(b: seq<nat>): nat {
    if b == [] then 0 else Shl(b[0], |b| - 1) + Scaled(b[1..])
  }

  lemma {:induction false} ReachesScaled(b: seq<nat>, k: nat)
    requires b != []
    ensures Reaches(b, k) <==> Shl(k, |b| - 1) <= Scaled(b)
    decreases |b|
  {
    var c := |b| - 1;
    if b[0] >= k {
      ShlMono(k, b[0], c);
    } else {
      ShlLinear(b[0], k - b[0], c);
      if c == 0 {
        assert Scaled(b) == b[0] + Scaled([]) by { assert b[1..] == []; }
        assert !Reaches(b, k) by { assert b[1..] == []; }
      } else {
        ReachesScaled(b[1..], 2 * (k - b[0]));
        ShlDouble(k - b[0], c - 1);
      }
    }
  }

  lemma ScaledStep(a: nat, b: seq<nat>)
    ensures Scaled([a] + b) == Shl(a, |b|) + Scaled(b) && Scaled([]) == 0
  {
    assert ([a] + b)[1..] == b;
  }

  lemma ShlHalf(x: nat, c: nat)
    requires c > 0
    ensures Shl(2 * x, c - 1) == Shl(x, c)
  {
    ShlDouble(x, c - 1);
  }

  lemma ShlNothing(x: nat)
    ensures Shl(x, 0) == x
  {
  }

  lemma ChainParts(w: seq<int>, c: nat, k: nat)
    ensures var a := LeafCount(w, c, k);
      && a <= k && |Chain(w, c, k)| == c + 1
      && (c == 0 ==> a == k && Chain(w, c, k) == [a])
      && (c > 0 ==> Chain(w, c, k) == [a] + Chain(w, c - 1, 2 * (k - a)))
  {
  }

  lemma {:induction false} ChainScaled(w: seq<int>, c: nat, k: nat)
    ensures Scaled(Chain(w, c, k)) == Shl(k, c)
  {
    hide *;
    var a := LeafCount(w, c, k);
    ChainParts(w, c, k);
    if c > 0 {
      var rest := Chain(w, c - 1, 2 * (k - a));
      ChainScaled(w, c - 1, 2 * (k - a));
      ScaledStep(a, rest);
      ShlLinear(a, k - a, c);
      ShlHalf(k - a, c);
      assert a + (k - a) == k;
    } else {
      ScaledStep(a, []);
      assert [a] + [] == [a];
      ShlNothing(a);
    }
  }

  predicate Nested(b: seq<nat>) {
    forall i :: 0 < i < |b| ==> b[i] <= b[i - 1]
  }

  lemma PackageItem(w: seq<int>, c: nat, p: nat, n: nat)
    requires c > 0 && p < |Packages(w, c)| && n == 2 * p + 2
    ensures n <= |List(w, c - 1)| && Packages(w, c)[p] == List(w, c - 1)[n - 2] + List(w, c - 1)[n - 1]
  {
    hide List;
  }

  /** A leaf merged into list c - 1 before a package was made of it is lighter than the package. */
  lemma LeavesInPackage(w: seq<int>, c: nat, p: nat)
    requires Sorted(w) && Positive(w) && c > 0 && p < |Packages(w, c)|
    ensures var d := LeafCount(w, c - 1, 2 * p + 2); d <= |w| && (d > 0 ==> w[d - 1] < Packages(w, c)[p])
  {
    hide *;
    var n := 2 * p + 2;
    var s := List(w, c - 1);
    PackageItem(w, c, p, n);
    ListPositive(w, c - 1);
    assert s[n - 2] > 0;
    LeafBelowItem(w, c - 1, n);
  }

  /** ... so it had been merged into list c as well. */
  lemma {:induction false} PackageAfterLeaves(w: seq<int>, c: nat, k: nat)
    requires Sorted(w) && Positive(w) && c > 0 && k <= |List(w, c)|
    ensures LeafCount(w, c - 1, 2 * (k - LeafCount(w, c, k))) <= LeafCount(w, c, k)
    decreases k
  {
    hide List;
    hide Packages;
    if k > 0 {
      var a := LeafCount(w, c, k - 1);
      var p := k - 1 - a;
      if TakesLeaf(w, Packages(w, c), a, p) {
        PackageAfterLeaves(w, c, k - 1);
      } else {
        NextIsPackage(w, c, k - 1);
        LeavesInPackage(w, c, p);
        assert k - LeafCount(w, c, k) == p + 1;
      }
    } else {
      assert LeafCount(w, c - 1, 0) == 0;
    }
  }

  lemma NoPackages(w: seq<int>, k: nat)
    ensures LeafCount(w, 0, k) == k
  {
  }

  lemma ItemsSorted(s: seq<int>, i: nat, j: nat)
    requires Sorted(s) && i < j < |s|
    ensures s[i] <= s[j]
  {
  }

  /** The last leaf among the first k items is not heavier than the k-th item. */
  lemma LeafBelowItem(w: seq<int>, c: nat, k: nat)
    requires Sorted(w) && 0 < k <= |List(w, c)|
    ensures var d := LeafCount(w, c, k); d <= |w| && (d > 0 ==> w[d - 1] <= List(w, c)[k - 1])
    decreases k
  {
    hide List;
    hide Merge;
    hide Packages;
    hide Sorted;
    if c == 0 {
      FirstList(w);
      NoPackages(w, k);
    } else {
      var g, j := Packages(w, c), k - 1;
      ListUnfold(w, c, k);
      ListUnfold(w, c, j);
      MergeAt(w, g, j);
      if !TakesLeaf(w, g, Taken(w, g, j), j - Taken(w, g, j)) && j > 0 {
        LeafBelowItem(w, c, j);
        ListSorted(w, c);
        ItemsSorted(List(w, c), j - 1, j);
      }
    }
  }

  lemma {:induction false} ChainNested(w: seq<int>, c: nat, k: nat)
    requires Sorted(w) && Positive(w) && k <= |List(w, c)|
    ensures Nested(Chain(w, c, k))
  {
    hide List;
    hide LeafCount;
    var b := Chain(w, c, k);
    ChainUnfold(w, c, k);
    if c > 0 {
      var a := LeafCount(w, c, k);
      PackageAfterLeaves(w, c, k);
      LeafCountFits(w, c, k);
      ChainNested(w, c - 1, 2 * (k - a));
      ChainUnfold(w, c - 1, 2 * (k - a));
      assert forall i :: 0 < i < |b| ==> b[i] == b[1..][i - 1];
    }
  }
}
