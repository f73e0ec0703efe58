/** Code lengths from symbol frequencies: the leaves are sorted, the boundary of the lists is extended
    2n - 2 times, and the last chain is read off into the lengths. */
module CodeLengths {
  import opened Bits
  import opened NodePool
  import opened PackageMerge
  import opened OptimalLengths
  import opened BoundaryPackageMerge
  import opened LeafSort
  import Canonical

  // ---------------------------------------------------------------------------------------------
  // Sums over leaves do not depend on their order
  // ---------------------------------------------------------------------------------------------

  function SumBy(s: seq<Leaf>, f: Leaf -> int): int {
    if s == [] then 0 else SumBy(s[..|s| - 1], f) + f(s[|s| - 1])
  }

  lemma {:induction false} SumByWithout(s: seq<Leaf>, f: Leaf -> int, k: nat)
    requires k < |s|
    ensures SumBy(s, f) == SumBy(s[..k] + s[k + 1..], f) + f(s[k])
  {
    var m := |s| - 1;
    var t := s[..k] + s[k + 1..];
    if k == m {
      assert t == s[..m];
    } else {
      SumByWithout(s[..m], f, k);
      assert t[..|t| - 1] == s[..m][..k] + s[..m][k + 1..];
      assert t[|t| - 1] == s[m];
    }
  }

  lemma {:induction false} SumByPermutation(s: seq<Leaf>, t: seq<Leaf>, f: Leaf -> int)
    requires multiset(s) == multiset(t)
    ensures SumBy(s, f) == SumBy(t, f)
    decreases |s|
  {
    SameSize(s, t);
    if s != [] {
      var x := s[|s| - 1];
      assert x in multiset(s);
      assert x in multiset(t);
      var k :| 0 <= k < |t| && t[k] == x;
      SumByWithout(t, f, k);
      assert s == s[..|s| - 1] + [x];
      assert t == t[..k] + [x] + t[k + 1..];
      assert multiset(t) == multiset(t[..k]) + multiset{x} + multiset(t[k + 1..]);
      assert multiset(s) == multiset(s[..|s| - 1]) + multiset{x};
      assert multiset(t[..k] + t[k + 1..]) == multiset(t[..k]) + multiset(t[k + 1..]);
      Cancel(multiset(s[..|s| - 1]), multiset(t[..k] + t[k + 1..]), x);
      SumByPermutation(s[..|s| - 1], t[..k] + t[k + 1..], f);
    }
  }

  lemma Cancel(a: multiset<Leaf>, b: multiset<Leaf>, x: Leaf)
    requires a + multiset{x} == b + multiset{x}
    ensures a == b
  {
    forall y
      ensures a[y] == b[y]
    {
      assert (a + multiset{x})[y] == (b + multiset{x})[y];
    }
  }

  lemma SameSize(s: seq<Leaf>, t: seq<Leaf>)
    requires multiset(s) == multiset(t)
    ensures |s| == |t|
  {
    assert |multiset(s)| == |multiset(t)|;
  }

  // ---------------------------------------------------------------------------------------------
  // The symbols that occur
  // ---------------------------------------------------------------------------------------------

  /** The leaves of the symbols below `m` that occur, in symbol order. */
  function Occurring(frequencies: seq<nat>, m: nat): (s: seq<Leaf>)
    requires m <= |frequencies|
    ensures |s| <= m
  {
    if m == 0 then []
    else Occurring(frequencies, m - 1) + if frequencies[m - 1] > 0 then [Leaf(frequencies[m - 1], m - 1)] else []
  }

  lemma {:induction false} OccurringLeaves(frequencies: seq<nat>, m: nat)
    requires m <= |frequencies|
    ensures forall i, j :: 0 <= i < j < |Occurring(frequencies, m)| ==>
      Occurring(frequencies, m)[i].index < Occurring(frequencies, m)[j].index
    ensures forall x :: x in Occurring(frequencies, m) ==>
      0 <= x.index < m && x.weight == frequencies[x.index] > 0
    ensures forall i :: 0 <= i < m && frequencies[i] > 0 ==> Leaf(frequencies[i], i) in Occurring(frequencies, m)
  {
    if m > 0 {
      OccurringLeaves(frequencies, m - 1);
    }
  }

  /** Total frequency times length. */
  function CodeCost(frequencies: seq<nat>, lens: seq<nat>): int
    requires |frequencies| == |lens|
  {
    if lens == [] then 0
    else CodeCost(frequencies[..|lens| - 1], lens[..|lens| - 1]) + frequencies[|lens| - 1] * lens[|lens| - 1]
  }

  /** Kraft's sum over the symbols that occur. */
  function OccurringKraft(frequencies: seq<nat>, lens: seq<nat>, L: nat): nat
    requires |frequencies| == |lens| && Canonical.Within(lens, L)
  {
    if lens == [] then 0
    else
      var m := |lens| - 1;
      OccurringKraft(frequencies[..m], lens[..m], L) + if frequencies[m] > 0 then Pow2(L - lens[m]) else 0
  }

  function LeafCost(lens: seq<nat>, x: Leaf): int {
    if x.index < |lens| then x.weight * lens[x.index] else 0
  }

  function LeafKraft(lens: seq<nat>, L: nat, x: Leaf): int {
    if x.index < |lens| && lens[x.index] <= L then Pow2(L - lens[x.index]) else 0
  }

  lemma CodeCostLast(frequencies: seq<nat>, lens: seq<nat>, m: nat)
    requires |frequencies| == |lens| && 0 < m <= |lens|
    ensures CodeCost(frequencies[..m], lens[..m]) == CodeCost(frequencies[..m - 1], lens[..m - 1]) + frequencies[m - 1] * lens[m - 1]
  {
    assert frequencies[..m][..m - 1] == frequencies[..m - 1] && lens[..m][..m - 1] == lens[..m - 1];
  }

  lemma OccurringNext(frequencies: seq<nat>, m: nat, k: nat)
    requires 0 < m <= |frequencies| && k == m - 1
    ensures Occurring(frequencies, m) ==
      if frequencies[k] > 0 then Occurring(frequencies, k) + [Leaf(frequencies[k], k)] else Occurring(frequencies, k)
  {
    assert Occurring(frequencies, k) + [] == Occurring(frequencies, k);
  }

  lemma SumByNext(s: seq<Leaf>, x: Leaf, f: Leaf -> int)
    ensures SumBy(s + [x], f) == SumBy(s, f) + f(x)
  {
    assert (s + [x])[..|s|] == s;
  }

  lemma NoCost(frequencies: seq<nat>, lens: seq<nat>, f: Leaf -> int)
    requires |frequencies| == |lens|
    ensures CodeCost(frequencies[..0], lens[..0]) == 0 == SumBy(Occurring(frequencies, 0), f)
  {
  }

  lemma {:induction false} CostBySymbols(frequencies: seq<nat>, lens: seq<nat>, m: nat, f: Leaf -> int)
    requires |frequencies| == |lens| && m <= |lens| && forall x :: f(x) == LeafCost(lens, x)
    ensures CodeCost(frequencies[..m], lens[..m]) == SumBy(Occurring(frequencies, m), f)
  {
    hide CodeCost;
    hide SumBy;
    hide Occurring;
    if m == 0 {
      NoCost(frequencies, lens, f);
    } else {
      var k := m - 1;
      CostBySymbols(frequencies, lens, k, f);
      CodeCostLast(frequencies, lens, m);
      OccurringNext(frequencies, m, k);
      if frequencies[k] > 0 {
        SumByNext(Occurring(frequencies, k), Leaf(frequencies[k], k), f);
        assert f(Leaf(frequencies[k], k)) == frequencies[k] * lens[k];
      } else {
        assert frequencies[k] * lens[k] == 0;
      }
    }
  }

  lemma OccurringKraftLast(frequencies: seq<nat>, lens: seq<nat>, L: nat, m: nat, k: nat)
    requires |frequencies| == |lens| && 0 < m <= |lens| && k == m - 1 && Canonical.Within(lens, L)
    ensures OccurringKraft(frequencies[..m], lens[..m], L)
         == OccurringKraft(frequencies[..k], lens[..k], L) + if frequencies[k] > 0 then Pow2(L - lens[k]) else 0
  {
    hide Pow2;
    assert frequencies[..m][..k] == frequencies[..k] && lens[..m][..k] == lens[..k];
  }

  lemma NoKraft(frequencies: seq<nat>, lens: seq<nat>, L: nat, f: Leaf -> int)
    requires |frequencies| == |lens| && Canonical.Within(lens, L)
    ensures OccurringKraft(frequencies[..0], lens[..0], L) == 0 == SumBy(Occurring(frequencies, 0), f)
  {
  }

  lemma {:induction false} KraftBySymbols(frequencies: seq<nat>, lens: seq<nat>, L: nat, m: nat, f: Leaf -> int)
    requires |frequencies| == |lens| && m <= |lens| && Canonical.Within(lens, L) && forall x :: f(x) == LeafKraft(lens, L, x)
    ensures OccurringKraft(frequencies[..m], lens[..m], L) == SumBy(Occurring(frequencies, m), f)
  {
    hide Pow2;
    hide OccurringKraft;
    hide SumBy;
    hide Occurring;
    if m == 0 {
      NoKraft(frequencies, lens, L, f);
    } else {
      var k := m - 1;
      KraftBySymbols(frequencies, lens, L, k, f);
      OccurringKraftLast(frequencies, lens, L, m, k);
      OccurringNext(frequencies, m, k);
      if frequencies[k] > 0 {
        SumByNext(Occurring(frequencies, k), Leaf(frequencies[k], k), f);
        assert f(Leaf(frequencies[k], k)) == Pow2(L - lens[k]);
      }
    }
  }

  /** The lengths of the leaves in their sorted order. */
  function LeafLengths(leaves: seq<Leaf>, lens: seq<nat>): (l: seq<nat>)
    requires forall x :: x in leaves ==> x.index < |lens|
    ensures |l| == |leaves| && forall i :: 0 <= i < |l| ==> l[i] == lens[leaves[i].index]
  {
    seq(|leaves|, i requires 0 <= i < |leaves| => lens[leaves[i].index])
  }

  lemma {:induction false} CostByLeaves(leaves: seq<Leaf>, lens: seq<nat>, f: Leaf -> int)
    requires (forall x :: x in leaves ==> x.index < |lens|) && forall x :: f(x) == LeafCost(lens, x)
    ensures Cost(Weights(leaves), LeafLengths(leaves, lens)) == SumBy(leaves, f)
  {
    if leaves != [] {
      var s := leaves[..|leaves| - 1];
      CostByLeaves(s, lens, f);
      assert Weights(leaves)[..|leaves| - 1] == Weights(s);
      assert LeafLengths(leaves, lens)[..|leaves| - 1] == LeafLengths(s, lens);
      assert f(leaves[|leaves| - 1]) == LeafCost(lens, leaves[|leaves| - 1]);
    }
  }

  lemma {:induction false} KraftByLeaves(leaves: seq<Leaf>, lens: seq<nat>, L: nat, f: Leaf -> int)
    requires (forall x :: x in leaves ==> x.index < |lens|) && Canonical.Within(lens, L) && forall x :: f(x) == LeafKraft(lens, L, x)
    ensures Kraft(LeafLengths(leaves, lens), L) == SumBy(leaves, f)
  {
    hide Pow2;
    if leaves != [] {
      var s := leaves[..|leaves| - 1];
      KraftByLeaves(s, lens, L, f);
      assert LeafLengths(leaves, lens)[..|leaves| - 1] == LeafLengths(s, lens);
      assert f(leaves[|leaves| - 1]) == LeafKraft(lens, L, leaves[|leaves| - 1]);
    }
  }

  /** `leaves` are the symbols that occur, in some order. */
  predicate AreLeaves(leaves: seq<Leaf>, frequencies: seq<nat>) {
    multiset(leaves) == multiset(Occurring(frequencies, |frequencies|))
  }

  lemma LeavesOf(leaves: seq<Leaf>, frequencies: seq<nat>)
    requires AreLeaves(leaves, frequencies)
    ensures forall x :: x in leaves ==> x.index < |frequencies| && x.weight == frequencies[x.index] > 0
    ensures forall i :: 0 <= i < |frequencies| && frequencies[i] > 0 ==> Leaf(frequencies[i], i) in leaves
    ensures |leaves| <= |frequencies|
  {
    var s := Occurring(frequencies, |frequencies|);
    OccurringLeaves(frequencies, |frequencies|);
    SameSize(leaves, s);
    forall x | x in leaves ensures x in s { assert x in multiset(leaves); }
    forall x | x in s ensures x in leaves { assert x in multiset(s); }
  }

  lemma CostOfLeaves(leaves: seq<Leaf>, frequencies: seq<nat>, lens: seq<nat>)
    requires AreLeaves(leaves, frequencies) && |frequencies| == |lens|
    requires forall x :: x in leaves ==> x.index < |lens|
    ensures CodeCost(frequencies, lens) == Cost(Weights(leaves), LeafLengths(leaves, lens))
  {
    var n := |lens|;
    assert frequencies[..n] == frequencies && lens[..n] == lens;
    var f := x => LeafCost(lens, x);
    CostBySymbols(frequencies, lens, n, f);
    CostByLeaves(leaves, lens, f);
    SumByPermutation(leaves, Occurring(frequencies, n), f);
  }

  lemma KraftOfLeaves(leaves: seq<Leaf>, frequencies: seq<nat>, lens: seq<nat>, L: nat)
    requires AreLeaves(leaves, frequencies) && |frequencies| == |lens| && Canonical.Within(lens, L)
    requires forall x :: x in leaves ==> x.index < |lens|
    ensures OccurringKraft(frequencies, lens, L) == Kraft(LeafLengths(leaves, lens), L)
  {
    var n := |lens|;
    assert frequencies[..n] == frequencies && lens[..n] == lens;
    var f := x => LeafKraft(lens, L, x);
    KraftBySymbols(frequencies, lens, L, n, f);
    KraftByLeaves(leaves, lens, L, f);
    SumByPermutation(leaves, Occurring(frequencies, n), f);
  }

  lemma {:induction false} KraftOfOccurring(frequencies: seq<nat>, lens: seq<nat>, L: nat)
    requires |frequencies| == |lens| && Canonical.Within(lens, L)
    requires forall i :: 0 <= i < |lens| ==> (lens[i] > 0 <==> frequencies[i] > 0)
    ensures OccurringKraft(frequencies, lens, L) == Canonical.KraftSum(lens, L)
  {
    if lens != [] {
      var m := |lens| - 1;
      KraftOfOccurring(frequencies[..m], lens[..m], L);
    }
  }

  // ---------------------------------------------------------------------------------------------
  // What the lengths are for
  // ---------------------------------------------------------------------------------------------

  /** A complete prefix code of at most `L` bits for every symbol that occurs. */
  predicate CompleteCode(frequencies: seq<nat>, lens: seq<nat>, L: nat) {
    && |lens| == |frequencies| && Canonical.Within(lens, L)
    && (forall i :: 0 <= i < |lens| && frequencies[i] > 0 ==> lens[i] > 0)
    && Canonical.Present(lens) >= 2
    && Canonical.KraftSum(lens, L) == Pow2(L)
  }

  /** A prefix code of at most `L` bits for the symbols that occur, each with one bit at least. */
  ghost predicate IsCodeFor(frequencies: seq<nat>, lens: seq<nat>, L: nat) {
    && |lens| == |frequencies| && Canonical.Within(lens, L) && OccurringKraft(frequencies, lens, L) <= Pow2(L)
    && forall i :: 0 <= i < |lens| && frequencies[i] > 0 ==> lens[i] > 0
  }

  /** None of them makes the message shorter. */
  ghost predicate CheapestCode(frequencies: seq<nat>, lens: seq<nat>, L: nat)
    requires |lens| == |frequencies|
  {
    forall other: seq<nat> :: IsCodeFor(frequencies, other, L) ==> CodeCost(frequencies, lens) <= CodeCost(frequencies, other)
  }

  lemma {:induction false} OneBitIsCheapest(frequencies: seq<nat>, lens: seq<nat>, other: seq<nat>)
    requires |frequencies| == |lens| == |other|
    requires forall i :: 0 <= i < |lens| && frequencies[i] > 0 ==> lens[i] <= 1 <= other[i]
    ensures CodeCost(frequencies, lens) <= CodeCost(frequencies, other)
  {
    if lens != [] {
      var m := |lens| - 1;
      OneBitIsCheapest(frequencies[..m], lens[..m], other[..m]);
      if frequencies[m] > 0 {
        MulLe(frequencies[m], lens[m], other[m]);
      }
    }
  }

  lemma MulLe(k: nat, x: nat, y: nat)
    requires x <= y
    ensures k * x <= k * y
  {
  }

  lemma ShortCodesAreCheapest(frequencies: seq<nat>, lens: seq<nat>, L: nat)
    requires |lens| == |frequencies| && forall i :: 0 <= i < |lens| ==> lens[i] <= 1
    ensures CheapestCode(frequencies, lens, L)
  {
    hide CodeCost;
    hide OccurringKraft;
    forall other: seq<nat> | IsCodeFor(frequencies, other, L)
      ensures CodeCost(frequencies, lens) <= CodeCost(frequencies, other)
    {
      OneBitIsCheapest(frequencies, lens, other);
    }
  }

  /** The lengths by leaf are those of package-merge, and other symbols have none. */
  predicate FromPackageMerge(leaves: seq<Leaf>, frequencies: seq<nat>, lens: seq<nat>, L: nat) {
    && |lens| == |frequencies| && L >= 1 && |leaves| >= 2
    && (forall x :: x in leaves ==> x.index < |lens|)
    && LeafLengths(leaves, lens) == Lengths(Weights(leaves), L)
    && forall i :: 0 <= i < |lens| && frequencies[i] == 0 ==> lens[i] == 0
  }

  lemma WeightsSorted(leaves: seq<Leaf>, frequencies: seq<nat>)
    requires AreLeaves(leaves, frequencies) && Ordered(leaves)
    ensures Sorted(Weights(leaves)) && Positive(Weights(leaves))
  {
    LeavesOf(leaves, frequencies);
    forall i | 0 <= i < |leaves| ensures Weights(leaves)[i] > 0 { assert leaves[i] in leaves; }
  }

  lemma LengthsWithin(leaves: seq<Leaf>, frequencies: seq<nat>, lens: seq<nat>, L: nat)
    requires AreLeaves(leaves, frequencies) && Ordered(leaves) && |leaves| <= Pow2(L)
    requires FromPackageMerge(leaves, frequencies, lens, L)
    ensures Canonical.Within(lens, L)
    ensures forall i :: 0 <= i < |lens| ==> (lens[i] > 0 <==> frequencies[i] > 0)
  {
    LeavesOf(leaves, frequencies);
    WeightsSorted(leaves, frequencies);
    LengthsComplete(Weights(leaves), L);
    var l := LeafLengths(leaves, lens);
    forall i | 0 <= i < |lens|
      ensures lens[i] <= L && (lens[i] > 0 <==> frequencies[i] > 0)
    {
      if frequencies[i] > 0 {
        assert Leaf(frequencies[i], i) in leaves;
        var k :| 0 <= k < |leaves| && leaves[k] == Leaf(frequencies[i], i);
        assert l[k] == lens[i];
      }
    }
  }

  lemma {:induction false} PresentAtLeast(frequencies: seq<nat>, lens: seq<nat>)
    requires |frequencies| == |lens|
    requires forall i :: 0 <= i < |lens| ==> (lens[i] > 0 <==> frequencies[i] > 0)
    ensures Canonical.Present(lens) == |Occurring(frequencies, |frequencies|)|
  {
    if lens != [] {
      var m := |lens| - 1;
      PresentAtLeast(frequencies[..m], lens[..m]);
      OccurringPrefix(frequencies[..m], frequencies, m);
    }
  }

  lemma {:induction false} OccurringPrefix(f: seq<nat>, g: seq<nat>, m: nat)
    requires m <= |f| && m <= |g| && f[..m] == g[..m]
    ensures Occurring(f, m) == Occurring(g, m)
  {
    if m > 0 {
      assert f[m - 1] == f[..m][m - 1] && g[m - 1] == g[..m][m - 1];
      assert f[..m - 1] == f[..m][..m - 1] && g[..m - 1] == g[..m][..m - 1];
      OccurringPrefix(f, g, m - 1);
    }
  }

  /** The lengths that package-merge gives are a complete code, and the cheapest. */
  lemma PackageMergeCode(leaves: seq<Leaf>, frequencies: seq<nat>, lens: seq<nat>, L: nat)
    requires AreLeaves(leaves, frequencies) && Ordered(leaves) && |leaves| <= Pow2(L)
    requires FromPackageMerge(leaves, frequencies, lens, L)
    ensures CompleteCode(frequencies, lens, L)
    ensures CheapestCode(frequencies, lens, L)
  {
    hide Occurring;
    hide Lengths;
    hide LeafLengths;
    hide CodeCost;
    hide OccurringKraft;
    hide Kraft;
    hide Sorted;
    hide Positive;
    hide Ordered;
    var w := Weights(leaves);
    LeavesOf(leaves, frequencies);
    WeightsSorted(leaves, frequencies);
    LengthsComplete(w, L);
    LengthsWithin(leaves, frequencies, lens, L);
    KraftOfLeaves(leaves, frequencies, lens, L);
    KraftOfOccurring(frequencies, lens, L);
    PresentAtLeast(frequencies, lens);
    SameSize(leaves, Occurring(frequencies, |frequencies|));
    CostOfLeaves(leaves, frequencies, lens);
    forall other: seq<nat> | IsCodeFor(frequencies, other, L)
      ensures CodeCost(frequencies, lens) <= CodeCost(frequencies, other)
    {
      KraftOfLeaves(leaves, frequencies, other, L);
      CostOfLeaves(leaves, frequencies, other);
      LengthsOptimal(w, L, LeafLengths(leaves, other));
    }
  }

  // ---------------------------------------------------------------------------------------------
  // The algorithm
  // ---------------------------------------------------------------------------------------------

  /** The two lightest leaves start every list. */
  lemma FirstTwo(w: seq<int>, c: nat)
    requires |w| >= 2 && Sorted(w) && Positive(w)
    ensures |List(w, c)| >= 2 && List(w, c)[0] == w[0] && List(w, c)[1] == w[1] && LeafCount(w, c, 2) == 2
    decreases c
  {
    if c > 0 {
      FirstTwo(w, c - 1);
      var g := Packages(w, c);
      assert g[0] == w[0] + w[1];
      assert Taken(w, g, 0) == 0;
      assert Taken(w, g, 1) == 1;
    }
  }

  lemma InitialState(mem: seq<Node>, w: seq<int>, c0: seq<int>, c1: seq<int>, m: nat)
    requires |w| >= 2 && Sorted(w) && Positive(w) && |mem| >= 2 && |c0| == |c1| && m <= |c0|
    requires SameNode(mem[0], Node(w[0], 1, NULL, false)) && SameNode(mem[1], Node(w[1], 2, NULL, false))
    requires forall i :: 0 <= i < |c0| ==> c0[i] == 0 && c1[i] == 1
    ensures Ready(mem, w, c0, c1, seq(|c0|, _ => 2), m)
  {
    forall c | 0 <= c < m
      ensures ListState(mem, w, c0[c], c1[c], c, 2)
    {
      FirstTwo(w, c);
    }
  }

  lemma {:induction false} EmptyChain(w: seq<int>, c: nat, i: nat)
    ensures LengthOf(Chain(w, c, 0), i) == 0
  {
    ChainUnfold(w, c, 0);
    if c > 0 {
      EmptyChain(w, c - 1, i);
    }
  }

  /** Adds one bit to the lengths of the first `count` leaves. */
  method AddOne(lengths: array<nat>, leaves: seq<Leaf>, count: nat)
    requires count <= |leaves| && forall x :: x in leaves ==> x.index < lengths.Length
    requires forall i, j :: 0 <= i < j < |leaves| ==> leaves[i].index != leaves[j].index
    modifies lengths
    ensures forall i :: 0 <= i < |leaves| ==>
      lengths[leaves[i].index] == old(lengths[leaves[i].index]) + if i < count then 1 else 0
    ensures forall k :: 0 <= k < lengths.Length && (forall i :: 0 <= i < |leaves| ==> leaves[i].index != k) ==>
      lengths[k] == old(lengths[k])
  {
    for i := 0 to count
      invariant forall j :: 0 <= j < |leaves| ==>
        lengths[leaves[j].index] == old(lengths[leaves[j].index]) + if j < i then 1 else 0
      invariant forall k :: 0 <= k < lengths.Length && (forall j :: 0 <= j < |leaves| ==> leaves[j].index != k) ==>
        lengths[k] == old(lengths[k])
    {
      assert leaves[i] in leaves;
      lengths[leaves[i].index] := lengths[leaves[i].index] + 1;
    }
  }

  /** The chain at `node` as leaf counts: it stands for the first k items of list c, or for nothing. */
  ghost predicate Pending(mem: seq<Node>, w: seq<int>, node: int, c: nat, k: nat, b: seq<nat>) {
    k <= |List(w, c)| && Represents(mem, w, node, c, k) && b == Chain(w, c, k)
  }

  /** One step down the chain: its first count, and the chain after it. */
  lemma NextPending(mem: seq<Node>, w: seq<int>, node: int, c: nat, k: nat, b: seq<nat>) returns (c': nat, k': nat, b': seq<nat>)
    requires Pending(mem, w, node, c, k, b) && node != NULL
    ensures 0 <= node < |mem| && mem[node].index <= |w|
    ensures mem[node].tail == NULL || (c > 0 && c' == c - 1 && Pending(mem, w, mem[node].tail, c', k', b'))
    ensures mem[node].tail == NULL ==> forall i: nat :: LengthOf(b, i) == if i < mem[node].index then 1 else 0
    ensures mem[node].tail != NULL ==> forall i: nat :: LengthOf(b, i) == LengthOf(b', i) + if i < mem[node].index then 1 else 0
  {
    hide List;
    hide LeafCount;
    LeafCountFits(w, c, k);
    ChainUnfold(w, c, k);
    c', k', b' := 0, 0, [];
    if c > 0 {
      c', k' := c - 1, 2 * (k - LeafCount(w, c, k));
      b' := Chain(w, c', k');
      assert b[1..] == b';
      assert Represents(mem, w, mem[node].tail, c', k');
      if mem[node].tail == NULL {
        assert k' == 0;
        forall i: nat ensures LengthOf(b', i) == 0 { EmptyChain(w, c', i); }
      }
    } else {
      assert b[1..] == [];
    }
  }

  /** Reads the last chain of the last list off into the lengths of its leaves. */
  method ReadChain(mem: array<Node>, first: int, lengths: array<nat>, leaves: seq<Leaf>, ghost c: nat, ghost k: nat)
    requires forall x :: x in leaves ==> x.index < lengths.Length
    requires forall i, j :: 0 <= i < j < |leaves| ==> leaves[i].index != leaves[j].index
    requires forall i :: 0 <= i < lengths.Length ==> lengths[i] == 0
    requires Pending(mem[..], Weights(leaves), first, c, k, Chain(Weights(leaves), c, k)) && first != NULL
    modifies lengths
    ensures forall i :: 0 <= i < |leaves| ==> lengths[leaves[i].index] == LengthOf(Chain(Weights(leaves), c, k), i)
    ensures forall s :: 0 <= s < lengths.Length && (forall i :: 0 <= i < |leaves| ==> leaves[i].index != s) ==> lengths[s] == 0
  {
    hide Pending;
    ghost var w := Weights(leaves);
    ghost var all := Chain(w, c, k);
    var node := first;
    ghost var d: nat, l: nat, b := c, k, all;
    while node != NULL
      invariant node != NULL ==> Pending(mem[..], w, node, d, l, b)
      invariant forall i :: 0 <= i < |leaves| ==>
        lengths[leaves[i].index] + (if node == NULL then 0 else LengthOf(b, i)) == LengthOf(all, i)
      invariant forall s :: 0 <= s < lengths.Length && (forall i :: 0 <= i < |leaves| ==> leaves[i].index != s) ==> lengths[s] == 0
      decreases node != NULL, d
    {
      ghost var d', l', b' := NextPending(mem[..], w, node, d, l, b);
      AddOne(lengths, leaves, mem[node].index);
      node := mem[node].tail;
      d, l, b := d', l', b';
    }
  }

  /** Collects the leaves of the symbols that occur. */
  method CollectLeaves(frequencies: seq<nat>) returns (leaves: array<Leaf>, numpresent: nat)
    ensures fresh(leaves) && numpresent <= leaves.Length == |frequencies|
    ensures leaves[..numpresent] == Occurring(frequencies, |frequencies|)
  {
    leaves := new Leaf[|frequencies|](_ => Leaf(0, 0));
    numpresent := 0;
    for i := 0 to |frequencies|
      invariant numpresent <= i && leaves[..numpresent] == Occurring(frequencies, i)
    {
      if frequencies[i] > 0 {
        leaves[numpresent] := Leaf(frequencies[i], i);
        numpresent := numpresent + 1;
        assert leaves[..numpresent] == leaves[..numpresent - 1] + [Leaf(frequencies[i], i)];
      }
    }
  }

  /** The lengths of sorted leaves, two or more, by boundary package-merge. */
  method BoundaryLengths(leaves: seq<Leaf>, lengths: array<nat>, maxbitlen: nat)
    requires |leaves| >= 2 && Sorted(Weights(leaves)) && Positive(Weights(leaves))
    requires maxbitlen >= 1 && |leaves| <= Pow2(maxbitlen)
    requires forall x :: x in leaves ==> x.index < lengths.Length
    requires forall i, j :: 0 <= i < j < |leaves| ==> leaves[i].index != leaves[j].index
    requires forall i :: 0 <= i < lengths.Length ==> lengths[i] == 0
    modifies lengths
    ensures forall i :: 0 <= i < |leaves| ==> lengths[leaves[i].index] == Lengths(Weights(leaves), maxbitlen)[i]
    ensures forall s :: 0 <= s < lengths.Length && (forall i :: 0 <= i < |leaves| ==> leaves[i].index != s) ==> lengths[s] == 0
  {
    hide Pending;
    hide LengthOf;
    hide Chain;
    hide List;
    hide ListState;
    hide Ready;
    hide AreChains;
    hide Live;
    hide FreeFrom;
    ghost var w := Weights(leaves);
    ghost var k := 2 * |leaves| - 2;
    var c := maxbitlen - 1;
    var lists := new Lists(maxbitlen, Node(leaves[0].weight, 1, NULL, false), Node(leaves[1].weight, 2, NULL, false));
    InitialState(lists.memory[..], w, lists.chains0[..], lists.chains1[..], maxbitlen);
    ExtendAll(lists, leaves, c);
    EnoughItems(w, maxbitlen);
    LastChain(lists.memory[..], w, lists.chains0[c], lists.chains1[c], c, k);
    ReadChain(lists.memory, lists.chains1[c], lengths, leaves, c, k);
  }

  /** Extends the last list until it has 2n - 2 items. */
  method ExtendAll(lists: Lists, leaves: seq<Leaf>, c: nat)
    requires |leaves| >= 2 && Sorted(Weights(leaves)) && Positive(Weights(leaves))
    requires lists.Valid() && lists.chains0.Length == c + 1
    requires Ready(lists.memory[..], Weights(leaves), lists.chains0[..], lists.chains1[..], seq(c + 1, _ => 2), c + 1)
    modifies lists`numfree, lists`nextfree, lists.memory, lists.freelist, lists.chains0, lists.chains1
    ensures ListState(lists.memory[..], Weights(leaves), lists.chains0[c], lists.chains1[c], c, 2 * |leaves| - 2)
  {
    hide ListState;
    hide Ready;
    hide AreChains;
    hide Live;
    hide FreeFrom;
    ghost var w := Weights(leaves);
    ghost var pos: seq<nat> := seq(c + 1, _ => 2);
    StateOf(lists.memory[..], w, lists.chains0[..], lists.chains1[..], pos, c + 1, c);
    for i := 2 to 2 * |leaves| - 2
      invariant lists.Valid() && |pos| == c + 1 && pos[c] == i
      invariant i < 2 * |leaves| - 2 ==> Ready(lists.memory[..], w, lists.chains0[..], lists.chains1[..], pos, c + 1)
      invariant ListState(lists.memory[..], w, lists.chains0[c], lists.chains1[c], c, i)
    {
      pos := BoundaryPM(lists, leaves, c, i, pos);
    }
  }

  lemma LastChain(mem: seq<Node>, w: seq<int>, p0: int, p1: int, c: nat, k: nat)
    requires ListState(mem, w, p0, p1, c, k) && k <= |List(w, c)|
    ensures Pending(mem, w, p1, c, k, Chain(w, c, k)) && p1 != NULL
  {
  }

  lemma LeavesDistinct(leaves: seq<Leaf>)
    requires Ordered(leaves)
    requires exists s: seq<Leaf> :: multiset(s) == multiset(leaves) && forall i, j :: 0 <= i < j < |s| ==> s[i].index < s[j].index
    ensures forall i, j :: 0 <= i < j < |leaves| ==> leaves[i].index != leaves[j].index
  {
    var s: seq<Leaf> :| multiset(s) == multiset(leaves) && forall i, j :: 0 <= i < j < |s| ==> s[i].index < s[j].index;
    forall i, j | 0 <= i < j < |leaves|
      ensures leaves[i].index != leaves[j].index
    {
      assert leaves[i] in multiset(leaves) && leaves[j] in multiset(leaves);
      assert leaves[i] in multiset(s) && leaves[j] in multiset(s);
      assert leaves[i] in s && leaves[j] in s;
    }
  }

  lemma {:induction false} FewOccurring(frequencies: seq<nat>, m: nat)
    requires m <= |frequencies|
    ensures Occurring(frequencies, m) == [] ==> forall i :: 0 <= i < m ==> frequencies[i] == 0
    ensures |Occurring(frequencies, m)| == 1 ==>
      var k := Occurring(frequencies, m)[0].index; k < m && frequencies[k] > 0 && forall i :: 0 <= i < m && i != k ==> frequencies[i] == 0
  {
    if m > 0 {
      FewOccurring(frequencies, m - 1);
    }
  }

  /** Two codes of one bit each are complete. */
  lemma TwoShortCodes(lens: seq<nat>, i: nat, j: nat, L: nat)
    requires i < j < |lens| && lens[i] == lens[j] == 1 && L >= 1
    requires forall k :: 0 <= k < |lens| && k != i && k != j ==> lens[k] == 0
    ensures Canonical.Within(lens, L) && Canonical.KraftSum(lens, L) == Pow2(L) && Canonical.Present(lens) == 2
    decreases |lens|
  {
    var m := |lens| - 1;
    if j < m {
      TwoShortCodes(lens[..m], i, j, L);
    } else {
      OneShortCode(lens[..m], i, L);
    }
  }

  lemma {:induction false} OneShortCode(lens: seq<nat>, i: nat, L: nat)
    requires i < |lens| && lens[i] == 1 && L >= 1
    requires forall k :: 0 <= k < |lens| && k != i ==> lens[k] == 0
    ensures Canonical.Within(lens, L) && Canonical.KraftSum(lens, L) == Pow2(L - 1) && Canonical.Present(lens) == 1
  {
    var m := |lens| - 1;
    if i < m {
      OneShortCode(lens[..m], i, L);
    } else {
      NoCode(lens[..m], L);
    }
  }

  lemma {:induction false} NoCode(lens: seq<nat>, L: nat)
    requires forall k :: 0 <= k < |lens| ==> lens[k] == 0
    ensures Canonical.Within(lens, L) && Canonical.KraftSum(lens, L) == 0 && Canonical.Present(lens) == 0
  {
    if lens != [] {
      NoCode(lens[..|lens| - 1], L);
    }
  }

  /** The lengths of a code for symbols of the given frequencies. At least two symbols get a code, even if
      fewer occur. */
  method HuffmanCodeLengths(lengths: array<nat>, frequencies: seq<nat>, maxbitlen: nat) returns (error: nat)
    requires lengths.Length == |frequencies| && |frequencies| != 1
    modifies lengths
    ensures error == if |frequencies| == 0 || Pow2(maxbitlen) < |frequencies| then 80 else 0
    ensures error == 0 ==> CompleteCode(frequencies, lengths[..], maxbitlen)
    ensures error == 0 ==> CheapestCode(frequencies, lengths[..], maxbitlen)
  {
    var numcodes := |frequencies|;
    if numcodes == 0 {
      return 80;
    }
    if Pow2(maxbitlen) < numcodes {
      return 80;
    }
    var leaves, numpresent := CollectLeaves(frequencies);
    for i := 0 to numcodes
      invariant forall k :: 0 <= k < i ==> lengths[k] == 0
      invariant leaves[..numpresent] == Occurring(frequencies, numcodes)
    {
      lengths[i] := 0;
    }
    error := 0;
    FewOccurring(frequencies, numcodes);
    if numpresent == 0 {
      lengths[0] := 1;
      lengths[1] := 1;
      TwoShortCodes(lengths[..], 0, 1, maxbitlen);
      ShortCodesAreCheapest(frequencies, lengths[..], maxbitlen);
    } else if numpresent == 1 {
      var k := leaves[0].index;
      lengths[k] := 1;
      lengths[if k == 0 then 1 else 0] := 1;
      TwoShortCodes(lengths[..], 0, if k == 0 then 1 else k, maxbitlen);
      ShortCodesAreCheapest(frequencies, lengths[..], maxbitlen);
    } else {
      PackageMergeLengths(leaves, numpresent, lengths, frequencies, maxbitlen);
    }
  }

  method PackageMergeLengths(leaves: array<Leaf>, numpresent: nat, lengths: array<nat>, frequencies: seq<nat>, maxbitlen: nat)
    requires 2 <= numpresent <= leaves.Length && leaves[..numpresent] == Occurring(frequencies, |frequencies|)
    requires lengths.Length == |frequencies| <= Pow2(maxbitlen) && maxbitlen >= 1
    requires forall k :: 0 <= k < lengths.Length ==> lengths[k] == 0
    modifies lengths, leaves
    ensures CompleteCode(frequencies, lengths[..], maxbitlen)
    ensures CheapestCode(frequencies, lengths[..], maxbitlen)
  {
    hide *;
    ghost var before := leaves[..numpresent];
    OccurringLeaves(frequencies, |frequencies|);
    Sort(leaves, numpresent);
    ghost var sorted := leaves[..numpresent];
    PermutedLeaves(sorted, before, frequencies);
    SortedLeaves(sorted, frequencies);
    BoundaryLengths(leaves[..numpresent], lengths, maxbitlen);
    ReadOff(sorted, frequencies, lengths[..], maxbitlen);
    PackageMergeCode(sorted, frequencies, lengths[..], maxbitlen);
  }

  lemma PermutedLeaves(leaves: seq<Leaf>, before: seq<Leaf>, frequencies: seq<nat>)
    requires multiset(leaves) == multiset(before) && before == Occurring(frequencies, |frequencies|)
    ensures AreLeaves(leaves, frequencies)
  {
  }

  lemma SortedLeaves(leaves: seq<Leaf>, frequencies: seq<nat>)
    requires AreLeaves(leaves, frequencies) && Ordered(leaves)
    ensures forall x :: x in leaves ==> x.index < |frequencies|
    ensures forall i, j :: 0 <= i < j < |leaves| ==> leaves[i].index != leaves[j].index
    ensures Sorted(Weights(leaves)) && Positive(Weights(leaves)) && |leaves| <= |frequencies|
  {
    OccurringLeaves(frequencies, |frequencies|);
    LeavesOf(leaves, frequencies);
    LeavesDistinct(leaves);
    WeightsSorted(leaves, frequencies);
  }

  lemma ReadOff(leaves: seq<Leaf>, frequencies: seq<nat>, lens: seq<nat>, L: nat)
    requires AreLeaves(leaves, frequencies) && |lens| == |frequencies| && L >= 1 && |leaves| >= 2
    requires forall x :: x in leaves ==> x.index < |lens|
    requires forall i :: 0 <= i < |leaves| ==> lens[leaves[i].index] == Lengths(Weights(leaves), L)[i]
    requires forall s :: 0 <= s < |lens| && (forall i :: 0 <= i < |leaves| ==> leaves[i].index != s) ==> lens[s] == 0
    ensures FromPackageMerge(leaves, frequencies, lens, L)
  {
    hide Lengths;
    LeavesOf(leaves, frequencies);
    forall s | 0 <= s < |frequencies| && frequencies[s] == 0
      ensures lens[s] == 0
    {
      forall i | 0 <= i < |leaves| ensures leaves[i].index != s { assert leaves[i] in leaves; }
    }
  }
}
