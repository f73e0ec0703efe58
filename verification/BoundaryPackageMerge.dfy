/** Boundary package-merge: only the last two chains of each list are kept, and a list is extended when
    the next list needs a pair from it. Each chain is proved to stand for an item of the list that
    package-merge defines. The lookahead may run past the end of a list; the chains it makes then are
    heavier than every leaf, so that no item that counts is built from them. */
module BoundaryPackageMerge {
  import opened NodePool
  import opened PackageMerge

  datatype Leaf = Leaf(weight: int, index: nat)

  function Weights(leaves: seq<Leaf>): (w: seq<int>)
    ensures |w| == |leaves| && forall i :: 0 <= i < |w| ==> w[i] == leaves[i].weight
  {
    seq(|leaves|, i requires 0 <= i < |leaves| => leaves[i].weight)
  }

  /** The chain at `p` stands for the first `k` items of list `c`. */
  predicate Represents(mem: seq<Node>, w: seq<int>, p: int, c: nat, k: nat)
    decreases c
  {
    if k == 0 then p == NULL
    else
      && 0 <= p < |mem| && k <= |List(w, c)|
      && mem[p].index == LeafCount(w, c, k)
      && mem[p].weight == List(w, c)[k - 1]
      && if c == 0 then mem[p].tail == NULL
         else Represents(mem, w, mem[p].tail, c - 1, 2 * (k - LeafCount(w, c, k)))
  }

  /** The two chains of list `c` when it has been extended to `k` items, the list's end included. */
  predicate ListState(mem: seq<Node>, w: seq<int>, p0: int, p1: int, c: nat, k: nat) {
    && 0 <= p0 < |mem| && 0 <= p1 < |mem| && k >= 2
    && if k <= |List(w, c)| then Represents(mem, w, p1, c, k) && mem[p0].weight == List(w, c)[k - 2]
       else mem[p1].index == |w| && w != [] && mem[p1].weight >= w[|w| - 1] && mem[p0].weight > 0
  }

  /** The first `m` lists, each two items ahead of the packages that the next has taken from it. */
  predicate Ready(mem: seq<Node>, w: seq<int>, chains0: seq<int>, chains1: seq<int>, pos: seq<nat>, m: nat) {
    && m <= |chains0| == |chains1| == |pos|
    && (forall c :: 0 <= c < m ==> ListState(mem, w, chains0[c], chains1[c], c, pos[c]))
    && forall c :: 0 < c < m ==> pos[c - 1] == 2 * (pos[c] - mem[chains1[c]].index) + 2
  }

  // ---------------------------------------------------------------------------------------------
  // Frames
  // ---------------------------------------------------------------------------------------------

  lemma {:induction false} RepresentsFrame(mem: seq<Node>, mem': seq<Node>, w: seq<int>, p: int, c: nat, k: nat)
    requires k <= |List(w, c)| && Represents(mem, w, p, c, k)
    requires IsChain(mem, p, c + 1) && SameOn(mem, mem', Nodes(mem, p, c + 1))
    ensures Represents(mem', w, p, c, k)
    decreases c
  {
    hide List;
    hide LeafCount;
    if k > 0 {
      LeafCountFits(w, c, k);
      assert p in Nodes(mem, p, c + 1);
      if c > 0 {
        SameOnSubset(mem, mem', Nodes(mem, mem[p].tail, c), Nodes(mem, p, c + 1));
        RepresentsFrame(mem, mem', w, mem[p].tail, c - 1, 2 * (k - LeafCount(w, c, k)));
      }
    }
  }

  lemma ListStateFrame(mem: seq<Node>, mem': seq<Node>, w: seq<int>, p0: int, p1: int, c: nat, k: nat)
    requires ListState(mem, w, p0, p1, c, k)
    requires IsChain(mem, p0, c + 1) && SameOn(mem, mem', Nodes(mem, p0, c + 1))
    requires IsChain(mem, p1, c + 1) && SameOn(mem, mem', Nodes(mem, p1, c + 1))
    ensures ListState(mem', w, p0, p1, c, k) && |mem| == |mem'|
    ensures 0 <= p0 < |mem| && 0 <= p1 < |mem|
    ensures SameNode(mem[p0], mem'[p0]) && SameNode(mem[p1], mem'[p1])
  {
    hide List;
    hide Represents;
    assert p0 in Nodes(mem, p0, c + 1) && p1 in Nodes(mem, p1, c + 1);
    if k <= |List(w, c)| {
      RepresentsFrame(mem, mem', w, p1, c, k);
    }
  }

  lemma ReadyFrame(mem: seq<Node>, mem': seq<Node>, w: seq<int>, chains0: seq<int>, chains1: seq<int>, pos: seq<nat>, m: nat)
    requires Ready(mem, w, chains0, chains1, pos, m)
    requires AreChains(mem, chains0, chains1) && SameOn(mem, mem', Live(mem, chains0, chains1, 0))
    ensures Ready(mem', w, chains0, chains1, pos, m)
  {
    hide ListState;
    hide SameOn;
    hide Nodes;
    hide Live;
    hide IsChain;
    forall c | 0 <= c < m
      ensures ListState(mem', w, chains0[c], chains1[c], c, pos[c])
      ensures 0 <= chains1[c] < |mem'|
      ensures c > 0 ==> pos[c - 1] == 2 * (pos[c] - mem'[chains1[c]].index) + 2
    {
      var s := Live(mem, chains0, chains1, 0);
      LiveContains(mem, chains0, chains1, 0, c);
      SameOnSubset(mem, mem', Nodes(mem, chains0[c], c + 1), s);
      SameOnSubset(mem, mem', Nodes(mem, chains1[c], c + 1), s);
      ListStateFrame(mem, mem', w, chains0[c], chains1[c], c, pos[c]);
    }
  }

  // ---------------------------------------------------------------------------------------------
  // One step
  // ---------------------------------------------------------------------------------------------

  lemma AllLeavesAtEnd(w: seq<int>, c: nat)
    ensures LeafCount(w, c, |List(w, c)|) == |w|
  {
    if c > 0 {
      ListUnfold(w, c, |List(w, c)|);
    }
  }

  /** A list that still has leaves to merge is not at its end. */
  lemma LeavesLeft(mem: seq<Node>, w: seq<int>, p0: int, p1: int, c: nat, k: nat)
    requires ListState(mem, w, p0, p1, c, k) && mem[p1].index < |w|
    ensures k < |List(w, c)| && mem[p1].index == LeafCount(w, c, k)
  {
    hide List;
    hide LeafCount;
    AllLeavesAtEnd(w, c);
  }

  lemma LeafNext(w: seq<int>, c: nat, k: nat)
    requires k < |List(w, c)| && LeafCount(w, c, k) < |w|
    requires c > 0 ==> TakesLeaf(w, Packages(w, c), LeafCount(w, c, k), k - LeafCount(w, c, k))
    ensures LeafCount(w, c, k + 1) == LeafCount(w, c, k) + 1
    ensures List(w, c)[k] == w[LeafCount(w, c, k)]
  {
  }

  lemma PackageNext(w: seq<int>, c: nat, k: nat)
    requires c > 0 && k < |List(w, c)|
    requires !TakesLeaf(w, Packages(w, c), LeafCount(w, c, k), k - LeafCount(w, c, k))
    ensures LeafCount(w, c, k + 1) == LeafCount(w, c, k)
    ensures k - LeafCount(w, c, k) < |Packages(w, c)|
    ensures List(w, c)[k] == Packages(w, c)[k - LeafCount(w, c, k)]
  {
    hide *;
    ListUnfold(w, c, k);
    ListUnfold(w, c, k + 1);
    MergeAt(w, Packages(w, c), k);
    ItemTaken(w, Packages(w, c), k);
  }

  lemma HeadKept(mem: seq<Node>, mem': seq<Node>, p: int, d: nat)
    requires IsChain(mem, p, d) && 0 <= p < |mem| && SameOn(mem, mem', Nodes(mem, p, d)) && p != NULL
    ensures p in Nodes(mem, p, d) && |mem| == |mem'| && SameNode(mem[p], mem'[p]) && d > 0
    ensures Nodes(mem, mem[p].tail, d - 1) <= Nodes(mem, p, d) && IsChain(mem, mem[p].tail, d - 1)
  {
    assert p in Nodes(mem, p, d);
  }

  /** The next leaf is merged: the new chain shares the tail of the one before. */
  lemma StepLeaf(mem: seq<Node>, mem': seq<Node>, w: seq<int>, p0: int, p1: int, r: int, c: nat, k: nat)
    requires ListState(mem, w, p0, p1, c, k) && mem[p1].index < |w|
    requires var a := mem[p1].index; c > 0 ==> a <= k && TakesLeaf(w, Packages(w, c), a, k - a)
    requires IsChain(mem, p1, c + 1) && SameOn(mem, mem', Nodes(mem, p1, c + 1))
    requires 0 <= r < |mem'| && SameNode(mem'[r], Node(w[mem[p1].index], mem[p1].index + 1, mem[p1].tail, false))
    ensures ListState(mem', w, p1, r, c, k + 1)
  {
    hide List;
    hide LeafCount;
    hide Packages;
    hide TakesLeaf;
    hide SameOn;
    LeavesLeft(mem, w, p0, p1, c, k);
    LeafNext(w, c, k);
    LeafCountFits(w, c, k + 1);
    HeadKept(mem, mem', p1, c + 1);
    hide IsChain;
    hide Nodes;
    if c > 0 {
      SameOnSubset(mem, mem', Nodes(mem, mem[p1].tail, c), Nodes(mem, p1, c + 1));
      RepresentsFrame(mem, mem', w, mem[p1].tail, c - 1, 2 * (k - LeafCount(w, c, k)));
    }
  }

  /** What the pair offered by list c - 1 weighs: the next package, or more than any leaf. */
  lemma PairWeight(mem: seq<Node>, w: seq<int>, q0: int, q1: int, c: nat, p: nat)
    requires c > 0 && Sorted(w) && Positive(w) && ListState(mem, w, q0, q1, c - 1, 2 * p + 2)
    ensures p < |Packages(w, c)| ==> mem[q0].weight + mem[q1].weight == Packages(w, c)[p]
    ensures p < |Packages(w, c)| <==> 2 * p + 2 <= |List(w, c - 1)|
    ensures p >= |Packages(w, c)| ==> forall i :: 0 <= i < |w| ==> mem[q0].weight + mem[q1].weight > w[i]
  {
    hide List;
  }

  /** The next package is merged: the new chain has the last chain of list c - 1 as its tail. */
  lemma StepPackage(mem: seq<Node>, mem': seq<Node>, w: seq<int>, p0: int, p1: int, q0: int, q1: int, r: int, c: nat, k: nat)
    requires c > 0 && Sorted(w) && Positive(w) && ListState(mem, w, p0, p1, c, k)
    requires mem[p1].index <= k && ListState(mem, w, q0, q1, c - 1, 2 * (k - mem[p1].index) + 2)
    requires var a, sum := mem[p1].index, mem[q0].weight + mem[q1].weight; a >= |w| || sum <= w[a]
    requires IsChain(mem, p1, c + 1) && SameOn(mem, mem', Nodes(mem, p1, c + 1))
    requires IsChain(mem, q1, c) && SameOn(mem, mem', Nodes(mem, q1, c))
    requires 0 <= r < |mem'| && SameNode(mem'[r], Node(mem[q0].weight + mem[q1].weight, mem[p1].index, q1, false))
    ensures ListState(mem', w, p1, r, c, k + 1)
  {
    hide List;
    hide LeafCount;
    hide Packages;
    hide Represents;
    var a := mem[p1].index;
    var p := k - a;
    PairWeight(mem, w, q0, q1, c, p);
    assert p1 in Nodes(mem, p1, c + 1);
    if k < |List(w, c)| {
      StepPackageInList(mem, mem', w, p1, q0, q1, r, c, k);
      RepresentsWeight(mem, w, p1, c, k);
    } else {
      StepPackagePastEnd(mem, w, p0, p1, c, k);
    }
  }

  lemma RepresentsWeight(mem: seq<Node>, w: seq<int>, p: int, c: nat, k: nat)
    requires 0 < k <= |List(w, c)| && Represents(mem, w, p, c, k)
    ensures 0 <= p < |mem| && mem[p].index == LeafCount(w, c, k) && mem[p].weight == List(w, c)[k - 1]
  {
  }

  lemma StepPackageInList(mem: seq<Node>, mem': seq<Node>, w: seq<int>, p1: int, q0: int, q1: int, r: int, c: nat, k: nat)
    requires c > 0 && 0 < k < |List(w, c)| && Represents(mem, w, p1, c, k) && mem[p1].index <= k
    requires ListState(mem, w, q0, q1, c - 1, 2 * (k - mem[p1].index) + 2)
    requires var a, sum, p := mem[p1].index, mem[q0].weight + mem[q1].weight, k - mem[p1].index;
      && (a >= |w| || sum <= w[a])
      && (p < |Packages(w, c)| ==> sum == Packages(w, c)[p])
      && (p < |Packages(w, c)| <==> 2 * p + 2 <= |List(w, c - 1)|)
      && (p >= |Packages(w, c)| ==> forall i :: 0 <= i < |w| ==> sum > w[i])
    requires IsChain(mem, q1, c) && SameOn(mem, mem', Nodes(mem, q1, c))
    requires 0 <= r < |mem'| && SameNode(mem'[r], Node(mem[q0].weight + mem[q1].weight, mem[p1].index, q1, false))
    ensures Represents(mem', w, r, c, k + 1)
  {
    hide List;
    hide LeafCount;
    hide Packages;
    var p := k - mem[p1].index;
    assert !TakesLeaf(w, Packages(w, c), LeafCount(w, c, k), p);
    PackageNext(w, c, k);
    LeafCountFits(w, c, k + 1);
    RepresentsFrame(mem, mem', w, q1, c - 1, 2 * p + 2);
  }

  lemma WeightPositive(mem: seq<Node>, w: seq<int>, p0: int, p1: int, c: nat, k: nat)
    requires Positive(w) && Positive(List(w, c)) && ListState(mem, w, p0, p1, c, k)
    ensures mem[p1].weight > 0
  {
    hide List;
    hide LeafCount;
  }

  /** Past the end of a list, its packages come from past the end of the list before. */
  lemma StepPackagePastEnd(mem: seq<Node>, w: seq<int>, p0: int, p1: int, c: nat, k: nat)
    requires c > 0 && Sorted(w) && Positive(w) && ListState(mem, w, p0, p1, c, k) && k >= |List(w, c)|
    ensures mem[p1].index == |w| && k - |w| >= |Packages(w, c)|
    ensures w != [] ==> mem[p1].weight > 0
  {
    hide LeafCount;
    hide List;
    hide Merge;
    hide Packages;
    AllLeavesAtEnd(w, c);
    ListPositive(w, c);
    ListUnfold(w, c, 0);
    WeightPositive(mem, w, p0, p1, c, k);
  }

  /** List 0 at its end stays as it is. */
  lemma StepNothing(mem: seq<Node>, w: seq<int>, p0: int, p1: int, k: nat)
    requires Positive(w) && ListState(mem, w, p0, p1, 0, k) && mem[p1].index >= |w| && w != []
    ensures ListState(mem, w, p0, p1, 0, k + 1)
  {
  }

  // ---------------------------------------------------------------------------------------------
  // The algorithm
  // ---------------------------------------------------------------------------------------------

  lemma SameRest<T>(s: seq<T>, t: seq<T>, c: nat, n: nat)
    requires |s| == |t| && c <= n <= |s| && s[c..] == t[c..]
    ensures s[n..] == t[n..]
  {
    assert s[n..] == s[c..][n - c..] && t[n..] == t[c..][n - c..];
  }

  lemma SameOnTransitive(mem: seq<Node>, mem': seq<Node>, mem'': seq<Node>, s: set<int>)
    requires SameOn(mem, mem', s) && SameOn(mem', mem'', s)
    ensures SameOn(mem, mem'', s)
  {
  }

  lemma FreeShrink(free: seq<int>, n: nat, s: set<int>, t: set<int>)
    requires FreeFrom(free, n, s) && t <= s
    ensures FreeFrom(free, n, t)
  {
  }

  /** Moves the last chain of list `c` to be the one before last and makes a new last chain. */
  method Advance(lists: Lists, c: nat, weight: int, index: nat, tail: int)
    requires lists.Valid() && c < lists.chains0.Length
    requires IsChain(lists.memory[..], tail, c)
    requires Nodes(lists.memory[..], tail, c) <= Live(lists.memory[..], lists.chains0[..][c := lists.chains1[c]], lists.chains1[..], 0)
    modifies lists`numfree, lists`nextfree, lists.memory, lists.freelist, lists.chains0, lists.chains1
    ensures lists.Valid()
    ensures lists.chains0[..] == old(lists.chains0[..][c := lists.chains1[c]])
    ensures 0 <= lists.chains1[c] < lists.memory.Length && lists.chains1[..] == old(lists.chains1[..])[c := lists.chains1[c]]
    ensures SameOn(old(lists.memory[..]), lists.memory[..], old(Live(lists.memory[..], lists.chains0[..][c := lists.chains1[c]], lists.chains1[..], 0)))
    ensures SameNode(lists.memory[lists.chains1[c]], Node(weight, index, tail, false))
    ensures lists.LiveNodes(c + 1) == old(lists.LiveNodes(c + 1))
  {
    hide IsChain;
    hide Nodes;
    hide Live;
    hide FreeFrom;
    hide SameOn;
    ghost var mem, c0, c1 := lists.memory[..], lists.chains0[..], lists.chains1[..];
    ghost var c0' := c0[c := c1[c]];
    LiveMove(mem, c0, c1, c);
    ghost var free := lists.freelist[lists.nextfree..lists.numfree];
    FreeShrink(free, |mem|, Live(mem, c0, c1, 0), Live(mem, c0', c1, 0));
    lists.chains0[c] := lists.chains1[c];
    assert lists.chains0[..] == c0';
    var r := lists.Create(weight, index, tail, c);
    ghost var mem' := lists.memory[..];
    lists.chains1[c] := r;
    assert lists.chains1[..] == c1[c := r];
    LiveReplace(mem', c0', c1, c, r);
    LiveAfter(mem, mem', c0', c1, c);
    FreeShrink(lists.freelist[lists.nextfree..lists.numfree], |mem'|,
               Live(mem', c0', c1, 0) + {r}, Live(mem', c0', c1[c := r], 0));
  }

  lemma LiveMove(mem: seq<Node>, c0: seq<int>, c1: seq<int>, c: nat)
    requires AreChains(mem, c0, c1) && c < |c0|
    ensures var c0' := c0[c := c1[c]];
      && AreChains(mem, c0', c1)
      && Live(mem, c0', c1, 0) <= Live(mem, c0, c1, 0)
      && Live(mem, c0', c1, c + 1) == Live(mem, c0, c1, c + 1)
  {
    hide IsChain;
    hide Nodes;
    hide Live;
    LiveContains(mem, c0, c1, 0, c);
    LiveUpdate(mem, c0, c1, c0[c := c1[c]], c1, c, 0, Live(mem, c0, c1, 0));
    LiveShrinks(mem, c0, c1, 0, c + 1);
    LiveUpdate(mem, c0, c1, c0[c := c1[c]], c1, c, c + 1, Live(mem, c0, c1, 0));
  }

  lemma LiveReplace(mem: seq<Node>, c0: seq<int>, c1: seq<int>, c: nat, r: int)
    requires AreChains(mem, c0, c1) && c < |c0|
    requires IsChain(mem, r, c + 1) && Nodes(mem, r, c + 1) <= Live(mem, c0, c1, 0) + {r}
    ensures var c1' := c1[c := r];
      && AreChains(mem, c0, c1')
      && Live(mem, c0, c1', 0) <= Live(mem, c0, c1, 0) + {r}
      && Live(mem, c0, c1', c + 1) == Live(mem, c0, c1, c + 1)
  {
    hide IsChain;
    hide Nodes;
    hide Live;
    var s := Live(mem, c0, c1, 0) + {r};
    LiveContains(mem, c0, c1, 0, c);
    LiveShrinks(mem, c0, c1, 0, c + 1);
    LiveUpdate(mem, c0, c1, c0, c1[c := r], c, 0, s);
    LiveUpdate(mem, c0, c1, c0, c1[c := r], c, c + 1, s);
  }

  lemma LiveAfter(mem: seq<Node>, mem': seq<Node>, c0: seq<int>, c1: seq<int>, c: nat)
    requires AreChains(mem, c0, c1) && AreChains(mem', c0, c1) && c < |c0|
    requires SameOn(mem, mem', Live(mem, c0, c1, 0))
    ensures Live(mem', c0, c1, c + 1) == Live(mem, c0, c1, c + 1)
  {
    hide IsChain;
    hide Nodes;
    hide Live;
    hide SameOn;
    LiveShrinks(mem, c0, c1, 0, c + 1);
    SameOnSubset(mem, mem', Live(mem, c0, c1, c + 1), Live(mem, c0, c1, 0));
    LiveFrame(mem, mem', c0, c1, c0, c1, c + 1);
  }

  lemma SameOnReflexive(mem: seq<Node>, s: set<int>)
    ensures SameOn(mem, mem, s)
  {
  }

  lemma StateOf(mem: seq<Node>, w: seq<int>, c0: seq<int>, c1: seq<int>, pos: seq<nat>, m: nat, c: nat)
    requires Ready(mem, w, c0, c1, pos, m) && c < m
    ensures 0 <= c0[c] < |mem| && 0 <= c1[c] < |mem|
    ensures ListState(mem, w, c0[c], c1[c], c, pos[c])
    ensures c > 0 ==> pos[c - 1] == 2 * (pos[c] - mem[c1[c]].index) + 2
    ensures Ready(mem, w, c0, c1, pos, c)
  {
  }

  /** The index of a list's last chain counts leaves, no more than the items. */
  lemma IndexBound(mem: seq<Node>, w: seq<int>, p0: int, p1: int, c: nat, k: nat)
    requires ListState(mem, w, p0, p1, c, k)
    ensures mem[p1].index <= k
  {
    hide List;
    hide LeafCount;
    if k > |List(w, c)| {
      ListLength(w, c);
    } else {
      RepresentsWeight(mem, w, p1, c, k);
    }
  }

  lemma ReadyExtend(mem: seq<Node>, w: seq<int>, c0: seq<int>, c1: seq<int>, pos: seq<nat>, pos': seq<nat>, c: nat)
    requires Ready(mem, w, c0, c1, pos, c) && c < |c0| && |pos'| == |pos|
    requires forall d :: 0 <= d < c ==> pos'[d] == pos[d]
    requires ListState(mem, w, c0[c], c1[c], c, pos'[c])
    requires c > 0 ==> pos'[c - 1] == 2 * (pos'[c] - mem[c1[c]].index) + 2
    ensures Ready(mem, w, c0, c1, pos', c + 1)
  {
    hide ListState;
  }

  /** Making a new last chain for list `c` leaves the other lists as they were. */
  lemma OthersKept(mem: seq<Node>, mem': seq<Node>, w: seq<int>, c0: seq<int>, c1: seq<int>, pos: seq<nat>, c: nat, r: int)
    requires AreChains(mem, c0, c1) && Ready(mem, w, c0, c1, pos, c + 1)
    requires AreChains(mem, c0[c := c1[c]], c1) && SameOn(mem, mem', Live(mem, c0[c := c1[c]], c1, 0))
    ensures Ready(mem', w, c0[c := c1[c]], c1[c := r], pos, c)
    ensures IsChain(mem, c1[c], c + 1) && SameOn(mem, mem', Nodes(mem, c1[c], c + 1))
    ensures Live(mem, c0[c := c1[c]], c1, c + 1) == Live(mem, c0, c1, c + 1)
    ensures SameOn(mem, mem', Live(mem, c0, c1, c + 1))
    ensures c > 0 ==> IsChain(mem, c1[c - 1], c) && SameOn(mem, mem', Nodes(mem, c1[c - 1], c))
  {
    hide ListState;
    hide SameOn;
    hide Live;
    hide Nodes;
    var c0' := c0[c := c1[c]];
    var s := Live(mem, c0', c1, 0);
    assert Ready(mem, w, c0', c1, pos, c);
    ReadyFrame(mem, mem', w, c0', c1, pos, c);
    LiveContains(mem, c0', c1, 0, c);
    SameOnSubset(mem, mem', Nodes(mem, c1[c], c + 1), s);
    LiveMove(mem, c0, c1, c);
    LiveShrinks(mem, c0', c1, 0, c + 1);
    SameOnSubset(mem, mem', Live(mem, c0, c1, c + 1), s);
    if c > 0 {
      LiveContains(mem, c0', c1, 0, c - 1);
      SameOnSubset(mem, mem', Nodes(mem, c1[c - 1], c), s);
    }
  }

  /** The tail of list `c`'s last chain, and the last chain of the list before, are in use. */
  lemma TailsLive(mem: seq<Node>, c0: seq<int>, c1: seq<int>, c: nat)
    requires AreChains(mem, c0, c1) && c < |c0| && 0 <= c1[c] < |mem|
    ensures AreChains(mem, c0[c := c1[c]], c1)
    ensures IsChain(mem, mem[c1[c]].tail, c)
    ensures Nodes(mem, mem[c1[c]].tail, c) <= Live(mem, c0[c := c1[c]], c1, 0)
    ensures c > 0 ==> IsChain(mem, c1[c - 1], c) && Nodes(mem, c1[c - 1], c) <= Live(mem, c0[c := c1[c]], c1, 0)
  {
    hide Live;
    assert IsChain(mem, c1[c], c + 1);
    var c0' := c0[c := c1[c]];
    LiveContains(mem, c0', c1, 0, c);
    assert Nodes(mem, mem[c1[c]].tail, c) <= Nodes(mem, c1[c], c + 1);
    if c > 0 {
      LiveContains(mem, c0', c1, 0, c - 1);
    }
  }

  /** The next item of list `c` is a leaf. */
  method MergeLeaf(lists: Lists, leaves: seq<Leaf>, c: nat, lastindex: nat, tail: int, ghost pos: seq<nat>)
    requires lists.Valid() && c < lists.chains0.Length
    requires Ready(lists.memory[..], Weights(leaves), lists.chains0[..], lists.chains1[..], pos, c + 1)
    requires 0 <= lists.chains1[c] < lists.memory.Length
    requires lastindex == lists.memory[lists.chains1[c]].index < |leaves| && tail == lists.memory[lists.chains1[c]].tail
    requires c > 0 ==> lastindex <= pos[c] && TakesLeaf(Weights(leaves), Packages(Weights(leaves), c), lastindex, pos[c] - lastindex)
    modifies lists`numfree, lists`nextfree, lists.memory, lists.freelist, lists.chains0, lists.chains1
    ensures lists.Valid()
    ensures lists.chains0[c + 1..] == old(lists.chains0[c + 1..]) && lists.chains1[c + 1..] == old(lists.chains1[c + 1..])
    ensures lists.LiveNodes(c + 1) == old(lists.LiveNodes(c + 1))
    ensures SameOn(old(lists.memory[..]), lists.memory[..], lists.LiveNodes(c + 1))
    ensures ListState(lists.memory[..], Weights(leaves), lists.chains0[c], lists.chains1[c], c, pos[c] + 1)
    ensures Ready(lists.memory[..], Weights(leaves), lists.chains0[..], lists.chains1[..], pos[c := pos[c] + 1], c + 1)
  {
    hide ListState;
    hide Ready;
    hide IsChain;
    hide Nodes;
    hide Live;
    hide SameOn;
    hide FreeFrom;
    hide TakesLeaf;
    hide Packages;
    ghost var mem, c0, c1, w := lists.memory[..], lists.chains0[..], lists.chains1[..], Weights(leaves);
    StateOf(mem, w, c0, c1, pos, c + 1, c);
    TailsLive(mem, c0, c1, c);
    Advance(lists, c, leaves[lastindex].weight, lastindex + 1, tail);
    ghost var mem', r := lists.memory[..], lists.chains1[c];
    OthersKept(mem, mem', w, c0, c1, pos, c, r);
    StepLeaf(mem, mem', w, c0[c], c1[c], r, c, pos[c]);
    ReadyExtend(mem', w, c0[c := c1[c]], c1[c := r], pos, pos[c := pos[c] + 1], c);
  }

  /** The next item of list `c` is the pair that list c - 1 offers. */
  method MergePackage(lists: Lists, leaves: seq<Leaf>, c: nat, lastindex: nat, sum: int, ghost pos: seq<nat>)
    requires lists.Valid() && 0 < c < lists.chains0.Length
    requires Sorted(Weights(leaves)) && Positive(Weights(leaves))
    requires Ready(lists.memory[..], Weights(leaves), lists.chains0[..], lists.chains1[..], pos, c + 1)
    requires 0 <= lists.chains1[c] < lists.memory.Length && lastindex == lists.memory[lists.chains1[c]].index
    requires 0 <= lists.chains0[c - 1] < lists.memory.Length && 0 <= lists.chains1[c - 1] < lists.memory.Length
    requires sum == lists.memory[lists.chains0[c - 1]].weight + lists.memory[lists.chains1[c - 1]].weight
    requires lastindex >= |leaves| || sum <= leaves[lastindex].weight
    modifies lists`numfree, lists`nextfree, lists.memory, lists.freelist, lists.chains0, lists.chains1
    ensures lists.Valid()
    ensures lists.chains0[c + 1..] == old(lists.chains0[c + 1..]) && lists.chains1[c + 1..] == old(lists.chains1[c + 1..])
    ensures lists.LiveNodes(c + 1) == old(lists.LiveNodes(c + 1))
    ensures SameOn(old(lists.memory[..]), lists.memory[..], lists.LiveNodes(c + 1))
    ensures ListState(lists.memory[..], Weights(leaves), lists.chains0[c], lists.chains1[c], c, pos[c] + 1)
    ensures 0 <= lists.chains1[c] < lists.memory.Length && lists.memory[lists.chains1[c]].index == lastindex
    ensures Ready(lists.memory[..], Weights(leaves), lists.chains0[..], lists.chains1[..], pos, c)
  {
    hide ListState;
    hide Ready;
    hide IsChain;
    hide Nodes;
    hide Live;
    hide SameOn;
    hide FreeFrom;
    ghost var mem, c0, c1, w := lists.memory[..], lists.chains0[..], lists.chains1[..], Weights(leaves);
    StateOf(mem, w, c0, c1, pos, c + 1, c);
    StateOf(mem, w, c0, c1, pos, c + 1, c - 1);
    IndexBound(mem, w, c0[c], c1[c], c, pos[c]);
    TailsLive(mem, c0, c1, c);
    Advance(lists, c, sum, lastindex, lists.chains1[c - 1]);
    ghost var mem', r := lists.memory[..], lists.chains1[c];
    OthersKept(mem, mem', w, c0, c1, pos, c, r);
    StepPackage(mem, mem', w, c0[c], c1[c], c0[c - 1], c1[c - 1], r, c, pos[c]);
  }

  /** A list that the extension of the lists before it kept. */
  lemma ListKept(mem: seq<Node>, mem': seq<Node>, w: seq<int>, c0: seq<int>, c1: seq<int>, c0': seq<int>, c1': seq<int>, c: nat, k: nat)
    requires AreChains(mem, c0, c1) && AreChains(mem', c0', c1') && c < |c0| == |c0'|
    requires c0[c..] == c0'[c..] && c1[c..] == c1'[c..]
    requires SameOn(mem, mem', Live(mem, c0, c1, c))
    requires ListState(mem, w, c0[c], c1[c], c, k)
    ensures c0'[c] == c0[c] && c1'[c] == c1[c]
    ensures 0 <= c1[c] < |mem| && |mem| == |mem'| && mem'[c1[c]].index == mem[c1[c]].index
    ensures ListState(mem', w, c0'[c], c1'[c], c, k)
    ensures Live(mem, c0, c1, c + 1) <= Live(mem, c0, c1, c)
    ensures c0[c + 1..] == c0'[c + 1..] && c1[c + 1..] == c1'[c + 1..]
  {
    hide ListState;
    hide SameOn;
    hide Nodes;
    hide Live;
    assert c0[c] == c0[c..][0] == c0'[c..][0] && c1[c] == c1[c..][0] == c1'[c..][0];
    assert c0[c + 1..] == c0[c..][1..] && c1[c + 1..] == c1[c..][1..];
    assert c0'[c + 1..] == c0'[c..][1..] && c1'[c + 1..] == c1'[c..][1..];
    LiveContains(mem, c0, c1, c, c);
    LiveShrinks(mem, c0, c1, c, c + 1);
    SameOnSubset(mem, mem', Nodes(mem, c0[c], c + 1), Live(mem, c0, c1, c));
    SameOnSubset(mem, mem', Nodes(mem, c1[c], c + 1), Live(mem, c0, c1, c));
    ListStateFrame(mem, mem', w, c0[c], c1[c], c, k);
  }

  lemma TailOfFirst(mem: seq<Node>, c0: seq<int>, c1: seq<int>)
    requires AreChains(mem, c0, c1) && c0 != [] && 0 <= c1[0] < |mem|
    ensures mem[c1[0]].tail == NULL
  {
    assert IsChain(mem, c1[0], 0 + 1);
  }

  /** An extension of the lists before `c`, as list `c` sees it. */
  lemma ListsKept(mem: seq<Node>, mem': seq<Node>, c0: seq<int>, c1: seq<int>, c0': seq<int>, c1': seq<int>, c: nat)
    requires AreChains(mem, c0, c1) && AreChains(mem', c0', c1') && c < |c0| == |c0'|
    requires c0[c..] == c0'[c..] && c1[c..] == c1'[c..]
    requires SameOn(mem, mem', Live(mem, c0, c1, c))
    ensures SameOn(mem, mem', Live(mem, c0, c1, c + 1))
    ensures Live(mem', c0', c1', c + 1) == Live(mem, c0, c1, c + 1)
  {
    hide Live;
    hide SameOn;
    hide IsChain;
    SuffixStep(c0, c0', c);
    SuffixStep(c1, c1', c);
    LiveShrinks(mem, c0, c1, c, c + 1);
    SameOnSubset(mem, mem', Live(mem, c0, c1, c + 1), Live(mem, c0, c1, c));
    LiveFrame(mem, mem', c0, c1, c0', c1', c + 1);
  }

  /** Two items more for list c - 1, which is what a package takes from it. */
  method ExtendPrevious(lists: Lists, leaves: seq<Leaf>, c: nat, num: nat, ghost pos: seq<nat>, ghost k: nat) returns (ghost pos': seq<nat>)
    requires lists.Valid() && 0 < c < lists.chains0.Length
    requires |leaves| >= 2 && Sorted(Weights(leaves)) && Positive(Weights(leaves))
    requires num + 1 < 2 * |leaves| - 2
    requires Ready(lists.memory[..], Weights(leaves), lists.chains0[..], lists.chains1[..], pos, c)
    requires ListState(lists.memory[..], Weights(leaves), lists.chains0[c], lists.chains1[c], c, k)
    requires 0 <= lists.chains1[c] < lists.memory.Length
    modifies lists`numfree, lists`nextfree, lists.memory, lists.freelist, lists.chains0, lists.chains1
    ensures lists.Valid()
    ensures lists.chains0[c..] == old(lists.chains0[c..]) && lists.chains1[c..] == old(lists.chains1[c..])
    ensures lists.LiveNodes(c + 1) == old(lists.LiveNodes(c + 1))
    ensures SameOn(old(lists.memory[..]), lists.memory[..], lists.LiveNodes(c + 1))
    ensures Ready(lists.memory[..], Weights(leaves), lists.chains0[..], lists.chains1[..], pos', c)
    ensures |pos'| == |pos| && pos'[c - 1] == pos[c - 1] + 2 && pos'[c..] == pos[c..]
    ensures ListState(lists.memory[..], Weights(leaves), lists.chains0[c], lists.chains1[c], c, k)
    ensures 0 <= lists.chains1[c] < lists.memory.Length
    ensures lists.memory[lists.chains1[c]].index == old(lists.memory[lists.chains1[c]].index)
    decreases c, 0
  {
    hide ListState;
    hide Ready;
    hide IsChain;
    hide Nodes;
    hide Live;
    hide SameOn;
    hide FreeFrom;
    ghost var mem1, d0, d1, w := lists.memory[..], lists.chains0[..], lists.chains1[..], Weights(leaves);
    ghost var pos1 := BoundaryPM(lists, leaves, c - 1, num, pos);
    ghost var mem2, e0, e1 := lists.memory[..], lists.chains0[..], lists.chains1[..];
    ListKept(mem1, mem2, w, d0, d1, e0, e1, c, k);
    ListsKept(mem1, mem2, d0, d1, e0, e1, c);
    pos' := BoundaryPM(lists, leaves, c - 1, num, pos1);
    ghost var mem3, f0, f1 := lists.memory[..], lists.chains0[..], lists.chains1[..];
    ListKept(mem2, mem3, w, e0, e1, f0, f1, c, k);
    ListsKept(mem2, mem3, e0, e1, f0, f1, c);
    SameOnTransitive(mem1, mem2, mem3, lists.LiveNodes(c + 1));
  }

  /** The first list takes its next leaf, if there is one. */
  method ExtendFirst(lists: Lists, leaves: seq<Leaf>, lastindex: nat, ghost pos: seq<nat>)
    requires lists.Valid() && |leaves| >= 2 && Positive(Weights(leaves))
    requires Ready(lists.memory[..], Weights(leaves), lists.chains0[..], lists.chains1[..], pos, 1)
    requires 0 <= lists.chains1[0] < lists.memory.Length && lastindex == lists.memory[lists.chains1[0]].index
    modifies lists`numfree, lists`nextfree, lists.memory, lists.freelist, lists.chains0, lists.chains1
    ensures lists.Valid()
    ensures lists.chains0[1..] == old(lists.chains0[1..]) && lists.chains1[1..] == old(lists.chains1[1..])
    ensures lists.LiveNodes(1) == old(lists.LiveNodes(1))
    ensures SameOn(old(lists.memory[..]), lists.memory[..], lists.LiveNodes(1))
    ensures |pos| > 0 && ListState(lists.memory[..], Weights(leaves), lists.chains0[0], lists.chains1[0], 0, pos[0] + 1)
    ensures Ready(lists.memory[..], Weights(leaves), lists.chains0[..], lists.chains1[..], pos[0 := pos[0] + 1], 1)
  {
    hide ListState;
    hide Ready;
    hide IsChain;
    hide Nodes;
    hide Live;
    hide SameOn;
    hide FreeFrom;
    hide Positive;
    ghost var mem, c0, c1, w := lists.memory[..], lists.chains0[..], lists.chains1[..], Weights(leaves);
    StateOf(mem, w, c0, c1, pos, 1, 0);
    if lastindex >= |leaves| {
      SameOnReflexive(mem, lists.LiveNodes(1));
      StepNothing(mem, w, c0[0], c1[0], pos[0]);
      ReadyExtend(mem, w, c0, c1, pos, pos[0 := pos[0] + 1], 0);
      return;
    }
    TailOfFirst(mem, c0, c1);
    MergeLeaf(lists, leaves, 0, lastindex, NULL, pos);
  }

  /** Takes a package, and brings the list that it came from two items further if that is still needed. */
  method TakePackage(lists: Lists, leaves: seq<Leaf>, c: nat, num: nat, lastindex: nat, sum: int, ghost pos: seq<nat>) returns (ghost pos': seq<nat>)
    requires lists.Valid() && 0 < c < lists.chains0.Length
    requires |leaves| >= 2 && Sorted(Weights(leaves)) && Positive(Weights(leaves))
    requires Ready(lists.memory[..], Weights(leaves), lists.chains0[..], lists.chains1[..], pos, c + 1)
    requires 0 <= lists.chains1[c] < lists.memory.Length && lastindex == lists.memory[lists.chains1[c]].index
    requires 0 <= lists.chains0[c - 1] < lists.memory.Length && 0 <= lists.chains1[c - 1] < lists.memory.Length
    requires sum == lists.memory[lists.chains0[c - 1]].weight + lists.memory[lists.chains1[c - 1]].weight
    requires lastindex >= |leaves| || sum <= leaves[lastindex].weight
    modifies lists`numfree, lists`nextfree, lists.memory, lists.freelist, lists.chains0, lists.chains1
    ensures lists.Valid()
    ensures lists.chains0[c + 1..] == old(lists.chains0[c + 1..]) && lists.chains1[c + 1..] == old(lists.chains1[c + 1..])
    ensures lists.LiveNodes(c + 1) == old(lists.LiveNodes(c + 1))
    ensures SameOn(old(lists.memory[..]), lists.memory[..], lists.LiveNodes(c + 1))
    ensures |pos'| == |pos| && pos'[c] == pos[c] + 1 && pos'[c + 1..] == pos[c + 1..]
    ensures ListState(lists.memory[..], Weights(leaves), lists.chains0[c], lists.chains1[c], c, pos'[c])
    ensures num + 1 < 2 * |leaves| - 2 ==>
      Ready(lists.memory[..], Weights(leaves), lists.chains0[..], lists.chains1[..], pos', c + 1)
    decreases c, 1
  {
    hide ListState;
    hide Ready;
    hide IsChain;
    hide Nodes;
    hide Live;
    hide SameOn;
    hide FreeFrom;
    hide Sorted;
    hide Positive;
    ghost var mem, w := lists.memory[..], Weights(leaves);
    StateOf(mem, w, lists.chains0[..], lists.chains1[..], pos, c + 1, c);
    pos' := pos[c := pos[c] + 1];
    MergePackage(lists, leaves, c, lastindex, sum, pos);
    if num + 1 < 2 * |leaves| - 2 {
      ghost var mem1, c0', c1' := lists.memory[..], lists.chains0[..], lists.chains1[..];
      ghost var pos2 := ExtendPrevious(lists, leaves, c, num, pos, pos[c] + 1);
      pos' := pos2[c := pos[c] + 1];
      SameRest(lists.chains0[..], c0', c, c + 1);
      SameRest(lists.chains1[..], c1', c, c + 1);
      SameRest(pos2, pos, c, c + 1);
      SameRest(pos', pos2, c + 1, c + 1);
      SameOnTransitive(mem, mem1, lists.memory[..], lists.LiveNodes(c + 1));
      ReadyExtend(lists.memory[..], w, lists.chains0[..], lists.chains1[..], pos2, pos', c);
    }
  }

  /** Extends list `c` by one item, and the lists before it by what that takes from them. The lists after
      it are not touched. In the last call for the whole (`num`) the lists before are left behind. */
  method BoundaryPM(lists: Lists, leaves: seq<Leaf>, c: nat, num: nat, ghost pos: seq<nat>) returns (ghost pos': seq<nat>)
    requires lists.Valid() && c < lists.chains0.Length
    requires |leaves| >= 2 && Sorted(Weights(leaves)) && Positive(Weights(leaves))
    requires Ready(lists.memory[..], Weights(leaves), lists.chains0[..], lists.chains1[..], pos, c + 1)
    modifies lists`numfree, lists`nextfree, lists.memory, lists.freelist, lists.chains0, lists.chains1
    ensures lists.Valid()
    ensures lists.chains0[c + 1..] == old(lists.chains0[c + 1..]) && lists.chains1[c + 1..] == old(lists.chains1[c + 1..])
    ensures lists.LiveNodes(c + 1) == old(lists.LiveNodes(c + 1))
    ensures SameOn(old(lists.memory[..]), lists.memory[..], lists.LiveNodes(c + 1))
    ensures |pos'| == |pos| && pos'[c] == pos[c] + 1 && pos'[c + 1..] == pos[c + 1..]
    ensures ListState(lists.memory[..], Weights(leaves), lists.chains0[c], lists.chains1[c], c, pos'[c])
    ensures num + 1 < 2 * |leaves| - 2 ==>
      Ready(lists.memory[..], Weights(leaves), lists.chains0[..], lists.chains1[..], pos', c + 1)
    decreases c, 2
  {
    hide ListState;
    hide Ready;
    hide IsChain;
    hide Nodes;
    hide Live;
    hide SameOn;
    hide FreeFrom;
    hide Sorted;
    hide Positive;
    ghost var mem, c0, c1, w := lists.memory[..], lists.chains0[..], lists.chains1[..], Weights(leaves);
    StateOf(mem, w, c0, c1, pos, c + 1, c);
    IndexBound(mem, w, c0[c], c1[c], c, pos[c]);
    var lastindex := lists.memory[lists.chains1[c]].index;
    pos' := pos[c := pos[c] + 1];
    if c == 0 {
      ExtendFirst(lists, leaves, lastindex, pos);
    } else {
      StateOf(mem, w, c0, c1, pos, c + 1, c - 1);
      var sum := lists.memory[lists.chains0[c - 1]].weight + lists.memory[lists.chains1[c - 1]].weight;
      if lastindex < |leaves| && sum > leaves[lastindex].weight {
        PairWeight(mem, w, c0[c - 1], c1[c - 1], c, pos[c] - lastindex);
        MergeLeaf(lists, leaves, c, lastindex, lists.memory[lists.chains1[c]].tail, pos);
        return;
      }
      pos' := TakePackage(lists, leaves, c, num, lastindex, sum, pos);
    }
  }
}
