/** The node pool of the boundary package-merge algorithm: chains of nodes that share tails, allocated
    from a fixed block of memory, and collected when the free list runs out. A pointer is an index into
    the block. */
module NodePool {
  import opened Wrappers

  datatype Node = Node(weight: int, index: nat, tail: int, inUse: bool)

  const NULL: int := -1

  /** `p` leads to NULL in at most `d` steps. */
  predicate IsChain(mem: seq<Node>, p: int, d: nat)
    decreases d
  {
    p == NULL || (d > 0 && 0 <= p < |mem| && IsChain(mem, mem[p].tail, d - 1))
  }

  function Nodes(mem: seq<Node>, p: int, d: nat): (s: set<int>)
    requires IsChain(mem, p, d)
    ensures |s| <= d
    ensures forall i :: i in s ==> 0 <= i < |mem|
    decreases d
  {
    if p == NULL then {} else {p} + Nodes(mem, mem[p].tail, d - 1)
  }

  /** The chains of list `c` take at most c + 1 nodes each. */
  predicate AreChains(mem: seq<Node>, chains0: seq<int>, chains1: seq<int>) {
    |chains0| == |chains1|
    && forall c :: 0 <= c < |chains0| ==> IsChain(mem, chains0[c], c + 1) && IsChain(mem, chains1[c], c + 1)
  }

  /** The nodes in use by list `c` and the lists after it. */
  function Live(mem: seq<Node>, chains0: seq<int>, chains1: seq<int>, c: nat): (s: set<int>)
    requires AreChains(mem, chains0, chains1) && c <= |chains0|
    ensures forall i :: i in s ==> 0 <= i < |mem|
    decreases |chains0| - c
  {
    if c == |chains0| then {}
    else Nodes(mem, chains0[c], c + 1) + Nodes(mem, chains1[c], c + 1) + Live(mem, chains0, chains1, c + 1)
  }

  /** n (n + 1): what the 2 n chains of `n` lists take at most. */
  function Room(n: nat): nat {
    if n == 0 then 0 else Room(n - 1) + 2 * n
  }

  lemma {:induction false} RoomIsProduct(n: nat)
    ensures Room(n) == n * (n + 1)
  {
    if n > 0 {
      RoomIsProduct(n - 1);
      assert n * (n + 1) == (n - 1) * n + 2 * n;
    }
  }

  predicate SameNode(m: Node, n: Node) {
    m.weight == n.weight && m.index == n.index && m.tail == n.tail
  }

  predicate SameOn(mem: seq<Node>, mem': seq<Node>, s: set<int>) {
    |mem| == |mem'| && forall i :: i in s && 0 <= i < |mem| ==> SameNode(mem[i], mem'[i])
  }

  predicate SameMemory(mem: seq<Node>, mem': seq<Node>) {
    |mem| == |mem'| && forall i :: 0 <= i < |mem| ==> SameNode(mem[i], mem'[i])
  }

  predicate Distinct(s: seq<int>) {
    forall i, j :: 0 <= i < j < |s| ==> s[i] != s[j]
  }

  /** The free list names memory that is not in use, no cell of it twice. */
  predicate FreeFrom(free: seq<int>, n: nat, s: set<int>) {
    Distinct(free) && forall i :: 0 <= i < |free| ==> 0 <= free[i] < n && free[i] !in s
  }

  predicate Marks(mem: seq<Node>, s: set<int>) {
    forall i :: 0 <= i < |mem| ==> (mem[i].inUse <==> i in s)
  }

  // ---------------------------------------------------------------------------------------------
  // Chains depend on their own nodes only
  // ---------------------------------------------------------------------------------------------

  lemma {:induction false} NodesFrame(mem: seq<Node>, mem': seq<Node>, p: int, d: nat)
    requires IsChain(mem, p, d) && SameOn(mem, mem', Nodes(mem, p, d))
    ensures IsChain(mem', p, d) && Nodes(mem', p, d) == Nodes(mem, p, d)
    decreases d
  {
    if p != NULL {
      assert p in Nodes(mem, p, d);
      NodesFrame(mem, mem', mem[p].tail, d - 1);
    }
  }

  lemma SameTransitive(mem: seq<Node>, mem': seq<Node>, mem'': seq<Node>)
    requires SameMemory(mem, mem') && SameMemory(mem', mem'')
    ensures SameMemory(mem, mem'')
  {
  }

  lemma SameReflexive(mem: seq<Node>)
    ensures SameMemory(mem, mem)
  {
  }

  lemma NodesOfSame(mem: seq<Node>, mem': seq<Node>, p: int, d: nat)
    requires IsChain(mem, p, d) && SameMemory(mem, mem')
    ensures IsChain(mem', p, d) && Nodes(mem', p, d) == Nodes(mem, p, d)
  {
    NodesFrame(mem, mem', p, d);
  }

  lemma RoomPositive(n: nat)
    requires n > 0
    ensures Room(n) > 0
  {
  }

  lemma SameOnSubset(mem: seq<Node>, mem': seq<Node>, s: set<int>, t: set<int>)
    requires SameOn(mem, mem', t) && s <= t
    ensures SameOn(mem, mem', s)
  {
  }

  lemma {:induction false} LiveContains(mem: seq<Node>, chains0: seq<int>, chains1: seq<int>, c: nat, d: nat)
    requires AreChains(mem, chains0, chains1) && c <= d < |chains0|
    ensures Nodes(mem, chains0[d], d + 1) <= Live(mem, chains0, chains1, c)
    ensures Nodes(mem, chains1[d], d + 1) <= Live(mem, chains0, chains1, c)
    decreases d - c
  {
    if c < d {
      LiveContains(mem, chains0, chains1, c + 1, d);
    }
  }

  lemma {:induction false} LiveShrinks(mem: seq<Node>, chains0: seq<int>, chains1: seq<int>, c: nat, d: nat)
    requires AreChains(mem, chains0, chains1) && c <= d <= |chains0|
    ensures Live(mem, chains0, chains1, d) <= Live(mem, chains0, chains1, c)
    decreases d - c
  {
    if c < d {
      LiveShrinks(mem, chains0, chains1, c + 1, d);
    }
  }

  /** The live nodes of the lists from `c` on depend on those lists' chains and nodes only. */
  lemma {:induction false} LiveFrame(mem: seq<Node>, mem': seq<Node>, c0: seq<int>, c1: seq<int>, c0': seq<int>, c1': seq<int>, c: nat)
    requires AreChains(mem, c0, c1) && AreChains(mem', c0', c1') && c <= |c0| == |c0'|
    requires c0[c..] == c0'[c..] && c1[c..] == c1'[c..]
    requires SameOn(mem, mem', Live(mem, c0, c1, c))
    ensures Live(mem', c0', c1', c) == Live(mem, c0, c1, c)
    decreases |c0| - c
  {
    if c < |c0| {
      hide Nodes;
      hide IsChain;
      hide SameOn;
      SuffixStep(c0, c0', c);
      SuffixStep(c1, c1', c);
      var s := Live(mem, c0, c1, c);
      SameOnSubset(mem, mem', Live(mem, c0, c1, c + 1), s);
      SameOnSubset(mem, mem', Nodes(mem, c0[c], c + 1), s);
      SameOnSubset(mem, mem', Nodes(mem, c1[c], c + 1), s);
      LiveFrame(mem, mem', c0, c1, c0', c1', c + 1);
      NodesFrame(mem, mem', c0[c], c + 1);
      NodesFrame(mem, mem', c1[c], c + 1);
    }
  }

  lemma SuffixStep(s: seq<int>, t: seq<int>, c: nat)
    requires c < |s| == |t| && s[c..] == t[c..]
    ensures s[c] == t[c] && s[c + 1..] == t[c + 1..]
  {
    assert s[c] == s[c..][0] && t[c] == t[c..][0];
    assert s[c + 1..] == s[c..][1..] && t[c + 1..] == t[c..][1..];
  }

  lemma ChainsFrame(mem: seq<Node>, mem': seq<Node>, chains0: seq<int>, chains1: seq<int>)
    requires AreChains(mem, chains0, chains1)
    requires SameOn(mem, mem', Live(mem, chains0, chains1, 0))
    ensures AreChains(mem', chains0, chains1)
    ensures Live(mem', chains0, chains1, 0) == Live(mem, chains0, chains1, 0)
  {
    hide IsChain;
    hide Nodes;
    hide Live;
    forall c | 0 <= c < |chains0|
      ensures IsChain(mem', chains0[c], c + 1) && IsChain(mem', chains1[c], c + 1)
    {
      LiveContains(mem, chains0, chains1, 0, c);
      NodesFrame(mem, mem', chains0[c], c + 1);
      NodesFrame(mem, mem', chains1[c], c + 1);
    }
    LiveFrame(mem, mem', chains0, chains1, chains0, chains1, 0);
  }

  /** The live nodes number at most L (L + 1), half the pool. */
  lemma {:induction false} LiveCount(mem: seq<Node>, chains0: seq<int>, chains1: seq<int>, c: nat)
    requires AreChains(mem, chains0, chains1) && c <= |chains0|
    ensures |Live(mem, chains0, chains1, c)| <= Room(|chains0|) - Room(c)
    decreases |chains0| - c
  {
    if c < |chains0| {
      LiveCount(mem, chains0, chains1, c + 1);
      var a, b := Nodes(mem, chains0[c], c + 1), Nodes(mem, chains1[c], c + 1);
      var r := Live(mem, chains0, chains1, c + 1);
      UnionCount(a, b);
      UnionCount(a + b, r);
    }
  }

  /** Taking the first cell off the free list and storing a node there. */
  lemma FreePop(free: seq<int>, n: nat, s: set<int>)
    requires FreeFrom(free, n, s) && free != []
    ensures 0 <= free[0] < n && free[0] !in s
    ensures FreeFrom(free[1..], n, s + {free[0]})
  {
  }

  lemma StoreFresh(mem: seq<Node>, r: int, node: Node, d: nat, chains0: seq<int>, chains1: seq<int>)
    requires AreChains(mem, chains0, chains1) && 0 <= r < |mem| && r !in Live(mem, chains0, chains1, 0)
    requires IsChain(mem, node.tail, d) && Nodes(mem, node.tail, d) <= Live(mem, chains0, chains1, 0)
    ensures AreChains(mem[r := node], chains0, chains1)
    ensures Live(mem[r := node], chains0, chains1, 0) == Live(mem, chains0, chains1, 0)
    ensures IsChain(mem[r := node], r, d + 1)
    ensures Nodes(mem[r := node], r, d + 1) <= Live(mem, chains0, chains1, 0) + {r}
  {
    var mem' := mem[r := node];
    ChainsFrame(mem, mem', chains0, chains1);
    NodesFrame(mem, mem', node.tail, d);
  }

  lemma UnionCount(a: set<int>, b: set<int>)
    ensures |a + b| <= |a| + |b|
  {
    assert a + b == a + (b - a);
    assert |b - a| <= |b| by { SubsetSize(b - a, b); }
  }

  /** After list `c` gets new chains, the live nodes are old ones or those of the new chains. */
  lemma {:induction false} LiveUpdate(mem: seq<Node>, c0: seq<int>, c1: seq<int>, c0': seq<int>, c1': seq<int>, c: nat, d: nat, s: set<int>)
    requires AreChains(mem, c0, c1) && AreChains(mem, c0', c1') && |c0| == |c0'| && c < |c0| && d <= |c0|
    requires forall i :: 0 <= i < |c0| && i != c ==> c0[i] == c0'[i] && c1[i] == c1'[i]
    requires Live(mem, c0, c1, d) <= s
    requires Nodes(mem, c0'[c], c + 1) <= s && Nodes(mem, c1'[c], c + 1) <= s
    ensures Live(mem, c0', c1', d) <= s
    ensures d > c ==> Live(mem, c0', c1', d) == Live(mem, c0, c1, d)
    decreases |c0| - d
  {
    if d < |c0| {
      LiveUpdate(mem, c0, c1, c0', c1', c, d + 1, s);
    }
  }

  lemma SingleNode(mem: seq<Node>, p: int, d: nat)
    requires 0 <= p < |mem| && mem[p].tail == NULL && d > 0
    ensures IsChain(mem, p, d) && Nodes(mem, p, d) == {p}
  {
    assert IsChain(mem, NULL, d - 1) && Nodes(mem, NULL, d - 1) == {};
  }

  lemma {:induction false} InitialChains(mem: seq<Node>, c0: seq<int>, c1: seq<int>, c: nat)
    requires AreChains(mem, c0, c1) && c <= |c0|
    requires |mem| >= 2 && mem[0].tail == NULL && mem[1].tail == NULL
    requires forall i :: 0 <= i < |c0| ==> c0[i] == 0 && c1[i] == 1
    ensures Live(mem, c0, c1, c) <= {0, 1}
    decreases |c0| - c
  {
    if c < |c0| {
      InitialChains(mem, c0, c1, c + 1);
      SingleNode(mem, 0, c + 1);
      SingleNode(mem, 1, c + 1);
    }
  }

  lemma InitialPool(mem: seq<Node>, free: seq<int>, c0: seq<int>, c1: seq<int>)
    requires |mem| == |free| >= 2 && mem[0].tail == NULL && mem[1].tail == NULL && |c0| == |c1|
    requires forall i :: 0 <= i < |c0| ==> c0[i] == 0 && c1[i] == 1
    requires forall i :: 0 <= i < |free| ==> free[i] == i
    ensures AreChains(mem, c0, c1) && FreeFrom(free[2..], |mem|, Live(mem, c0, c1, 0))
  {
    forall c | 0 <= c < |c0|
      ensures IsChain(mem, c0[c], c + 1) && IsChain(mem, c1[c], c + 1)
    {
      SingleNode(mem, 0, c + 1);
      SingleNode(mem, 1, c + 1);
    }
    InitialChains(mem, c0, c1, 0);
  }

  // ---------------------------------------------------------------------------------------------
  // The pool
  // ---------------------------------------------------------------------------------------------

  lemma ChainNode(mem: seq<Node>, p: int, d: nat)
    requires IsChain(mem, p, d) && p != NULL
    ensures 0 <= p < |mem| && d > 0 && IsChain(mem, mem[p].tail, d - 1)
    ensures Nodes(mem, p, d) == {p} + Nodes(mem, mem[p].tail, d - 1)
  {
  }

  lemma NoNodes(mem: seq<Node>, d: nat)
    requires IsChain(mem, NULL, d)
    ensures Nodes(mem, NULL, d) == {}
  {
  }

  /** Marks the nodes of one chain. */
  method MarkChain(memory: array<Node>, p: int, ghost d: nat, ghost s: set<int>)
    requires IsChain(memory[..], p, d) && Marks(memory[..], s)
    modifies memory
    ensures SameMemory(old(memory[..]), memory[..])
    ensures Marks(memory[..], s + Nodes(old(memory[..]), p, d))
  {
    hide IsChain;
    hide Nodes;
    ghost var mem := memory[..];
    var node := p;
    ghost var e: nat, m := d, s;
    while node != NULL
      invariant e <= d && IsChain(mem, node, e)
      invariant SameMemory(mem, memory[..]) && Marks(memory[..], m)
      invariant m + Nodes(mem, node, e) == s + Nodes(mem, p, d)
      decreases e
    {
      ChainNode(mem, node, e);
      memory[node] := memory[node].(inUse := true);
      m := m + {node};
      node := memory[node].tail;
      e := e - 1;
    }
    NoNodes(mem, e);
  }

  class Lists {
    var memory: array<Node>
    var numfree: nat
    var nextfree: nat
    var freelist: array<int>
    var chains0: array<int>
    var chains1: array<int>

    ghost predicate Shaped()
      reads this
    {
      && freelist != chains0 && freelist != chains1 && chains0 != chains1
      && chains0.Length == chains1.Length > 0
      && memory.Length == freelist.Length == 2 * Room(chains0.Length)
      && nextfree <= numfree <= memory.Length
    }

    ghost predicate Valid()
      reads this, memory, freelist, chains0, chains1
    {
      && Shaped()
      && AreChains(memory[..], chains0[..], chains1[..])
      && FreeFrom(freelist[nextfree..numfree], memory.Length, LiveNodes(0))
    }

    /** A pool for `listsize` lists. The first two nodes are taken before there are any chains; every list
        starts with both. */
    constructor (listsize: nat, first: Node, second: Node)
      requires listsize > 0 && first.tail == NULL && second.tail == NULL
      ensures Valid() && fresh(memory) && fresh(freelist) && fresh(chains0) && fresh(chains1)
      ensures chains0.Length == listsize && SameNode(memory[0], first) && SameNode(memory[1], second)
      ensures forall i :: 0 <= i < listsize ==> chains0[i] == 0 && chains1[i] == 1
    {
      hide IsChain;
      hide Nodes;
      hide Room;
      hide AreChains;
      hide Live;
      hide FreeFrom;
      RoomPositive(listsize);
      var n := 2 * Room(listsize);
      var nodes := new Node[n](_ => Node(0, 0, NULL, false));
      var free := new int[n](i => i);
      nodes[free[0]] := first;
      nodes[free[1]] := second;
      var c0 := new int[listsize](_ => 0);
      var c1 := new int[listsize](_ => 1);
      memory, freelist, chains0, chains1 := nodes, free, c0, c1;
      nextfree, numfree := 2, n;
      InitialPool(nodes[..], free[..], c0[..], c1[..]);
      assert free[2..n] == free[..][2..];
    }

    ghost function LiveNodes(c: nat): set<int>
      reads this, memory, chains0, chains1
      requires AreChains(memory[..], chains0[..], chains1[..]) && c <= chains0.Length
    {
      Live(memory[..], chains0[..], chains1[..], c)
    }

    /** Marks what the chains reach and puts everything else on the free list. At least half of the pool
        comes free. */
    method Collect()
      requires Valid()
      modifies memory, freelist, this`numfree, this`nextfree
      ensures Valid() && SameMemory(old(memory[..]), memory[..])
      ensures LiveNodes(0) == old(LiveNodes(0))
      ensures nextfree == 0 && numfree >= Room(chains0.Length)
      ensures forall i :: 0 <= i < memory.Length ==> (i in LiveNodes(0) <==> i !in freelist[..numfree])
    {
      hide IsChain;
      hide Nodes;
      hide Live;
      hide Marks;
      hide FreeFrom;
      hide Room;
      ghost var mem := memory[..];
      LiveCount(mem, chains0[..], chains1[..], 0);
      Unmark();
      ChainsFrame(mem, memory[..], chains0[..], chains1[..]);
      ghost var mem' := memory[..];
      Mark();
      ChainsFrame(mem', memory[..], chains0[..], chains1[..]);
      Sweep(LiveNodes(0));
      assert freelist[nextfree..numfree] == freelist[..numfree];
    }

    method Unmark()
      requires Shaped()
      modifies memory
      ensures SameMemory(old(memory[..]), memory[..]) && Marks(memory[..], {})
    {
      ghost var mem := memory[..];
      for i := 0 to memory.Length
        invariant SameMemory(mem, memory[..]) && Marks(memory[..i], {})
      {
        memory[i] := memory[i].(inUse := false);
      }
      assert memory[..] == memory[..memory.Length];
    }

    method Mark()
      requires Shaped() && AreChains(memory[..], chains0[..], chains1[..]) && Marks(memory[..], {})
      modifies memory
      ensures SameMemory(old(memory[..]), memory[..])
      ensures Marks(memory[..], old(LiveNodes(0)))
    {
      hide IsChain;
      hide Nodes;
      hide SameMemory;
      hide Marks;
      ghost var mem, c0, c1 := memory[..], chains0[..], chains1[..];
      SameReflexive(mem);
      ghost var s: set<int> := {};
      for i := 0 to chains0.Length
        invariant SameMemory(mem, memory[..]) && Marks(memory[..], s)
        invariant s + Live(mem, c0, c1, i) == Live(mem, c0, c1, 0)
      {
        ghost var before := memory[..];
        NodesOfSame(mem, before, c0[i], i + 1);
        MarkChain(memory, chains0[i], i + 1, s);
        ghost var between := memory[..];
        SameTransitive(mem, before, between);
        NodesOfSame(mem, between, c1[i], i + 1);
        MarkChain(memory, chains1[i], i + 1, s + Nodes(mem, c0[i], i + 1));
        SameTransitive(mem, between, memory[..]);
        s := s + Nodes(mem, c0[i], i + 1) + Nodes(mem, c1[i], i + 1);
      }
    }

    method Sweep(ghost live: set<int>)
      requires Shaped() && Marks(memory[..], live)
      modifies freelist, this`numfree, this`nextfree
      ensures nextfree == 0 && numfree + |live| >= memory.Length && numfree <= memory.Length
      ensures FreeFrom(freelist[..numfree], memory.Length, live)
      ensures forall i :: 0 <= i < memory.Length ==> (i in live <==> i !in freelist[..numfree])
    {
      numfree := 0;
      ghost var used: set<int> := {};
      for i := 0 to memory.Length
        invariant numfree <= i && numfree + |used| == i && used <= live
        invariant forall k :: k in used ==> 0 <= k < i
        invariant FreeFrom(freelist[..numfree], i, live)
        invariant forall k :: 0 <= k < i ==> (k in live <==> k !in freelist[..numfree])
      {
        if !memory[i].inUse {
          freelist[numfree] := i;
          numfree := numfree + 1;
          assert freelist[..numfree] == freelist[..numfree - 1] + [i];
        } else {
          used := used + {i};
        }
      }
      nextfree := 0;
      SubsetSize(used, live);
    }

    /** Takes a node from the pool, collecting first if none is left. The node is not one that any chain
        uses, and no chain changes. */
    method Create(weight: int, index: nat, tail: int, ghost d: nat) returns (r: int)
      requires Valid()
      requires IsChain(memory[..], tail, d) && Nodes(memory[..], tail, d) <= LiveNodes(0)
      modifies this`numfree, this`nextfree, memory, freelist
      ensures Shaped() && AreChains(memory[..], chains0[..], chains1[..])
      ensures LiveNodes(0) == old(LiveNodes(0)) && SameOn(old(memory[..]), memory[..], LiveNodes(0))
      ensures 0 <= r < memory.Length && r !in LiveNodes(0)
      ensures SameNode(memory[r], Node(weight, index, tail, false))
      ensures IsChain(memory[..], r, d + 1)
      ensures Nodes(memory[..], r, d + 1) <= LiveNodes(0) + {r}
      ensures FreeFrom(freelist[nextfree..numfree], memory.Length, LiveNodes(0) + {r})
    {
      hide Live;
      hide FreeFrom;
      hide IsChain;
      hide Nodes;
      hide Room;
      ghost var mem := memory[..];
      if nextfree >= numfree {
        assert Room(chains0.Length) > 0 by { RoomPositive(chains0.Length); }
        Collect();
        NodesFrame(mem, memory[..], tail, d);
      }
      ghost var mem', free := memory[..], freelist[nextfree..numfree];
      FreePop(free, memory.Length, LiveNodes(0));
      r := freelist[nextfree];
      nextfree := nextfree + 1;
      assert freelist[nextfree..numfree] == free[1..];
      StoreFresh(mem', r, Node(weight, index, tail, mem'[r].inUse), d, chains0[..], chains1[..]);
      memory[r] := Node(weight, index, tail, memory[r].inUse);
      assert memory[..] == mem'[r := Node(weight, index, tail, mem'[r].inUse)];
    }
  }
}
