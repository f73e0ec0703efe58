/** The tree that finds colours: one level for each bit of the channels red, green and blue. It counts the
    colours of an image and gives the palette index of a colour. Nodes are numbered in the order in which
    they are allocated; a child is the number of a node. */
module ColorTree {
  import opened Bits
  import opened Wrappers

  datatype Color = Color(r: byte, g: byte, b: byte, a: byte)

  const NONE := -1

  datatype Node = Node(children: seq<int>, index: int)

  const EMPTY := Node([NONE, NONE, NONE, NONE, NONE, NONE, NONE, NONE], -1)

  /** The child taken at the level of a bit. Alpha has no part in it. */
  function Branch(c: Color, bit: nat): (i: nat)
    ensures i < 8
  {
    4 * (Shr(c.r, bit) % 2) + 2 * (Shr(c.g, bit) % 2) + Shr(c.b, bit) % 2
  }

  predicate IsPath(p: seq<nat>) {
    forall k :: 0 <= k < |p| ==> p[k] < 8
  }

  /** The way from the root to a colour. */
  function Path(c: Color): (p: seq<nat>)
    ensures |p| == 8 && IsPath(p)
  {
    seq(8, k requires 0 <= k < 8 => Branch(c, k))
  }

  method BranchOf(c: Color, bit: nat) returns (i: nat)
    ensures i == Branch(c, bit) < 8
  {
    hide Shr;
    assert Pow2(1) == 2;
    BitAndMask(Shr(c.r, bit), 1);
    BitAndMask(Shr(c.g, bit), 1);
    BitAndMask(Shr(c.b, bit), 1);
    LowIsMod(Shr(c.r, bit), 1);
    LowIsMod(Shr(c.g, bit), 1);
    LowIsMod(Shr(c.b, bit), 1);
    i := 4 * BitAnd(Shr(c.r, bit), 1) + 2 * BitAnd(Shr(c.g, bit), 1) + BitAnd(Shr(c.b, bit), 1);
  }

  predicate SameRgb(c: Color, d: Color) {
    c.r == d.r && c.g == d.g && c.b == d.b
  }

  lemma {:induction false} SameBits(x: nat, y: nat, n: nat)
    requires x < Pow2(n) && y < Pow2(n) && forall k: nat :: k < n ==> Shr(x, k) % 2 == Shr(y, k) % 2
    ensures x == y
  {
    if n > 0 {
      assert Shr(x, 0) % 2 == Shr(y, 0) % 2;
      forall k: nat | k < n - 1
        ensures Shr(x / 2, k) % 2 == Shr(y / 2, k) % 2
      {
        var j := k + 1;
        assert Shr(x, j) % 2 == Shr(y, j) % 2;
      }
      SameBits(x / 2, y / 2, n - 1);
    }
  }

  lemma PathAt(c: Color, bit: nat)
    requires bit < 8
    ensures Path(c)[bit] == Branch(c, bit)
  {
  }

  /** Colours are on one path exactly when they differ in nothing but alpha. */
  lemma PathOfRgb(c: Color, d: Color)
    ensures Path(c) == Path(d) <==> SameRgb(c, d)
  {
    hide Shr;
    assert Pow2(8) == 256;
    if Path(c) == Path(d) {
      forall k: nat | k < 8
        ensures Shr(c.r, k) % 2 == Shr(d.r, k) % 2 && Shr(c.g, k) % 2 == Shr(d.g, k) % 2 && Shr(c.b, k) % 2 == Shr(d.b, k) % 2
      {
        assert Path(c)[k] == Path(d)[k];
      }
      SameBits(c.r, d.r, 8);
      SameBits(c.g, d.g, 8);
      SameBits(c.b, d.b, 8);
    } else if SameRgb(c, d) {
      assert forall k :: 0 <= k < 8 ==> Path(c)[k] == Path(d)[k];
    }
  }

  // ---------------------------------------------------------------------------------------------
  // Nodes
  // ---------------------------------------------------------------------------------------------

  predicate NodeOk(nodes: seq<Node>, names: seq<seq<nat>>, n: nat)
    requires n < |nodes| == |names|
  {
    |nodes[n].children| == 8
    && forall i: nat :: i < 8 && nodes[n].children[i] != NONE ==>
      n < nodes[n].children[i] < |nodes| && names[nodes[n].children[i]] == names[n] + [i]
  }

  /** A tree: every node has the name of the way to it, so that no two ways meet. */
  predicate TreeOk(nodes: seq<Node>, names: seq<seq<nat>>) {
    |nodes| == |names| > 0 && names[0] == [] && forall n :: 0 <= n < |nodes| ==> NodeOk(nodes, names, n)
  }

  /** The node at the end of a path from node `t`. */
  function Follow(nodes: seq<Node>, names: seq<seq<nat>>, t: nat, path: seq<nat>): (n: Option<nat>)
    requires TreeOk(nodes, names) && t < |nodes| && IsPath(path)
    ensures n.Some? ==> n.value < |nodes| && names[n.value] == names[t] + path
    decreases |path|
  {
    if path == [] then Some(t)
    else
      assert NodeOk(nodes, names, t);
      var c := nodes[t].children[path[0]];
      if c == NONE then None else Follow(nodes, names, c, path[1..])
  }

  /** What is stored at the end of a path, -1 for nothing. */
  function IndexAt(nodes: seq<Node>, names: seq<seq<nat>>, path: seq<nat>): int
    requires TreeOk(nodes, names) && IsPath(path)
  {
    match Follow(nodes, names, 0, path)
    case None => -1
    case Some(n) => nodes[n].index
  }

  lemma FollowStep(nodes: seq<Node>, names: seq<seq<nat>>, t: nat, path: seq<nat>, k: nat)
    requires TreeOk(nodes, names) && t < |nodes| && IsPath(path) && k < |path|
    ensures |nodes[t].children| == 8 && var c := nodes[t].children[path[k]];
      (c == NONE || (0 <= c < |nodes| && names[c] == names[t] + [path[k]]))
      && Follow(nodes, names, t, path[k..]) == if c == NONE then None else Follow(nodes, names, c, path[k + 1..])
  {
    assert NodeOk(nodes, names, t);
    assert path[k..][1..] == path[k + 1..];
  }

  lemma FollowNothing(nodes: seq<Node>, names: seq<seq<nat>>, t: nat, path: seq<nat>)
    requires TreeOk(nodes, names) && t < |nodes| && path == []
    ensures Follow(nodes, names, t, path) == Some(t)
  {
  }

  /** One level further. */
  lemma {:induction false} FollowNext(nodes: seq<Node>, names: seq<seq<nat>>, t: nat, path: seq<nat>, i: nat, u: nat)
    requires TreeOk(nodes, names) && t < |nodes| && IsPath(path) && i < 8 && Follow(nodes, names, t, path) == Some(u)
    requires |nodes[u].children| == 8 && nodes[u].children[i] != NONE
    ensures IsPath(path + [i]) && Follow(nodes, names, t, path + [i]) == Some(nodes[u].children[i])
    decreases |path|
  {
    assert NodeOk(nodes, names, u) && NodeOk(nodes, names, t);
    if path == [] {
      assert path + [i] == [i] && [i][1..] == [];
    } else {
      FollowNext(nodes, names, nodes[t].children[path[0]], path[1..], i, u);
      assert (path + [i])[1..] == path[1..] + [i];
    }
  }

  lemma NodeOkAt(nodes: seq<Node>, names: seq<seq<nat>>, t: nat)
    requires TreeOk(nodes, names) && t < |nodes|
    ensures |names| == |nodes| && |nodes[t].children| == 8 && NodeOk(nodes, names, t)
    ensures forall i: nat :: i < 8 && nodes[t].children[i] != NONE ==> 0 <= nodes[t].children[i] < |nodes|
  {
    assert NodeOk(nodes, names, t);
  }

  // ---------------------------------------------------------------------------------------------
  // A new node
  // ---------------------------------------------------------------------------------------------

  function Grown(nodes: seq<Node>, t: nat, i: nat): seq<Node>
    requires t < |nodes| && i < |nodes[t].children|
  {
    nodes[t := nodes[t].(children := nodes[t].children[i := |nodes|])] + [EMPTY]
  }

  lemma GrownOk(nodes: seq<Node>, names: seq<seq<nat>>, t: nat, i: nat)
    requires TreeOk(nodes, names) && t < |nodes| && i < 8 && |nodes[t].children| == 8
    ensures TreeOk(Grown(nodes, t, i), names + [names[t] + [i]])
  {
    var nodes', names' := Grown(nodes, t, i), names + [names[t] + [i]];
    forall n | 0 <= n < |nodes'|
      ensures NodeOk(nodes', names', n)
    {
      if n < |nodes| {
        assert NodeOk(nodes, names, n);
      }
    }
  }

  /** Paths end where they ended, but one that ended nowhere may end at the new node. */
  lemma {:induction false} FollowGrown(nodes: seq<Node>, names: seq<seq<nat>>, t: nat, i: nat, u: nat, path: seq<nat>)
    requires TreeOk(nodes, names) && t < |nodes| && i < 8 && NodeOk(nodes, names, t) && nodes[t].children[i] == NONE
    requires u < |nodes| && IsPath(path) && TreeOk(Grown(nodes, t, i), names + [names[t] + [i]])
    ensures var old', new' := Follow(nodes, names, u, path), Follow(Grown(nodes, t, i), names + [names[t] + [i]], u, path);
      if old'.Some? then new' == old' else new' == None || new' == Some(|nodes|)
    decreases |path|
  {
    if path != [] {
      assert NodeOk(nodes, names, u);
      var c := nodes[u].children[path[0]];
      if u == t && path[0] == i {
        assert Grown(nodes, t, i)[u].children[path[0]] == |nodes|;
        assert path[1..] != [] ==> EMPTY.children[path[1]] == NONE;
      } else {
        assert Grown(nodes, t, i)[u].children[path[0]] == c;
        if c != NONE {
          FollowGrown(nodes, names, t, i, c, path[1..]);
        }
      }
    }
  }

  lemma IndexGrown(nodes: seq<Node>, names: seq<seq<nat>>, t: nat, i: nat)
    requires TreeOk(nodes, names) && t < |nodes| && i < 8 && NodeOk(nodes, names, t) && nodes[t].children[i] == NONE
    requires TreeOk(Grown(nodes, t, i), names + [names[t] + [i]])
    ensures forall path :: IsPath(path) ==> IndexAt(Grown(nodes, t, i), names + [names[t] + [i]], path) == IndexAt(nodes, names, path)
  {
    hide Follow;
    hide TreeOk;
    RootIsThere(nodes, names);
    forall path | IsPath(path)
      ensures IndexAt(Grown(nodes, t, i), names + [names[t] + [i]], path) == IndexAt(nodes, names, path)
    {
      RootIsThere(nodes, names);
      FollowGrown(nodes, names, t, i, 0, path);
    }
  }

  lemma RootIsThere(nodes: seq<Node>, names: seq<seq<nat>>)
    requires TreeOk(nodes, names)
    ensures |nodes| == |names| > 0 && names[0] == []
  {
  }

  // ---------------------------------------------------------------------------------------------
  // A new index
  // ---------------------------------------------------------------------------------------------

  function Marked(nodes: seq<Node>, t: nat, index: int): seq<Node>
    requires t < |nodes|
  {
    nodes[t := nodes[t].(index := index)]
  }

  lemma {:induction false} FollowMarked(nodes: seq<Node>, names: seq<seq<nat>>, t: nat, index: int, u: nat, path: seq<nat>)
    requires TreeOk(nodes, names) && t < |nodes| && u < |nodes| && IsPath(path) && TreeOk(Marked(nodes, t, index), names)
    ensures Follow(Marked(nodes, t, index), names, u, path) == Follow(nodes, names, u, path)
    decreases |path|
  {
    if path != [] {
      assert NodeOk(nodes, names, u);
      var c := nodes[u].children[path[0]];
      if c != NONE {
        FollowMarked(nodes, names, t, index, c, path[1..]);
      }
    }
  }

  lemma MarkedOk(nodes: seq<Node>, names: seq<seq<nat>>, t: nat, index: int)
    requires TreeOk(nodes, names) && t < |nodes|
    ensures TreeOk(Marked(nodes, t, index), names)
  {
    forall n | 0 <= n < |nodes|
      ensures NodeOk(Marked(nodes, t, index), names, n)
    {
      assert NodeOk(nodes, names, n);
    }
  }

  /** Only what is stored at the end of its own path changes. */
  lemma IndexMarked(nodes: seq<Node>, names: seq<seq<nat>>, t: nat, index: int, path: seq<nat>)
    requires TreeOk(nodes, names) && t < |nodes| && TreeOk(Marked(nodes, t, index), names) && IsPath(path)
    requires Follow(nodes, names, 0, path) == Some(t)
    ensures forall q :: IsPath(q) ==>
      IndexAt(Marked(nodes, t, index), names, q) == if q == path then index else IndexAt(nodes, names, q)
  {
    hide Follow;
    forall q | IsPath(q)
      ensures IndexAt(Marked(nodes, t, index), names, q) == if q == path then index else IndexAt(nodes, names, q)
    {
      FollowMarked(nodes, names, t, index, 0, q);
      assert [] + q == q && [] + path == path;
    }
  }

  // ---------------------------------------------------------------------------------------------
  // The tree
  // ---------------------------------------------------------------------------------------------

  class Tree {
    var nodes: seq<Node>
    ghost var names: seq<seq<nat>>

    ghost predicate Valid()
      reads this
    {
      TreeOk(nodes, names)
    }

    /** The index stored for a colour, -1 for none. */
    ghost function Index(c: Color): int
      requires Valid()
      reads this
    {
      IndexAt(nodes, names, Path(c))
    }

    constructor ()
      ensures Valid() && forall c :: Index(c) == -1
    {
      nodes := [EMPTY];
      names := [[]];
    }

    method Get(c: Color) returns (index: int)
      requires Valid()
      ensures index == Index(c)
    {
      hide TreeOk;
      hide Follow;
      ghost var path := Path(c);
      assert path[0..] == path;
      var tree := 0;
      RootIsThere(nodes, names);
      for bit := 0 to 8
        invariant 0 <= tree < |nodes| && Follow(nodes, names, 0, path) == Follow(nodes, names, tree, path[bit..])
      {
        var i := BranchOf(c, bit);
        FollowStep(nodes, names, tree, path, bit);
        if nodes[tree].children[i] == NONE {
          return -1;
        }
        tree := nodes[tree].children[i];
      }
      FollowNothing(nodes, names, tree, path[8..]);
      index := nodes[tree].index;
    }

    /** Stores an index for a colour. Everything else in the tree stays. */
    method Add(c: Color, index: nat)
      requires Valid()
      modifies this
      ensures Valid()
      ensures forall d :: Index(d) == if SameRgb(c, d) then index else old(Index(d))
    {
      hide TreeOk;
      hide NodeOk;
      hide Follow;
      hide IndexAt;
      hide Path;
      ghost var path := Path(c);
      assert path[0..] == path;
      var tree := 0;
      RootIsThere(nodes, names);
      FollowNothing(nodes, names, 0, path[..0]);
      for bit := 0 to 8
        invariant Valid() && 0 <= tree < |nodes| && Follow(nodes, names, 0, path[..bit]) == Some(tree)
        invariant forall q :: IsPath(q) ==> IndexAt(nodes, names, q) == old(IndexAt(nodes, names, q))
      {
        var i := BranchOf(c, bit);
        NodeOkAt(nodes, names, tree);
        if nodes[tree].children[i] == NONE {
          GrownOk(nodes, names, tree, i);
          IndexGrown(nodes, names, tree, i);
          FollowGrown(nodes, names, tree, i, 0, path[..bit]);
          names := names + [names[tree] + [i]];
          nodes := Grown(nodes, tree, i);
          NodeOkAt(nodes, names, tree);
        }
        FollowNext(nodes, names, 0, path[..bit], i, tree);
        assert path[..bit + 1] == path[..bit] + [i] by { PathAt(c, bit); }
        tree := nodes[tree].children[i];
      }
      assert path[..8] == path;
      MarkedOk(nodes, names, tree, index);
      IndexMarked(nodes, names, tree, index, path);
      nodes := Marked(nodes, tree, index);
      forall d
        ensures Index(d) == if SameRgb(c, d) then index else old(Index(d))
      {
        PathOfRgb(c, d);
      }
    }
  }

  // ---------------------------------------------------------------------------------------------
  // Palettes
  // ---------------------------------------------------------------------------------------------

  /** The last place of a colour in a palette, as far as red, green and blue go. */
  function LastIndex(palette: seq<Color>, c: Color): (i: int)
    ensures -1 <= i < |palette| && (i >= 0 ==> SameRgb(palette[i], c))
    ensures forall k :: i < k < |palette| ==> !SameRgb(palette[k], c)
  {
    if palette == [] then -1
    else if SameRgb(palette[|palette| - 1], c) then |palette| - 1
    else LastIndex(palette[..|palette| - 1], c)
  }

  method FillTree(palette: seq<Color>) returns (tree: Tree)
    ensures fresh(tree) && tree.Valid() && forall c :: tree.Index(c) == LastIndex(palette, c)
  {
    tree := new Tree();
    for i := 0 to |palette|
      invariant fresh(tree) && tree.Valid() && forall c :: tree.Index(c) == LastIndex(palette[..i], c)
    {
      tree.Add(palette[i], i);
      assert palette[..i + 1][..i] == palette[..i];
    }
    assert palette[..|palette|] == palette;
  }

  /** The tree has no level for alpha. So looking the colours of a palette up gives them back exactly when
      no two of them differ in alpha only. */
  lemma PaletteLookup(palette: seq<Color>)
    ensures (forall i :: 0 <= i < |palette| ==> LastIndex(palette, palette[i]) >= 0 && palette[LastIndex(palette, palette[i])] == palette[i])
       <==> forall i, j :: 0 <= i < |palette| && 0 <= j < |palette| && SameRgb(palette[i], palette[j]) ==> palette[i].a == palette[j].a
  {
    hide LastIndex;
    if forall i :: 0 <= i < |palette| ==> LastIndex(palette, palette[i]) >= 0 && palette[LastIndex(palette, palette[i])] == palette[i] {
      forall i, j | 0 <= i < |palette| && 0 <= j < |palette| && SameRgb(palette[i], palette[j])
        ensures palette[i].a == palette[j].a
      {
        SameLast(palette, palette[i], palette[j]);
      }
    }
  }

  lemma {:induction false} SameLast(palette: seq<Color>, c: Color, d: Color)
    requires SameRgb(c, d)
    ensures LastIndex(palette, c) == LastIndex(palette, d)
  {
    if palette != [] {
      SameLast(palette[..|palette| - 1], c, d);
    }
  }

  /** Such a pair: the first colour comes back as the second one. */
  lemma AlphaIsLost()
    ensures var palette := [Color(0, 0, 0, 0), Color(0, 0, 0, 255)];
      LastIndex(palette, palette[0]) == 1 && palette[1] != palette[0]
  {
  }
}
