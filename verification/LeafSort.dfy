/** The stable merge sort of the leaves, bottom up and with a second buffer. */
module LeafSort {
  import opened BoundaryPackageMerge

  /** By weight, and by symbol among leaves of equal weight: the order a stable sort leaves. */
  predicate Before(x: Leaf, y: Leaf) {
    x.weight < y.weight || (x.weight == y.weight && x.index < y.index)
  }

  predicate Ordered(s: seq<Leaf>) {
    forall i, j :: 0 <= i < j < |s| ==> Before(s[i], s[j])
  }

  predicate IndexBelow(s: seq<Leaf>, t: seq<Leaf>) {
    forall i, j :: 0 <= i < |s| && 0 <= j < |t| ==> s[i].index < t[j].index
  }

  function MergeTwo(s: seq<Leaf>, t: seq<Leaf>): (m: seq<Leaf>)
    ensures |m| == |s| + |t|
  {
    if s == [] then t
    else if t == [] then s
    else if s[0].weight <= t[0].weight then [s[0]] + MergeTwo(s[1..], t)
    else [t[0]] + MergeTwo(s, t[1..])
  }

  function Least(x: nat, y: nat): nat {
    if x < y then x else y
  }

  /** Merges every two runs of `width` leaves into one. */
  function MergePass(s: seq<Leaf>, width: nat): (m: seq<Leaf>)
    requires width > 0
    ensures |m| == |s|
  {
    if s == [] then []
    else
      var q, r := Least(width, |s|), Least(2 * width, |s|);
      MergeTwo(s[..q], s[q..r]) + MergePass(s[r..], width)
  }

  /** Runs of `width` leaves, each in order and of symbols before those of the rest. */
  predicate Runs(s: seq<Leaf>, width: nat)
    requires width > 0
  {
    s == [] ||
    var q := Least(width, |s|);
    Ordered(s[..q]) && IndexBelow(s[..q], s[q..]) && Runs(s[q..], width)
  }

  lemma {:induction false} MergeTwoMultiset(s: seq<Leaf>, t: seq<Leaf>)
    ensures multiset(MergeTwo(s, t)) == multiset(s) + multiset(t)
  {
    if s == [] || t == [] {
      assert s == [] ==> MergeTwo(s, t) == t;
      assert t == [] ==> MergeTwo(s, t) == s;
    } else if s[0].weight <= t[0].weight {
      MergeTwoMultiset(s[1..], t);
      ConsMultiset(s);
      ConsMultiset(MergeTwo(s, t));
      assert MergeTwo(s, t)[1..] == MergeTwo(s[1..], t);
    } else {
      MergeTwoMultiset(s, t[1..]);
      ConsMultiset(t);
      ConsMultiset(MergeTwo(s, t));
      assert MergeTwo(s, t)[1..] == MergeTwo(s, t[1..]);
    }
  }

  lemma ConsMultiset(s: seq<Leaf>)
    requires s != []
    ensures multiset(s) == multiset{s[0]} + multiset(s[1..])
  {
    assert s == [s[0]] + s[1..];
  }

  lemma MergeTwoElements(s: seq<Leaf>, t: seq<Leaf>)
    ensures multiset(MergeTwo(s, t)) == multiset(s) + multiset(t)
    ensures forall i :: 0 <= i < |s| + |t| ==> MergeTwo(s, t)[i] in s || MergeTwo(s, t)[i] in t
  {
    hide MergeTwo;
    MergeTwoMultiset(s, t);
    forall i | 0 <= i < |s| + |t|
      ensures MergeTwo(s, t)[i] in s || MergeTwo(s, t)[i] in t
    {
      assert MergeTwo(s, t)[i] in multiset(MergeTwo(s, t));
    }
  }

  lemma {:induction false} MergeTwoOrdered(s: seq<Leaf>, t: seq<Leaf>)
    requires Ordered(s) && Ordered(t) && IndexBelow(s, t)
    ensures Ordered(MergeTwo(s, t))
  {
    if s != [] && t != [] {
      if s[0].weight <= t[0].weight {
        MergeTwoOrdered(s[1..], t);
        MergeTwoElements(s[1..], t);
        assert forall x :: x in s[1..] || x in t ==> Before(s[0], x);
      } else {
        MergeTwoOrdered(s, t[1..]);
        MergeTwoElements(s, t[1..]);
        assert forall x :: x in s || x in t[1..] ==> Before(t[0], x);
      }
    }
  }

  lemma MergeTwoBelow(s: seq<Leaf>, t: seq<Leaf>, u: seq<Leaf>)
    requires IndexBelow(s, u) && IndexBelow(t, u)
    ensures IndexBelow(MergeTwo(s, t), u)
  {
    MergeTwoElements(s, t);
    forall i, j | 0 <= i < |s| + |t| && 0 <= j < |u|
      ensures MergeTwo(s, t)[i].index < u[j].index
    {
      var x := MergeTwo(s, t)[i];
      assert x in s || x in t;
    }
  }

  lemma BelowMembers(s: seq<Leaf>, t: seq<Leaf>, u: seq<Leaf>)
    requires IndexBelow(s, t) && multiset(t) == multiset(u)
    ensures IndexBelow(s, u)
  {
    forall i, j | 0 <= i < |s| && 0 <= j < |u|
      ensures s[i].index < u[j].index
    {
      assert u[j] in multiset(u);
      assert u[j] in multiset(t);
      assert u[j] in t;
    }
  }

  lemma PassUnfold(s: seq<Leaf>, width: nat, q: nat, r: nat)
    requires width > 0 && s != [] && q == Least(width, |s|) && r == Least(2 * width, |s|)
    ensures MergePass(s, width) == MergeTwo(s[..q], s[q..r]) + MergePass(s[r..], width)
  {
    hide MergeTwo;
  }

  lemma NothingMerged(width: nat)
    requires width > 0
    ensures MergePass([], width) == []
  {
  }

  lemma Thirds(s: seq<Leaf>, q: nat, r: nat)
    requires q <= r <= |s|
    ensures multiset(s) == multiset(s[..q]) + multiset(s[q..r]) + multiset(s[r..])
  {
    assert s == s[..q] + s[q..r] + s[r..];
  }

  lemma Part(s: seq<Leaf>, p: nat, q: nat, r: nat)
    requires p <= q <= r <= |s|
    ensures s[p..][q - p..r - p] == s[q..r] && s[p..][r - p..] == s[r..] && s[p..][..q - p] == s[p..q] && s[..r][p..q] == s[p..q]
  {
  }

  lemma {:induction false} MergePassElements(s: seq<Leaf>, width: nat)
    requires width > 0
    ensures multiset(MergePass(s, width)) == multiset(s)
  {
    hide MergeTwo;
    hide MergePass;
    if s == [] {
      NothingMerged(width);
    } else {
      var q, r := Least(width, |s|), Least(2 * width, |s|);
      MergePassElements(s[r..], width);
      MergeTwoElements(s[..q], s[q..r]);
      PassUnfold(s, width, q, r);
      Thirds(s, q, r);
    }
  }

  lemma {:induction false} MergePassRuns(s: seq<Leaf>, width: nat)
    requires width > 0 && Runs(s, width)
    ensures Runs(MergePass(s, width), 2 * width)
  {
    if s != [] {
      var q, r := Least(width, |s|), Least(2 * width, |s|);
      TwoRuns(s, width);
      MergePassRuns(s[r..], width);
      MergePassElements(s[r..], width);
      var x, y := MergeTwo(s[..q], s[q..r]), MergePass(s[r..], width);
      MergeTwoOrdered(s[..q], s[q..r]);
      MergeTwoBelow(s[..q], s[q..r], s[r..]);
      BelowMembers(x, s[r..], y);
      var m := MergePass(s, width);
      assert m[..r] == x && m[r..] == y;
    }
  }

  lemma FirstRun(s: seq<Leaf>, width: nat, q: nat)
    requires width > 0 && s != [] && Runs(s, width) && q == Least(width, |s|)
    ensures Ordered(s[..q]) && IndexBelow(s[..q], s[q..]) && Runs(s[q..], width)
  {
    hide Ordered;
    hide IndexBelow;
  }

  lemma TwoRuns(s: seq<Leaf>, width: nat)
    requires width > 0 && s != [] && Runs(s, width)
    ensures var q, r := Least(width, |s|), Least(2 * width, |s|);
      && Ordered(s[..q]) && Ordered(s[q..r]) && IndexBelow(s[..q], s[q..r])
      && IndexBelow(s[..q], s[r..]) && IndexBelow(s[q..r], s[r..]) && Runs(s[r..], width)
  {
    hide Ordered;
    hide IndexBelow;
    hide Runs;
    var q, r := Least(width, |s|), Least(2 * width, |s|);
    var t := s[q..];
    FirstRun(s, width, q);
    Part(s, q, q, r);
    Part(s, q, r, |s|);
    BelowParts(s[..q], t, r - q);
    if t != [] {
      FirstRun(t, width, r - q);
    } else {
      NothingIsOrdered(t, s[..q]);
    }
  }

  lemma NothingIsOrdered(t: seq<Leaf>, s: seq<Leaf>)
    requires t == []
    ensures Ordered(t) && IndexBelow(s, t) && IndexBelow(t, t)
  {
  }

  lemma BelowParts(s: seq<Leaf>, t: seq<Leaf>, k: nat)
    requires IndexBelow(s, t) && k <= |t|
    ensures IndexBelow(s, t[..k]) && IndexBelow(s, t[k..])
  {
  }

  lemma {:induction false} SingleRuns(s: seq<Leaf>)
    requires forall i, j :: 0 <= i < j < |s| ==> s[i].index < s[j].index
    ensures Runs(s, 1)
  {
    if s != [] {
      SingleRuns(s[1..]);
    }
  }

  lemma MergeTwoStep(s: seq<Leaf>, t: seq<Leaf>, s': seq<Leaf>, t': seq<Leaf>, before: seq<Leaf>, x: Leaf)
    requires s != [] || t != []
    requires if s != [] && (t == [] || s[0].weight <= t[0].weight) then x == s[0] && s' == s[1..] && t' == t
             else x == t[0] && s' == s && t' == t[1..]
    ensures before + [x] + MergeTwo(s', t') == before + MergeTwo(s, t)
  {
    assert [x] + MergeTwo(s', t') == MergeTwo(s, t);
    assert before + [x] + MergeTwo(s', t') == before + ([x] + MergeTwo(s', t'));
  }

  /** Merges the runs a[p..q] and a[q..r] into b[p..r]. */
  method MergeRuns(a: array<Leaf>, b: array<Leaf>, p: nat, q: nat, r: nat)
    requires a != b && p <= q <= r <= a.Length && r <= b.Length
    modifies b
    ensures b[p..r] == MergeTwo(a[p..q], a[q..r])
    ensures b[..p] == old(b[..p]) && b[r..] == old(b[r..])
  {
    hide MergeTwo;
    var i, j := p, q;
    ghost var all := MergeTwo(a[p..q], a[q..r]);
    for k := p to r
      invariant p <= i <= q <= j <= r && i - p + j - q == k - p
      invariant b[p..k] + MergeTwo(a[i..q], a[j..r]) == all
      invariant b[..p] == old(b[..p]) && b[r..] == old(b[r..])
    {
      ghost var s, t, before := a[i..q], a[j..r], b[p..k];
      if i < q && (j >= r || a[i].weight <= a[j].weight) {
        b[k] := a[i];
        i := i + 1;
        assert s[1..] == a[i..q];
      } else {
        b[k] := a[j];
        j := j + 1;
        assert t[1..] == a[j..r];
      }
      MergeTwoStep(s, t, a[i..q], a[j..r], before, b[k]);
      assert b[p..k + 1] == before + [b[k]];
    }
    assert a[i..q] == [] && a[j..r] == [];
    assert MergeTwo([], []) == [];
  }

  method Pass(a: array<Leaf>, b: array<Leaf>, num: nat, width: nat)
    requires a != b && num <= a.Length && num <= b.Length && width > 0
    modifies b
    ensures b[..num] == MergePass(a[..num], width)
    ensures b[num..] == old(b[num..])
  {
    hide MergeTwo;
    hide MergePass;
    var p := 0;
    while p < num
      invariant p <= num
      invariant b[..p] + MergePass(a[..num][p..], width) == MergePass(a[..num], width)
      invariant b[num..] == old(b[num..])
    {
      var q := if p + width > num then num else p + width;
      var r := if p + 2 * width > num then num else p + 2 * width;
      ghost var before := b[..p];
      MergePassStep(a[..num], p, q, r, width, before);
      Part(a[..], p, q, num);
      Part(a[..], q, r, num);
      MergeRuns(a, b, p, q, r);
      assert b[..r] == before + MergeTwo(a[p..q], a[q..r]);
      assert b[num..] == b[r..][num - r..];
      p := r;
    }
    assert a[..num][num..] == [];
    NothingMerged(width);
  }

  lemma Regroup(x: seq<Leaf>, y: seq<Leaf>, z: seq<Leaf>)
    ensures x + y + z == x + (y + z)
  {
  }

  lemma MergePassStep(s: seq<Leaf>, p: nat, q: nat, r: nat, width: nat, before: seq<Leaf>)
    requires width > 0 && p < |s| && q == (if p + width > |s| then |s| else p + width) && r == if p + 2 * width > |s| then |s| else p + 2 * width
    ensures before + MergeTwo(s[p..q], s[q..r]) + MergePass(s[r..], width) == before + MergePass(s[p..], width)
  {
    hide MergeTwo;
    hide MergePass;
    var t := s[p..];
    Part(s, p, q, r);
    PassUnfold(t, width, q - p, r - p);
    Regroup(before, MergeTwo(s[p..q], s[q..r]), MergePass(s[r..], width));
  }

  /** Sorts the first `num` leaves by weight, in place. Leaves of equal weight keep their order. */
  method Sort(leaves: array<Leaf>, num: nat)
    requires num <= leaves.Length
    requires forall i, j :: 0 <= i < j < num ==> leaves[i].index < leaves[j].index
    modifies leaves
    ensures Ordered(leaves[..num])
    ensures multiset(leaves[..num]) == multiset(old(leaves[..num]))
    ensures leaves[num..] == old(leaves[num..])
  {
    hide Runs;
    hide MergePass;
    hide MergeTwo;
    var mem := new Leaf[num](_ => Leaf(0, 0));
    var width, odd := 1, false;
    SingleRuns(leaves[..num]);
    while width < num
      invariant width > 0
      invariant Runs((if odd then mem else leaves)[..num], width)
      invariant multiset((if odd then mem else leaves)[..num]) == multiset(old(leaves[..num]))
      invariant leaves[num..] == old(leaves[num..])
      decreases num - width
    {
      var a, b := if odd then mem else leaves, if odd then leaves else mem;
      MergePassRuns(a[..num], width);
      MergePassElements(a[..num], width);
      Pass(a, b, num, width);
      width := 2 * width;
      odd := !odd;
    }
    ghost var s := (if odd then mem else leaves)[..num];
    OneRun(s, width);
    if odd {
      CopyBack(leaves, mem, num);
    }
  }

  lemma OneRun(s: seq<Leaf>, width: nat)
    requires |s| <= width && width > 0 && Runs(s, width)
    ensures Ordered(s)
  {
    assert s[..Least(width, |s|)] == s;
  }

  method CopyBack(leaves: array<Leaf>, mem: array<Leaf>, num: nat)
    requires leaves != mem && num <= leaves.Length && num <= mem.Length
    modifies leaves
    ensures leaves[..num] == mem[..num] && leaves[num..] == old(leaves[num..])
  {
    for i := 0 to num
      invariant leaves[..i] == mem[..i] && leaves[num..] == old(leaves[num..])
    {
      leaves[i] := mem[i];
    }
  }
}
