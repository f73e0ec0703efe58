/** Circular hash chains: every position has a key, the head of a key names the latest position with it, and
    each position is linked to the latest one before it with the same key. Only the positions of the last
    window are there, in slots; older links are outdated. */
module HashChains {
  import opened Bits

  // ---------------------------------------------------------------------------------------------
  // Circular positions
  // ---------------------------------------------------------------------------------------------

  function Slot(pos: nat, windowsize: nat): (w: nat)
    requires windowsize > 0
    ensures w < windowsize && w <= pos
  {
    pos % windowsize
  }

  /** Positions less than a window apart have different slots. */
  lemma SlotsDiffer(p: nat, q: nat, windowsize: nat)
    requires windowsize > 0 && p < q < p + windowsize
    ensures Slot(p, windowsize) != Slot(q, windowsize)
  {
    var a, r := p / windowsize, p % windowsize;
    assert p == a * windowsize + r;
    if r + (q - p) < windowsize {
      DivModUnique(q, windowsize, a, r + (q - p));
    } else {
      MulDist(a, 1, windowsize);
      DivModUnique(q, windowsize, a + 1, r + (q - p) - windowsize);
    }
  }

  /** How far the latest position of a slot is before one of slot `wpos`. */
  function OffsetOf(wpos: nat, hashpos: nat, windowsize: nat): nat
    requires wpos < windowsize && hashpos < windowsize
  {
    if hashpos <= wpos then wpos - hashpos else wpos - hashpos + windowsize
  }

  /** The latest position of a slot, when looked at from `pos`. */
  lemma SlotBack(pos: nat, h: nat, windowsize: nat)
    requires windowsize > 0 && h < windowsize && h <= pos
    ensures var offset := OffsetOf(Slot(pos, windowsize), h, windowsize);
      offset <= pos && offset < windowsize && Slot(pos - offset, windowsize) == h
  {
    var w, k := Slot(pos, windowsize), pos / windowsize;
    assert pos == k * windowsize + w;
    if h <= w {
      DivModUnique(pos - (w - h), windowsize, k, h);
    } else {
      if k == 0 {
        assert false;
      }
      MulGe(k, windowsize);
      MulDist(k, -1, windowsize);
      DivModUnique(pos - (w - h + windowsize), windowsize, k - 1, h);
    }
  }

  /** ... and no other position of the window has this slot. */
  lemma OffsetIs(pos: nat, d: nat, windowsize: nat)
    requires 0 < d < windowsize && d <= pos
    ensures OffsetOf(Slot(pos, windowsize), Slot(pos - d, windowsize), windowsize) == d
  {
    var h := Slot(pos - d, windowsize);
    var o := OffsetOf(Slot(pos, windowsize), h, windowsize);
    SlotBack(pos, h, windowsize);
    if o < d {
      SlotsDiffer(pos - d, pos - o, windowsize);
    } else if o > d {
      SlotsDiffer(pos - o, pos - d, windowsize);
    }
  }

  // ---------------------------------------------------------------------------------------------
  // Keys and links
  // ---------------------------------------------------------------------------------------------

  /** The latest of the first `n` positions that has the key `k`, or -1. */
  function Latest(keys: seq<nat>, n: nat, k: nat): (p: int)
    requires n <= |keys|
    ensures -1 <= p < n && (p >= 0 ==> keys[p] == k)
    ensures forall q: nat :: p < q < n ==> keys[q] != k
  {
    if n == 0 then -1 else if keys[n - 1] == k then n - 1 else Latest(keys, n - 1, k)
  }

  lemma {:induction false} LatestOfMore(keys: seq<nat>, more: seq<nat>, n: nat, k: nat)
    requires n <= |keys|
    ensures Latest(keys + more, n, k) == Latest(keys, n, k)
  {
    if n > 0 {
      LatestOfMore(keys, more, n - 1, k);
    }
  }

  /** Heads name the latest position of each key, except that of the last position when it has been forgotten. */
  ghost predicate HeadsLatest(head: seq<int>, keys: seq<nat>, windowsize: nat, forgotten: bool)
    requires windowsize > 0
  {
    forall k: nat :: k < |head| ==> HeadIs(head[k], keys, windowsize, forgotten, k)
  }

  ghost predicate HeadIs(h: int, keys: seq<nat>, windowsize: nat, forgotten: bool, k: nat)
    requires windowsize > 0
  {
    var p := Latest(keys, |keys|, k);
    h == if p < 0 || (forgotten && p == |keys| - 1) then -1 else Slot(p, windowsize)
  }

  /** The keys of the positions in the window are noted in their slots. */
  ghost predicate KeysNoted(vals: seq<int>, keys: seq<nat>, windowsize: nat) {
    && windowsize > 0 && |vals| == windowsize
    && forall p: nat :: p < |keys| <= p + windowsize ==> vals[Slot(p, windowsize)] == keys[p]
  }

  /** Each position in the window is linked to the latest one before it with the same key. */
  ghost predicate LinksLatest(chain: seq<nat>, keys: seq<nat>, windowsize: nat) {
    && windowsize > 0 && |chain| == windowsize
    && forall p: nat :: p < |keys| <= p + windowsize ==> LinkIs(chain, keys, windowsize, p)
  }

  ghost predicate LinkIs(chain: seq<nat>, keys: seq<nat>, windowsize: nat, p: nat)
    requires windowsize > 0 && |chain| == windowsize && p < |keys|
  {
    var q := Latest(keys, p, keys[p]);
    q >= 0 ==> chain[Slot(p, windowsize)] == Slot(q, windowsize)
  }

  ghost predicate Chained(head: seq<int>, chain: seq<nat>, vals: seq<int>, keys: seq<nat>, windowsize: nat, forgotten: bool) {
    && windowsize > 0 && HeadsLatest(head, keys, windowsize, forgotten)
    && KeysNoted(vals, keys, windowsize) && LinksLatest(chain, keys, windowsize)
    && (forall p :: 0 <= p < |keys| ==> keys[p] < |head|) && (forgotten ==> keys != [])
  }

  /** The links when a slot comes before the head, if there is one. */
  function Linked(head: seq<int>, chain: seq<nat>, h: nat, wpos: nat): seq<nat>
    requires h < |head| && head[h] >= -1 && wpos < |chain|
  {
    if head[h] == -1 then chain else chain[wpos := head[h]]
  }

  lemma NothingChained(head: seq<int>, chain: seq<nat>, vals: seq<int>, windowsize: nat)
    requires windowsize > 0 && |chain| == |vals| == windowsize && forall k :: 0 <= k < |head| ==> head[k] == -1
    ensures Chained(head, chain, vals, [], windowsize, false)
  {
  }

  lemma HeadEntered(head: seq<int>, keys: seq<nat>, windowsize: nat, k: nat)
    requires windowsize > 0 && HeadsLatest(head, keys, windowsize, false) && k < |head|
    ensures HeadsLatest(head[k := Slot(|keys|, windowsize)], keys + [k], windowsize, false)
  {
    hide Slot;
    var n := |keys|;
    var after := head[k := Slot(n, windowsize)];
    forall j: nat | j < |after|
      ensures HeadIs(after[j], keys + [k], windowsize, false, j)
    {
      assert HeadIs(head[j], keys, windowsize, false, j);
      LatestOfMore(keys, [k], n, j);
    }
  }

  lemma KeyEntered(vals: seq<int>, keys: seq<nat>, windowsize: nat, k: nat)
    requires KeysNoted(vals, keys, windowsize)
    ensures KeysNoted(vals[Slot(|keys|, windowsize) := k], keys + [k], windowsize)
  {
    hide Slot;
    var n, w := |keys|, Slot(|keys|, windowsize);
    forall p: nat | p < n + 1 <= p + windowsize
      ensures vals[w := k][Slot(p, windowsize)] == (keys + [k])[p]
    {
      if p < n {
        SlotsDiffer(p, n, windowsize);
      }
    }
  }

  lemma LinkEnteredLatest(head: seq<int>, chain: seq<nat>, keys: seq<nat>, windowsize: nat, k: nat)
    requires windowsize > 0 && HeadsLatest(head, keys, windowsize, false) && LinksLatest(chain, keys, windowsize) && k < |head|
    ensures head[k] >= -1 && LinksLatest(Linked(head, chain, k, Slot(|keys|, windowsize)), keys + [k], windowsize)
  {
    hide Slot;
    var n, w := |keys|, Slot(|keys|, windowsize);
    assert HeadIs(head[k], keys, windowsize, false, k);
    var after, more := Linked(head, chain, k, w), keys + [k];
    forall p: nat | p < n + 1 <= p + windowsize
      ensures LinkIs(after, more, windowsize, p)
    {
      LatestOfMore(keys, [k], p, more[p]);
      if p < n {
        SlotsDiffer(p, n, windowsize);
        assert LinkIs(chain, keys, windowsize, p);
      }
    }
  }

  /** A new position. */
  lemma EnterNew(head: seq<int>, chain: seq<nat>, vals: seq<int>, keys: seq<nat>, windowsize: nat, k: nat)
    requires Chained(head, chain, vals, keys, windowsize, false) && k < |head|
    ensures var w := Slot(|keys|, windowsize);
      head[k] >= -1 && Chained(head[k := w], Linked(head, chain, k, w), vals[w := k], keys + [k], windowsize, false)
  {
    hide HeadsLatest;
    hide KeysNoted;
    hide LinksLatest;
    hide Slot;
    HeadEntered(head, keys, windowsize, k);
    KeyEntered(vals, keys, windowsize, k);
    LinkEnteredLatest(head, chain, keys, windowsize, k);
  }

  /** The last position again, after its key has been forgotten: nothing but the head changes. */
  lemma EnterAgain(head: seq<int>, chain: seq<nat>, vals: seq<int>, keys: seq<nat>, windowsize: nat, k: nat)
    requires Chained(head, chain, vals, keys, windowsize, true) && k < |head| && k == keys[|keys| - 1]
    ensures var w := Slot(|keys| - 1, windowsize);
      head[k] == -1 && Chained(head[k := w], Linked(head, chain, k, w), vals[w := k], keys, windowsize, false)
  {
    hide Slot;
    var w := Slot(|keys| - 1, windowsize);
    assert HeadIs(head[k], keys, windowsize, true, k);
    var after := head[k := w];
    forall j: nat | j < |after|
      ensures HeadIs(after[j], keys, windowsize, false, j)
    {
      assert HeadIs(head[j], keys, windowsize, true, j);
    }
    assert vals[w := k] == vals;
  }

  /** A new position, or the last one again. */
  lemma Enter(head: seq<int>, chain: seq<nat>, vals: seq<int>, keys: seq<nat>, windowsize: nat, forgotten: bool, pos: nat, k: nat)
    requires Chained(head, chain, vals, keys, windowsize, forgotten) && k < |head| && |keys| == (if forgotten then pos + 1 else pos)
    requires forgotten ==> k == keys[pos]
    ensures var w := Slot(pos, windowsize);
      head[k] >= -1
      && Chained(head[k := w], Linked(head, chain, k, w), vals[w := k], if forgotten then keys else keys + [k], windowsize, false)
  {
    hide *;
    if forgotten {
      EnterAgain(head, chain, vals, keys, windowsize, k);
    } else {
      EnterNew(head, chain, vals, keys, windowsize, k);
    }
  }

  lemma ForgetLast(head: seq<int>, chain: seq<nat>, vals: seq<int>, keys: seq<nat>, windowsize: nat, k: nat)
    requires Chained(head, chain, vals, keys, windowsize, false) && k < |head| && keys != [] && k == keys[|keys| - 1]
    ensures Chained(head[k := -1], chain, vals, keys, windowsize, true)
  {
    hide Slot;
    var after := head[k := -1];
    forall j: nat | j < |after|
      ensures HeadIs(after[j], keys, windowsize, true, j)
    {
      assert HeadIs(head[j], keys, windowsize, false, j);
    }
  }

  // ---------------------------------------------------------------------------------------------
  // Following a chain
  // ---------------------------------------------------------------------------------------------

  /** All positions with the key `k` that are less than `bound` back have been visited. */
  ghost predicate Covered(keys: seq<nat>, pos: nat, k: nat, bound: nat, visited: seq<nat>)
    requires pos < |keys|
  {
    forall o: nat :: 0 < o < bound && o <= pos && keys[pos - o] == k ==> o in visited
  }

  /** The chain has come to the next position with the key, at offset `o`, or has visited all of those less
      than `limit` back. */
  ghost predicate OnTrack(keys: seq<nat>, pos: nat, k: nat, limit: nat, o: nat, visited: seq<nat>)
    requires pos < |keys|
  {
    || Covered(keys, pos, k, limit, visited)
    || (0 < o < limit && o <= pos && keys[pos - o] == k && Covered(keys, pos, k, o, visited))
  }

  lemma VisitedMore(keys: seq<nat>, pos: nat, k: nat, limit: nat, o: nat, visited: seq<nat>)
    requires pos < |keys| && OnTrack(keys, pos, k, limit, o, visited)
    ensures OnTrack(keys, pos, k, limit, o, visited + [o])
    ensures Covered(keys, pos, k, limit, visited + [o]) || Covered(keys, pos, k, o + 1, visited + [o])
  {
  }

  /** From the position `o` back, whose key is `k`, the link leads to the next one with the key. */
  lemma NextLink(chain: seq<nat>, vals: seq<int>, keys: seq<nat>, windowsize: nat, pos: nat, k: nat, limit: nat, o: nat, visited: seq<nat>)
    requires LinksLatest(chain, keys, windowsize) && KeysNoted(vals, keys, windowsize) && |keys| == pos + 1 && limit <= windowsize
    requires o < windowsize && o <= pos && keys[pos - o] == k && Covered(keys, pos, k, o + 1, visited)
    ensures var h := Slot(pos - o, windowsize);
      var next := chain[h];
      || Covered(keys, pos, k, limit, visited)
      || (next < windowsize && next != h && vals[next] == k
          && var o' := OffsetOf(Slot(pos, windowsize), next, windowsize);
            o < o' && OnTrack(keys, pos, k, limit, o', visited))
  {
    hide Slot;
    var p := pos - o;
    assert LinkIs(chain, keys, windowsize, p);
    var q := Latest(keys, p, k);
    if q >= 0 && pos - q < limit {
      var d := pos - q;
      OffsetIs(pos, d, windowsize);
      SlotsDiffer(q, p, windowsize);
      forall e: nat | 0 < e < d && keys[pos - e] == k
        ensures e in visited
      {
        assert e <= o;
      }
      assert Covered(keys, pos, k, d, visited);
    } else {
      forall e: nat | 0 < e < limit && e <= pos && keys[pos - e] == k
        ensures e in visited
      {
        assert e <= o;
      }
    }
  }
}
