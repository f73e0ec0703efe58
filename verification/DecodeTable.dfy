/** The two-level decoding table. The head has an entry for each value of the first 9 bits. A code of at
    most 9 bits fills every entry whose low bits it is; where longer codes start, the entry points to a
    secondary table for the bits after the ninth. This file says what a table must hold and what follows
    when it is filled symbol by symbol, in particular that an entry is left over exactly when some bit
    sequence has no code. */
module DecodeTable {
  import opened Bits
  import opened Canonical

  const FIRSTBITS: nat := 9
  const HEADSIZE: nat := 512
  const UNUSED: nat := 16
  const INVALIDSYMBOL: nat := 65535

  /** The length lists this library makes trees of. */
  predicate TreeLengths(lens: seq<nat>) {
    Within(lens, MAXBITS) && |lens| <= 288
  }

  /** For each head entry, the length of the longest code of more than 9 bits that starts with it, or 0. */
  ghost predicate MaxLengths(lens: seq<nat>, maxlens: seq<nat>, n: nat) {
    && |maxlens| == HEADSIZE && n <= |lens|
    && (forall h :: 0 <= h < HEADSIZE ==> maxlens[h] == 0 || FIRSTBITS < maxlens[h] <= MAXBITS)
    && (forall s :: 0 <= s < n && lens[s] > FIRSTBITS ==> lens[s] <= maxlens[Prefix(lens, s)])
    && (forall h :: 0 <= h < HEADSIZE && maxlens[h] > 0 ==> HasLong(lens, h))
  }

  /** The head entry that a code of more than 9 bits starts with. */
  function Prefix(lens: seq<nat>, s: nat): (h: nat)
    requires s < |lens|
    ensures h < HEADSIZE
  {
    LowHead(RevCode(lens, s))
  }

  predicate HasLong(lens: seq<nat>, h: nat) {
    exists s :: 0 <= s < |lens| && lens[s] > FIRSTBITS && Prefix(lens, s) == h
  }

  function TableSize(l: nat): nat {
    if l > FIRSTBITS then Pow2(l - FIRSTBITS) else 0
  }

  /** Where the secondary table of head entry `h` starts; for `h` = 512, the size of the whole table. */
  function Start(maxlens: seq<nat>, h: nat): (k: nat)
    requires h <= |maxlens|
    ensures k >= HEADSIZE
  {
    if h == 0 then HEADSIZE else Start(maxlens, h - 1) + TableSize(maxlens[h - 1])
  }

  /** Head entry `h` when the first `n` symbols have been filled in. */
  ghost predicate HeadOk(lens: seq<nat>, maxlens: seq<nat>, tl: seq<nat>, tv: seq<nat>, n: nat, h: nat)
    requires |maxlens| == HEADSIZE <= |tl| == |tv| && h < HEADSIZE && n <= |lens|
  {
    && (maxlens[h] > 0 ==> tl[h] == maxlens[h] && tv[h] == Start(maxlens, h))
    && (maxlens[h] == 0 && tl[h] != UNUSED ==>
          tv[h] < n && tl[h] == lens[tv[h]] <= FIRSTBITS && Matches(lens, tv[h], h))
    && (forall s :: 0 <= s < n && lens[s] <= FIRSTBITS && Matches(lens, s, h) ==>
          maxlens[h] == 0 && tl[h] == lens[s] && tv[h] == s)
  }

  /** The bits that lead to entry `r` of the secondary table of `h`. */
  function Path(h: nat, r: nat): nat {
    h + Shl(r, FIRSTBITS)
  }

  /** Entry `r` of the secondary table of head entry `h`. */
  ghost predicate TailOk(lens: seq<nat>, maxlens: seq<nat>, tl: seq<nat>, tv: seq<nat>, n: nat, h: nat, r: nat)
    requires |maxlens| == HEADSIZE && h < HEADSIZE && n <= |lens|
  {
    var k := Start(maxlens, h) + r;
    && k < |tl| == |tv|
    && (tl[k] != UNUSED ==>
          tv[k] < n && tl[k] == lens[tv[k]] && FIRSTBITS < tl[k] <= maxlens[h] && Matches(lens, tv[k], Path(h, r)))
    && (forall s :: 0 <= s < n && FIRSTBITS < lens[s] <= maxlens[h] && Matches(lens, s, Path(h, r)) ==>
          tl[k] != UNUSED)
  }

  /** The table when the first `n` symbols have been filled in. */
  ghost predicate Filled(lens: seq<nat>, maxlens: seq<nat>, tl: seq<nat>, tv: seq<nat>, n: nat) {
    && TreeLengths(lens) && n <= |lens|
    && MaxLengths(lens, maxlens, |lens|)
    && |tl| == |tv| == Start(maxlens, HEADSIZE)
    && (forall h :: 0 <= h < HEADSIZE ==> HeadOk(lens, maxlens, tl, tv, n, h))
    && (forall h, r :: 0 <= h < HEADSIZE && 0 <= r < TableSize(maxlens[h]) ==>
          TailOk(lens, maxlens, tl, tv, n, h, r))
  }

  /** The head entry that `v` leads to. */
  function LowHead(v: nat): (h: nat)
    ensures h < HEADSIZE
  {
    assert Pow2(9) == 512;
    Low(v, FIRSTBITS)
  }

  /** The symbol and the length that a lookup of `v` finds. */
  function Lookup(tl: seq<nat>, tv: seq<nat>, v: nat): (int, nat)
    requires HEADSIZE <= |tl| == |tv|
  {
    var h := LowHead(v);
    if tl[h] <= FIRSTBITS then (tv[h], tl[h])
    else
      var k := tv[h] + Low(Shr(v, FIRSTBITS), tl[h] - FIRSTBITS);
      if k < |tl| then (tv[k], tl[k]) else (-1, 0)
  }

  ghost predicate NoMatch(lens: seq<nat>, v: nat) {
    forall s: nat :: !Matches(lens, s, v)
  }

  /** Looking `v` up gives the symbol whose code it starts with, or that there is none. */
  ghost predicate LookupOk(lens: seq<nat>, tl: seq<nat>, tv: seq<nat>, v: nat)
    requires HEADSIZE <= |tl| == |tv|
  {
    var (s, l) := Lookup(tl, tv, v);
    && s >= 0
    && (tl[LowHead(v)] > FIRSTBITS ==> l > FIRSTBITS)
    && if s == INVALIDSYMBOL then NoMatch(lens, v)
       else Matches(lens, s, v) && l == lens[s]
  }

  ghost predicate TableOk(lens: seq<nat>, tl: seq<nat>, tv: seq<nat>) {
    && HEADSIZE <= |tl| == |tv|
    && (forall v: nat :: v < Pow2(MAXBITS) ==> LookupOk(lens, tl, tv, v))
    && (forall k :: 0 <= k < |tl| ==> tl[k] <= MAXBITS && tv[k] <= INVALIDSYMBOL)
  }

  // ---------------------------------------------------------------------------------------------
  // Places in the table
  // ---------------------------------------------------------------------------------------------

  lemma {:induction false} StartMono(maxlens: seq<nat>, g: nat, h: nat)
    requires g <= h <= |maxlens|
    ensures Start(maxlens, g) <= Start(maxlens, h)
    ensures g < h ==> Start(maxlens, g) + TableSize(maxlens[g]) <= Start(maxlens, h)
    decreases h
  {
    if g < h {
      StartMono(maxlens, g, h - 1);
    }
  }

  /** The table has at most 33280 entries, so that its pointers fit 16 bits. */
  lemma {:induction false} StartBound(maxlens: seq<nat>, h: nat)
    requires h <= |maxlens| && forall i :: 0 <= i < |maxlens| ==> maxlens[i] <= MAXBITS
    ensures Start(maxlens, h) <= HEADSIZE + 64 * h
  {
    if h > 0 {
      StartBound(maxlens, h - 1);
      if maxlens[h - 1] > FIRSTBITS {
        Pow2Mono(maxlens[h - 1] - FIRSTBITS, 6);
        assert Pow2(6) == 64;
      }
    }
  }

  lemma {:induction false} OwnerOf(maxlens: seq<nat>, k: nat, n: nat) returns (h: nat)
    requires n <= |maxlens| && HEADSIZE <= k < Start(maxlens, n)
    ensures h < n && Start(maxlens, h) <= k < Start(maxlens, h) + TableSize(maxlens[h])
  {
    if k < Start(maxlens, n - 1) {
      h := OwnerOf(maxlens, k, n - 1);
    } else {
      h := n - 1;
    }
  }

  lemma PathParts(h: nat, r: nat)
    requires h < HEADSIZE
    ensures Low(Path(h, r), FIRSTBITS) == h && Shr(Path(h, r), FIRSTBITS) == r
  {
    assert Pow2(9) == 512;
    SplitUnique(h, r, FIRSTBITS);
  }

  /** Codes see only the bits they have. */
  lemma MatchesLow(lens: seq<nat>, s: nat, v: nat, m: nat)
    requires s < |lens| && lens[s] <= m
    ensures Matches(lens, s, v) <==> Matches(lens, s, Low(v, m))
  {
    LowLow(v, lens[s], m);
  }

  lemma LongMatchPrefix(lens: seq<nat>, s: nat, v: nat)
    requires Matches(lens, s, v) && lens[s] > FIRSTBITS
    ensures LowHead(v) == Prefix(lens, s)
  {
    LowLow(v, FIRSTBITS, lens[s]);
  }

  lemma LowOfPath(v: nat, m: nat)
    requires m >= FIRSTBITS
    ensures Low(v, m) == Path(Low(v, FIRSTBITS), Low(Shr(v, FIRSTBITS), m - FIRSTBITS))
  {
    LowAdd(v, FIRSTBITS, m - FIRSTBITS);
  }

  // ---------------------------------------------------------------------------------------------
  // What a filled table says
  // ---------------------------------------------------------------------------------------------

  /** The entry that a lookup of `v` ends at. */
  function EntryOf(maxlens: seq<nat>, v: nat): nat
    requires |maxlens| == HEADSIZE
  {
    var h := LowHead(v);
    if maxlens[h] > FIRSTBITS then Start(maxlens, h) + Low(Shr(v, FIRSTBITS), maxlens[h] - FIRSTBITS) else h
  }

  lemma EntryInTable(maxlens: seq<nat>, v: nat)
    requires |maxlens| == HEADSIZE
    ensures EntryOf(maxlens, v) < Start(maxlens, HEADSIZE)
  {
    StartMono(maxlens, LowHead(v), HEADSIZE);
  }

  lemma HeadAt(lens: seq<nat>, maxlens: seq<nat>, tl: seq<nat>, tv: seq<nat>, n: nat, h: nat)
    requires Filled(lens, maxlens, tl, tv, n) && h < HEADSIZE
    ensures |maxlens| == HEADSIZE <= |tl| == |tv| == Start(maxlens, HEADSIZE) && n <= |lens|
    ensures HeadOk(lens, maxlens, tl, tv, n, h) && TreeLengths(lens)
    ensures maxlens[h] == 0 || FIRSTBITS < maxlens[h] <= MAXBITS
    ensures forall s :: 0 <= s < |lens| && lens[s] > FIRSTBITS && Prefix(lens, s) == h ==> lens[s] <= maxlens[h]
    ensures maxlens[h] > 0 ==> HasLong(lens, h)
  {
  }

  lemma TailAt(lens: seq<nat>, maxlens: seq<nat>, tl: seq<nat>, tv: seq<nat>, n: nat, h: nat, r: nat)
    requires Filled(lens, maxlens, tl, tv, n) && h < HEADSIZE
    requires r < TableSize(maxlens[h])
    ensures |maxlens| == HEADSIZE && n <= |lens|
    ensures TailOk(lens, maxlens, tl, tv, n, h, r)
  {
    hide HeadOk;
    hide TailOk;
    hide Start;
    hide TableSize;
    hide Matches;
  }

  /** An entry in use holds a symbol whose code leads to it. */
  lemma UsedEntry(lens: seq<nat>, maxlens: seq<nat>, tl: seq<nat>, tv: seq<nat>, v: nat)
    requires Filled(lens, maxlens, tl, tv, |lens|)
    requires EntryOf(maxlens, v) < |tl| && tl[EntryOf(maxlens, v)] != UNUSED
    ensures var k := EntryOf(maxlens, v); Matches(lens, tv[k], v) && tv[k] < |lens| && tl[k] == lens[tv[k]]
    ensures var k := EntryOf(maxlens, v); k < HEADSIZE <==> tl[k] <= FIRSTBITS
  {
    hide Filled;
    hide Matches;
    hide Start;
    hide Path;
    hide Shr;
    hide Low;
    var h := LowHead(v);
    HeadAt(lens, maxlens, tl, tv, |lens|, h);
    var m := maxlens[h];
    if m > FIRSTBITS {
      hide HeadOk;
      var r := Low(Shr(v, FIRSTBITS), m - FIRSTBITS);
      TailAt(lens, maxlens, tl, tv, |lens|, h, r);
      LowOfPath(v, m);
      MatchesLow(lens, tv[Start(maxlens, h) + r], v, m);
    } else {
      MatchesLow(lens, tv[h], v, FIRSTBITS);
    }
  }

  /** An unused entry means that no code leads to it. */
  lemma UnusedEntry(lens: seq<nat>, maxlens: seq<nat>, tl: seq<nat>, tv: seq<nat>, v: nat, s: nat)
    requires Filled(lens, maxlens, tl, tv, |lens|)
    requires EntryOf(maxlens, v) < |tl| && tl[EntryOf(maxlens, v)] == UNUSED
    ensures !Matches(lens, s, v)
  {
    hide Filled;
    if Matches(lens, s, v) {
      var h := LowHead(v);
      HeadAt(lens, maxlens, tl, tv, |lens|, h);
      var m := maxlens[h];
      if lens[s] <= FIRSTBITS {
        MatchesLow(lens, s, v, FIRSTBITS);
      } else {
        LongMatchPrefix(lens, s, v);
        var r := Low(Shr(v, FIRSTBITS), m - FIRSTBITS);
        TailAt(lens, maxlens, tl, tv, |lens|, h, r);
        LowOfPath(v, m);
        MatchesLow(lens, s, v, m);
      }
    }
  }

  /** Every entry that is not a pointer is where some lookup ends. */
  lemma EntryReached(lens: seq<nat>, maxlens: seq<nat>, tl: seq<nat>, tv: seq<nat>, k: nat) returns (v: nat)
    requires Filled(lens, maxlens, tl, tv, |lens|) && k < |tl| && tl[k] == UNUSED
    ensures EntryOf(maxlens, v) == k
  {
    if k < HEADSIZE {
      v := k;
      assert Pow2(9) == 512;
      LowSmall(k, FIRSTBITS);
      HeadAt(lens, maxlens, tl, tv, |lens|, k);
    } else {
      var h := OwnerOf(maxlens, k, HEADSIZE);
      var r := k - Start(maxlens, h);
      v := Path(h, r);
      PathParts(h, r);
      LowSmall(r, maxlens[h] - FIRSTBITS);
    }
  }

  /** A complete code leaves no entry unused. */
  lemma CompleteFills(lens: seq<nat>, maxlens: seq<nat>, tl: seq<nat>, tv: seq<nat>, k: nat)
    requires Filled(lens, maxlens, tl, tv, |lens|) && k < |tl|
    requires KraftSum(lens, MAXBITS) == Pow2(MAXBITS)
    ensures tl[k] != UNUSED
  {
    if tl[k] == UNUSED {
      var v := EntryReached(lens, maxlens, tl, tv, k);
      var s := MatchExists(lens, v);
      UnusedEntry(lens, maxlens, tl, tv, v, s);
    }
  }

  /** A table without unused entries is that of a complete code. */
  lemma FullIsComplete(lens: seq<nat>, maxlens: seq<nat>, tl: seq<nat>, tv: seq<nat>)
    requires Filled(lens, maxlens, tl, tv, |lens|) && forall k :: 0 <= k < |tl| ==> tl[k] != UNUSED
    ensures KraftSum(lens, MAXBITS) == Pow2(MAXBITS)
  {
    hide Filled;
    hide HeadOk;
    hide Start;
    hide KraftSum;
    hide Matches;
    hide EntryOf;
    HeadAt(lens, maxlens, tl, tv, |lens|, 0);
    if KraftSum(lens, MAXBITS) < Pow2(MAXBITS) {
      var v := Pow2(MAXBITS) - 1;
      EntryInTable(maxlens, v);
      UsedEntry(lens, maxlens, tl, tv, v);
      OnesUnmatched(lens, tv[EntryOf(maxlens, v)]);
    } else if KraftSum(lens, MAXBITS) > Pow2(MAXBITS) {
      OversubscribedFails(lens, maxlens, tl, tv);
    }
  }

  /** An oversubscribed code cannot be filled in: two symbols, one of them short, claim entry 0. */
  lemma OversubscribedFails(lens: seq<nat>, maxlens: seq<nat>, tl: seq<nat>, tv: seq<nat>)
    requires Filled(lens, maxlens, tl, tv, |lens|)
    ensures KraftSum(lens, MAXBITS) <= Pow2(MAXBITS)
  {
    if KraftSum(lens, MAXBITS) > Pow2(MAXBITS) {
      var s, t := ZerosMatchedTwice(lens);
      LowSmall(0, FIRSTBITS);
      HeadAt(lens, maxlens, tl, tv, |lens|, 0);
      if lens[t] > FIRSTBITS {
        LongMatchPrefix(lens, t, 0);
      }
    }
  }

  /** Two symbols that match the same bits mean that the lengths are not acceptable. */
  lemma Conflict(lens: seq<nat>, s: nat, t: nat, v: nat)
    requires Within(lens, MAXBITS) && s != t && Matches(lens, s, v) && Matches(lens, t, v)
    ensures !Acceptable(lens)
  {
    if KraftSum(lens, MAXBITS) <= Pow2(MAXBITS) {
      MatchUnique(lens, s, t, v);
    }
    PresentTwo(lens, if s < t then s else t, if s < t then t else s);
  }

  lemma PresentTwo(lens: seq<nat>, s: nat, t: nat)
    requires s < t < |lens| && lens[s] > 0 && lens[t] > 0
    ensures Present(lens) >= 2
    decreases |lens|
  {
    var m := |lens| - 1;
    if t < m {
      PresentTwo(lens[..m], s, t);
    } else {
      PresentOne(lens[..m], s);
    }
  }

  lemma {:induction false} PresentOne(lens: seq<nat>, s: nat)
    requires s < |lens| && lens[s] > 0
    ensures Present(lens) >= 1
  {
    var m := |lens| - 1;
    if s < m {
      PresentOne(lens[..m], s);
    }
  }

  /** Marking what is left over as invalid makes the table answer every lookup. */
  lemma TableFromFilled(lens: seq<nat>, maxlens: seq<nat>, tl: seq<nat>, tv: seq<nat>, tl': seq<nat>, tv': seq<nat>)
    requires Filled(lens, maxlens, tl, tv, |lens|) && |tl'| == |tv'| == |tl|
    requires forall k :: 0 <= k < |tl| && tl[k] != UNUSED ==> tl'[k] == tl[k] && tv'[k] == tv[k]
    requires forall k :: 0 <= k < |tl| && tl[k] == UNUSED ==>
      tv'[k] == INVALIDSYMBOL && tl'[k] == if k < HEADSIZE then 1 else FIRSTBITS + 1
    ensures TableOk(lens, tl', tv')
  {
    forall v: nat | v < Pow2(MAXBITS)
      ensures LookupOk(lens, tl', tv', v)
    {
      LookupFromFilled(lens, maxlens, tl, tv, tl', tv', v);
    }
    forall k | 0 <= k < |tl|
      ensures tl'[k] <= MAXBITS && tv'[k] <= INVALIDSYMBOL
    {
      if tl[k] != UNUSED {
        EntryBounds(lens, maxlens, tl, tv, k);
      }
    }
  }

  lemma EntryBounds(lens: seq<nat>, maxlens: seq<nat>, tl: seq<nat>, tv: seq<nat>, k: nat)
    requires Filled(lens, maxlens, tl, tv, |lens|) && k < |tl| && tl[k] != UNUSED
    ensures tl[k] <= MAXBITS && tv[k] <= INVALIDSYMBOL
  {
    if k < HEADSIZE {
      assert HeadOk(lens, maxlens, tl, tv, |lens|, k);
      StartBound(maxlens, k);
    } else {
      var h := OwnerOf(maxlens, k, HEADSIZE);
      assert TailOk(lens, maxlens, tl, tv, |lens|, h, k - Start(maxlens, h));
    }
  }

  lemma LookupFromFilled(lens: seq<nat>, maxlens: seq<nat>, tl: seq<nat>, tv: seq<nat>, tl': seq<nat>, tv': seq<nat>, v: nat)
    requires Filled(lens, maxlens, tl, tv, |lens|) && |tl'| == |tv'| == |tl|
    requires forall k :: 0 <= k < |tl| && tl[k] != UNUSED ==> tl'[k] == tl[k] && tv'[k] == tv[k]
    requires forall k :: 0 <= k < |tl| && tl[k] == UNUSED ==>
      tv'[k] == INVALIDSYMBOL && tl'[k] == if k < HEADSIZE then 1 else FIRSTBITS + 1
    ensures LookupOk(lens, tl', tv', v)
  {
    hide Filled;
    hide Matches;
    hide Low;
    hide Shr;
    hide Start;
    var h := LowHead(v);
    HeadAt(lens, maxlens, tl, tv, |lens|, h);
    var k := EntryOf(maxlens, v);
    EntryInTable(maxlens, v);
    LookupEntry(maxlens, tl', tv', v);
    if tl[k] != UNUSED {
      UsedEntry(lens, maxlens, tl, tv, v);
    } else {
      forall t: nat ensures !Matches(lens, t, v) { UnusedEntry(lens, maxlens, tl, tv, v, t); }
    }
  }

  /** A lookup follows the pointer of its head entry, if that is one. */
  lemma LookupEntry(maxlens: seq<nat>, tl: seq<nat>, tv: seq<nat>, v: nat)
    requires |maxlens| == HEADSIZE <= |tl| == |tv| && EntryOf(maxlens, v) < |tl|
    requires var h := LowHead(v); maxlens[h] == 0 || (maxlens[h] > FIRSTBITS && tl[h] == maxlens[h] && tv[h] == Start(maxlens, h))
    requires maxlens[LowHead(v)] == 0 ==> tl[LowHead(v)] <= FIRSTBITS
    ensures var k := EntryOf(maxlens, v); Lookup(tl, tv, v) == (tv[k], tl[k])
    ensures tl[LowHead(v)] > FIRSTBITS <==> EntryOf(maxlens, v) >= HEADSIZE
  {
    hide Start;
    hide Low;
    hide Shr;
  }

  // ---------------------------------------------------------------------------------------------
  // Filling in one symbol
  // ---------------------------------------------------------------------------------------------

  /** A new table: nothing but the pointers to the secondary tables. */
  lemma FilledInitially(lens: seq<nat>, maxlens: seq<nat>, tl: seq<nat>, tv: seq<nat>)
    requires TreeLengths(lens) && MaxLengths(lens, maxlens, |lens|)
    requires |tl| == |tv| == Start(maxlens, HEADSIZE)
    requires forall h :: 0 <= h < HEADSIZE && maxlens[h] > 0 ==> tl[h] == maxlens[h] && tv[h] == Start(maxlens, h)
    requires forall h :: 0 <= h < HEADSIZE && maxlens[h] == 0 ==> tl[h] == UNUSED
    requires forall k :: HEADSIZE <= k < |tl| ==> tl[k] == UNUSED
    ensures Filled(lens, maxlens, tl, tv, 0)
  {
    forall h, r | 0 <= h < HEADSIZE && 0 <= r < TableSize(maxlens[h])
      ensures TailOk(lens, maxlens, tl, tv, 0, h, r)
    {
      StartMono(maxlens, h, HEADSIZE);
    }
  }

  lemma TableShape(lens: seq<nat>, maxlens: seq<nat>, tl: seq<nat>, tv: seq<nat>, n: nat)
    requires Filled(lens, maxlens, tl, tv, n)
    ensures |maxlens| == HEADSIZE <= |tl| == |tv| && n <= |lens|
  {
  }

  lemma FilledFromParts(lens: seq<nat>, maxlens: seq<nat>, tl: seq<nat>, tv: seq<nat>, tl': seq<nat>, tv': seq<nat>, s: nat, n: nat)
    requires Filled(lens, maxlens, tl, tv, s) && n == s + 1 <= |lens| && |tl'| == |tv'| == |tl|
    requires |maxlens| == HEADSIZE <= |tl|
    requires forall h :: 0 <= h < HEADSIZE ==> HeadOk(lens, maxlens, tl', tv', n, h)
    requires forall h, r :: 0 <= h < HEADSIZE && 0 <= r < TableSize(maxlens[h]) ==> TailOk(lens, maxlens, tl', tv', n, h, r)
    ensures Filled(lens, maxlens, tl', tv', n)
  {
    hide HeadOk;
    hide TailOk;
    hide MaxLengths;
    hide Start;
    hide TableSize;
  }

  /** A head entry that a symbol without a short code leaves alone. */
  lemma HeadStays(lens: seq<nat>, maxlens: seq<nat>, tl: seq<nat>, tv: seq<nat>, tl': seq<nat>, tv': seq<nat>, s: nat, h: nat)
    requires Filled(lens, maxlens, tl, tv, s) && s < |lens| && (lens[s] == 0 || lens[s] > FIRSTBITS)
    requires h < HEADSIZE && |tl'| == |tv'| == |tl| && h < |tl| == |tv| && tl'[h] == tl[h] && tv'[h] == tv[h]
    ensures |maxlens| == HEADSIZE <= |tl|
    ensures HeadOk(lens, maxlens, tl', tv', s + 1, h)
  {
    hide Filled;
    hide Start;
    hide Low;
    hide RevCode;
    TableShape(lens, maxlens, tl, tv, s);
    HeadAt(lens, maxlens, tl, tv, s, h);
  }

  /** A secondary entry that a symbol without a code leaves alone. */
  lemma TailStays(lens: seq<nat>, maxlens: seq<nat>, tl: seq<nat>, tv: seq<nat>, tl': seq<nat>, tv': seq<nat>, s: nat, h: nat, r: nat)
    requires Filled(lens, maxlens, tl, tv, s) && s < |lens| && lens[s] <= FIRSTBITS
    requires |maxlens| == HEADSIZE && h < HEADSIZE && r < TableSize(maxlens[h]) && |tl'| == |tv'| == |tl|
    requires forall k :: HEADSIZE <= k < |tl| && k < |tv| ==> tl'[k] == tl[k] && tv'[k] == tv[k]
    ensures TailOk(lens, maxlens, tl', tv', s + 1, h, r)
  {
    hide Filled;
    hide Matches;
    hide Path;
    hide TableSize;
    TailAt(lens, maxlens, tl, tv, s, h, r);
  }

  /** A symbol without a code changes nothing. */
  lemma FilledNone(lens: seq<nat>, maxlens: seq<nat>, tl: seq<nat>, tv: seq<nat>, s: nat)
    requires Filled(lens, maxlens, tl, tv, s) && s < |lens| && lens[s] == 0
    ensures Filled(lens, maxlens, tl, tv, s + 1)
  {
    hide Filled;
    hide HeadOk;
    hide TailOk;
    hide Start;
    hide TableSize;
    TableShape(lens, maxlens, tl, tv, s);
    var n := s + 1;
    forall h | 0 <= h < HEADSIZE
      ensures HeadOk(lens, maxlens, tl, tv, n, h)
    {
      HeadStays(lens, maxlens, tl, tv, tl, tv, s, h);
    }
    forall h, r | 0 <= h < HEADSIZE && 0 <= r < TableSize(maxlens[h])
      ensures TailOk(lens, maxlens, tl, tv, n, h, r)
    {
      TailStays(lens, maxlens, tl, tv, tl, tv, s, h, r);
    }
    FilledFromParts(lens, maxlens, tl, tv, tl, tv, s, n);
  }

  /** A short symbol takes the head entries that it matches, all of them unused. */
  lemma FilledShort(lens: seq<nat>, maxlens: seq<nat>, tl: seq<nat>, tv: seq<nat>, tl': seq<nat>, tv': seq<nat>, s: nat)
    requires Filled(lens, maxlens, tl, tv, s) && s < |lens| && 0 < lens[s] <= FIRSTBITS
    requires |tl'| == |tv'| == |tl|
    requires forall k :: 0 <= k < |tl| ==>
      if k < HEADSIZE && Matches(lens, s, k) then tl[k] == UNUSED && tl'[k] == lens[s] && tv'[k] == s
      else tl'[k] == tl[k] && tv'[k] == tv[k]
    ensures Filled(lens, maxlens, tl', tv', s + 1)
  {
    var n := s + 1;
    forall h | 0 <= h < HEADSIZE
      ensures HeadOk(lens, maxlens, tl', tv', n, h)
    {
      HeadAt(lens, maxlens, tl, tv, s, h);
    }
    forall h, r | 0 <= h < HEADSIZE && 0 <= r < TableSize(maxlens[h])
      ensures TailOk(lens, maxlens, tl', tv', n, h, r)
    {
      TailAt(lens, maxlens, tl, tv, s, h, r);
    }
  }

  /** Whether `k` is an entry of the secondary table of `h` that the long symbol `s` matches. */
  predicate TailMatch(lens: seq<nat>, maxlens: seq<nat>, s: nat, h: nat, k: nat)
    requires h < |maxlens|
  {
    Start(maxlens, h) <= k < Start(maxlens, h) + TableSize(maxlens[h]) && Matches(lens, s, Path(h, k - Start(maxlens, h)))
  }

  /** A long symbol takes the entries of its secondary table that it matches. */
  lemma FilledLong(lens: seq<nat>, maxlens: seq<nat>, tl: seq<nat>, tv: seq<nat>, tl': seq<nat>, tv': seq<nat>, s: nat)
    requires Filled(lens, maxlens, tl, tv, s) && s < |lens| && lens[s] > FIRSTBITS
    requires |tl'| == |tv'| == |tl|
    requires forall k :: 0 <= k < |tl| ==>
      if TailMatch(lens, maxlens, s, Prefix(lens, s), k) then tl'[k] == lens[s] && tv'[k] == s
      else tl'[k] == tl[k] && tv'[k] == tv[k]
    ensures Filled(lens, maxlens, tl', tv', s + 1)
  {
    hide Filled;
    hide HeadOk;
    hide TailOk;
    hide Start;
    hide TableSize;
    hide Matches;
    TableShape(lens, maxlens, tl, tv, s);
    var n := s + 1;
    forall h | 0 <= h < HEADSIZE
      ensures HeadOk(lens, maxlens, tl', tv', n, h)
    {
      HeadStays(lens, maxlens, tl, tv, tl', tv', s, h);
    }
    forall h, r | 0 <= h < HEADSIZE && 0 <= r < TableSize(maxlens[h])
      ensures TailOk(lens, maxlens, tl', tv', n, h, r)
    {
      TailFilledLong(lens, maxlens, tl, tv, tl', tv', s, h, r);
    }
    FilledFromParts(lens, maxlens, tl, tv, tl', tv', s, n);
  }

  lemma TailFilledLong(lens: seq<nat>, maxlens: seq<nat>, tl: seq<nat>, tv: seq<nat>, tl': seq<nat>, tv': seq<nat>, s: nat, h: nat, r: nat)
    requires Filled(lens, maxlens, tl, tv, s) && s < |lens| && lens[s] > FIRSTBITS
    requires |tl'| == |tv'| == |tl|
    requires forall k :: 0 <= k < |tl| ==>
      if TailMatch(lens, maxlens, s, Prefix(lens, s), k) then tl'[k] == lens[s] && tv'[k] == s
      else tl'[k] == tl[k] && tv'[k] == tv[k]
    requires h < HEADSIZE && r < TableSize(maxlens[h])
    ensures TailOk(lens, maxlens, tl', tv', s + 1, h, r)
  {
    hide Filled;
    hide HeadOk;
    hide Matches;
    hide Start;
    hide TableSize;
    hide Path;
    hide Prefix;
    HeadAt(lens, maxlens, tl, tv, s, h);
    TailAt(lens, maxlens, tl, tv, s, h, r);
    var k, g := Start(maxlens, h) + r, Prefix(lens, s);
    if g < h {
      StartMono(maxlens, g, h);
    } else if h < g {
      StartMono(maxlens, h, g);
    }
    PathParts(h, r);
    if Matches(lens, s, Path(h, r)) {
      LongMatchPrefix(lens, s, Path(h, r));
    }
  }
}
