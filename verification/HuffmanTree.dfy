/** The Huffman tree: codes from lengths, the decoding table, and decoding through it. */
module HuffmanTree {
  import opened Bits
  import opened BitStream
  import opened Canonical
  import opened DecodeTable
  import opened DeflateFormat
  import CodeLengths

  /** The low `num` bits in reverse, bit by bit. */
  method ReverseBits(bits: nat, num: nat) returns (result: nat)
    ensures result == Rev(bits, num)
  {
    result := 0;
    for i := 0 to num
      invariant result == Rev(Shr(bits, num - i), i)
    {
      var x := Shr(bits, num - i - 1);
      ShrAdd(bits, num - i - 1, 1);
      assert Shr(x, 1) == x / 2 by { assert Shr(x / 2, 0) == x / 2; }
      BitAndMask(x, 1);
      assert Low(x, 1) == x % 2 by { assert Low(x / 2, 0) == 0; }
      ValMsb(x / 2, i);
      BitOrDisjoint(result, x % 2, i);
      result := BitOr(result, Shl(BitAnd(x, 1), i));
    }
    assert Shr(bits, 0) == bits;
  }

  /** The codes a tree holds: canonical, and cut off at their length. */
  predicate CodesOf(lens: seq<nat>, codes: seq<nat>) {
    |codes| == |lens| && forall s :: 0 <= s < |lens| && lens[s] > 0 ==> codes[s] == Low(Code(lens, s), lens[s])
  }

  lemma ReverseOfCode(lens: seq<nat>, codes: seq<nat>, s: nat)
    requires CodesOf(lens, codes) && s < |lens| && lens[s] > 0
    ensures Rev(codes[s], lens[s]) == RevCode(lens, s) < Pow2(lens[s])
    ensures lens[s] > FIRSTBITS ==> Rev(Shr(codes[s], lens[s] - FIRSTBITS), FIRSTBITS) == Prefix(lens, s)
  {
    var l, c := lens[s], Code(lens, s);
    RevLow(c, l, l);
    ValMsb(c, l);
    if l > FIRSTBITS {
      RevOfShr(codes[s], FIRSTBITS, l - FIRSTBITS);
    }
  }

  lemma MaxLengthsStep(lens: seq<nat>, maxlens: seq<nat>, s: nat)
    requires TreeLengths(lens) && MaxLengths(lens, maxlens, s) && s < |lens|
    ensures lens[s] <= FIRSTBITS ==> MaxLengths(lens, maxlens, s + 1)
    ensures lens[s] > FIRSTBITS ==>
      var h := Prefix(lens, s);
      MaxLengths(lens, maxlens[h := if maxlens[h] > lens[s] then maxlens[h] else lens[s]], s + 1)
  {
    if lens[s] > FIRSTBITS {
      var h := Prefix(lens, s);
      assert HasLong(lens, h);
    }
  }

  /** The longest code behind each head entry. */
  method ComputeMaxLengths(lens: seq<nat>, codes: seq<nat>) returns (maxlens: array<nat>)
    requires TreeLengths(lens) && CodesOf(lens, codes)
    ensures fresh(maxlens) && MaxLengths(lens, maxlens[..], |lens|)
  {
    hide MaxLengths;
    maxlens := new nat[HEADSIZE](_ => 0);
    assert MaxLengths(lens, maxlens[..], 0) by { InitialMaxLengths(lens, maxlens[..]); }
    for i := 0 to |lens|
      invariant maxlens.Length == HEADSIZE && MaxLengths(lens, maxlens[..], i)
    {
      var symbol, l := codes[i], lens[i];
      MaxLengthsStep(lens, maxlens[..], i);
      if l <= FIRSTBITS {
        continue;
      }
      ReverseOfCode(lens, codes, i);
      var index := ReverseBits(Shr(symbol, l - FIRSTBITS), FIRSTBITS);
      ghost var before := maxlens[..];
      maxlens[index] := if maxlens[index] > l then maxlens[index] else l;
      assert maxlens[..] == before[index := if before[index] > l then before[index] else l];
    }
  }

  lemma InitialMaxLengths(lens: seq<nat>, maxlens: seq<nat>)
    requires |maxlens| == HEADSIZE && forall h :: 0 <= h < HEADSIZE ==> maxlens[h] == 0
    ensures MaxLengths(lens, maxlens, 0)
  {
  }

  /** The size of the whole table. */
  method ComputeSize(maxlens: array<nat>) returns (size: nat)
    requires maxlens.Length == HEADSIZE
    ensures size == Start(maxlens[..], HEADSIZE)
  {
    size := HEADSIZE;
    for i := 0 to HEADSIZE
      invariant size == Start(maxlens[..], i)
    {
      var l := maxlens[i];
      if l > FIRSTBITS {
        ShlOne(l - FIRSTBITS);
        size := size + Shl(1, l - FIRSTBITS);
      }
    }
  }

  lemma StartStep(lens: seq<nat>, maxlens: seq<nat>, h: nat)
    requires MaxLengths(lens, maxlens, |lens|) && h < HEADSIZE
    ensures maxlens[h] <= FIRSTBITS ==> maxlens[h] == 0 && Start(maxlens, h + 1) == Start(maxlens, h)
    ensures maxlens[h] > FIRSTBITS ==> Start(maxlens, h + 1) == Start(maxlens, h) + Pow2(maxlens[h] - FIRSTBITS)
  {
  }

  /** Points the head entries of long codes to their secondary tables. */
  method FillPointers(lens: seq<nat>, maxlens: array<nat>, tl: array<nat>, tv: array<nat>)
    requires TreeLengths(lens) && MaxLengths(lens, maxlens[..], |lens|)
    requires tl != tv && maxlens != tl && maxlens != tv && maxlens.Length == HEADSIZE
    requires tl.Length == tv.Length == Start(maxlens[..], HEADSIZE)
    requires forall k :: 0 <= k < tl.Length ==> tl[k] == UNUSED
    modifies tl, tv
    ensures Filled(lens, maxlens[..], tl[..], tv[..], 0)
  {
    hide MaxLengths;
    hide Filled;
    hide Pow2;
    hide Shl;
    ghost var m := maxlens[..];
    assert Start(m, 0) == HEADSIZE;
    hide Start;
    assert MaxLengths(lens, m, |lens|);
    var pointer := HEADSIZE;
    for i := 0 to HEADSIZE
      invariant maxlens[..] == m && pointer == Start(m, i)
      invariant forall h :: 0 <= h < i && m[h] > 0 ==> tl[h] == m[h] && tv[h] == Start(m, h)
      invariant forall h :: 0 <= h < HEADSIZE && (h >= i || m[h] == 0) ==> tl[h] == UNUSED
      invariant forall k :: HEADSIZE <= k < tl.Length ==> tl[k] == UNUSED
    {
      var l := maxlens[i];
      StartStep(lens, m, i);
      if l <= FIRSTBITS {
        continue;
      }
      tl[i] := l;
      tv[i] := pointer;
      ShlOne(l - FIRSTBITS);
      pointer := pointer + Shl(1, l - FIRSTBITS);
    }
    FilledInitially(lens, m, tl[..], tv[..]);
  }

  /** The head entries that a code of l bits and reversal `reverse` matches are reverse + j 2^l. */
  lemma ShortEntries(lens: seq<nat>, s: nat, k: nat)
    requires s < |lens| && 0 < lens[s] <= FIRSTBITS && k < HEADSIZE && RevCode(lens, s) < Pow2(lens[s])
    ensures Matches(lens, s, k) ==> Shr(k, lens[s]) < Pow2(FIRSTBITS - lens[s])
  {
    assert Pow2(9) == 512;
    LowShr(k, lens[s], FIRSTBITS - lens[s]);
    LowSmall(k, FIRSTBITS);
  }

  lemma ShortEntry(lens: seq<nat>, s: nat, j: nat)
    requires s < |lens| && 0 < lens[s] <= FIRSTBITS && RevCode(lens, s) < Pow2(lens[s])
    requires j < Pow2(FIRSTBITS - lens[s])
    ensures var k := RevCode(lens, s) + Shl(j, lens[s]);
      && BitOr(RevCode(lens, s), Shl(j, lens[s])) == k < HEADSIZE
      && Matches(lens, s, k) && Shr(k, lens[s]) == j
    ensures forall k: nat :: Matches(lens, s, k) && Shr(k, lens[s]) == j ==> k == RevCode(lens, s) + Shl(j, lens[s])
  {
    hide Low;
    hide Shr;
    hide Shl;
    hide BitOr;
    hide Rev;
    hide Code;
    var l, r := lens[s], RevCode(lens, s);
    assert Pow2(9) == 512;
    hide Pow2;
    BitOrDisjoint(r, j, l);
    SlotBound(r, j, l, FIRSTBITS - l);
    SlotUnique(r, j, l);
  }

  /** Fills a code of at most 9 bits into the head entries it matches. A taken entry is an error. */
  method FillShort(lens: seq<nat>, ghost maxlens: seq<nat>, tl: array<nat>, tv: array<nat>, s: nat, reverse: nat) returns (error: nat)
    requires tl != tv && s < |lens| && 0 < lens[s] <= FIRSTBITS
    requires Filled(lens, maxlens, tl[..], tv[..], s)
    requires reverse == RevCode(lens, s) < Pow2(lens[s])
    modifies tl, tv
    ensures error == 0 || error == 55
    ensures error == 0 ==> Filled(lens, maxlens, tl[..], tv[..], s + 1)
    ensures error != 0 ==> !Acceptable(lens)
  {
    hide Filled;
    hide Matches;
    hide Shl;
    hide Shr;
    hide BitOr;
    var l := lens[s];
    ghost var tl0, tv0 := tl[..], tv[..];
    HeadAt(lens, maxlens, tl0, tv0, s, 0);
    ShlOne(FIRSTBITS - l);
    var num := Shl(1, FIRSTBITS - l);
    for j := 0 to num
      invariant forall k :: 0 <= k < tl.Length ==>
        if k < HEADSIZE && Matches(lens, s, k) && Shr(k, l) < j then tl0[k] == UNUSED && tl[k] == l && tv[k] == s
        else tl[k] == tl0[k] && tv[k] == tv0[k]
    {
      ShortEntry(lens, s, j);
      var index := BitOr(reverse, Shl(j, l));
      if tl[index] != UNUSED {
        ShortConflict(lens, maxlens, tl0, tv0, s, index);
        return 55;
      }
      tl[index] := l;
      tv[index] := s;
    }
    forall k | 0 <= k < tl.Length
      ensures if k < HEADSIZE && Matches(lens, s, k) then tl0[k] == UNUSED && tl[k] == lens[s] && tv[k] == s
              else tl[k] == tl0[k] && tv[k] == tv0[k]
    {
      if k < HEADSIZE {
        ShortEntries(lens, s, k);
      }
    }
    FilledShort(lens, maxlens, tl0, tv0, tl[..], tv[..], s);
    return 0;
  }

  /** A taken entry: another code is a prefix of this one, or this one of another. */
  lemma ShortConflict(lens: seq<nat>, maxlens: seq<nat>, tl: seq<nat>, tv: seq<nat>, s: nat, h: nat)
    requires Filled(lens, maxlens, tl, tv, s) && s < |lens| && 0 < lens[s] <= FIRSTBITS
    requires h < HEADSIZE && h < |tl| && Matches(lens, s, h) && tl[h] != UNUSED
    ensures !Acceptable(lens)
  {
    hide Filled;
    HeadAt(lens, maxlens, tl, tv, s, h);
    if maxlens[h] > 0 {
      assert HasLong(lens, h);
      var t :| 0 <= t < |lens| && lens[t] > FIRSTBITS && Prefix(lens, t) == h;
      var v := RevCode(lens, t);
      ValMsb(Code(lens, t), lens[t]);
      LowSmall(v, lens[t]);
      MatchesLow(lens, s, v, FIRSTBITS);
      Conflict(lens, s, t, v);
    } else {
      Conflict(lens, s, tv[h], h);
    }
  }

  lemma ShlSame(x: nat, y: nat, n: nat)
    ensures Shl(x, n) == Shl(y, n) <==> x == y
  {
    if x < y {
      ShlMono(x, y, n);
    } else if y < x {
      ShlMono(y, x, n);
    }
  }

  /** Where a code of more than 9 bits goes: its bits after the ninth, then any bits. */
  lemma LongEntries(lens: seq<nat>, s: nat, m: nat, r: nat)
    requires s < |lens| && FIRSTBITS < lens[s] <= m && r < Pow2(m - FIRSTBITS)
    ensures var l, h := lens[s], Prefix(lens, s);
      && (Matches(lens, s, Path(h, r)) <==> Low(r, l - FIRSTBITS) == Shr(RevCode(lens, s), FIRSTBITS))
      && Shr(r, l - FIRSTBITS) < Pow2(m - l)
  {
    hide Code;
    hide Rev;
    hide Pow2;
    hide Shl;
    hide Low;
    hide Shr;
    hide Path;
    var l, h, c := lens[s], Prefix(lens, s), RevCode(lens, s);
    var d := l - FIRSTBITS;
    PathParts(h, r);
    LowAdd(Path(h, r), FIRSTBITS, d);
    Split(c, FIRSTBITS);
    ShlSame(Low(r, d), Shr(c, FIRSTBITS), FIRSTBITS);
    LowShr(r, d, m - l);
    LowSmall(r, m - FIRSTBITS);
  }

  /** Entry `r` of a secondary table is among the first `j` that the code with reversal `c` claims. */
  predicate Claimed(l: nat, c: nat, r: nat, j: nat)
    requires l > FIRSTBITS
  {
    Low(r, l - FIRSTBITS) == Shr(c, FIRSTBITS) && Shr(r, l - FIRSTBITS) < j
  }

  lemma LongEntry(l: nat, c: nat, m: nat, j: nat, j': nat)
    requires FIRSTBITS < l <= m && c < Pow2(l) && j < Pow2(m - l) && j' == j + 1
    ensures var r := BitOr(Shr(c, FIRSTBITS), Shl(j, l - FIRSTBITS));
      && r < Pow2(m - FIRSTBITS)
      && forall q: nat :: Claimed(l, c, q, j') <==> Claimed(l, c, q, j) || q == r
  {
    var x, d := Shr(c, FIRSTBITS), l - FIRSTBITS;
    LowShr(c, FIRSTBITS, d);
    LowSmall(c, l);
    assert x < Pow2(d);
    BitOrDisjoint(x, j, d);
    SlotBound(x, j, d, m - l);
    SlotUnique(x, j, d);
  }

  lemma SlotBound(x: nat, j: nat, d: nat, e: nat)
    requires x < Pow2(d) && j < Pow2(e)
    ensures x + Shl(j, d) < Pow2(d + e)
  {
    ShlMono(j, Pow2(e), d);
    ShlOne(e);
    ShlOne(d + e);
    ShlAdd(1, e, d);
  }

  lemma SlotUnique(x: nat, j: nat, d: nat)
    requires x < Pow2(d)
    ensures forall q: nat :: Low(q, d) == x && Shr(q, d) == j <==> q == x + Shl(j, d)
  {
    SplitUnique(x, j, d);
    forall q: nat
      ensures Low(q, d) == x && Shr(q, d) == j <==> q == x + Shl(j, d)
    {
      Split(q, d);
    }
  }

  lemma NothingClaimed(l: nat, c: nat)
    requires l > FIRSTBITS
    ensures forall r: nat :: !Claimed(l, c, r, 0)
  {
  }

  /** All that the code claims are the entries it matches. */
  lemma AllClaimed(lens: seq<nat>, maxlens: seq<nat>, s: nat, k: nat)
    requires s < |lens| && lens[s] > FIRSTBITS && |maxlens| == HEADSIZE && lens[s] <= maxlens[Prefix(lens, s)]
    ensures var m, start := maxlens[Prefix(lens, s)], Start(maxlens, Prefix(lens, s));
      TailMatch(lens, maxlens, s, Prefix(lens, s), k) <==>
        start <= k < start + Pow2(m - FIRSTBITS) && Claimed(lens[s], RevCode(lens, s), k - start, Pow2(m - lens[s]))
  {
    var m, start := maxlens[Prefix(lens, s)], Start(maxlens, Prefix(lens, s));
    if start <= k < start + Pow2(m - FIRSTBITS) {
      LongEntries(lens, s, m, k - start);
    }
  }

  /** The secondary table that a long code goes into. */
  lemma LongPlace(lens: seq<nat>, maxlens: seq<nat>, tl: seq<nat>, tv: seq<nat>, s: nat, h: nat)
    requires Filled(lens, maxlens, tl, tv, s) && s < |lens| && lens[s] > FIRSTBITS && h == Prefix(lens, s)
    ensures h < HEADSIZE == |maxlens| && HEADSIZE <= |tl| == |tv| && lens[s] <= maxlens[h] <= MAXBITS
    ensures tl[h] == maxlens[h] && tv[h] == Start(maxlens, h) && tv[h] + Pow2(maxlens[h] - FIRSTBITS) <= |tl|
  {
    hide Filled;
    hide Start;
    hide Matches;
    HeadAt(lens, maxlens, tl, tv, s, h);
    StartMono(maxlens, h, HEADSIZE);
  }

  /** The table when a long code has taken all that it claims. */
  lemma LongFilled(lens: seq<nat>, maxlens: seq<nat>, tl: seq<nat>, tv: seq<nat>, tl': seq<nat>, tv': seq<nat>, s: nat, h: nat, start: nat, size: nat)
    requires Filled(lens, maxlens, tl, tv, s) && s < |lens| && lens[s] > FIRSTBITS && h == Prefix(lens, s)
    requires |tl'| == |tv'| == |tl| == |tv| && |maxlens| == HEADSIZE && lens[s] <= maxlens[h]
    requires start == Start(maxlens, h) && size == Pow2(maxlens[h] - FIRSTBITS)
    requires forall k :: 0 <= k < |tl| ==>
      if start <= k < start + size && Claimed(lens[s], RevCode(lens, s), k - start, Pow2(maxlens[h] - lens[s])) then tl'[k] == lens[s] && tv'[k] == s
      else tl'[k] == tl[k] && tv'[k] == tv[k]
    ensures Filled(lens, maxlens, tl', tv', s + 1)
  {
    hide Filled;
    hide Start;
    hide Pow2;
    hide Claimed;
    hide TailMatch;
    hide Prefix;
    forall k | 0 <= k < |tl|
      ensures if TailMatch(lens, maxlens, s, h, k) then tl'[k] == lens[s] && tv'[k] == s else tl'[k] == tl[k] && tv'[k] == tv[k]
    {
      AllClaimed(lens, maxlens, s, k);
    }
    FilledLong(lens, maxlens, tl, tv, tl', tv', s);
  }

  /** Takes the entries of a secondary table that a code claims. */
  method FillClaimed(tl: array<nat>, tv: array<nat>, s: nat, l: nat, reverse: nat, maxlen: nat, start: nat, ghost size: nat)
    requires tl != tv && tl.Length == tv.Length && FIRSTBITS < l <= maxlen && reverse < Pow2(l)
    requires size == Pow2(maxlen - FIRSTBITS) && start + size <= tl.Length
    modifies tl, tv
    ensures forall k :: 0 <= k < tl.Length ==>
      if start <= k < start + size && Claimed(l, reverse, k - start, Pow2(maxlen - l)) then tl[k] == l && tv[k] == s
      else tl[k] == old(tl[k]) && tv[k] == old(tv[k])
  {
    hide Shl;
    hide Shr;
    hide Pow2;
    hide BitOr;
    hide Claimed;
    ShlOne(maxlen - l);
    var num := Shl(1, maxlen - l);
    NothingClaimed(l, reverse);
    for j := 0 to num
      invariant forall k :: 0 <= k < tl.Length ==>
        if start <= k < start + size && Claimed(l, reverse, k - start, j) then tl[k] == l && tv[k] == s
        else tl[k] == old(tl[k]) && tv[k] == old(tv[k])
    {
      LongEntry(l, reverse, maxlen, j, j + 1);
      var reverse2 := Shr(reverse, FIRSTBITS);
      var index2 := start + BitOr(reverse2, Shl(j, l - FIRSTBITS));
      tl[index2] := l;
      tv[index2] := s;
    }
  }

  /** Fills a code of more than 9 bits into the entries of its secondary table that it matches. */
  method FillLong(lens: seq<nat>, ghost maxlens: seq<nat>, tl: array<nat>, tv: array<nat>, s: nat, reverse: nat) returns (error: nat)
    requires tl != tv && s < |lens| && lens[s] > FIRSTBITS
    requires Filled(lens, maxlens, tl[..], tv[..], s)
    requires reverse == RevCode(lens, s) < Pow2(lens[s])
    modifies tl, tv
    ensures error == 0 && Filled(lens, maxlens, tl[..], tv[..], s + 1)
  {
    hide Filled;
    hide Start;
    hide Claimed;
    hide BitAnd;
    hide Low;
    hide Pow2;
    var l := lens[s];
    ghost var tl0, tv0, h := tl[..], tv[..], Prefix(lens, s);
    LongPlace(lens, maxlens, tl0, tv0, s, h);
    BitAndMask(reverse, FIRSTBITS);
    var index := BitAnd(reverse, Pow2(FIRSTBITS) - 1);
    var maxlen := tl[index];
    var start := tv[index];
    if maxlen < l {
      // The library has an error 55 here: the secondary table is too small for the code.
      assert false;
    }
    FillClaimed(tl, tv, s, l, reverse, maxlen, start, Pow2(maxlen - FIRSTBITS));
    LongFilled(lens, maxlens, tl0, tv0, tl[..], tv[..], s, h, start, Pow2(maxlen - FIRSTBITS));
    return 0;
  }

  /** Fills in all symbols and counts those that have a code. */
  method FillSymbols(lens: seq<nat>, codes: seq<nat>, ghost maxlens: seq<nat>, tl: array<nat>, tv: array<nat>)
    returns (error: nat, numpresent: nat)
    requires tl != tv && CodesOf(lens, codes) && Filled(lens, maxlens, tl[..], tv[..], 0)
    modifies tl, tv
    ensures error == 0 || error == 55
    ensures error == 0 ==> Filled(lens, maxlens, tl[..], tv[..], |lens|) && numpresent == Present(lens)
    ensures error != 0 ==> !Acceptable(lens)
  {
    hide Filled;
    hide Present;
    hide Acceptable;
    HeadAt(lens, maxlens, tl[..], tv[..], 0, 0);
    error, numpresent := 0, 0;
    assert Present(lens[..0]) == 0 by { NonePresent(); assert lens[..0] == []; }
    for i := 0 to |lens|
      invariant error == 0 && Filled(lens, maxlens, tl[..], tv[..], i) && numpresent == Present(lens[..i])
    {
      var l, symbol := lens[i], codes[i];
      var reverse := ReverseBits(symbol, l);
      PresentStep(lens, i);
      if l == 0 {
        FilledNone(lens, maxlens, tl[..], tv[..], i);
        continue;
      }
      numpresent := numpresent + 1;
      ReverseOfCode(lens, codes, i);
      if l <= FIRSTBITS {
        error := FillShort(lens, maxlens, tl, tv, i, reverse);
      } else {
        error := FillLong(lens, maxlens, tl, tv, i, reverse);
      }
      if error != 0 {
        return;
      }
    }
    assert lens[..|lens|] == lens;
  }

  lemma NonePresent()
    ensures Present([]) == 0
  {
  }

  lemma PresentStep(lens: seq<nat>, i: nat)
    requires i < |lens|
    ensures Present(lens[..i + 1]) == Present(lens[..i]) + if lens[i] > 0 then 1 else 0
  {
    assert lens[..i + 1][..i] == lens[..i];
  }

  /** Gives the entries that are left over a symbol that is not valid. */
  method FillUnused(tl: array<nat>, tv: array<nat>)
    requires tl != tv && tl.Length == tv.Length
    modifies tl, tv
    ensures forall k :: 0 <= k < tl.Length ==>
      if old(tl[k]) == UNUSED then tv[k] == INVALIDSYMBOL && tl[k] == if k < HEADSIZE then 1 else FIRSTBITS + 1
      else tl[k] == old(tl[k]) && tv[k] == old(tv[k])
  {
    for i := 0 to tl.Length
      invariant forall k :: 0 <= k < tl.Length ==>
        if k < i && old(tl[k]) == UNUSED then tv[k] == INVALIDSYMBOL && tl[k] == if k < HEADSIZE then 1 else FIRSTBITS + 1
        else tl[k] == old(tl[k]) && tv[k] == old(tv[k])
    {
      if tl[i] == UNUSED {
        tl[i] := if i < HEADSIZE then 1 else FIRSTBITS + 1;
        tv[i] := INVALIDSYMBOL;
      }
    }
  }

  /** Fewer than two codes leave entries over, which get a symbol that is not valid. With more codes an
      entry that is left over is an error. */
  method Finish(lens: seq<nat>, ghost maxlens: seq<nat>, tl: array<nat>, tv: array<nat>, numpresent: nat) returns (error: nat)
    requires tl != tv && Filled(lens, maxlens, tl[..], tv[..], |lens|) && numpresent == Present(lens)
    modifies tl, tv
    ensures error == if Acceptable(lens) then 0 else 55
    ensures error == 0 ==> TableOk(lens, tl[..], tv[..])
  {
    hide Filled;
    hide TableOk;
    hide Present;
    hide KraftSum;
    ghost var tl0, tv0 := tl[..], tv[..];
    HeadAt(lens, maxlens, tl0, tv0, |lens|, 0);
    if numpresent < 2 {
      FillUnused(tl, tv);
      TableFromFilled(lens, maxlens, tl0, tv0, tl[..], tv[..]);
      return 0;
    }
    for i := 0 to tl.Length
      invariant forall k :: 0 <= k < i ==> tl0[k] != UNUSED
    {
      if tl[i] == UNUSED {
        if Acceptable(lens) {
          CompleteFills(lens, maxlens, tl0, tv0, i);
        }
        return 55;
      }
    }
    FullIsComplete(lens, maxlens, tl0, tv0);
    TableFromFilled(lens, maxlens, tl0, tv0, tl0, tv0);
    return 0;
  }

  class Tree {
    /** The code of each symbol, the first bit sent being the highest. */
    var codes: seq<nat>
    var lengths: seq<nat>
    var maxbitlen: nat
    var numcodes: nat
    var tableLen: seq<nat>
    var tableValue: seq<nat>

    ghost predicate Valid()
      reads this
    {
      && TreeLengths(lengths) && Acceptable(lengths)
      && CodesOf(lengths, codes)
      && TableOk(lengths, tableLen, tableValue)
      && numcodes == |lengths|
    }

    constructor ()
    {
      codes, lengths, maxbitlen, numcodes, tableLen, tableValue := [], [], 0, 0, [], [];
    }

    /** Makes the decoding table. It fails exactly when the lengths leave a bit sequence without a code or
        give it two, unless there are fewer than two codes. */
    method MakeTable() returns (error: nat)
      requires TreeLengths(lengths) && CodesOf(lengths, codes)
      modifies this`tableLen, this`tableValue
      ensures error == if Acceptable(lengths) then 0 else 55
      ensures error == 0 ==> TableOk(lengths, tableLen, tableValue)
    {
      hide Filled;
      hide TableOk;
      hide Acceptable;
      hide MaxLengths;
      hide Start;
      var maxlens := ComputeMaxLengths(lengths, codes);
      ghost var m := maxlens[..];
      assert maxlens.Length == HEADSIZE by { MaxLengthsSize(lengths, m); }
      var size := ComputeSize(maxlens);
      var tl, tv := new nat[size](_ => UNUSED), new nat[size](_ => 0);
      FillPointers(lengths, maxlens, tl, tv);
      var numpresent;
      error, numpresent := FillSymbols(lengths, codes, m, tl, tv);
      if error != 0 {
        return;
      }
      error := Finish(lengths, m, tl, tv, numpresent);
      tableLen, tableValue := tl[..], tv[..];
    }

    lemma MaxLengthsSize(lens: seq<nat>, m: seq<nat>)
      requires MaxLengths(lens, m, |lens|)
      ensures |m| == HEADSIZE
    {
    }

    /** Codes from lengths. The count of symbols without a code is not cleared as the standard asks; it
        only adds to the codes in bits above their length, which are cut off. */
    method MakeFromLengths2() returns (error: nat)
      requires TreeLengths(lengths) && Within(lengths, maxbitlen) && maxbitlen <= MAXBITS && numcodes == |lengths|
      modifies this
      ensures lengths == old(lengths) && maxbitlen == old(maxbitlen) && numcodes == old(numcodes)
      ensures error == if Acceptable(lengths) then 0 else 55
      ensures error == 0 ==> Valid()
    {
      hide Acceptable;
      hide TableOk;
      codes := MakeCodes(lengths, maxbitlen);
      error := MakeTable();
    }

    method MakeFromLengths(bitlen: seq<nat>, maxbits: nat) returns (error: nat)
      requires TreeLengths(bitlen) && Within(bitlen, maxbits) && maxbits <= MAXBITS
      modifies this
      ensures lengths == bitlen
      ensures error == if Acceptable(bitlen) then 0 else 55
      ensures error == 0 ==> Valid()
    {
      lengths, numcodes, maxbitlen := bitlen, |bitlen|, maxbits;
      error := MakeFromLengths2();
    }

    /** The cheapest tree for the given frequencies. Symbols that do not occur are trimmed off the end of
        the alphabet, down to `mincodes`. */
    method MakeFromFrequencies(frequencies: seq<nat>, mincodes: nat, maxbits: nat) returns (error: nat)
      requires 2 <= mincodes <= |frequencies| <= 288 && maxbits <= MAXBITS && |frequencies| <= Pow2(maxbits)
      modifies this
      ensures error == 0 && Valid() && mincodes <= |lengths| <= |frequencies|
      ensures Within(lengths, maxbits) && Present(lengths) >= 2 && KraftSum(lengths, MAXBITS) == Pow2(MAXBITS)
      ensures forall s :: 0 <= s < |frequencies| && frequencies[s] > 0 ==> s < |lengths| && lengths[s] > 0
      ensures forall s :: |lengths| <= s < |frequencies| ==> frequencies[s] == 0
      ensures CodeLengths.CheapestCode(frequencies[..|lengths|], lengths, maxbits)
    {
      hide KraftSum;
      hide Present;
      hide TableOk;
      hide Pow2;
      hide CodeLengths.Occurring;
      hide CodeLengths.CheapestCode;
      var n := TrimZeros(frequencies, mincodes);
      var l := new nat[n](_ => 0);
      maxbitlen := maxbits;
      numcodes := n;
      var trimmed := frequencies[..n];
      error := CodeLengths.HuffmanCodeLengths(l, trimmed, maxbits);
      lengths := l[..];
      CompleteInUnits(lengths, maxbits);
      error := MakeFromLengths2();
    }

    method TrimZeros(frequencies: seq<nat>, mincodes: nat) returns (n: nat)
      requires mincodes <= |frequencies|
      ensures mincodes <= n <= |frequencies|
      ensures forall s :: n <= s < |frequencies| ==> frequencies[s] == 0
    {
      n := |frequencies|;
      while n > mincodes && frequencies[n - 1] == 0
        invariant mincodes <= n <= |frequencies|
        invariant forall s :: n <= s < |frequencies| ==> frequencies[s] == 0
      {
        n := n - 1;
      }
    }

    lemma CompleteInUnits(lens: seq<nat>, maxbits: nat)
      requires Within(lens, maxbits) && maxbits <= MAXBITS && KraftSum(lens, maxbits) == Pow2(maxbits)
      ensures Within(lens, MAXBITS) && KraftSum(lens, MAXBITS) == Pow2(MAXBITS)
    {
      KraftFiner(lens, maxbits, MAXBITS);
      ShlOne(maxbits);
      ShlOne(MAXBITS);
      ShlAdd(1, maxbits, MAXBITS - maxbits);
    }

    /** Decodes a symbol through the table: the one whose code comes next, and as many bits as it has. */
    method DecodeSymbol(reader: BitReader, ghost ensured: nat) returns (symbol: nat)
      requires Valid() && reader.Valid() && ensured >= MAXBITS && reader.Ensured(ensured)
      modifies reader
      ensures reader.Valid() && old(reader.bp) <= reader.bp <= old(reader.bp) + MAXBITS
      ensures var v := Window(BitsOf(reader.data), old(reader.bp), MAXBITS);
        if symbol == INVALIDSYMBOL then NoMatch(lengths, v)
        else Matches(lengths, symbol, v) && reader.bp == old(reader.bp) + lengths[symbol]
             && reader.Ensured(ensured - lengths[symbol])
    {
      hide *;
      ghost var v := Window(BitsOf(reader.data), reader.bp, MAXBITS);
      TableThere(v);
      reader.EnsuredLess(MAXBITS, ensured);
      FirstPeek(reader, v, ensured);
      var code := reader.PeekBits(FIRSTBITS);
      var l, value := tableLen[code], tableValue[code];
      if l <= FIRSTBITS {
        reader.AdvanceBits(l);
        return value;
      } else {
        reader.AdvanceBits(FIRSTBITS);
        SecondPeek(reader, v, l, ensured);
        value := value + reader.PeekBits(l - FIRSTBITS);
        reader.AdvanceBits(tableLen[value] - FIRSTBITS);
        return tableValue[value];
      }
    }

    /** What the two tables say of the next bits. */
    lemma TableThere(v: nat)
      requires Valid() && v < Pow2(MAXBITS)
      ensures HEADSIZE <= |tableLen| == |tableValue|
      ensures var h := LowHead(v);
        if tableLen[h] <= FIRSTBITS then
          tableLen[h] <= MAXBITS &&
          if tableValue[h] == INVALIDSYMBOL then NoMatch(lengths, v)
          else Matches(lengths, tableValue[h], v) && tableValue[h] < |lengths| && tableLen[h] == lengths[tableValue[h]]
        else
          var k := tableValue[h] + Low(Shr(v, FIRSTBITS), tableLen[h] - FIRSTBITS);
          && tableLen[h] <= MAXBITS && k < |tableLen| && FIRSTBITS < tableLen[k] <= MAXBITS
          && if tableValue[k] == INVALIDSYMBOL then NoMatch(lengths, v)
             else Matches(lengths, tableValue[k], v) && tableValue[k] < |lengths| && tableLen[k] == lengths[tableValue[k]]
    {
      hide Shr;
      hide Low;
      hide NoMatch;
      hide CodesOf;
      assert LookupOk(lengths, tableLen, tableValue, v);
    }

    lemma FirstPeek(reader: BitReader, v: nat, ensured: nat)
      requires v == Window(BitsOf(reader.data), reader.bp, MAXBITS) && MAXBITS <= ensured && reader.Ensured(ensured)
      ensures reader.PeekBits(FIRSTBITS) == LowHead(v)
    {
      hide Low;
      hide Window;
      hide BitsOf;
      hide BitAnd;
      hide Pow2;
      reader.EnsuredLess(FIRSTBITS, ensured);
      WindowParts(BitsOf(reader.data), reader.bp, FIRSTBITS, MAXBITS);
      BitAndMask(reader.buffer, FIRSTBITS);
    }

    lemma SecondPeek(reader: BitReader, v: nat, l: nat, ensured: nat)
      requires reader.bp >= FIRSTBITS && FIRSTBITS <= l <= MAXBITS <= ensured
      requires v == Window(BitsOf(reader.data), reader.bp - FIRSTBITS, MAXBITS)
      requires reader.Ensured(ensured - FIRSTBITS)
      ensures reader.PeekBits(l - FIRSTBITS) == Low(Shr(v, FIRSTBITS), l - FIRSTBITS)
    {
      hide Low;
      hide Shr;
      hide Window;
      hide BitsOf;
      hide BitAnd;
      hide Pow2;
      var bits := BitsOf(reader.data);
      reader.EnsuredLess(l - FIRSTBITS, ensured - FIRSTBITS);
      WindowParts(bits, reader.bp - FIRSTBITS, FIRSTBITS, MAXBITS);
      WindowParts(bits, reader.bp, l - FIRSTBITS, MAXBITS - FIRSTBITS);
      BitAndMask(reader.buffer, l - FIRSTBITS);
    }
  }

  /** The library's counting loop: the first code of each length, too high by the symbols without a code. */
  function RawNextCode(lens: seq<nat>, b: nat): nat {
    if b == 0 then 0 else 2 * (RawNextCode(lens, b - 1) + Count(lens, b - 1))
  }

  lemma {:induction false} RawIsShifted(lens: seq<nat>, b: nat)
    requires b > 0
    ensures RawNextCode(lens, b) == NextCode(lens, b) + Shl(Count(lens, 0), b)
  {
    if b == 1 {
      assert Shl(Count(lens, 0), 1) == 2 * Shl(Count(lens, 0), 0);
      assert RawNextCode(lens, 0) == 0 && NextCode(lens, 0) == 0;
    } else {
      RawIsShifted(lens, b - 1);
    }
  }

  /** What the mask leaves of the library's number is the code of the standard. */
  lemma MaskedCode(lens: seq<nat>, s: nat)
    requires s < |lens| && lens[s] > 0
    ensures BitAnd(RawNextCode(lens, lens[s]) + Count(lens[..s], lens[s]), Pow2(lens[s]) - 1) == Low(Code(lens, s), lens[s])
  {
    var l := lens[s];
    RawIsShifted(lens, l);
    LowPlusShl(Code(lens, s), Count(lens, 0), l);
    BitAndMask(RawNextCode(lens, l) + Count(lens[..s], l), l);
  }

  method CountLengths(lens: seq<nat>, maxbitlen: nat) returns (blcount: array<nat>)
    requires Within(lens, maxbitlen)
    ensures fresh(blcount) && blcount.Length == maxbitlen + 1
    ensures forall b :: 0 <= b <= maxbitlen ==> blcount[b] == Count(lens, b)
  {
    blcount := new nat[maxbitlen + 1](_ => 0);
    for i := 0 to |lens|
      invariant forall b :: 0 <= b <= maxbitlen ==> blcount[b] == Count(lens[..i], b)
    {
      CountStep(lens, i);
      blcount[lens[i]] := blcount[lens[i]] + 1;
    }
    assert lens[..|lens|] == lens;
  }

  lemma RawFirst(lens: seq<nat>)
    ensures RawNextCode(lens, 0) == 0
  {
  }

  lemma RawNext(lens: seq<nat>, b: nat, c: nat)
    requires b > 0 && c == b - 1
    ensures RawNextCode(lens, b) == 2 * (RawNextCode(lens, c) + Count(lens, c))
  {
  }

  method MakeCodes(lens: seq<nat>, maxbitlen: nat) returns (codes: seq<nat>)
    requires Within(lens, maxbitlen)
    ensures CodesOf(lens, codes)
  {
    hide RawNextCode;
    hide Count;
    var blcount := CountLengths(lens, maxbitlen);
    RawFirst(lens);
    var nextcode := new nat[maxbitlen + 1](_ => 0);
    for bits := 1 to maxbitlen + 1
      invariant forall b :: 0 <= b <= maxbitlen ==> blcount[b] == Count(lens, b)
      invariant forall b :: 0 <= b < bits ==> nextcode[b] == RawNextCode(lens, b)
    {
      RawNext(lens, bits, bits - 1);
      nextcode[bits] := 2 * (nextcode[bits - 1] + blcount[bits - 1]);
    }
    codes := AssignCodes(lens, nextcode);
  }

  method AssignCodes(lens: seq<nat>, nextcode: array<nat>) returns (codes: seq<nat>)
    requires forall s :: 0 <= s < |lens| ==> lens[s] < nextcode.Length
    requires forall b :: 0 <= b < nextcode.Length ==> nextcode[b] == RawNextCode(lens, b)
    modifies nextcode
    ensures CodesOf(lens, codes)
  {
    hide RawNextCode;
    hide Code;
    hide Low;
    hide BitAnd;
    var a := new nat[|lens|](_ => 0);
    for n := 0 to |lens|
      invariant forall b :: 0 < b < nextcode.Length ==> nextcode[b] == RawNextCode(lens, b) + Count(lens[..n], b)
      invariant forall s :: 0 <= s < n && lens[s] > 0 ==> a[s] == Low(Code(lens, s), lens[s])
    {
      CountStep(lens, n);
      if lens[n] != 0 {
        MaskedCode(lens, n);
        var code := nextcode[lens[n]];
        nextcode[lens[n]] := nextcode[lens[n]] + 1;
        a[n] := BitAnd(code, Pow2(lens[n]) - 1);
      }
    }
    codes := a[..];
  }

  lemma CountStep(lens: seq<nat>, i: nat)
    requires i < |lens|
    ensures forall b :: Count(lens[..i + 1], b) == Count(lens[..i], b) + if lens[i] == b then 1 else 0
  {
    assert lens[..i + 1][..i] == lens[..i];
  }

  // ---------------------------------------------------------------------------------------------
  // The trees of fixed blocks
  // ---------------------------------------------------------------------------------------------

  lemma KraftSumLast(lens: seq<nat>)
    requires Within(lens, MAXBITS) && lens != [] && lens[|lens| - 1] > 0
    ensures KraftSum(lens, MAXBITS) == KraftSum(lens[..|lens| - 1], MAXBITS) + Pow2(MAXBITS - lens[|lens| - 1])
  {
  }

  lemma {:induction false} KraftConstant(lens: seq<nat>, n: nat, l: nat)
    requires Within(lens, MAXBITS) && 1 <= l <= MAXBITS
    ensures Within(lens + Repeat(n, l), MAXBITS)
    ensures KraftSum(lens + Repeat(n, l), MAXBITS) == KraftSum(lens, MAXBITS) + n * Pow2(MAXBITS - l)
  {
    if n == 0 {
      assert lens + Repeat(0, l) == lens;
    } else {
      var t := lens + Repeat(n, l);
      assert t[..|t| - 1] == lens + Repeat(n - 1, l);
      KraftConstant(lens, n - 1, l);
      KraftSumLast(t);
      hide KraftSum;
      MulDist(n - 1, 1, Pow2(MAXBITS - l));
    }
  }

  lemma FixedAcceptable()
    ensures TreeLengths(FixedLitLen()) && Acceptable(FixedLitLen())
    ensures TreeLengths(FixedDistance()) && Acceptable(FixedDistance())
    ensures KraftSum(FixedLitLen(), MAXBITS) == Pow2(MAXBITS) && KraftSum(FixedDistance(), MAXBITS) == Pow2(MAXBITS)
  {
    hide KraftSum;
    hide Present;
    var a, b, c := Repeat(144, 8), Repeat(112, 9), Repeat(24, 7);
    assert KraftSum([], MAXBITS) == 0 by { KraftOfNone(); }
    KraftConstant([], 144, 8);
    assert [] + a == a;
    KraftConstant(a, 112, 9);
    KraftConstant(a + b, 24, 7);
    KraftConstant(a + b + c, 8, 8);
    KraftConstant([], 32, 5);
    assert [] + Repeat(32, 5) == Repeat(32, 5);
    assert Pow2(7) == 128 && Pow2(6) == 64 && Pow2(8) == 256 && Pow2(10) == 1024 && Pow2(15) == 32768;
  }

  lemma KraftOfNone()
    ensures KraftSum([], MAXBITS) == 0
  {
  }

  method GenerateFixedLitLenTree(tree: Tree) returns (error: nat)
    modifies tree
    ensures error == 0 && tree.Valid() && tree.lengths == FixedLitLen()
  {
    hide KraftSum;
    hide Acceptable;
    hide TableOk;
    var bitlen := new nat[288](_ => 0);
    for i := 0 to 144
      invariant forall k :: 0 <= k < i ==> bitlen[k] == 8
    {
      bitlen[i] := 8;
    }
    for i := 144 to 256
      invariant forall k :: 0 <= k < i ==> bitlen[k] == FixedLitLen()[k]
    {
      bitlen[i] := 9;
    }
    for i := 256 to 280
      invariant forall k :: 0 <= k < i ==> bitlen[k] == FixedLitLen()[k]
    {
      bitlen[i] := 7;
    }
    for i := 280 to 288
      invariant forall k :: 0 <= k < i ==> bitlen[k] == FixedLitLen()[k]
    {
      bitlen[i] := 8;
    }
    assert bitlen[..] == FixedLitLen();
    FixedAcceptable();
    error := tree.MakeFromLengths(bitlen[..], MAXBITS);
  }

  method GenerateFixedDistanceTree(tree: Tree) returns (error: nat)
    modifies tree
    ensures error == 0 && tree.Valid() && tree.lengths == FixedDistance()
  {
    hide KraftSum;
    hide Acceptable;
    hide TableOk;
    var bitlen := new nat[32](_ => 0);
    for i := 0 to 32
      invariant forall k :: 0 <= k < i ==> bitlen[k] == 5
    {
      bitlen[i] := 5;
    }
    assert bitlen[..] == FixedDistance();
    FixedAcceptable();
    error := tree.MakeFromLengths(bitlen[..], MAXBITS);
  }
}
