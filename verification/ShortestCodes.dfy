/** The codes of a dynamic block are the shortest ones: no other prefix codes, of at most 15 bits for symbols and
    7 bits for code lengths, need fewer bits for the same tokens. */
module ShortestCodes {
  import opened Bits
  import opened Canonical
  import opened DeflateFormat
  import opened Lz77
  import opened Encoding
  import opened RunLengths
  import opened DynamicTrees
  import opened CodeLengths

  /** Any prefix code of at most `L` bits. */
  predicate IsPrefixCode(lens: seq<nat>, L: nat) {
    Within(lens, L) && Canonical.KraftSum(lens, L) <= Pow2(L)
  }

  ghost predicate ShortestTrees(ll: seq<nat>, dl: seq<nat>, ts: seq<Token>)
    requires AreTokens(ts) && AllHaveCodes(ll, dl, ts) && HasCode(ll, 256)
  {
    forall ll': seq<nat>, dl': seq<nat> ::
      IsPrefixCode(ll', 15) && IsPrefixCode(dl', 15) && AllHaveCodes(ll', dl', ts) && HasCode(ll', 256) ==>
        |EncodeTokens(ll, dl, ts)| + ll[256] <= |EncodeTokens(ll', dl', ts)| + ll'[256]
  }

  ghost predicate ShortestLengths(cl: seq<nat>, cs: seq<LengthToken>)
    requires LengthsHaveCodes(cl, cs)
  {
    forall cl': seq<nat> ::
      IsPrefixCode(cl', 7) && LengthsHaveCodes(cl', cs) ==> |EncodeLengths(cl, cs)| <= |EncodeLengths(cl', cs)|
  }

  // ---------------------------------------------------------------------------------------------
  // Costs
  // ---------------------------------------------------------------------------------------------

  function LengthAt(lens: seq<nat>, s: nat): nat {
    if s < |lens| then lens[s] else 0
  }

  /** The lengths of the first `n` symbols. */
  function Cut(lens: seq<nat>, n: nat): (r: seq<nat>)
    ensures |r| == n
  {
    seq(n, s requires 0 <= s < n => LengthAt(lens, s))
  }

  lemma {:induction false} CostOfOneMore(f: seq<nat>, lens: seq<nat>, s: nat)
    requires |f| == |lens| && s < |f|
    ensures CodeCost(f[s := f[s] + 1], lens) == CodeCost(f, lens) + lens[s]
  {
    var m, g := |f| - 1, f[s := f[s] + 1];
    if s < m {
      assert g[..m] == f[..m][s := f[s] + 1];
      CostOfOneMore(f[..m], lens[..m], s);
    } else {
      assert g[..m] == f[..m];
      MulDist(f[s], 1, lens[s]);
    }
  }

  lemma {:induction false} CostOfNone(f: seq<nat>, lens: seq<nat>)
    requires |f| == |lens| && forall s :: 0 <= s < |f| ==> f[s] == 0
    ensures CodeCost(f, lens) == 0
  {
    if f != [] {
      CostOfNone(f[..|f| - 1], lens[..|f| - 1]);
    }
  }

  // ---------------------------------------------------------------------------------------------
  // Other codes as codes for the symbols that occur
  // ---------------------------------------------------------------------------------------------

  lemma {:induction false} OccurringIsLess(f: seq<nat>, lens: seq<nat>, L: nat)
    requires |f| == |lens| && Within(lens, L) && forall s :: 0 <= s < |f| && f[s] > 0 ==> lens[s] > 0
    ensures OccurringKraft(f, lens, L) <= Canonical.KraftSum(lens, L)
  {
    if f != [] {
      OccurringIsLess(f[..|f| - 1], lens[..|f| - 1], L);
    }
  }

  lemma {:induction false} KraftOfPrefix(lens: seq<nat>, n: nat, L: nat)
    requires n <= |lens| && Within(lens, L)
    ensures Canonical.KraftSum(lens[..n], L) <= Canonical.KraftSum(lens, L)
  {
    if n < |lens| {
      KraftOfPrefix(lens[..|lens| - 1], n, L);
      assert lens[..|lens| - 1][..n] == lens[..n];
    } else {
      assert lens[..n] == lens;
    }
  }

  lemma CutIsCode(lens: seq<nat>, f: seq<nat>, L: nat)
    requires IsPrefixCode(lens, L) && forall s :: 0 <= s < |f| && f[s] > 0 ==> HasCode(lens, s)
    ensures IsCodeFor(f, Cut(lens, |f|), L)
  {
    hide Canonical.KraftSum;
    hide OccurringKraft;
    var n, c := |f|, Cut(lens, |f|);
    if n <= |lens| {
      KraftOfPrefix(lens, n, L);
      assert c == lens[..n];
    } else {
      KraftZeros(lens, n - |lens|, L);
      assert c == lens + Zeros(n - |lens|);
    }
    OccurringIsLess(f, c, L);
  }

  // ---------------------------------------------------------------------------------------------
  // Tokens
  // ---------------------------------------------------------------------------------------------

  function ExtraBits(t: Token): nat
    requires IsToken(t)
  {
    if t.Literal? then 0 else LengthExtra(t.lengthCode) + DistanceExtra(t.distCode)
  }

  function AllExtraBits(ts: seq<Token>): nat
    requires AreTokens(ts)
  {
    if ts == [] then 0 else AllExtraBits(ts[..|ts| - 1]) + ExtraBits(ts[|ts| - 1])
  }

  lemma SizeOfToken(ll: seq<nat>, dl: seq<nat>, t: Token)
    requires IsToken(t) && HasCodes(ll, dl, t)
    ensures |EncodeToken(ll, dl, t)| == LengthAt(ll, LitSymbol(t)) + (if t.Pair? then LengthAt(dl, t.distCode) else 0) + ExtraBits(t)
  {
    hide CodeBits;
    hide Lsb;
  }

  /** One token more is one symbol more. */
  lemma NextFrequencies(ts: seq<Token>, n: nat, m: nat)
    requires ts != [] && LitSymbol(ts[|ts| - 1]) < n && (ts[|ts| - 1].Pair? ==> ts[|ts| - 1].distCode < m)
    ensures var before, t := ts[..|ts| - 1], ts[|ts| - 1];
      var s, f, g := LitSymbol(t), LitFrequencies(before, n), DistFrequencies(before, m);
      && LitFrequencies(ts, n) == f[s := f[s] + 1]
      && DistFrequencies(ts, m) == if t.Pair? then g[t.distCode := g[t.distCode] + 1] else g
  {
  }

  /** The size of the encoded tokens with the end symbol, by symbols. */
  lemma {:induction false} SizeOfTokens(ll: seq<nat>, dl: seq<nat>, ts: seq<Token>, n: nat, m: nat)
    requires AreTokens(ts) && AllHaveCodes(ll, dl, ts) && n > 256
    requires forall k :: 0 <= k < |ts| ==> LitSymbol(ts[k]) < n && (ts[k].Pair? ==> ts[k].distCode < m)
    ensures |EncodeTokens(ll, dl, ts)| + LengthAt(ll, 256)
         == CodeCost(LitFrequencies(ts, n), Cut(ll, n)) + CodeCost(DistFrequencies(ts, m), Cut(dl, m)) + AllExtraBits(ts)
  {
    hide CodeCost;
    hide EncodeToken;
    hide ExtraBits;
    hide IsToken;
    hide HasCodes;
    if ts == [] {
      var zeros := seq(n, _ => 0);
      CostOfNone(zeros, Cut(ll, n));
      CostOfOneMore(zeros, Cut(ll, n), 256);
      assert LitFrequencies([], n) == zeros[256 := 1];
      CostOfNone(DistFrequencies([], m), Cut(dl, m));
    } else {
      var before, t := ts[..|ts| - 1], ts[|ts| - 1];
      assert forall k :: 0 <= k < |before| ==> before[k] == ts[k];
      SizeOfTokens(ll, dl, before, n, m);
      SizeOfToken(ll, dl, t);
      NextFrequencies(ts, n, m);
      hide LitCount;
      hide DistCount;
      hide LitFrequencies;
      hide DistFrequencies;
      CostOfOneMore(LitFrequencies(before, n), Cut(ll, n), LitSymbol(t));
      if t.Pair? {
        CostOfOneMore(DistFrequencies(before, m), Cut(dl, m), t.distCode);
      }
    }
  }

  lemma {:induction false} LitCounted(ts: seq<Token>, s: nat) returns (k: nat)
    requires LitCount(ts, s) > 0
    ensures k < |ts| && LitSymbol(ts[k]) == s
  {
    if LitSymbol(ts[|ts| - 1]) == s {
      k := |ts| - 1;
    } else {
      k := LitCounted(ts[..|ts| - 1], s);
    }
  }

  lemma {:induction false} DistCounted(ts: seq<Token>, d: nat) returns (k: nat)
    requires DistCount(ts, d) > 0
    ensures k < |ts| && ts[k].Pair? && ts[k].distCode == d
  {
    if ts[|ts| - 1].Pair? && ts[|ts| - 1].distCode == d {
      k := |ts| - 1;
    } else {
      k := DistCounted(ts[..|ts| - 1], d);
    }
  }

  lemma CountedHaveCodes(ll: seq<nat>, dl: seq<nat>, ts: seq<Token>, n: nat, m: nat)
    requires AllHaveCodes(ll, dl, ts) && HasCode(ll, 256)
    ensures forall s :: 0 <= s < n && LitFrequencies(ts, n)[s] > 0 ==> HasCode(ll, s)
    ensures forall d :: 0 <= d < m && DistFrequencies(ts, m)[d] > 0 ==> HasCode(dl, d)
  {
    hide LitCount;
    hide DistCount;
    forall s | 0 <= s < n && LitFrequencies(ts, n)[s] > 0
      ensures HasCode(ll, s)
    {
      if s != 256 {
        var k := LitCounted(ts, s);
        assert HasCodes(ll, dl, ts[k]);
      }
    }
    forall d | 0 <= d < m && DistFrequencies(ts, m)[d] > 0
      ensures HasCode(dl, d)
    {
      var k := DistCounted(ts, d);
      assert HasCodes(ll, dl, ts[k]);
    }
  }

  lemma SymbolsBelow(ll: seq<nat>, dl: seq<nat>, ts: seq<Token>)
    requires AllHaveCodes(ll, dl, ts)
    ensures forall k :: 0 <= k < |ts| ==> LitSymbol(ts[k]) < |ll| && (ts[k].Pair? ==> ts[k].distCode < |dl|)
  {
    forall k | 0 <= k < |ts|
      ensures LitSymbol(ts[k]) < |ll| && (ts[k].Pair? ==> ts[k].distCode < |dl|)
    {
      assert HasCodes(ll, dl, ts[k]);
    }
  }

  /** Codes that are the cheapest for the counts make the block the shortest. */
  lemma CheapestIsShortest(ll: seq<nat>, dl: seq<nat>, ts: seq<Token>)
    requires AreTokens(ts) && AllHaveCodes(ll, dl, ts) && HasCode(ll, 256)
    requires CheapestCode(LitFrequencies(ts, |ll|), ll, 15) && CheapestCode(DistFrequencies(ts, |dl|), dl, 15)
    ensures ShortestTrees(ll, dl, ts)
  {
    hide CodeCost;
    hide LitFrequencies;
    hide DistFrequencies;
    hide IsPrefixCode;
    hide EncodeTokens;
    hide AreTokens;
    hide AllHaveCodes;
    hide IsCodeFor;
    var n, m := |ll|, |dl|;
    SymbolsBelow(ll, dl, ts);
    SizeOfTokens(ll, dl, ts, n, m);
    assert Cut(ll, n) == ll && Cut(dl, m) == dl;
    forall ll': seq<nat>, dl': seq<nat> |
      IsPrefixCode(ll', 15) && IsPrefixCode(dl', 15) && AllHaveCodes(ll', dl', ts) && HasCode(ll', 256)
      ensures |EncodeTokens(ll, dl, ts)| + ll[256] <= |EncodeTokens(ll', dl', ts)| + ll'[256]
    {
      CountedHaveCodes(ll', dl', ts, n, m);
      CutIsCode(ll', LitFrequencies(ts, n), 15);
      CutIsCode(dl', DistFrequencies(ts, m), 15);
      SizeOfTokens(ll', dl', ts, n, m);
    }
  }

  // ---------------------------------------------------------------------------------------------
  // Code lengths
  // ---------------------------------------------------------------------------------------------

  function AllRepeatBits(cs: seq<LengthToken>): nat {
    if cs == [] then 0
    else AllRepeatBits(cs[..|cs| - 1]) + if cs[|cs| - 1].symbol < 16 then 0 else RepeatExtra(cs[|cs| - 1].symbol)
  }

  lemma NextClFrequencies(cs: seq<LengthToken>)
    requires cs != [] && cs[|cs| - 1].symbol < 19
    ensures var f, s := ClFrequencies(cs[..|cs| - 1]), cs[|cs| - 1].symbol; ClFrequencies(cs) == f[s := f[s] + 1]
  {
  }

  lemma {:induction false} SizeOfLengths(cl: seq<nat>, cs: seq<LengthToken>)
    requires AreLengthTokens(cs) && LengthsHaveCodes(cl, cs)
    ensures |EncodeLengths(cl, cs)| == CodeCost(ClFrequencies(cs), Cut(cl, 19)) + AllRepeatBits(cs)
  {
    hide CodeCost;
    hide CodeBits;
    hide Lsb;
    if cs == [] {
      CostOfNone(ClFrequencies([]), Cut(cl, 19));
    } else {
      var before, c := cs[..|cs| - 1], cs[|cs| - 1];
      SizeOfLengths(cl, before);
      assert IsLengthToken(c) && HasCode(cl, c.symbol);
      NextClFrequencies(cs);
      CostOfOneMore(ClFrequencies(before), Cut(cl, 19), c.symbol);
    }
  }

  lemma {:induction false} ClCountedAt(cs: seq<LengthToken>, s: nat) returns (k: nat)
    requires ClCount(cs, s) > 0
    ensures k < |cs| && cs[k].symbol == s
  {
    if cs[|cs| - 1].symbol == s {
      k := |cs| - 1;
    } else {
      k := ClCountedAt(cs[..|cs| - 1], s);
    }
  }

  lemma CheapestLengthsAreShortest(cl: seq<nat>, cs: seq<LengthToken>)
    requires AreLengthTokens(cs) && LengthsHaveCodes(cl, cs) && |cl| == 19 && CheapestCode(ClFrequencies(cs), cl, 7)
    ensures ShortestLengths(cl, cs)
  {
    hide CodeCost;
    hide EncodeLengths;
    hide IsPrefixCode;
    hide AreLengthTokens;
    hide IsCodeFor;
    SizeOfLengths(cl, cs);
    assert Cut(cl, 19) == cl;
    forall cl': seq<nat> | IsPrefixCode(cl', 7) && LengthsHaveCodes(cl', cs)
      ensures |EncodeLengths(cl, cs)| <= |EncodeLengths(cl', cs)|
    {
      forall s | 0 <= s < 19 && ClFrequencies(cs)[s] > 0
        ensures HasCode(cl', s)
      {
        var k := ClCountedAt(cs, s);
        assert HasCode(cl', cs[k].symbol);
      }
      CutIsCode(cl', ClFrequencies(cs), 7);
      SizeOfLengths(cl', cs);
    }
  }
}
