/** The trees of a dynamic block: symbols are counted, the trees are made from the counts, and their
    lengths are sent in a header of their own. */
module DynamicTrees {
  import opened Bits
  import opened BitStream
  import opened Canonical
  import opened DeflateFormat
  import opened Wrappers
  import opened HuffmanTree
  import opened Lz77
  import opened Encoding
  import opened RunLengths
  import opened HuffmanBlocks
  import opened DecodeTable
  import CodeLengths

  // ---------------------------------------------------------------------------------------------
  // Counting symbols
  // ---------------------------------------------------------------------------------------------

  /** The literal/length symbol of a token. */
  function LitSymbol(t: Token): nat {
    match t
    case Literal(b) => b
    case Pair(lengthCode, _, _, _) => lengthCode + FIRST_LENGTH_CODE_INDEX
  }

  function LitCount(ts: seq<Token>, s: nat): nat {
    if ts == [] then 0 else LitCount(ts[..|ts| - 1], s) + if LitSymbol(ts[|ts| - 1]) == s then 1 else 0
  }

  function DistCount(ts: seq<Token>, d: nat): nat {
    if ts == [] then 0 else DistCount(ts[..|ts| - 1], d) + if ts[|ts| - 1].Pair? && ts[|ts| - 1].distCode == d then 1 else 0
  }

  /** How often the first `n` symbols occur; the end symbol once. */
  function LitFrequencies(ts: seq<Token>, n: nat): (f: seq<nat>)
    ensures |f| == n
  {
    seq(n, s requires 0 <= s < n => LitCount(ts, s) + if s == 256 then 1 else 0)
  }

  function DistFrequencies(ts: seq<Token>, n: nat): (f: seq<nat>)
    ensures |f| == n
  {
    seq(n, d requires 0 <= d < n => DistCount(ts, d))
  }

  lemma {:induction false} NoEndCounted(ts: seq<Token>)
    requires AreTokens(ts)
    ensures LitCount(ts, 256) == 0
  {
    if ts != [] {
      assert IsToken(ts[|ts| - 1]);
      NoEndCounted(ts[..|ts| - 1]);
    }
  }

  lemma {:induction false} Counted(ts: seq<Token>, k: nat)
    requires k < |ts|
    ensures LitCount(ts, LitSymbol(ts[k])) > 0
    ensures ts[k].Pair? ==> DistCount(ts, ts[k].distCode) > 0
  {
    if k < |ts| - 1 {
      Counted(ts[..|ts| - 1], k);
    }
  }

  /** Whatever has a code for all that was counted has a code for all tokens. */
  lemma CountsGiveCodes(ts: seq<Token>, ll: seq<nat>, dl: seq<nat>)
    requires AreTokens(ts)
    requires forall s: nat :: s < 286 && LitCount(ts, s) > 0 ==> HasCode(ll, s)
    requires forall d: nat :: d < 30 && DistCount(ts, d) > 0 ==> HasCode(dl, d)
    ensures AllHaveCodes(ll, dl, ts)
  {
    hide LitCount;
    hide DistCount;
    hide HasCode;
    forall k | 0 <= k < |ts|
      ensures HasCodes(ll, dl, ts[k])
    {
      Counted(ts, k);
      assert IsToken(ts[k]);
    }
  }

  /** Counts the symbols. The end symbol is counted once. */
  method CountFrequencies(values: seq<nat>, ghost ts: seq<Token>) returns (frequencies_ll: seq<nat>, frequencies_d: seq<nat>)
    requires AreTokens(ts) && values == Flat(ts)
    ensures |frequencies_ll| == 286 && |frequencies_d| == 30
    ensures frequencies_ll == LitFrequencies(ts, 286) && frequencies_d == DistFrequencies(ts, 30)
  {
    hide Flat;
    hide Values;
    hide IsToken;
    var ll, d := new nat[286](_ => 0), new nat[30](_ => 0);
    var i: nat := 0;
    ghost var k := 0;
    FlatLength(ts);
    while i != |values|
      invariant 0 <= k <= |ts| && i == |Flat(ts[..k])| && (k == |ts| ==> i == |values|)
      invariant forall s: nat :: s < 286 ==> ll[s] == LitCount(ts[..k], s)
      invariant forall s: nat :: s < 30 ==> d[s] == DistCount(ts[..k], s)
      decreases |ts| - k
    {
      hide LitCount;
      hide DistCount;
      hide LitSymbol;
      FlatAt(ts, k);
      CountStep(ts, k);
      i := CountToken(values, i, ll, d, ts[k]);
      k := k + 1;
      assert k == |ts| ==> ts[..k] == ts;
    }
    FlatGrows(ts, k);
    assert ts[..|ts|] == ts;
    ll[256] := 1;
    NoEndCounted(ts);
    frequencies_ll, frequencies_d := ll[..], d[..];
    hide LitCount;
    hide DistCount;
    assert frequencies_ll == LitFrequencies(ts, 286);
    assert frequencies_d == DistFrequencies(ts, 30);
  }

  method CountToken(values: seq<nat>, i0: nat, ll: array<nat>, d: array<nat>, ghost t: Token) returns (i: nat)
    requires ll.Length == 286 && d.Length == 30 && ll != d && IsToken(t)
    requires i0 + |Values(t)| <= |values| && values[i0..i0 + |Values(t)|] == Values(t)
    modifies ll, d
    ensures i == i0 + |Values(t)|
    ensures forall s :: 0 <= s < 286 ==> ll[s] == old(ll[s]) + if LitSymbol(t) == s then 1 else 0
    ensures forall x :: 0 <= x < 30 ==> d[x] == old(d[x]) + if t.Pair? && t.distCode == x then 1 else 0
  {
    hide Pow2;
    ValuesThere(values, i0, t);
    i := i0;
    var symbol := values[i];
    ll[symbol] := ll[symbol] + 1;
    if symbol > 256 {
      var dist := values[i + 2];
      d[dist] := d[dist] + 1;
      i := i + 3;
    }
    i := i + 1;
  }

  lemma CountStep(ts: seq<Token>, k: nat)
    requires k < |ts|
    ensures forall s: nat :: LitCount(ts[..k + 1], s) == LitCount(ts[..k], s) + if LitSymbol(ts[k]) == s then 1 else 0
    ensures forall d: nat :: DistCount(ts[..k + 1], d) == DistCount(ts[..k], d) + if ts[k].Pair? && ts[k].distCode == d then 1 else 0
  {
    assert ts[..k + 1][..k] == ts[..k];
  }

  function ClCount(cs: seq<LengthToken>, s: nat): nat {
    if cs == [] then 0 else ClCount(cs[..|cs| - 1], s) + if cs[|cs| - 1].symbol == s then 1 else 0
  }

  function ClFrequencies(cs: seq<LengthToken>): (f: seq<nat>)
    ensures |f| == 19
  {
    seq(19, s requires 0 <= s < 19 => ClCount(cs, s))
  }

  lemma {:induction false} ClCounted(cs: seq<LengthToken>, k: nat)
    requires k < |cs|
    ensures ClCount(cs, cs[k].symbol) > 0
  {
    if k < |cs| - 1 {
      ClCounted(cs[..|cs| - 1], k);
    }
  }

  lemma {:induction false} FlatLengthsAt(cs: seq<LengthToken>, k: nat)
    requires k < |cs|
    ensures var i, v := |FlatLengths(cs[..k])|, LengthValues(cs[k]);
      && i + |v| <= |FlatLengths(cs)| && FlatLengths(cs)[i..i + |v|] == v
      && |FlatLengths(cs[..k + 1])| == i + |v|
  {
    hide LengthValues;
    var m := |cs| - 1;
    assert cs[..k + 1][..k] == cs[..k];
    if k == m {
      assert cs[..k + 1] == cs;
    } else {
      FlatLengthsAt(cs[..m], k);
      assert cs[..m][..k] == cs[..k] && cs[..m][..k + 1] == cs[..k + 1];
    }
  }

  lemma LengthValuesThere(values: seq<nat>, i: nat, c: LengthToken)
    requires i + |LengthValues(c)| <= |values| && values[i..i + |LengthValues(c)|] == LengthValues(c)
    ensures values[i] == c.symbol
    ensures c.symbol >= 16 ==> values[i + 1] == c.extra
  {
    var v := values[i..i + |LengthValues(c)|];
    assert v[0] == values[i];
    if c.symbol >= 16 {
      assert v[1] == values[i + 1];
    }
  }

  lemma FlatLengthsEnds(cs: seq<LengthToken>, k: nat)
    requires k <= |cs|
    ensures cs[..0] == [] && cs[..|cs|] == cs
    ensures |FlatLengths(cs[..k])| == |FlatLengths(cs)| ==> k == |cs|
  {
    assert cs[..|cs|] == cs;
    if k < |cs| {
      FlatLengthsAt(cs, k);
    }
  }

  /** Counts the symbols of the code length code; extra bits are passed over. */
  method CountLengthSymbols(values: seq<nat>, ghost cs: seq<LengthToken>) returns (frequencies_cl: seq<nat>)
    requires AreLengthTokens(cs) && values == FlatLengths(cs)
    ensures frequencies_cl == ClFrequencies(cs)
  {
    hide FlatLengths;
    var cl := new nat[19](_ => 0);
    var i: nat := 0;
    ghost var k := 0;
    FlatLengthsEnds(cs, 0);
    assert FlatLengths([]) == [] by { NoFlatLengths(); }
    while i != |values|
      invariant 0 <= k <= |cs| && i == |FlatLengths(cs[..k])| && (k == |cs| ==> i == |values|)
      invariant forall s: nat :: s < 19 ==> cl[s] == ClCount(cs[..k], s)
      decreases |cs| - k
    {
      hide Pow2;
      FlatLengthsAt(cs, k);
      assert IsLengthToken(cs[k]);
      LengthValuesThere(values, i, cs[k]);
      assert cs[..k + 1][..k] == cs[..k];
      cl[values[i]] := cl[values[i]] + 1;
      if values[i] >= 16 {
        i := i + 1;
      }
      i := i + 1;
      k := k + 1;
      FlatLengthsEnds(cs, k);
    }
    FlatLengthsEnds(cs, k);
    frequencies_cl := cl[..];
  }

  lemma NoFlatLengths()
    ensures FlatLengths([]) == []
  {
  }

  /** The code for code lengths, and how many of its own lengths are sent. */
  method MakeLengthTree(values: seq<nat>, tree_cl: Tree, ghost cs: seq<LengthToken>) returns (numcodes_cl: nat)
    requires AreLengthTokens(cs) && values == FlatLengths(cs)
    modifies tree_cl
    ensures tree_cl.Valid() && |tree_cl.lengths| == 19 && Within(tree_cl.lengths, 7) && IsTree(tree_cl.lengths)
    ensures LengthsHaveCodes(tree_cl.lengths, cs)
    ensures CodeLengths.CheapestCode(ClFrequencies(cs), tree_cl.lengths, 7)
    ensures 4 <= numcodes_cl <= 19 && forall i :: numcodes_cl <= i < 19 ==> tree_cl.lengths[CLCL_ORDER[i]] == 0
    ensures numcodes_cl > 4 ==> tree_cl.lengths[CLCL_ORDER[numcodes_cl - 1]] > 0
  {
    hide FlatLengths;
    hide ClCount;
    hide KraftSum;
    hide Present;
    hide CodeLengths.Occurring;
    hide CodeLengths.CheapestCode;
    hide TableOk;
    hide CodesOf;
    var frequencies_cl := CountLengthSymbols(values, cs);
    assert Pow2(7) == 128;
    var error := tree_cl.MakeFromFrequencies(frequencies_cl, 19, 7);
    assert frequencies_cl[..19] == frequencies_cl;
    forall k | 0 <= k < |cs|
      ensures HasCode(tree_cl.lengths, cs[k].symbol)
    {
      ClCounted(cs, k);
      assert IsLengthToken(cs[k]);
    }
    numcodes_cl := 19;
    while numcodes_cl > 4 && tree_cl.lengths[CLCL_ORDER[numcodes_cl - 1]] == 0
      invariant 4 <= numcodes_cl <= 19
      invariant forall i :: numcodes_cl <= i < 19 ==> tree_cl.lengths[CLCL_ORDER[i]] == 0
    {
      numcodes_cl := numcodes_cl - 1;
    }
  }

  // ---------------------------------------------------------------------------------------------
  // The header
  // ---------------------------------------------------------------------------------------------

  /** A complete tree over the first symbols of an alphabet. */
  predicate CompleteTree(lens: seq<nat>) {
    TreeLengths(lens) && KraftSum(lens, MAXBITS) == Pow2(MAXBITS)
  }

  /** The tree for the code lengths, and how it encodes them. */
  predicate LengthCode(cl: seq<nat>, n: nat, cs: seq<LengthToken>, lens: seq<nat>) {
    && |cl| == 19 && Within(cl, 7) && IsTree(cl) && 4 <= n <= 19
    && (forall i :: n <= i < 19 ==> cl[CLCL_ORDER[i]] == 0)
    && AreLengthTokens(cs) && LengthsHaveCodes(cl, cs) && ExpandLengths(cs) == Some(lens)
  }

  /** Lengths that give trees when they are filled up to the whole alphabets. */
  predicate FillsTo(ll: seq<nat>, dl: seq<nat>, LL: seq<nat>, DL: seq<nat>) {
    && 257 <= |ll| <= 288 && 1 <= |dl| <= 32 && HasCode(ll, 256)
    && LL == ll + Zeros(288 - |ll|) && DL == dl + Zeros(32 - |dl|) && IsTree(LL) && IsTree(DL)
  }

  lemma CompleteTreesFill(ll: seq<nat>, dl: seq<nat>)
    requires 257 <= |ll| <= 286 && 1 <= |dl| <= 30 && HasCode(ll, 256) && CompleteTree(ll) && CompleteTree(dl)
    ensures FillsTo(ll, dl, ll + Zeros(288 - |ll|), dl + Zeros(32 - |dl|))
  {
    hide IsTree;
    hide KraftSum;
    FilledTree(ll, 288 - |ll|);
    FilledTree(dl, 32 - |dl|);
  }

  lemma FilledTrees(ll: seq<nat>, dl: seq<nat>, LL: seq<nat>, DL: seq<nat>, next: nat)
    requires FillsTo(ll, dl, LL, DL)
    ensures TreesFrom(ll + dl, |ll|, |dl|, next) == Some(Trees(LL, DL, next))
  {
    hide IsTree;
    assert (ll + dl)[..|ll|] == ll && (ll + dl)[|ll|..] == dl;
  }

  lemma HeaderFields(bits: seq<bit>, p: nat, hlit: nat, hdist: nat, n: nat)
    requires 257 <= hlit <= 288 && 1 <= hdist <= 32 && 4 <= n <= 19
    requires At(bits, p, Lsb(hlit - 257, 5)) && At(bits, p + 5, Lsb(hdist - 1, 5)) && At(bits, p + 10, Lsb(n - 4, 4))
    ensures Window(bits, p, 5) == hlit - 257 && Window(bits, p + 5, 5) == hdist - 1 && Window(bits, p + 10, 4) == n - 4
  {
    hide At;
    hide Window;
    hide Lsb;
    assert Pow2(5) == 32 && Pow2(4) == 16;
    hide Pow2;
    FieldWritten(bits, p, hlit - 257, 5);
    FieldWritten(bits, p + 5, hdist - 1, 5);
    FieldWritten(bits, p + 10, n - 4, 4);
  }

  lemma LengthsRead(cl: seq<nat>, n: nat, cs: seq<LengthToken>, lens: seq<nat>, bits: seq<bit>, p: nat, q: nat, next: nat)
    requires LengthCode(cl, n, cs, lens) && At(bits, p, EncodeOrder(cl, n)) && At(bits, q, EncodeLengths(cl, cs))
    requires q == p + 3 * n && next == q + |EncodeLengths(cl, cs)|
    ensures 4 <= n <= 19 && IsTree(cl) && q <= |bits| && CodeLengthLengths(bits, p, n) == cl
    ensures ReadLengths(cl, bits, q, |lens|, []) == Some((next, lens))
  {
    hide IsTree;
    hide At;
    hide EncodeOrder;
    hide EncodeLengths;
    hide ReadLengths;
    hide CodeLengthLengths;
    hide ExpandLengths;
    hide AreLengthTokens;
    hide LengthsHaveCodes;
    hide Within;
    AtInside(bits, q, EncodeLengths(cl, cs));
    CodeLengthsDecoded(cl, bits, p, n);
    RunsDecoded(cl, bits, q, cs, lens);
  }

  lemma HeaderAt(ll: seq<nat>, dl: seq<nat>, cl: seq<nat>, n: nat, cs: seq<LengthToken>, bits: seq<bit>, p: nat, q: nat, next: nat,
                 lens: seq<nat>, LL: seq<nat>, DL: seq<nat>)
    requires lens == ll + dl && 257 <= |ll| <= 288 && 1 <= |dl| <= 32 && FillsTo(ll, dl, LL, DL)
    requires LengthCode(cl, n, cs, lens)
    requires At(bits, p, Lsb(|ll| - 257, 5)) && At(bits, p + 5, Lsb(|dl| - 1, 5)) && At(bits, p + 10, Lsb(n - 4, 4))
    requires At(bits, p + 14, EncodeOrder(cl, n)) && At(bits, q, EncodeLengths(cl, cs))
    requires q == p + 14 + 3 * n && next == q + |EncodeLengths(cl, cs)|
    ensures ReadTrees(bits, p) == Some(Trees(LL, DL, next))
  {
    hide *;
    LengthsRead(cl, n, cs, lens, bits, p + 14, q, next);
    HeaderFields(bits, p, |ll|, |dl|, n);
    FilledTrees(ll, dl, LL, DL, next);
    HeaderParts(bits, p, cl, n, lens, |ll|, |dl|, q, next);
  }

  lemma HeaderParts(bits: seq<bit>, p: nat, cl: seq<nat>, n: nat, lens: seq<nat>, hlit: nat, hdist: nat, q: nat, next: nat)
    requires 4 <= n <= 19 && IsTree(cl) && q <= |bits| && |lens| == hlit + hdist && 257 <= hlit <= 288 && 1 <= hdist <= 32
    requires Window(bits, p, 5) == hlit - 257 && Window(bits, p + 5, 5) == hdist - 1 && Window(bits, p + 10, 4) == n - 4
    requires CodeLengthLengths(bits, p + 14, n) == cl
    requires q == p + 14 + 3 * n && ReadLengths(cl, bits, q, |lens|, []) == Some((next, lens))
    ensures ReadTrees(bits, p) == TreesFrom(lens, hlit, hdist, next)
  {
    hide Window;
    hide ReadLengths;
    hide CodeLengthLengths;
    hide TreesFrom;
  }

  /** The header of a dynamic block. */
  function EncodeHeader(ll: seq<nat>, dl: seq<nat>, cl: seq<nat>, n: nat, cs: seq<LengthToken>): seq<bit>
    requires 257 <= |ll| && 1 <= |dl| && |cl| == 19 && 4 <= n <= 19 && LengthsHaveCodes(cl, cs)
  {
    Lsb(|ll| - 257, 5) + Lsb(|dl| - 1, 5) + Lsb(n - 4, 4) + EncodeOrder(cl, n) + EncodeLengths(cl, cs)
  }

  /** The decoder gets the trees out of a header, filled up to the whole alphabets. */
  lemma HeaderRead(ll: seq<nat>, dl: seq<nat>, cl: seq<nat>, n: nat, cs: seq<LengthToken>, LL: seq<nat>, DL: seq<nat>)
    requires 257 <= |ll| <= 288 && 1 <= |dl| <= 32 && FillsTo(ll, dl, LL, DL) && LengthCode(cl, n, cs, ll + dl)
    ensures TreesMean(2, EncodeHeader(ll, dl, cl, n, cs), LL, DL)
  {
    hide FillsTo;
    hide At;
    hide Lsb;
    hide EncodeOrder;
    hide EncodeLengths;
    hide ReadTrees;
    var e := EncodeHeader(ll, dl, cl, n, cs);
    var a, b, c, d := Lsb(|ll| - 257, 5), Lsb(|dl| - 1, 5), Lsb(n - 4, 4), EncodeOrder(cl, n);
    forall bits: seq<bit>, p: nat | At(bits, p, e)
      ensures ReadTrees(bits, p) == Some(Trees(LL, DL, p + |e|))
    {
      AtConcat(bits, p, a + b + c + d, EncodeLengths(cl, cs));
      AtConcat(bits, p, a + b + c, d);
      AtConcat(bits, p, a + b, c);
      AtConcat(bits, p, a, b);
      HeaderAt(ll, dl, cl, n, cs, bits, p, p + 14 + 3 * n, p + |e|, ll + dl, LL, DL);
    }
  }

  /** The decoder gets the encoder's trees. */
  lemma HeaderDecoded(ll: seq<nat>, dl: seq<nat>, cl: seq<nat>, n: nat, cs: seq<LengthToken>)
    requires 257 <= |ll| <= 286 && 1 <= |dl| <= 30 && HasCode(ll, 256) && CompleteTree(ll) && CompleteTree(dl)
    requires LengthCode(cl, n, cs, ll + dl)
    ensures TreesMean(2, EncodeHeader(ll, dl, cl, n, cs), ll + Zeros(288 - |ll|), dl + Zeros(32 - |dl|))
  {
    hide *;
    CompleteTreesFill(ll, dl);
    HeaderRead(ll, dl, cl, n, cs, ll + Zeros(288 - |ll|), dl + Zeros(32 - |dl|));
  }

  /** Both trees, from the symbols that occur. */
  method MakeTrees(values: seq<nat>, tree_ll: Tree, tree_d: Tree, ghost ts: seq<Token>)
    requires AreTokens(ts) && values == Flat(ts) && tree_ll != tree_d
    modifies tree_ll, tree_d
    ensures tree_ll.Valid() && 257 <= |tree_ll.lengths| <= 286 && CompleteTree(tree_ll.lengths)
    ensures tree_d.Valid() && 2 <= |tree_d.lengths| <= 30 && CompleteTree(tree_d.lengths)
    ensures AllHaveCodes(tree_ll.lengths, tree_d.lengths, ts) && HasCode(tree_ll.lengths, 256)
    ensures CodeLengths.CheapestCode(LitFrequencies(ts, |tree_ll.lengths|), tree_ll.lengths, 15)
    ensures CodeLengths.CheapestCode(DistFrequencies(ts, |tree_d.lengths|), tree_d.lengths, 15)
  {
    hide Flat;
    hide LitCount;
    hide DistCount;
    hide KraftSum;
    hide Present;
    hide CodeLengths.Occurring;
    hide CodeLengths.CheapestCode;
    hide TableOk;
    hide CodesOf;
    hide AreTokens;
    hide AllHaveCodes;
    var frequencies_ll, frequencies_d := CountFrequencies(values, ts);
    Pow2Values();
    var error := tree_ll.MakeFromFrequencies(frequencies_ll, 257, 15);
    error := tree_d.MakeFromFrequencies(frequencies_d, 2, 15);
    ghost var ll, dl := tree_ll.lengths, tree_d.lengths;
    assert frequencies_ll[256] > 0;
    assert frequencies_ll[..|ll|] == LitFrequencies(ts, |ll|) && frequencies_d[..|dl|] == DistFrequencies(ts, |dl|);
    forall s: nat | s < 286 && LitCount(ts, s) > 0
      ensures HasCode(ll, s)
    {
      assert frequencies_ll[s] > 0;
    }
    forall d: nat | d < 30 && DistCount(ts, d) > 0
      ensures HasCode(dl, d)
    {
      assert frequencies_d[d] > 0;
    }
    CountsGiveCodes(ts, ll, dl);
  }

  /** The lengths of both trees in one row, run-length coded, and the tree for that. */
  method MakeHeader(tree_ll: Tree, tree_d: Tree, tree_cl: Tree)
    returns (numcodes_ll: nat, numcodes_d: nat, bitlen_lld_e: seq<nat>, numcodes_cl: nat, ghost cs: seq<LengthToken>)
    requires tree_ll.Valid() && 257 <= |tree_ll.lengths| <= 286 && tree_d.Valid() && 2 <= |tree_d.lengths| <= 30
    requires tree_cl != tree_ll && tree_cl != tree_d
    modifies tree_cl
    ensures numcodes_ll == |tree_ll.lengths| && numcodes_d == |tree_d.lengths| && bitlen_lld_e == FlatLengths(cs)
    ensures tree_cl.Valid() && LengthCode(tree_cl.lengths, numcodes_cl, cs, tree_ll.lengths + tree_d.lengths)
    ensures CodeLengths.CheapestCode(ClFrequencies(cs), tree_cl.lengths, 7) && Economical(cs)
    ensures numcodes_cl > 4 ==> tree_cl.lengths[CLCL_ORDER[numcodes_cl - 1]] > 0
  {
    hide Economical;
    hide CodeLengths.CheapestCode;
    hide Flat;
    hide KraftSum;
    hide Present;
    hide TableOk;
    hide CodesOf;
    hide FlatLengths;
    hide AreLengthTokens;
    hide LengthsHaveCodes;
    hide ExpandLengths;
    numcodes_ll := if tree_ll.numcodes < 286 then tree_ll.numcodes else 286;
    numcodes_d := if tree_d.numcodes < 30 then tree_d.numcodes else 30;
    var bitlen_lld := new nat[numcodes_ll + numcodes_d](_ => 0);
    for i := 0 to numcodes_ll
      invariant forall k :: 0 <= k < i ==> bitlen_lld[k] == tree_ll.lengths[k]
    {
      bitlen_lld[i] := tree_ll.lengths[i];
    }
    for i := 0 to numcodes_d
      invariant forall k :: 0 <= k < numcodes_ll ==> bitlen_lld[k] == tree_ll.lengths[k]
      invariant forall k :: 0 <= k < i ==> bitlen_lld[numcodes_ll + k] == tree_d.lengths[k]
    {
      bitlen_lld[numcodes_ll + i] := tree_d.lengths[i];
    }
    assert bitlen_lld[..numcodes_ll] == tree_ll.lengths && bitlen_lld[numcodes_ll..] == tree_d.lengths;
    assert bitlen_lld[..] == tree_ll.lengths + tree_d.lengths;
    bitlen_lld_e, cs := EncodeRuns(bitlen_lld[..]);
    numcodes_cl := MakeLengthTree(bitlen_lld_e, tree_cl, cs);
  }
}
