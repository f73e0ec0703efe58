/** The run-length coding of code lengths (section 3.2.7 of RFC 1951), in a buffer that is no larger than
    what is encoded, and the header of a dynamic block. */
module RunLengths {
  import opened Bits
  import opened BitStream
  import opened Canonical
  import opened DeflateFormat
  import opened Wrappers
  import opened Encoding

  /** A code length, or a repetition with the extra bits that say how often. */
  datatype LengthToken = LengthToken(symbol: nat, extra: nat)

  predicate IsLengthToken(c: LengthToken) {
    c.symbol <= 18 && (c.symbol >= 16 ==> c.extra < Pow2(RepeatExtra(c.symbol)))
  }

  predicate AreLengthTokens(cs: seq<LengthToken>) {
    forall i :: 0 <= i < |cs| ==> IsLengthToken(cs[i])
  }

  /** The lengths that a token appends. */
  function Append(c: LengthToken, acc: seq<nat>): (r: Option<seq<nat>>)
    ensures r.Some? ==> acc <= r.value && |acc| < |r.value|
  {
    if c.symbol <= 15 then Some(acc + [c.symbol])
    else if c.symbol == 16 && acc == [] then None
    else Some(acc + Repeat(RepeatBase(c.symbol) + c.extra, if c.symbol == 16 then acc[|acc| - 1] else 0))
  }

  function ExpandLengths(cs: seq<LengthToken>): Option<seq<nat>> {
    if cs == [] then Some([])
    else
      match ExpandLengths(cs[..|cs| - 1])
      case None => None
      case Some(acc) => Append(cs[|cs| - 1], acc)
  }

  /** Tokens as numbers in a row. */
  function LengthValues(c: LengthToken): seq<nat> {
    if c.symbol < 16 then [c.symbol] else [c.symbol, c.extra]
  }

  function FlatLengths(cs: seq<LengthToken>): seq<nat> {
    if cs == [] then [] else FlatLengths(cs[..|cs| - 1]) + LengthValues(cs[|cs| - 1])
  }

  /** The tokens encode the first `i` lengths and fill no more than `i` entries. */
  ghost predicate Encodes(cs: seq<LengthToken>, values: seq<nat>, lens: seq<nat>, i: nat) {
    && i <= |lens| && |values| <= i
    && AreLengthTokens(cs) && values == FlatLengths(cs) && ExpandLengths(cs) == Some(lens[..i])
  }

  lemma EncodesNothing(lens: seq<nat>)
    ensures Encodes([], [], lens, 0)
  {
  }

  lemma EncodesLength(cs: seq<LengthToken>, values: seq<nat>, lens: seq<nat>, i: nat)
    requires Encodes(cs, values, lens, i) && i < |lens| && lens[i] <= 15
    ensures Encodes(cs + [LengthToken(lens[i], 0)], values + [lens[i]], lens, i + 1)
  {
    var after := cs + [LengthToken(lens[i], 0)];
    assert after[..|after| - 1] == cs;
    assert lens[..i] + [lens[i]] == lens[..i + 1];
  }

  /** A repetition of at least three lengths. */
  lemma EncodesRepeat(cs: seq<LengthToken>, values: seq<nat>, lens: seq<nat>, i: nat, c: LengthToken, n: nat)
    requires Encodes(cs, values, lens, i) && IsLengthToken(c) && c.symbol >= 16
    requires n == RepeatBase(c.symbol) + c.extra && i + n <= |lens|
    requires c.symbol == 16 ==> i > 0
    requires forall k :: i <= k < i + n ==> lens[k] == if c.symbol == 16 then lens[i - 1] else 0
    ensures Encodes(cs + [c], values + [c.symbol, c.extra], lens, i + n)
  {
    hide Pow2;
    var after := cs + [c];
    assert after[..|after| - 1] == cs;
    var x := if c.symbol == 16 then lens[i - 1] else 0;
    assert lens[..i] + Repeat(n, x) == lens[..i + n];
  }

  // ---------------------------------------------------------------------------------------------
  // Lengths that are written singly
  // ---------------------------------------------------------------------------------------------

  /** How many tokens at the end are single lengths `v`. */
  function Singles(cs: seq<LengthToken>, v: nat): nat {
    if cs == [] || cs[|cs| - 1].symbol != v then 0 else 1 + Singles(cs[..|cs| - 1], v)
  }

  function MostSingles(v: nat): nat {
    if v == 0 then 2 else 3
  }

  /** Never more than two zeros, or three other equal lengths, are written singly in a row. */
  ghost predicate Economical(cs: seq<LengthToken>) {
    forall k: nat, v: nat :: k <= |cs| && v < 16 ==> Singles(cs[..k], v) <= MostSingles(v)
  }

  /** How many lengths from `i` on are equal. */
  function RunFrom(lens: seq<nat>, i: nat): nat
    requires i < |lens|
    decreases |lens| - i
  {
    1 + if i + 1 < |lens| && lens[i + 1] == lens[i] then RunFrom(lens, i + 1) else 0
  }

  /** ... with what has been written singly of the run at `i`, and what is left of it. */
  ghost predicate EconomicalAt(cs: seq<LengthToken>, lens: seq<nat>, i: nat) {
    && Economical(cs)
    && (i < |lens| ==> Singles(cs, lens[i]) == 0 || Singles(cs, lens[i]) + RunFrom(lens, i) <= MostSingles(lens[i]))
  }

  lemma NothingWritten(lens: seq<nat>)
    ensures EconomicalAt([], lens, 0)
  {
  }

  lemma OneMore(cs: seq<LengthToken>, c: LengthToken)
    requires Economical(cs) && (c.symbol < 16 ==> Singles(cs, c.symbol) < MostSingles(c.symbol))
    ensures Economical(cs + [c])
    ensures forall v: nat :: Singles(cs + [c], v) == if c.symbol == v then 1 + Singles(cs, v) else 0
  {
    var after := cs + [c];
    assert after[..|cs|] == cs;
    forall k: nat, v: nat | k <= |after| && v < 16
      ensures Singles(after[..k], v) <= MostSingles(v)
    {
      if k <= |cs| {
        assert after[..k] == cs[..k];
      } else {
        assert after[..k] == after && cs[..|cs|] == cs;
      }
    }
  }

  lemma OneLengthMore(cs: seq<LengthToken>, lens: seq<nat>, i: nat)
    requires EconomicalAt(cs, lens, i) && i < |lens| && lens[i] < 16 && RunFrom(lens, i) <= MostSingles(lens[i])
    ensures EconomicalAt(cs + [LengthToken(lens[i], 0)], lens, i + 1)
  {
    OneMore(cs, LengthToken(lens[i], 0));
    hide Economical;
  }

  lemma OneRepeatMore(cs: seq<LengthToken>, lens: seq<nat>, c: LengthToken, i: nat)
    requires Economical(cs) && c.symbol >= 16 && forall k :: 0 <= k < |lens| ==> lens[k] < 16
    ensures EconomicalAt(cs + [c], lens, i)
  {
    OneMore(cs, c);
    hide Economical;
  }

  lemma RunIs(lens: seq<nat>, i: nat, j: nat)
    requires i + j < |lens| && forall k :: i <= k <= i + j ==> lens[k] == lens[i]
    requires i + j + 1 == |lens| || lens[i + j + 1] != lens[i]
    ensures RunFrom(lens, i) == j + 1
    decreases j
  {
    if j > 0 {
      RunIs(lens, i + 1, j - 1);
    }
  }

  /** One round of the encoder's loop: the run at `i`, or the part of it that is cheaper to repeat. */
  method EncodeRun(bitlen: seq<nat>, e: array<nat>, size0: nat, i0: nat, ghost cs0: seq<LengthToken>)
    returns (size: nat, i: nat, ghost cs: seq<LengthToken>)
    requires e.Length == |bitlen| && forall k :: 0 <= k < |bitlen| ==> bitlen[k] <= 15
    requires i0 < |bitlen| && size0 <= i0 && Encodes(cs0, e[..size0], bitlen, i0) && EconomicalAt(cs0, bitlen, i0)
    modifies e
    ensures i0 < i <= |bitlen| && size <= i && Encodes(cs, e[..size], bitlen, i) && EconomicalAt(cs, bitlen, i)
  {
    hide Encodes;
    hide IsLengthToken;
    hide EconomicalAt;
    hide Economical;
    hide RunFrom;
    size, i, cs := size0, i0, cs0;
    var j := 0;
    while i + j + 1 < |bitlen| && bitlen[i + j + 1] == bitlen[i]
      invariant i + j < |bitlen| && forall k :: i <= k <= i + j ==> bitlen[k] == bitlen[i]
    {
      j := j + 1;
    }
    RunIs(bitlen, i, j);
    if bitlen[i] == 0 && j >= 2 {
      j := j + 1;
      ghost var c;
      if j <= 10 {
        c := LengthToken(17, j - 3);
      } else {
        if j > 138 {
          j := 138;
        }
        c := LengthToken(18, j - 11);
      }
      assert IsLengthToken(c) by { ExtraFits(c); }
      assert Economical(cs) by { AtIsEconomical(cs, bitlen, i); }
      OneRepeatMore(cs, bitlen, c, i + j);
      EncodesRepeat(cs, e[..size], bitlen, i, c, j);
      if j <= 10 {
        size := Store(e, size, 17, j - 3);
      } else {
        size := Store(e, size, 18, j - 11);
      }
      cs := cs + [c];
      i := i + j;
    } else if j >= 3 {
      size, i, cs := EncodeRepeats(bitlen, e, size, i, j, cs);
    } else {
      EncodesLength(cs, e[..size], bitlen, i);
      OneLengthMore(cs, bitlen, i);
      e[size] := bitlen[i];
      assert e[..size + 1] == e[..size] + [bitlen[i]];
      size := size + 1;
      cs := cs + [LengthToken(bitlen[i], 0)];
      i := i + 1;
    }
  }

  lemma AtIsEconomical(cs: seq<LengthToken>, lens: seq<nat>, i: nat)
    requires EconomicalAt(cs, lens, i)
    ensures Economical(cs)
  {
    hide Economical;
  }

  /** A run that is too long to be written singly has not been started. */
  lemma RunStarts(cs: seq<LengthToken>, lens: seq<nat>, i: nat)
    requires EconomicalAt(cs, lens, i) && i < |lens| && lens[i] < 16 && RunFrom(lens, i) > MostSingles(lens[i])
    ensures Economical(cs + [LengthToken(lens[i], 0)])
  {
    hide Economical;
    OneMore(cs, LengthToken(lens[i], 0));
  }

  lemma ExtraFits(c: LengthToken)
    requires 16 <= c.symbol <= 18 && c.extra <= if c.symbol == 16 then 3 else if c.symbol == 17 then 7 else 127
    ensures IsLengthToken(c)
  {
    assert Pow2(2) == 4 && Pow2(3) == 8 && Pow2(7) == 128;
  }

  method Store(e: array<nat>, size: nat, x: nat, y: nat) returns (size': nat)
    requires size + 2 <= e.Length
    modifies e
    ensures size' == size + 2 && e[..size'] == old(e[..size]) + [x, y]
  {
    e[size], e[size + 1] := x, y;
    size' := size + 2;
  }

  /** A length and `j` repetitions of it, six at a time; less than three at the end are left over. */
  method EncodeRepeats(bitlen: seq<nat>, e: array<nat>, size0: nat, i0: nat, j0: nat, ghost cs0: seq<LengthToken>)
    returns (size: nat, i: nat, ghost cs: seq<LengthToken>)
    requires e.Length == |bitlen| && j0 >= 3 && i0 + j0 < |bitlen| && bitlen[i0] > 0 && forall k :: 0 <= k < |bitlen| ==> bitlen[k] <= 15
    requires forall k :: i0 <= k <= i0 + j0 ==> bitlen[k] == bitlen[i0]
    requires size0 <= i0 && Encodes(cs0, e[..size0], bitlen, i0) && EconomicalAt(cs0, bitlen, i0) && RunFrom(bitlen, i0) == j0 + 1
    modifies e
    ensures i0 < i <= |bitlen| && size <= i && Encodes(cs, e[..size], bitlen, i) && EconomicalAt(cs, bitlen, i)
  {
    hide Encodes;
    hide IsLengthToken;
    hide EconomicalAt;
    hide Economical;
    hide RunFrom;
    size, i, cs := size0, i0, cs0;
    var j := j0;
    var num, rest := j / 6, j % 6;
    EncodesLength(cs, e[..size], bitlen, i);
    RunStarts(cs, bitlen, i);
    e[size] := bitlen[i];
    assert e[..size + 1] == e[..size] + [bitlen[i]];
    size := size + 1;
    cs := cs + [LengthToken(bitlen[i], 0)];
    ghost var done := i + 1;
    for k := 0 to num
      invariant done == i0 + 1 + 6 * k && size <= done && Encodes(cs, e[..size], bitlen, done)
      invariant Economical(cs) && (k > 0 ==> EconomicalAt(cs, bitlen, done))
    {
      OneRepeatMore(cs, bitlen, LengthToken(16, 3), done + 6);
      assert Economical(cs + [LengthToken(16, 3)]) by { AtIsEconomical(cs + [LengthToken(16, 3)], bitlen, done + 6); }
      ExtraFits(LengthToken(16, 3));
      EncodesRepeat(cs, e[..size], bitlen, done, LengthToken(16, 3), 6);
      size := Store(e, size, 16, 6 - 3);
      cs := cs + [LengthToken(16, 3)];
      done := done + 6;
    }
    if rest >= 3 {
      ExtraFits(LengthToken(16, rest - 3));
      OneRepeatMore(cs, bitlen, LengthToken(16, rest - 3), done + rest);
      EncodesRepeat(cs, e[..size], bitlen, done, LengthToken(16, rest - 3), rest);
      size := Store(e, size, 16, rest - 3);
      cs := cs + [LengthToken(16, rest - 3)];
      done := done + rest;
    } else {
      j := j - rest;
    }
    i := i + j + 1;
  }

  /** Encodes code lengths. The buffer has as many entries as there are lengths, and is never overrun. */
  method EncodeRuns(bitlen: seq<nat>) returns (values: seq<nat>, ghost cs: seq<LengthToken>)
    requires forall k :: 0 <= k < |bitlen| ==> bitlen[k] <= 15
    ensures |values| <= |bitlen|
    ensures AreLengthTokens(cs) && values == FlatLengths(cs) && ExpandLengths(cs) == Some(bitlen) && Economical(cs)
  {
    hide Economical;
    var e := new nat[|bitlen|];
    var size: nat, i: nat := 0, 0;
    cs := [];
    EncodesNothing(bitlen);
    NothingWritten(bitlen);
    assert e[..0] == [];
    while i != |bitlen|
      invariant size <= i <= |bitlen| && Encodes(cs, e[..size], bitlen, i) && EconomicalAt(cs, bitlen, i)
      decreases |bitlen| - i
    {
      size, i, cs := EncodeRun(bitlen, e, size, i, cs);
    }
    values := e[..size];
    assert bitlen[..|bitlen|] == bitlen;
  }

  // ---------------------------------------------------------------------------------------------
  // Decoding the lengths
  // ---------------------------------------------------------------------------------------------

  predicate LengthsHaveCodes(cl: seq<nat>, cs: seq<LengthToken>) {
    forall i :: 0 <= i < |cs| ==> HasCode(cl, cs[i].symbol)
  }

  function EncodeLength(cl: seq<nat>, c: LengthToken): seq<bit>
    requires HasCode(cl, c.symbol)
  {
    CodeBits(cl, c.symbol) + if c.symbol < 16 then [] else Lsb(c.extra, RepeatExtra(c.symbol))
  }

  function EncodeLengths(cl: seq<nat>, cs: seq<LengthToken>): seq<bit>
    requires LengthsHaveCodes(cl, cs)
  {
    if cs == [] then [] else EncodeLengths(cl, cs[..|cs| - 1]) + EncodeLength(cl, cs[|cs| - 1])
  }

  lemma LengthDecoded(cl: seq<nat>, bits: seq<bit>, p: nat, c: LengthToken, total: nat, acc: seq<nat>)
    requires IsTree(cl) && IsLengthToken(c) && HasCode(cl, c.symbol) && At(bits, p, EncodeLength(cl, c))
    requires Append(c, acc).Some? && |acc| < total
    ensures ReadLengths(cl, bits, p, total, acc) == ReadLengths(cl, bits, p + |EncodeLength(cl, c)|, total, Append(c, acc).value)
  {
    hide CodeBits;
    hide IsTree;
    hide At;
    hide Window;
    hide Repeat;
    hide Pow2;
    hide DecodeSymbol;
    var s := c.symbol;
    var a, b := CodeBits(cl, s), if s < 16 then [] else Lsb(c.extra, RepeatExtra(s));
    AtConcat(bits, p, a, b);
    DecodeWritten(cl, bits, p, s);
    AtInside(bits, p, EncodeLength(cl, c));
    if s >= 16 {
      FieldWritten(bits, p + cl[s], c.extra, RepeatExtra(s));
    }
  }

  lemma {:induction false} LengthsDecoded(cl: seq<nat>, bits: seq<bit>, p: nat, cs: seq<LengthToken>, total: nat)
    requires IsTree(cl) && AreLengthTokens(cs) && LengthsHaveCodes(cl, cs) && At(bits, p, EncodeLengths(cl, cs))
    requires ExpandLengths(cs).Some? && |ExpandLengths(cs).value| <= total
    ensures ReadLengths(cl, bits, p, total, []) == ReadLengths(cl, bits, p + |EncodeLengths(cl, cs)|, total, ExpandLengths(cs).value)
  {
    hide ReadLengths;
    hide IsTree;
    hide IsLengthToken;
    hide EncodeLength;
    hide Append;
    hide At;
    if cs != [] {
      var before, c := cs[..|cs| - 1], cs[|cs| - 1];
      var e := EncodeLengths(cl, before);
      AtConcat(bits, p, e, EncodeLength(cl, c));
      LengthsDecoded(cl, bits, p, before, total);
      LengthDecoded(cl, bits, p + |e|, c, total, ExpandLengths(before).value);
    }
  }

  /** The decoder's loop expands the encoder's runs to the lengths again. */
  lemma RunsDecoded(cl: seq<nat>, bits: seq<bit>, p: nat, cs: seq<LengthToken>, lens: seq<nat>)
    requires IsTree(cl) && AreLengthTokens(cs) && LengthsHaveCodes(cl, cs) && At(bits, p, EncodeLengths(cl, cs))
    requires ExpandLengths(cs) == Some(lens)
    ensures ReadLengths(cl, bits, p, |lens|, []) == Some((p + |EncodeLengths(cl, cs)|, lens))
  {
    hide IsTree;
    hide EncodeLengths;
    LengthsDecoded(cl, bits, p, cs, |lens|);
  }

  // ---------------------------------------------------------------------------------------------
  // The lengths of the code length code
  // ---------------------------------------------------------------------------------------------

  /** The first `n` lengths in the order of the standard, three bits each. */
  function EncodeOrder(cl: seq<nat>, n: nat): (e: seq<bit>)
    requires |cl| == 19 && n <= 19
    ensures |e| == 3 * n
  {
    if n == 0 then [] else EncodeOrder(cl, n - 1) + Lsb(cl[CLCL_ORDER[n - 1]], 3)
  }

  lemma PlaceInOrder(s: nat) returns (i: nat)
    requires s < 19
    ensures i < 19 && CLCL_ORDER[i] == s
  {
    var o := CLCL_ORDER;
    assert o[3] == 0 && o[17] == 1 && o[15] == 2 && o[13] == 3 && o[11] == 4 && o[9] == 5 && o[7] == 6 && o[5] == 7;
    assert o[4] == 8 && o[6] == 9 && o[8] == 10 && o[10] == 11 && o[12] == 12 && o[14] == 13 && o[16] == 14 && o[18] == 15;
    assert o[0] == 16 && o[1] == 17 && o[2] == 18;
    i :| 0 <= i < 19 && o[i] == s;
  }

  lemma {:induction false} OrderDecoded(cl: seq<nat>, bits: seq<bit>, p: nat, n: nat)
    requires |cl| == 19 && Within(cl, 7) && n <= 19 && At(bits, p, EncodeOrder(cl, n))
    ensures forall i :: 0 <= i < 19 ==> CodeLengthLengths(bits, p, n)[CLCL_ORDER[i]] == if i < n then cl[CLCL_ORDER[i]] else 0
  {
    hide Window;
    hide At;
    hide Lsb;
    OrderIsInjective();
    if n > 0 {
      var x := cl[CLCL_ORDER[n - 1]];
      AtConcat(bits, p, EncodeOrder(cl, n - 1), Lsb(x, 3));
      OrderDecoded(cl, bits, p, n - 1);
      assert Pow2(3) == 8;
      FieldWritten(bits, p + 3 * (n - 1), x, 3);
    }
  }

  /** The lengths come back when those that are not sent are zero. */
  lemma CodeLengthsDecoded(cl: seq<nat>, bits: seq<bit>, p: nat, n: nat)
    requires |cl| == 19 && Within(cl, 7) && n <= 19 && At(bits, p, EncodeOrder(cl, n))
    requires forall i :: n <= i < 19 ==> cl[CLCL_ORDER[i]] == 0
    ensures CodeLengthLengths(bits, p, n) == cl
  {
    hide CodeLengthLengths;
    hide EncodeOrder;
    OrderDecoded(cl, bits, p, n);
    forall s | 0 <= s < 19
      ensures CodeLengthLengths(bits, p, n)[s] == cl[s]
    {
      var i := PlaceInOrder(s);
    }
  }
}
