/** Reading the trees of a dynamic block. */
module InflateTrees {
  import opened Bits
  import opened BitStream
  import opened Canonical
  import opened DecodeTable
  import opened HuffmanTree
  import opened DeflateFormat
  import opened Wrappers

  /** The part of the lengths read so far that belongs to the literals, filled up to the alphabet. */
  function LitPart(acc: seq<nat>, hlit: nat): (ll: seq<nat>)
    requires hlit <= 288
    ensures |ll| == 288
  {
    var n := if |acc| <= hlit then |acc| else hlit;
    acc[..n] + Zeros(288 - n)
  }

  /** The part that belongs to the distances. */
  function DistPart(acc: seq<nat>, hlit: nat): (dl: seq<nat>)
    requires |acc| <= hlit + 32
    ensures |dl| == 32
  {
    if |acc| <= hlit then Zeros(32) else acc[hlit..] + Zeros(32 - (|acc| - hlit))
  }

  lemma PartsExtend(acc: seq<nat>, hlit: nat, x: nat)
    requires hlit <= 288 && |acc| + 1 <= hlit + 32
    ensures |acc| < hlit ==> LitPart(acc + [x], hlit) == LitPart(acc, hlit)[|acc| := x] && DistPart(acc + [x], hlit) == DistPart(acc, hlit)
    ensures |acc| >= hlit ==> LitPart(acc + [x], hlit) == LitPart(acc, hlit) && DistPart(acc + [x], hlit) == DistPart(acc, hlit)[|acc| - hlit := x]
  {
    var b := acc + [x];
    if |acc| >= hlit {
      assert b[..hlit] == acc[..hlit];
      assert b[hlit..] == acc[hlit..] + [x];
    }
  }

  lemma PartsAt(acc: seq<nat>, hlit: nat, k: nat)
    requires hlit <= 288 && |acc| <= hlit + 32 && k < |acc|
    ensures k < hlit ==> LitPart(acc, hlit)[k] == acc[k]
    ensures k >= hlit ==> DistPart(acc, hlit)[k - hlit] == acc[k]
  {
  }

  /** Writes a code length `replength` times, unless there are more than `total`. */
  method FillLengths(bitlen_ll: array<nat>, bitlen_d: array<nat>, hlit: nat, total: nat, i: nat, value: nat, replength: nat, ghost acc: seq<nat>)
    returns (j: nat, overflow: bool)
    requires bitlen_ll != bitlen_d && bitlen_ll.Length == 288 && bitlen_d.Length == 32 && hlit <= 288 && total <= hlit + 32
    requires |acc| == i <= total
    requires bitlen_ll[..] == LitPart(acc, hlit) && bitlen_d[..] == DistPart(acc, hlit)
    modifies bitlen_ll, bitlen_d
    ensures overflow <==> i + replength > total
    ensures !overflow ==> j == i + replength && var b := acc + Repeat(replength, value);
      bitlen_ll[..] == LitPart(b, hlit) && bitlen_d[..] == DistPart(b, hlit)
  {
    hide LitPart;
    hide DistPart;
    j := i;
    assert acc + Repeat(0, value) == acc;
    for n := 0 to replength
      invariant j == i + n <= total
      invariant var b := acc + Repeat(n, value); bitlen_ll[..] == LitPart(b, hlit) && bitlen_d[..] == DistPart(b, hlit)
    {
      if j >= total {
        return j, true;
      }
      ghost var b := acc + Repeat(n, value);
      PartsExtend(b, hlit, value);
      assert acc + Repeat(n + 1, value) == b + [value];
      if j < hlit {
        bitlen_ll[j] := value;
      } else {
        bitlen_d[j - hlit] := value;
      }
      j := j + 1;
    }
    overflow := false;
  }

  lemma LengthStep(cl: seq<nat>, bits: seq<bit>, p: nat, total: nat, acc: seq<nat>, s: nat)
    requires |acc| < total && IsTree(cl) && s < |cl| && Matches(cl, s, Window(bits, p, MAXBITS)) && s <= 15
    ensures ReadLengths(cl, bits, p, total, acc) == ReadLengths(cl, bits, p + cl[s], total, acc + [s])
  {
    hide IsTree;
    hide Window;
    hide Matches;
    hide Repeat;
    DecodeFromWindow(cl, bits, p, s);
  }

  lemma RepeatStep(cl: seq<nat>, bits: seq<bit>, p: nat, total: nat, acc: seq<nat>, s: nat)
    requires |acc| < total && IsTree(cl) && s < |cl| && Matches(cl, s, Window(bits, p, MAXBITS)) && 16 <= s <= 18
    ensures var q := p + cl[s];
      ReadLengths(cl, bits, p, total, acc) ==
        if s == 16 && acc == [] then None
        else ReadLengths(cl, bits, q + RepeatExtra(s), total,
                         acc + Repeat(RepeatBase(s) + Window(bits, q, RepeatExtra(s)), if s == 16 then acc[|acc| - 1] else 0))
  {
    hide IsTree;
    hide Window;
    hide Matches;
    hide Repeat;
    DecodeFromWindow(cl, bits, p, s);
  }

  lemma NoLengthStep(cl: seq<nat>, bits: seq<bit>, p: nat, total: nat, acc: seq<nat>)
    requires |acc| < total && IsTree(cl) && NoMatch(cl, Window(bits, p, MAXBITS))
    ensures ReadLengths(cl, bits, p, total, acc) == None
  {
    NoDecodeFromWindow(cl, bits, p);
  }

  lemma NoRest(cl: seq<nat>, bits: seq<bit>, p: nat, total: nat, acc: seq<nat>)
    requires p > |bits| || |acc| > total
    ensures ReadLengths(cl, bits, p, total, acc) == None
  {
  }

  /** A repeat, from the bits behind its symbol on. */
  method ReadRepeat(reader: BitReader, bitlen_ll: array<nat>, bitlen_d: array<nat>, hlit: nat, total: nat, i: nat, code: nat, ghost acc: seq<nat>,
                    ghost ensured: nat)
    returns (error: nat, j: nat, ghost acc': seq<nat>)
    requires reader.Valid() && ensured >= 7 && reader.Ensured(ensured) && 16 <= code <= 18 && (code == 16 ==> i > 0)
    requires bitlen_ll != bitlen_d && bitlen_ll.Length == 288 && bitlen_d.Length == 32 && hlit <= 288 && total <= hlit + 32
    requires |acc| == i < total
    requires bitlen_ll[..] == LitPart(acc, hlit) && bitlen_d[..] == DistPart(acc, hlit)
    modifies reader, bitlen_ll, bitlen_d
    ensures reader.Valid() && reader.bp == old(reader.bp) + RepeatExtra(code)
    ensures acc' == acc + Repeat(RepeatBase(code) + Window(BitsOf(reader.data), old(reader.bp), RepeatExtra(code)),
                                 if code == 16 then acc[|acc| - 1] else 0)
    ensures error == if |acc'| > total then code - 3 else 0
    ensures error == 0 ==> j == |acc'| && bitlen_ll[..] == LitPart(acc', hlit) && bitlen_d[..] == DistPart(acc', hlit)
  {
    hide LitPart;
    hide DistPart;
    hide BitsOf;
    hide Window;
    var extra := reader.ReadBits(RepeatExtra(code), ensured);
    var replength := RepeatBase(code) + extra;
    var value := 0;
    if code == 16 {
      PartsAt(acc, hlit, i - 1);
      value := if i < hlit + 1 then bitlen_ll[i - 1] else bitlen_d[i - hlit - 1];
    }
    var overflow;
    acc' := acc + Repeat(replength, value);
    j, overflow := FillLengths(bitlen_ll, bitlen_d, hlit, total, i, value, replength, acc);
    error := if overflow then code - 3 else 0;
  }

  /** One code length or repeat. */
  method ReadOne(reader: BitReader, tree_cl: Tree, bitlen_ll: array<nat>, bitlen_d: array<nat>, hlit: nat, total: nat, i: nat, ghost acc: seq<nat>)
    returns (error: nat, j: nat, ghost acc': seq<nat>)
    requires reader.Valid() && tree_cl.Valid() && |tree_cl.lengths| == 19
    requires bitlen_ll != bitlen_d && bitlen_ll.Length == 288 && bitlen_d.Length == 32 && hlit <= 288 && total <= hlit + 32
    requires |acc| == i < total
    requires bitlen_ll[..] == LitPart(acc, hlit) && bitlen_d[..] == DistPart(acc, hlit)
    modifies reader, bitlen_ll, bitlen_d
    ensures reader.Valid() && reader.bp >= old(reader.bp)
    ensures var r := ReadLengths(tree_cl.lengths, BitsOf(reader.data), old(reader.bp), total, acc);
      if error != 0 then r == None
      else r == ReadLengths(tree_cl.lengths, BitsOf(reader.data), reader.bp, total, acc')
    ensures error == 0 ==> reader.bp > old(reader.bp) && |acc'| == j <= total
    ensures error == 0 ==> bitlen_ll[..] == LitPart(acc', hlit) && bitlen_d[..] == DistPart(acc', hlit)
  {
    hide LitPart;
    hide DistPart;
    hide ReadLengths;
    hide BitsOf;
    hide Window;
    hide TableOk;
    hide CodesOf;
    hide Acceptable;
    hide NoMatch;
    ghost var bits, cl, p := BitsOf(reader.data), tree_cl.lengths, reader.bp;
    error, j, acc' := 0, i, acc;
    reader.EnsureBits25();
    var code := tree_cl.DecodeSymbol(reader, 25);
    if code <= 15 {
      LengthStep(cl, bits, p, total, acc, code);
      PartsExtend(acc, hlit, code);
      if i < hlit {
        bitlen_ll[i] := code;
      } else {
        bitlen_d[i - hlit] := code;
      }
      j, acc' := i + 1, acc + [code];
    } else if code <= 18 {
      assert code < |cl|;
      RepeatStep(cl, bits, p, total, acc, code);
      if code == 16 && i == 0 {
        return 54, i, acc;
      }
      error, j, acc' := ReadRepeat(reader, bitlen_ll, bitlen_d, hlit, total, i, code, acc, 25 - cl[code]);
      if error != 0 {
        NoRest(cl, bits, reader.bp, total, acc');
      }
    } else {
      NoLengthStep(cl, bits, p, total, acc);
      error := 16;
    }
  }

  /** The literal and distance lengths. */
  method ReadAll(reader: BitReader, tree_cl: Tree, bitlen_ll: array<nat>, bitlen_d: array<nat>, hlit: nat, total: nat) returns (error: nat, ghost lens: seq<nat>)
    requires reader.Valid() && tree_cl.Valid() && |tree_cl.lengths| == 19 && reader.bp <= reader.bitsize
    requires bitlen_ll != bitlen_d && bitlen_ll.Length == 288 && bitlen_d.Length == 32 && hlit <= 288 && total <= hlit + 32
    requires bitlen_ll[..] == Zeros(288) && bitlen_d[..] == Zeros(32)
    modifies reader, bitlen_ll, bitlen_d
    ensures reader.Valid()
    ensures var r := ReadLengths(tree_cl.lengths, BitsOf(reader.data), old(reader.bp), total, []);
      if error != 0 then r == None else r == Some((reader.bp, lens))
    ensures error == 0 ==> |lens| == total && bitlen_ll[..] == LitPart(lens, hlit) && bitlen_d[..] == DistPart(lens, hlit)
  {
    hide ReadLengths;
    hide BitsOf;
    hide TableOk;
    hide CodesOf;
    hide Acceptable;
    ghost var bits, cl := BitsOf(reader.data), tree_cl.lengths;
    ghost var r := ReadLengths(cl, bits, reader.bp, total, []);
    lens := [];
    assert [] + Zeros(288) == Zeros(288);
    var i := 0;
    error := 0;
    while i < total
      invariant reader.Valid() && error == 0 && |lens| == i <= total && reader.bp <= reader.bitsize
      invariant bitlen_ll[..] == LitPart(lens, hlit) && bitlen_d[..] == DistPart(lens, hlit)
      invariant r == ReadLengths(cl, bits, reader.bp, total, lens)
      decreases reader.bitsize - reader.bp
    {
      error, i, lens := ReadOne(reader, tree_cl, bitlen_ll, bitlen_d, hlit, total, i, lens);
      if reader.bp > reader.bitsize {
        NoRest(cl, bits, reader.bp, total, lens);
        error := 50;
      }
      if error != 0 {
        return;
      }
    }
    AllRead(cl, bits, reader.bp, total, lens);
  }

  lemma AllRead(cl: seq<nat>, bits: seq<bit>, p: nat, total: nat, acc: seq<nat>)
    requires p <= |bits| && |acc| == total
    ensures ReadLengths(cl, bits, p, total, acc) == Some((p, acc))
  {
  }

  /** The lengths of the code length code. */
  method ClearRest(bitlen_cl: array<nat>, hclen: nat)
    requires bitlen_cl.Length == 19 && hclen <= 19 && forall i :: hclen <= i < 19 ==> bitlen_cl[CLCL_ORDER[i]] == 0
    modifies bitlen_cl
    ensures bitlen_cl[..] == old(bitlen_cl[..])
  {
    for i := hclen to 19
      invariant bitlen_cl[..] == old(bitlen_cl[..])
    {
      assert old(bitlen_cl[CLCL_ORDER[i]]) == 0;
      bitlen_cl[CLCL_ORDER[i]] := 0;
    }
  }

  method ReadCodeLengthLengths(reader: BitReader, hclen: nat) returns (bitlen_cl: array<nat>)
    requires reader.Valid() && 4 <= hclen <= 19
    modifies reader
    ensures fresh(bitlen_cl) && reader.Valid() && reader.bp == old(reader.bp) + 3 * hclen
    ensures bitlen_cl[..] == CodeLengthLengths(BitsOf(reader.data), old(reader.bp), hclen)
  {
    hide BitsOf;
    hide Window;
    OrderIsInjective();
    bitlen_cl := new nat[19](_ => 0);
    ghost var bits, p := BitsOf(reader.data), reader.bp;
    assert bitlen_cl[..] == Repeat(19, 0);
    for i := 0 to hclen
      invariant reader.Valid() && reader.bp == p + 3 * i && bitlen_cl.Length == 19
      invariant bitlen_cl[..] == CodeLengthLengths(bits, p, i)
    {
      reader.EnsureBits9();
      var l := reader.ReadBits(3, 9);
      bitlen_cl[CLCL_ORDER[i]] := l;
    }
    LaterAreZero(bits, p, hclen);
    ClearRest(bitlen_cl, hclen);
  }

  /** The lengths that are not sent are zero. */
  lemma {:induction false} LaterAreZero(bits: seq<bit>, p: nat, n: nat)
    requires n <= 19
    ensures forall i :: n <= i < 19 ==> CodeLengthLengths(bits, p, n)[CLCL_ORDER[i]] == 0
  {
    if n > 0 {
      LaterAreZero(bits, p, n - 1);
      OrderIsInjective();
    }
  }

  /** The meaning of the header, in terms of what is read of it. */
  lemma TreesFromParts(bits: seq<bit>, p: nat, hlit: nat, hdist: nat, hclen: nat, cl: seq<nat>)
    requires p + 14 <= |bits|
    requires hlit == Window(bits, p, 5) + 257 && hdist == Window(bits, p + 5, 5) + 1 && hclen == Window(bits, p + 10, 4) + 4
    ensures 257 <= hlit <= 288 && 1 <= hdist <= 32 && 4 <= hclen <= 19
    ensures p + 14 + 3 * hclen > |bits| ==> ReadTrees(bits, p) == None
    ensures cl == CodeLengthLengths(bits, p + 14, hclen) ==> |cl| == 19 && Within(cl, 7) && TreeLengths(cl)
    ensures p + 14 + 3 * hclen <= |bits| && cl == CodeLengthLengths(bits, p + 14, hclen) ==>
      ReadTrees(bits, p) ==
        if !Acceptable(cl) then None
        else match ReadLengths(cl, bits, p + 14 + 3 * hclen, hlit + hdist, [])
          case None => None
          case Some((n, lens)) => TreesFrom(lens, hlit, hdist, n)
  {
    hide TreesFrom;
    hide ReadLengths;
    hide Acceptable;
    hide Window;
    assert Pow2(5) == 32 && Pow2(4) == 16;
    CodeLengthLengthsWithin(bits, p + 14, hclen);
  }

  /** Code lengths are at most 15, as larger symbols are repeats. */
  lemma {:induction false} LengthsWithin(cl: seq<nat>, bits: seq<bit>, p: nat, total: nat, acc: seq<nat>)
    requires Within(acc, MAXBITS)
    ensures var r := ReadLengths(cl, bits, p, total, acc); r.Some? ==> Within(r.value.1, MAXBITS)
    decreases |bits| - p
  {
    hide Window;
    hide DecodeSymbol;
    hide Repeat;
    if p <= |bits| && |acc| < total {
      match DecodeSymbol(cl, bits, p)
      case None =>
      case Some(s) =>
        var q := p + cl[s];
        if s <= 15 {
          LengthsWithin(cl, bits, q, total, acc + [s]);
        } else if !(s > 18 || (s == 16 && acc == []) || q + RepeatExtra(s) > |bits|) {
          var n := RepeatBase(s) + Window(bits, q, RepeatExtra(s));
          var x := if s == 16 then acc[|acc| - 1] else 0;
          LengthsWithin(cl, bits, q + RepeatExtra(s), total, acc + Repeat(n, x));
        }
    }
  }

  lemma PartsOfLengths(lens: seq<nat>, hlit: nat, hdist: nat)
    requires hlit <= 288 && hdist <= 32 && |lens| == hlit + hdist && Within(lens, MAXBITS)
    ensures LitPart(lens, hlit) == lens[..hlit] + Zeros(288 - hlit) && DistPart(lens, hlit) == lens[hlit..] + Zeros(32 - hdist)
    ensures TreeLengths(LitPart(lens, hlit)) && TreeLengths(DistPart(lens, hlit))
  {
    assert hdist == 0 ==> lens[hlit..] + Zeros(32) == Zeros(32);
  }

  /** The trees of a dynamic block: they are made exactly when its header has a meaning. */
  method GetTreeInflateDynamic(tree_ll: Tree, tree_d: Tree, reader: BitReader) returns (error: nat)
    requires reader.Valid() && reader.bp <= reader.bitsize && tree_ll != tree_d
    modifies tree_ll, tree_d, reader
    ensures reader.Valid()
    ensures var r := ReadTrees(BitsOf(reader.data), old(reader.bp));
      if error != 0 then r == None
      else tree_ll.Valid() && tree_d.Valid() && r == Some(Trees(tree_ll.lengths, tree_d.lengths, reader.bp))
  {
    hide ReadTrees;
    hide ReadLengths;
    hide TreesFrom;
    hide BitsOf;
    hide Window;
    hide TableOk;
    hide CodesOf;
    hide Acceptable;
    hide CodeLengthLengths;
    ghost var bits, p := BitsOf(reader.data), reader.bp;
    if reader.bitsize - reader.bp < 14 {
      NoHeader(bits, p);
      return 49;
    }
    reader.EnsureBits17();
    var hlit := reader.ReadBits(5, 17);
    var hdist := reader.ReadBits(5, 12);
    var hclen := reader.ReadBits(4, 7);
    hlit, hdist, hclen := hlit + 257, hdist + 1, hclen + 4;
    TreesFromParts(bits, p, hlit, hdist, hclen, []);
    ghost var cl := CodeLengthLengths(bits, p + 14, hclen);
    TreesFromParts(bits, p, hlit, hdist, hclen, cl);
    if reader.bp + hclen * 3 > reader.bitsize {
      return 50;
    }
    var bitlen_cl := ReadCodeLengthLengths(reader, hclen);
    var tree_cl := new Tree();
    error := tree_cl.MakeFromLengths(bitlen_cl[..], 7);
    if error != 0 {
      return;
    }
    error := ReadTwoTrees(tree_ll, tree_d, reader, tree_cl, hlit, hdist);
  }

  /** The two trees, once the code length code is known. */
  method ReadTwoTrees(tree_ll: Tree, tree_d: Tree, reader: BitReader, tree_cl: Tree, hlit: nat, hdist: nat) returns (error: nat)
    requires reader.Valid() && reader.bp <= reader.bitsize && tree_ll != tree_d && tree_cl != tree_ll && tree_cl != tree_d
    requires tree_cl.Valid() && |tree_cl.lengths| == 19 && 257 <= hlit <= 288 && hdist <= 32
    modifies tree_ll, tree_d, reader
    ensures reader.Valid()
    ensures var r := match ReadLengths(tree_cl.lengths, BitsOf(reader.data), old(reader.bp), hlit + hdist, [])
        case None => None
        case Some((n, lens)) => TreesFrom(lens, hlit, hdist, n);
      if error != 0 then r == None
      else tree_ll.Valid() && tree_d.Valid() && r == Some(Trees(tree_ll.lengths, tree_d.lengths, reader.bp))
  {
    hide ReadLengths;
    hide BitsOf;
    hide TableOk;
    hide CodesOf;
    hide Acceptable;
    hide LitPart;
    hide DistPart;
    var bitlen_ll, bitlen_d := new nat[288](_ => 0), new nat[32](_ => 0);
    ghost var lens;
    LengthsWithin(tree_cl.lengths, BitsOf(reader.data), reader.bp, hlit + hdist, []);
    error, lens := ReadAll(reader, tree_cl, bitlen_ll, bitlen_d, hlit, hlit + hdist);
    if error != 0 {
      return;
    }
    PartsOfLengths(lens, hlit, hdist);
    if bitlen_ll[256] == 0 {
      return 64;
    }
    error := tree_ll.MakeFromLengths(bitlen_ll[..], 15);
    if error != 0 {
      return;
    }
    error := tree_d.MakeFromLengths(bitlen_d[..], 15);
  }

  lemma NoHeader(bits: seq<bit>, p: nat)
    requires p + 14 > |bits|
    ensures ReadTrees(bits, p) == None
  {
  }
}