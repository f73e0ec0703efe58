/** Streams that the library reads although the standard rules out the header of a dynamic block. */
module StandardHeaders {
  import opened Bits
  import opened BitStream
  import opened Canonical
  import opened DeflateFormat
  import opened Wrappers
  import opened Lz77
  import opened Encoding
  import opened RunLengths
  import opened HuffmanBlocks
  import opened DynamicTrees

  // ---------------------------------------------------------------------------------------------
  // Bits as bytes
  // ---------------------------------------------------------------------------------------------

  /** The bytes that start with the bits `e`, the last one filled up with zeros. */
  function Packed(e: seq<bit>): seq<byte> {
    if |e| <= 8 then Pow2Mono(|e|, 8); assert Pow2(8) == 256; [Val(e)]
    else assert Pow2(8) == 256; [Val(e[..8])] + Packed(e[8..])
  }

  lemma {:induction false} PackedStarts(e: seq<bit>)
    ensures At(BitsOf(Packed(e)), 0, e)
  {
    if |e| <= 8 {
      var x := Packed(e)[0];
      BitsOfByte(x);
      LsbSplit(x, |e|, 8 - |e|);
      LsbVal(e);
    } else {
      var x, rest := Val(e[..8]), e[8..];
      PackedStarts(rest);
      BitsOfConcat([x], Packed(rest));
      BitsOfByte(x);
      LsbVal(e[..8]);
      assert e == e[..8] + rest;
    }
  }

  // ---------------------------------------------------------------------------------------------
  // Streams of one block without data
  // ---------------------------------------------------------------------------------------------

  /** A last block with this header and nothing but the end symbol. */
  function Stream(ll: seq<nat>, dl: seq<nat>, cl: seq<nat>, n: nat, cs: seq<LengthToken>, LL: seq<nat>): seq<bit>
    requires 257 <= |ll| && 1 <= |dl| && |cl| == 19 && 4 <= n <= 19 && LengthsHaveCodes(cl, cs) && HasCode(LL, 256)
  {
    [1] + Lsb(2, 2) + EncodeHeader(ll, dl, cl, n, cs) + CodeBits(LL, 256)
  }

  lemma StreamParts(header: seq<bit>, end: seq<bit>, e: seq<bit>, bits: seq<bit>)
    requires e == [1] + Lsb(2, 2) + header + end && At(bits, 0, e)
    ensures |bits| >= 3 && bits[0] == 1 && At(bits, 1, Lsb(2, 2)) && At(bits, 3, header)
  {
    hide Lsb;
    hide At;
    AtConcat(bits, 0, [1] + Lsb(2, 2) + header, end);
    AtConcat(bits, 0, [1] + Lsb(2, 2), header);
    AtConcat(bits, 0, [1], Lsb(2, 2));
    AtInside(bits, 3, header);
    FirstBit(bits);
  }

  lemma FirstBit(bits: seq<bit>)
    requires At(bits, 0, [1])
    ensures |bits| >= 1 && bits[0] == 1
  {
    assert bits[0..1][0] == bits[0];
  }

  lemma NoTokens(ll: seq<nat>, dl: seq<nat>, end: seq<bit>)
    ensures AreTokens([]) && AllHaveCodes(ll, dl, []) && Expand([], []) == Some([]) && EncodeTokens(ll, dl, []) + end == end
  {
  }

  lemma StreamInflates(header: seq<bit>, end: seq<bit>, e: seq<bit>, bits: seq<bit>, LL: seq<nat>, DL: seq<nat>)
    requires IsTree(LL) && IsTree(DL) && HasCode(LL, 256) && TreesMean(2, header, LL, DL) && end == CodeBits(LL, 256)
    requires e == [1] + Lsb(2, 2) + header + end && At(bits, 0, e)
    ensures InflateBlocks(bits, 0, [], false) == Some([])
  {
    hide Lsb;
    hide At;
    hide TreesMean;
    hide IsTree;
    hide CodeBits;
    hide InflateBlock;
    hide EncodeTokens;
    hide Expand;
    NoTokens(LL, DL, end);
    HuffmanBlock(e, true, 2, header, LL, DL, [], [], end, false);
    StreamParts(header, end, e, bits);
    assert InflateBlock(bits, 1, [], false) == Some((|e|, []));
  }

  lemma StreamForbidden(header: seq<bit>, end: seq<bit>, e: seq<bit>, bits: seq<bit>, hlit: nat, LL: seq<nat>, DL: seq<nat>, rest: seq<bit>)
    requires TreesMean(2, header, LL, DL) && 257 <= hlit <= 288 && header == Lsb(hlit - 257, 5) + rest
    requires e == [1] + Lsb(2, 2) + header + end && At(bits, 0, e) && (hlit > 286 || LoneAndLong(DL))
    ensures |bits| >= 3 && ForbiddenHeader(bits, 1) && bits[0] == 1
    ensures Window(bits, 1, 2) == 2 && Window(bits, 3, 5) == hlit - 257 && ReadTrees(bits, 3).Some? && ReadTrees(bits, 3).value.dl == DL
  {
    hide Lsb;
    hide At;
    hide Window;
    hide ReadTrees;
    hide LoneAndLong;
    StreamParts(header, end, e, bits);
    AtConcat(bits, 3, Lsb(hlit - 257, 5), rest);
    assert Pow2(5) == 32 && Pow2(2) == 4;
    FieldWritten(bits, 1, 2, 2);
    FieldWritten(bits, 3, hlit - 257, 5);
  }

  lemma ForbiddenIsNothing(bits: seq<bit>)
    requires |bits| % 8 == 0 && |bits| >= 3 && ForbiddenHeader(bits, 1) && bits[0] == 1
    ensures StandardBlocks(bits, 0, [], false) == None
  {
    hide StandardBlock;
    hide ForbiddenHeader;
    BlocksAgree(bits, 1, [], false);
  }

  lemma StreamIs(ll: seq<nat>, dl: seq<nat>, cl: seq<nat>, n: nat, cs: seq<LengthToken>, LL: seq<nat>, DL: seq<nat>)
    requires FillsTo(ll, dl, LL, DL) && LengthCode(cl, n, cs, ll + dl) && HasCode(LL, 256)
    ensures |cl| == 19 && 4 <= n <= 19 && LengthsHaveCodes(cl, cs) && IsTree(LL) && IsTree(DL) && |LL| > 256
    ensures Stream(ll, dl, cl, n, cs, LL) == [1] + Lsb(2, 2) + EncodeHeader(ll, dl, cl, n, cs) + CodeBits(LL, 256)
  {
    hide IsTree;
    hide EncodeHeader;
    hide LengthsHaveCodes;
  }

  lemma HeaderFront(ll: seq<nat>, dl: seq<nat>, cl: seq<nat>, n: nat, cs: seq<LengthToken>) returns (rest: seq<bit>)
    requires 257 <= |ll| && 1 <= |dl| && |cl| == 19 && 4 <= n <= 19 && LengthsHaveCodes(cl, cs)
    ensures EncodeHeader(ll, dl, cl, n, cs) == Lsb(|ll| - 257, 5) + rest
  {
    hide Lsb;
    hide EncodeOrder;
    hide EncodeLengths;
    rest := Lsb(|dl| - 1, 5) + Lsb(n - 4, 4) + EncodeOrder(cl, n) + EncodeLengths(cl, cs);
  }

  lemma WholeBytes(data: seq<byte>)
    ensures |BitsOf(data)| % 8 == 0
  {
  }

  /** The library reads it as nothing, and the standard not at all if it rules the header out. */
  lemma StreamRead(ll: seq<nat>, dl: seq<nat>, cl: seq<nat>, n: nat, cs: seq<LengthToken>, LL: seq<nat>, DL: seq<nat>)
    requires 257 <= |ll| <= 288 && 1 <= |dl| <= 32 && FillsTo(ll, dl, LL, DL) && LengthCode(cl, n, cs, ll + dl) && HasCode(LL, 256)
    requires |ll| > 286 || LoneAndLong(DL)
    ensures var bits := BitsOf(Packed(Stream(ll, dl, cl, n, cs, LL)));
      && InflateBlocks(bits, 0, [], false) == Some([]) && StandardBlocks(bits, 0, [], false) == None
      && Window(bits, 1, 2) == 2 && Window(bits, 3, 5) == |ll| - 257 && ReadTrees(bits, 3).Some? && ReadTrees(bits, 3).value.dl == DL
  {
    hide *;
    StreamIs(ll, dl, cl, n, cs, LL, DL);
    var header, end, e := EncodeHeader(ll, dl, cl, n, cs), CodeBits(LL, 256), Stream(ll, dl, cl, n, cs, LL);
    var bits := BitsOf(Packed(e));
    HeaderRead(ll, dl, cl, n, cs, LL, DL);
    PackedStarts(e);
    StreamInflates(header, end, e, bits, LL, DL);
    var rest := HeaderFront(ll, dl, cl, n, cs);
    StreamForbidden(header, end, e, bits, |ll|, LL, DL, rest);
    WholeBytes(Packed(e));
    ForbiddenIsNothing(bits);
  }

  // ---------------------------------------------------------------------------------------------
  // Two of them
  // ---------------------------------------------------------------------------------------------

  const BYTES_AND_END: seq<nat> := Zeros(255) + [1, 1]

  lemma BytesAndEnd(n: nat)
    requires n <= 31
    ensures var LL := BYTES_AND_END + Zeros(n);
      |BYTES_AND_END| == 257 && IsTree(LL) && HasCode(LL, 256) && HasCode(BYTES_AND_END, 256) && LL[256] == 1
  {
    var z := Zeros(255);
    KraftZeros([], 255, MAXBITS);
    assert [] + z == z;
    var one, two := z + [1], z + [1] + [1];
    assert one[..255] == z && two[..256] == one && two == BYTES_AND_END;
    KraftZeros(two, n, MAXBITS);
  }

  /** Zeros for the first 255 symbols, in two repeats, and ones for the next two. */
  const FIRST_RUNS: seq<LengthToken> := [LengthToken(18, 127), LengthToken(18, 106), LengthToken(1, 0), LengthToken(1, 0)]

  lemma NextLength(cs: seq<LengthToken>, c: LengthToken, acc: seq<nat>)
    requires ExpandLengths(cs) == Some(acc) && AreLengthTokens(cs) && IsLengthToken(c) && Append(c, acc).Some?
    ensures ExpandLengths(cs + [c]) == Append(c, acc) && AreLengthTokens(cs + [c])
  {
    assert (cs + [c])[..|cs|] == cs;
  }

  lemma FirstRuns()
    ensures ExpandLengths(FIRST_RUNS) == Some(BYTES_AND_END) && AreLengthTokens(FIRST_RUNS)
  {
    assert Pow2(7) == 128;
    var z, y, x := LengthToken(18, 127), LengthToken(18, 106), LengthToken(1, 0);
    NextLength([], z, []);
    var a := Repeat(138, 0);
    assert [] + a == a && [] + [z] == [z];
    NextLength([z], y, a);
    assert a + Repeat(117, 0) == Zeros(255) && [z] + [y] == [z, y];
    NextLength([z, y], x, Zeros(255));
    assert [z, y] + [x] == [z, y, x];
    NextLength([z, y, x], x, Zeros(255) + [1]);
    assert Zeros(255) + [1] + [1] == BYTES_AND_END && [z, y, x] + [x] == FIRST_RUNS;
  }

  const WIDE_CL: seq<nat> := [0, 1] + Zeros(16) + [1]

  lemma WideCode()
    ensures |WIDE_CL| == 19 && Within(WIDE_CL, 7) && IsTree(WIDE_CL)
  {
    var a: seq<nat> := [0, 1];
    KraftZeros(a, 16, MAXBITS);
    assert a[..1] == [0] && [0][..0] == [];
    assert KraftSum([0], MAXBITS) == 0;
    assert KraftSum(a, MAXBITS) == Pow2(14);
    var b := a + Zeros(16);
    assert (b + [1])[..18] == b && b + [1] == WIDE_CL;
  }

  lemma {:induction false} PresentZeros(lens: seq<nat>, n: nat)
    ensures Present(lens + Zeros(n)) == Present(lens)
  {
    if n == 0 {
      assert lens + Zeros(0) == lens;
    } else {
      var t := lens + Zeros(n);
      assert t[..|t| - 1] == lens + Zeros(n - 1);
      PresentZeros(lens, n - 1);
    }
  }

  /** A stream whose first block has a header with so many codes for literals and lengths, and these distance
      codes: the library reads it as nothing, the standard does not read it. */
  ghost predicate ReadWithHeader(bits: seq<bit>, hlit: nat, dl: seq<nat>) {
    && Window(bits, 1, 2) == 2 && Window(bits, 3, 5) + 257 == hlit && ReadTrees(bits, 3).Some? && ReadTrees(bits, 3).value.dl == dl
    && InflateBlocks(bits, 0, [], false) == Some([]) && StandardBlocks(bits, 0, [], false) == None
  }

  /** A header with 287 codes for literals and lengths, the field HLIT being 30. */
  lemma WideHeaderRead()
    ensures exists data :: ReadWithHeader(BitsOf(data), 287, [0] + Zeros(31))
  {
    var ll, dl := BYTES_AND_END + Zeros(30), [0];
    var LL, DL := ll + Zeros(1), dl + Zeros(31);
    var cs := FIRST_RUNS + [LengthToken(18, 20)];
    FirstRuns();
    WideCode();
    assert Pow2(7) == 128;
    NextLength(FIRST_RUNS, LengthToken(18, 20), BYTES_AND_END);
    assert BYTES_AND_END + Repeat(31, 0) == ll + dl;
    BytesAndEnd(31);
    assert LL == BYTES_AND_END + Zeros(31);
    NoDistances();
    assert LengthCode(WIDE_CL, 19, cs, ll + dl);
    StreamRead(ll, dl, WIDE_CL, 19, cs, LL, DL);
    var data := Packed(Stream(ll, dl, WIDE_CL, 19, cs, LL));
    assert ReadWithHeader(BitsOf(data), 287, DL);
  }

  lemma NoDistances()
    ensures IsTree([0] + Zeros(31))
  {
    PresentZeros([0], 31);
    assert [0][..0] == [];
  }

  const LONE_CL: seq<nat> := [0, 1, 2] + Zeros(15) + [2]

  lemma LoneCode()
    ensures |LONE_CL| == 19 && Within(LONE_CL, 7) && IsTree(LONE_CL)
  {
    var a: seq<nat> := [0, 1, 2];
    KraftZeros(a, 15, MAXBITS);
    assert a[..2] == [0, 1] && [0, 1][..1] == [0] && [0][..0] == [];
    assert KraftSum([0], MAXBITS) == 0;
    assert KraftSum([0, 1], MAXBITS) == Pow2(14);
    assert KraftSum(a, MAXBITS) == Pow2(14) + Pow2(13);
    var b := a + Zeros(15);
    assert (b + [2])[..18] == b && b + [2] == LONE_CL;
  }

  lemma LoneDistance()
    ensures IsTree([2] + Zeros(31)) && LoneAndLong([2] + Zeros(31))
  {
    PresentZeros([2], 31);
    assert [2][..0] == [];
    assert ([2] + Zeros(31))[0] == 2;
  }

  /** A header with one distance code, of two bits. */
  lemma LoneDistanceRead()
    ensures exists data :: ReadWithHeader(BitsOf(data), 257, [2] + Zeros(31))
  {
    var ll, dl := BYTES_AND_END, [2];
    var LL, DL := ll + Zeros(31), dl + Zeros(31);
    var cs := FIRST_RUNS + [LengthToken(2, 0)];
    FirstRuns();
    LoneCode();
    NextLength(FIRST_RUNS, LengthToken(2, 0), BYTES_AND_END);
    BytesAndEnd(31);
    LoneDistance();
    assert LengthCode(LONE_CL, 19, cs, ll + dl);
    StreamRead(ll, dl, LONE_CL, 19, cs, LL, DL);
    var data := Packed(Stream(ll, dl, LONE_CL, 19, cs, LL));
    assert ReadWithHeader(BitsOf(data), 257, DL);
  }
}
