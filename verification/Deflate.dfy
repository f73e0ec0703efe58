/** The deflator: dynamic and stored blocks, and how the input is cut into blocks. What it writes is proved
    to inflate to the input. */
module Deflate {
  import opened Bits
  import opened BitStream
  import opened Canonical
  import opened DeflateFormat
  import opened Wrappers
  import opened HuffmanTree
  import opened Lz77
  import opened Encoding
  import opened RunLengths
  import opened HuffmanBlocks
  import opened DynamicTrees
  import opened ShortestCodes
  import opened Inflate

  // ---------------------------------------------------------------------------------------------
  // Dynamic blocks
  // ---------------------------------------------------------------------------------------------

  /** The lengths of the code length code, in their order. */
  method WriteOrder(writer: BitWriter, tree_cl: Tree, numcodes_cl: nat)
    requires writer.Valid() && |tree_cl.lengths| == 19 && numcodes_cl <= 19
    modifies writer
    ensures writer.Valid() && writer.Written() == old(writer.Written()) + EncodeOrder(tree_cl.lengths, numcodes_cl)
  {
    hide BitWriter.Valid;
    hide BitWriter.Written;
    hide Lsb;
    ghost var w, cl := writer.Written(), tree_cl.lengths;
    for i := 0 to numcodes_cl
      invariant writer.Valid() && writer.Written() == w + EncodeOrder(cl, i)
    {
      writer.WriteBits(tree_cl.lengths[CLCL_ORDER[i]], 3);
      assert w + EncodeOrder(cl, i) + Lsb(cl[CLCL_ORDER[i]], 3) == w + EncodeOrder(cl, i + 1);
    }
  }

  method WriteLength(writer: BitWriter, tree_cl: Tree, values: seq<nat>, i0: nat, ghost c: LengthToken) returns (i: nat)
    requires writer.Valid() && tree_cl.Valid() && IsLengthToken(c) && HasCode(tree_cl.lengths, c.symbol)
    requires i0 + |LengthValues(c)| <= |values| && values[i0..i0 + |LengthValues(c)|] == LengthValues(c)
    modifies writer
    ensures i == i0 + |LengthValues(c)|
    ensures writer.Valid() && writer.Written() == old(writer.Written()) + EncodeLength(tree_cl.lengths, c)
  {
    hide BitWriter.Valid;
    hide BitWriter.Written;
    hide Tree.Valid;
    hide Lsb;
    hide CodeBits;
    hide Pow2;
    LengthValuesThere(values, i0, c);
    i := i0;
    ghost var w := writer.Written();
    WriteCode(writer, tree_cl, values[i]);
    if values[i] == 16 {
      i := i + 1;
      writer.WriteBits(values[i], 2);
    } else if values[i] == 17 {
      i := i + 1;
      writer.WriteBits(values[i], 3);
    } else if values[i] == 18 {
      i := i + 1;
      writer.WriteBits(values[i], 7);
    }
    i := i + 1;
  }

  /** The run-length coded lengths of both trees. */
  method WriteLengths(writer: BitWriter, tree_cl: Tree, values: seq<nat>, ghost cs: seq<LengthToken>)
    requires writer.Valid() && tree_cl.Valid() && AreLengthTokens(cs) && LengthsHaveCodes(tree_cl.lengths, cs)
    requires values == FlatLengths(cs)
    modifies writer
    ensures writer.Valid() && writer.Written() == old(writer.Written()) + EncodeLengths(tree_cl.lengths, cs)
  {
    hide BitWriter.Valid;
    hide BitWriter.Written;
    hide Tree.Valid;
    hide FlatLengths;
    hide LengthValues;
    hide EncodeLength;
    hide IsLengthToken;
    hide HasCode;
    ghost var w, cl := writer.Written(), tree_cl.lengths;
    var i: nat := 0;
    ghost var k := 0;
    FlatLengthsEnds(cs, 0);
    NoFlatLengths();
    while i != |values|
      invariant 0 <= k <= |cs| && i == |FlatLengths(cs[..k])| && (k == |cs| ==> i == |values|)
      invariant writer.Valid() && writer.Written() == w + EncodeLengths(cl, cs[..k])
      decreases |cs| - k
    {
      FlatLengthsAt(cs, k);
      ghost var e := EncodeLengths(cl, cs[..k]);
      i := WriteLength(writer, tree_cl, values, i, cs[k]);
      assert cs[..k + 1][..k] == cs[..k];
      assert w + e + EncodeLength(cl, cs[k]) == w + (e + EncodeLength(cl, cs[k]));
      k := k + 1;
      FlatLengthsEnds(cs, k);
    }
    FlatLengthsEnds(cs, k);
  }

  method WriteHeader(writer: BitWriter, tree_cl: Tree, numcodes_ll: nat, numcodes_d: nat, numcodes_cl: nat, bitlen_lld_e: seq<nat>,
                     ghost ll: seq<nat>, ghost dl: seq<nat>, ghost cs: seq<LengthToken>)
    requires writer.Valid() && tree_cl.Valid() && LengthCode(tree_cl.lengths, numcodes_cl, cs, ll + dl) && bitlen_lld_e == FlatLengths(cs)
    requires numcodes_ll == |ll| >= 257 && numcodes_d == |dl| >= 1
    modifies writer
    ensures writer.Valid() && writer.Written() == old(writer.Written()) + EncodeHeader(ll, dl, tree_cl.lengths, numcodes_cl, cs)
  {
    hide BitWriter.Valid;
    hide BitWriter.Written;
    hide Tree.Valid;
    hide Lsb;
    hide EncodeOrder;
    hide EncodeLengths;
    hide FlatLengths;
    hide IsTree;
    ghost var w, cl := writer.Written(), tree_cl.lengths;
    var HLIT, HDIST, HCLEN := numcodes_ll - 257, numcodes_d - 1, numcodes_cl - 4;
    writer.WriteBits(HLIT, 5);
    writer.WriteBits(HDIST, 5);
    writer.WriteBits(HCLEN, 4);
    WriteOrder(writer, tree_cl, numcodes_cl);
    WriteLengths(writer, tree_cl, bitlen_lld_e, cs);
    Concat5(w, Lsb(HLIT, 5), Lsb(HDIST, 5), Lsb(HCLEN, 4), EncodeOrder(cl, numcodes_cl), EncodeLengths(cl, cs));
  }

  lemma Concat5(w: seq<bit>, a: seq<bit>, b: seq<bit>, c: seq<bit>, d: seq<bit>, e: seq<bit>)
    ensures w + a + b + c + d + e == w + (a + b + c + d + e)
  {
  }

  /** The tokens of a block, found by the matcher or one for each byte. */
  method Tokenize(hash: Hash, data: seq<byte>, datapos: nat, dataend: nat, settings: CompressSettings)
    returns (error: nat, lz77_encoded: seq<nat>, ghost ts: seq<Token>)
    requires datapos <= dataend <= |data| && hash.windowsize == settings.lz77.windowsize
    requires settings.useLz77 && LegalSettings(settings) ==> hash.Ready(data, datapos)
    modifies hash.Repr()
    ensures error == 0 <==> LegalSettings(settings)
    ensures error == 0 && settings.useLz77 ==> hash.Ready(data, dataend)
    ensures error == 0 ==> AreTokens(ts) && lz77_encoded == Flat(ts) && Expand(ts, data[..datapos]) == Some(data[..dataend])
    ensures error == 0 ==> TokensChosen(data, datapos, dataend, settings, ts)
  {
    hide IsParse;
    hide LegalWindow;
    hide Hash.Ready;
    hide AreTokens;
    hide Expand;
    hide Flat;
    hide Literals;
    if settings.useLz77 {
      ghost var steps;
      error, lz77_encoded, ts, steps := EncodeLZ77(hash, data, datapos, dataend, settings.lz77);
      if error == 0 {
        ParseIsChosen(data, datapos, dataend, settings, ts, steps);
        ProgressIs(data, datapos, dataend, settings.lz77.windowsize, ts, lz77_encoded);
      }
    } else {
      var values := new nat[dataend - datapos](_ => 0);
      for i := datapos to dataend
        invariant forall k :: 0 <= k < i - datapos ==> values[k] == data[datapos + k]
      {
        values[i - datapos] := data[i];
      }
      assert values[..] == data[datapos..dataend];
      LiteralsExpand(data, datapos, dataend);
      ts := Literals(data[datapos..dataend]);
      error, lz77_encoded := 0, values[..];
    }
  }

  /** The bits of a dynamic block, put together as they are written. */
  lemma DynamicBits(w: seq<bit>, final: bool, header: seq<bit>, symbols: seq<bit>, end: seq<bit>) returns (e: seq<bit>)
    ensures e == [if final then 1 else 0] + Lsb(2, 2) + header + (symbols + end) == [if final then 1 else 0, 0, 1] + header + symbols + end
    ensures w + [if final then 1 else 0, 0, 1] + header + symbols + end == w + e
  {
    hide Lsb;
    var f: bit := if final then 1 else 0;
    TwoBits(0, 1);
    assert [f] + [0, 1] == [f, 0, 1];
    e := [f] + Lsb(2, 2) + header + (symbols + end);
  }

  /** What the bits mean, when the trees are complete and the header announces them. */
  lemma DynamicBlock(e: seq<bit>, final: bool, ll: seq<nat>, dl: seq<nat>, header: seq<bit>, ts: seq<Token>, out0: seq<byte>, ignoreNlen: bool)
    requires 257 <= |ll| <= 286 && |dl| <= 30 && CompleteTree(ll) && CompleteTree(dl)
    requires AreTokens(ts) && AllHaveCodes(ll, dl, ts) && HasCode(ll, 256) && Expand(ts, out0).Some?
    requires TreesMean(2, header, ll + Zeros(288 - |ll|), dl + Zeros(32 - |dl|))
    requires e == [if final then 1 else 0] + Lsb(2, 2) + header + (EncodeTokens(ll, dl, ts) + CodeBits(ll, 256))
    ensures IsBlock(e, final, out0, Expand(ts, out0).value, ignoreNlen)
  {
    hide IsTree;
    hide AreTokens;
    hide AllHaveCodes;
    hide EncodeTokens;
    hide CodeBits;
    hide TreesMean;
    hide KraftSum;
    hide IsBlock;
    hide Expand;
    hide Lsb;
    hide Zeros;
    hide HasCode;
    var m, n := 288 - |ll|, 32 - |dl|;
    FilledTree(ll, m);
    FilledTree(dl, n);
    FilledTokens(ll, dl, m, n, ts);
    FilledCode(ll, m, 256);
    var data := EncodeTokens(ll, dl, ts) + CodeBits(ll, 256);
    HuffmanBlock(e, final, 2, header, ll + Zeros(m), dl + Zeros(n), ts, out0, data, ignoreNlen);
  }

  /** What a dynamic block sends before its tokens: the lengths of both codes, the code for these lengths and how
      many of its own lengths are sent, and the lengths as tokens. */
  datatype Header = Header(ll: seq<nat>, dl: seq<nat>, cl: seq<nat>, n: nat, cs: seq<LengthToken>)

  /** A block of type 2 with this header for the tokens. */
  ghost predicate DynamicForm(e: seq<bit>, final: bool, ts: seq<Token>, h: Header) {
    && AreTokens(ts) && AllHaveCodes(h.ll, h.dl, ts) && HasCode(h.ll, 256) && 257 <= |h.ll| <= 286 && 2 <= |h.dl| <= 30
    && LengthCode(h.cl, h.n, h.cs, h.ll + h.dl)
    && e == [if final then 1 else 0, 0, 1] + EncodeHeader(h.ll, h.dl, h.cl, h.n, h.cs) + EncodeTokens(h.ll, h.dl, ts) + CodeBits(h.ll, 256)
  }

  /** Its codes are the shortest ones, for the tokens as well as for the lengths; runs of lengths are not written
      singly, and lengths at the end that are zero are not sent. */
  ghost predicate DynamicBlockOf(e: seq<bit>, final: bool, ts: seq<Token>, h: Header) {
    && DynamicForm(e, final, ts, h)
    && ShortestTrees(h.ll, h.dl, ts) && ShortestLengths(h.cl, h.cs) && Economical(h.cs)
    && (h.n > 4 ==> h.cl[CLCL_ORDER[h.n - 1]] > 0)
  }

  ghost predicate IsDynamicBlock(e: seq<bit>, final: bool, data: seq<byte>, datapos: nat, dataend: nat, settings: CompressSettings)
    requires datapos <= dataend <= |data|
  {
    exists ts: seq<Token>, h: Header :: DynamicBlockOf(e, final, ts, h) && TokensChosen(data, datapos, dataend, settings, ts)
  }

  lemma BlockIsDynamic(e: seq<bit>, final: bool, data: seq<byte>, datapos: nat, dataend: nat, settings: CompressSettings, ts: seq<Token>, h: Header)
    requires datapos <= dataend <= |data| && DynamicBlockOf(e, final, ts, h) && TokensChosen(data, datapos, dataend, settings, ts)
    ensures IsDynamicBlock(e, final, data, datapos, dataend, settings)
  {
  }

  lemma FormIs(e: seq<bit>, final: bool, ts: seq<Token>, h: Header)
    requires DynamicForm(e, final, ts, h)
    ensures AreTokens(ts) && AllHaveCodes(h.ll, h.dl, ts) && HasCode(h.ll, 256)
    ensures AreLengthTokens(h.cs) && LengthsHaveCodes(h.cl, h.cs) && |h.cl| == 19 && 4 <= h.n <= 19
  {
    hide EncodeTokens;
    hide EncodeHeader;
    hide CodeBits;
    hide IsTree;
  }

  lemma MakesDynamicBlock(e: seq<bit>, final: bool, ts: seq<Token>, h: Header)
    requires DynamicForm(e, final, ts, h) && |h.cl| == 19 && 4 <= h.n <= 19
    requires CodeLengths.CheapestCode(LitFrequencies(ts, |h.ll|), h.ll, 15) && CodeLengths.CheapestCode(DistFrequencies(ts, |h.dl|), h.dl, 15)
    requires CodeLengths.CheapestCode(ClFrequencies(h.cs), h.cl, 7) && Economical(h.cs) && (h.n > 4 ==> h.cl[CLCL_ORDER[h.n - 1]] > 0)
    ensures DynamicBlockOf(e, final, ts, h)
  {
    FormIs(e, final, ts, h);
    hide DynamicForm;
    hide ShortestTrees;
    hide ShortestLengths;
    hide Economical;
    hide CodeLengths.CheapestCode;
    CheapestIsShortest(h.ll, h.dl, ts);
    CheapestLengthsAreShortest(h.cl, h.cs);
  }

  lemma LengthsAre(cl: seq<nat>, n: nat, cs: seq<LengthToken>, lens: seq<nat>)
    requires LengthCode(cl, n, cs, lens)
    ensures AreLengthTokens(cs) && LengthsHaveCodes(cl, cs) && |cl| == 19 && 4 <= n <= 19
  {
  }

  /** Makes the trees for the tokens and writes the block. */
  method WriteDynamic(writer: BitWriter, lz77_encoded: seq<nat>, final: bool, ghost ts: seq<Token>, ghost out0: seq<byte>, ghost ignoreNlen: bool)
    returns (ghost e: seq<bit>, ghost h: Header)
    requires writer.Valid() && AreTokens(ts) && lz77_encoded == Flat(ts) && Expand(ts, out0).Some?
    modifies writer
    ensures writer.Valid() && writer.Written() == old(writer.Written()) + e
    ensures IsBlock(e, final, out0, Expand(ts, out0).value, ignoreNlen) && DynamicBlockOf(e, final, ts, h)
  {
    hide DynamicBlockOf;
    hide Economical;
    hide LengthCode;
    hide CodeLengths.CheapestCode;
    hide LitFrequencies;
    hide DistFrequencies;
    hide ClFrequencies;
    hide Tree.Valid;
    hide BitWriter.Valid;
    hide BitWriter.Written;
    hide EncodeTokens;
    hide EncodeHeader;
    hide AllHaveCodes;
    hide AreTokens;
    hide CodeBits;
    hide CompleteTree;
    hide IsBlock;
    hide IsTree;
    hide TreesMean;
    hide HasCode;
    hide Expand;
    hide Lsb;
    hide Flat;
    hide FlatLengths;
    hide Zeros;
    var tree_ll := new Tree();
    var tree_d := new Tree();
    var tree_cl := new Tree();
    MakeTrees(lz77_encoded, tree_ll, tree_d, ts);
    ghost var ll, dl, w := tree_ll.lengths, tree_d.lengths, writer.Written();
    var numcodes_ll, numcodes_d, bitlen_lld_e, numcodes_cl;
    ghost var cs;
    numcodes_ll, numcodes_d, bitlen_lld_e, numcodes_cl, cs := MakeHeader(tree_ll, tree_d, tree_cl);
    WriteBlockType(writer, final, 0, 1);
    WriteHeader(writer, tree_cl, numcodes_ll, numcodes_d, numcodes_cl, bitlen_lld_e, ll, dl, cs);
    WriteLZ77Data(writer, lz77_encoded, tree_ll, tree_d, ts);
    EndHasCode(ll);
    if tree_ll.lengths[256] == 0 {
      assert false; // error 64
    }
    WriteCode(writer, tree_ll, 256);
    LengthsAre(tree_cl.lengths, numcodes_cl, cs, ll + dl);
    ghost var header := EncodeHeader(ll, dl, tree_cl.lengths, numcodes_cl, cs);
    e := DynamicBits(w, final, header, EncodeTokens(ll, dl, ts), CodeBits(ll, 256));
    HeaderDecoded(ll, dl, tree_cl.lengths, numcodes_cl, cs);
    DynamicBlock(e, final, ll, dl, header, ts, out0, ignoreNlen);
    h := Header(ll, dl, tree_cl.lengths, numcodes_cl, cs);
    assert DynamicForm(e, final, ts, h);
    MakesDynamicBlock(e, final, ts, h);
  }

  /** A dynamic block of the input from `datapos` to `dataend`. */
  method DeflateDynamic(writer: BitWriter, hash: Hash, data: seq<byte>, datapos: nat, dataend: nat, settings: CompressSettings, final: bool,
                        ghost ignoreNlen: bool)
    returns (error: nat, ghost e: seq<bit>)
    requires writer.Valid() && datapos <= dataend <= |data| && hash.windowsize == settings.lz77.windowsize
    requires settings.useLz77 && LegalSettings(settings) ==> hash.Ready(data, datapos)
    modifies writer, hash.Repr()
    ensures writer.Valid() && (error == 0 <==> LegalSettings(settings))
    ensures error == 0 && settings.useLz77 ==> hash.Ready(data, dataend)
    ensures error == 0 ==> writer.Written() == old(writer.Written()) + e
    ensures error == 0 ==> IsBlock(e, final, data[..datapos], data[..dataend], ignoreNlen)
    ensures error == 0 ==> IsDynamicBlock(e, final, data, datapos, dataend, settings)
  {
    hide TokensChosen;
    hide DynamicBlockOf;
    hide IsDynamicBlock;
    hide LegalSettings;
    hide Hash.Ready;
    hide BitWriter.Valid;
    hide BitWriter.Written;
    hide IsBlock;
    hide AreTokens;
    hide Expand;
    hide Flat;
    e := [];
    var lz77_encoded;
    ghost var ts;
    error, lz77_encoded, ts := Tokenize(hash, data, datapos, dataend, settings);
    if error == 0 {
      ghost var h;
      e, h := WriteDynamic(writer, lz77_encoded, final, ts, data[..datapos], ignoreNlen);
      BlockIsDynamic(e, final, data, datapos, dataend, settings, ts, h);
    }
  }

  lemma EndHasCode(ll: seq<nat>)
    requires HasCode(ll, 256)
    ensures |ll| > 256 && ll[256] > 0
  {
  }

  /** A stream that inflates to the data, whatever follows it. */
  ghost predicate InflatesTo(stream: seq<byte>, data: seq<byte>, ignoreNlen: bool) {
    forall rest: seq<byte> :: InflateBlocks(BitsOf(stream + rest), 0, [], ignoreNlen) == Some(data)
  }

  // ---------------------------------------------------------------------------------------------
  // Stored blocks
  // ---------------------------------------------------------------------------------------------

  /** A stored block as bytes. */
  predicate IsStoredBlock(block: seq<byte>, final: bool, chunk: seq<byte>) {
    && 0 < |chunk| <= 65535 && |block| == 5 + |chunk| && block[5..] == chunk
    && block[0] == (if final then 1 else 0)
    && block[1] + Shl(block[2], 8) == |chunk| && block[3] + Shl(block[4], 8) == 65535 - |chunk|
  }

  /** The header of a block on a byte boundary: the bit for the last block, and type 0. */
  lemma StoredHeader(all: seq<byte>, i: nat, p: nat, x: nat)
    requires i < |all| && p == 8 * i && all[i] == x <= 1
    ensures Window(BitsOf(all), p, 1) == x && Window(BitsOf(all), p + 1, 2) == 0
  {
    hide Window;
    hide BitsOf;
    var bits := BitsOf(all);
    WindowByte(all, i);
    WindowParts(bits, p, 1, 8);
    WindowParts(bits, p + 1, 2, 7);
    assert Low(x, 1) == x && Shr(x, 1) == 0 by {
      assert Pow2(1) == 2;
      LowSmall(x, 1);
    }
    LowSmall(0, 2);
  }

  lemma StoredType(bits: seq<bit>, p: nat, out: seq<byte>, ignoreNlen: bool)
    requires p + 2 <= |bits| && Window(bits, p, 2) == 0
    ensures InflateBlock(bits, p, out, ignoreNlen) == InflateStored(bits, p + 2, out, ignoreNlen)
  {
    hide Window;
    hide InflateStored;
  }

  /** A stored block between other bytes decodes to its bytes. */
  lemma StoredDecoded(before: seq<byte>, block: seq<byte>, rest: seq<byte>, final: bool, chunk: seq<byte>, out: seq<byte>, ignoreNlen: bool)
    requires IsStoredBlock(block, final, chunk)
    ensures var bits := BitsOf(before + block + rest);
      InflateBlocks(bits, 8 * |before|, out, ignoreNlen) ==
        if final then Some(out + chunk) else InflateBlocks(bits, 8 * |before + block|, out + chunk, ignoreNlen)
  {
    hide BitsOf;
    hide Window;
    hide Shl;
    hide InflateBlock;
    hide InflateStored;
    hide InflateBlocks;
    var all := before + block + rest;
    var bits, i, p, x := BitsOf(all), |before|, 8 * |before|, if final then 1 else 0;
    assert forall k :: 0 <= k < |block| ==> all[i + k] == block[k];
    assert all[i] == all[i + 0] == x;
    StoredHeader(all, i, p, x);
    var len := |chunk|;
    assert all[i + 5..i + 5 + len] == chunk;
    StoredMeaning(all, p + 3, i + 1, out, ignoreNlen, len, 65535 - len);
    StoredType(bits, p + 1, out, ignoreNlen);
    BlocksStep(bits, p, out, ignoreNlen);
  }

  /** The bytes of a stored block. */
  method StoreBlock(out: seq<byte>, data: seq<byte>, datapos: nat, LEN: nat, final: bool) returns (out': seq<byte>, ghost block: seq<byte>)
    requires 0 < LEN <= 65535 && datapos + LEN <= |data|
    ensures out' == out + block && IsStoredBlock(block, final, data[datapos..datapos + LEN])
  {
    var BFINAL, BTYPE := if final then 1 else 0, 0;
    var NLEN := 65535 - LEN;
    TwoBytes(LEN);
    TwoBytes(NLEN);
    NoType();
    var firstbyte := BFINAL + Shl(BitAnd(BTYPE, 1), 1) + Shl(BitAnd(BTYPE, 2), 1);
    var header: seq<byte> := [firstbyte, BitAnd(LEN, 255), Shr(LEN, 8), BitAnd(NLEN, 255), Shr(NLEN, 8)];
    block := header + data[datapos..datapos + LEN];
    out' := out + header + data[datapos..datapos + LEN];
  }

  lemma NoType()
    ensures Shl(BitAnd(0, 1), 1) == 0 && Shl(BitAnd(0, 2), 1) == 0
  {
    ShlOne(1);
  }

  lemma TwoBytes(x: nat)
    requires x <= 65535
    ensures BitAnd(x, 255) < 256 && Shr(x, 8) < 256 && BitAnd(x, 255) + Shl(Shr(x, 8), 8) == x
  {
    hide Low;
    hide Shr;
    hide BitAnd;
    Pow2Values();
    BitAndMask(x, 8);
    Split(x, 8);
    ShlTimes(Shr(x, 8), 8);
  }

  /** Stores the data as it is. For no data nothing is written. */
  method DeflateNoCompression(out: seq<byte>, data: seq<byte>, ghost ignoreNlen: bool) returns (out': seq<byte>, ghost stream: seq<byte>)
    ensures out' == out + stream
    ensures if data != [] then InflatesTo(stream, data, ignoreNlen) else stream == []
    ensures |stream| == |data| + 5 * ((|data| + 65534) / 65535)
  {
    hide IsStoredBlock;
    hide InflateBlocks;
    hide BitsOf;
    hide InflatesTo;
    var datasize := |data|;
    var numdeflateblocks := (datasize + 65534) / 65535;
    var datapos := 0;
    out', stream := out, [];
    for i := 0 to numdeflateblocks
      invariant datapos == (if i == numdeflateblocks then datasize else 65535 * i) && datapos <= datasize
      invariant out' == out + stream && (i == 0 ==> stream == []) && |stream| == datapos + 5 * i
      invariant StoredSoFar(stream, data[..datapos], data != [] && i == numdeflateblocks, ignoreNlen)
    {
      var BFINAL := i == numdeflateblocks - 1;
      var LEN := 65535;
      if datasize - datapos < 65535 {
        LEN := datasize - datapos;
      }
      ghost var block;
      out', block := StoreBlock(out', data, datapos, LEN, BFINAL);
      StoredSize(block, BFINAL, data[datapos..datapos + LEN]);
      StoredStep(stream, block, BFINAL, data[..datapos], data[datapos..datapos + LEN], ignoreNlen);
      assert data[..datapos] + data[datapos..datapos + LEN] == data[..datapos + LEN];
      stream := stream + block;
      datapos := datapos + LEN;
    }
    assert stream + [] == stream && data[..datasize] == data;
    assert data != [] ==> numdeflateblocks > 0;
    if data != [] {
      StoredAll(stream, data[..datapos], ignoreNlen);
    }
  }

  /** Nothing is no stream. */
  lemma NoBlocks(ignoreNlen: bool)
    ensures InflateBlocks(BitsOf([]), 0, [], ignoreNlen) == None
  {
  }

  /** Whatever follows the blocks so far, they decode to the data so far. */
  ghost predicate StoredSoFar(stream: seq<byte>, out: seq<byte>, done: bool, ignoreNlen: bool) {
    forall rest: seq<byte> :: StoredWith(stream, rest, out, done, ignoreNlen)
  }

  ghost predicate StoredWith(stream: seq<byte>, rest: seq<byte>, out: seq<byte>, done: bool, ignoreNlen: bool) {
    var bits := BitsOf(stream + rest);
    InflateBlocks(bits, 0, [], ignoreNlen) == if done then Some(out) else InflateBlocks(bits, 8 * |stream|, out, ignoreNlen)
  }

  lemma StoredSize(block: seq<byte>, final: bool, chunk: seq<byte>)
    requires IsStoredBlock(block, final, chunk)
    ensures |block| == 5 + |chunk|
  {
  }

  lemma StoredStep(stream: seq<byte>, block: seq<byte>, final: bool, out: seq<byte>, chunk: seq<byte>, ignoreNlen: bool)
    requires StoredSoFar(stream, out, false, ignoreNlen) && IsStoredBlock(block, final, chunk)
    ensures StoredSoFar(stream + block, out + chunk, final, ignoreNlen)
  {
    hide InflateBlocks;
    hide BitsOf;
    hide IsStoredBlock;
    forall rest: seq<byte>
      ensures StoredWith(stream + block, rest, out + chunk, final, ignoreNlen)
    {
      assert stream + block + rest == stream + (block + rest);
      assert StoredWith(stream, block + rest, out, false, ignoreNlen);
      StoredDecoded(stream, block, rest, final, chunk, out, ignoreNlen);
    }
  }

  lemma StoredAll(stream: seq<byte>, out: seq<byte>, ignoreNlen: bool)
    requires StoredSoFar(stream, out, true, ignoreNlen)
    ensures InflatesTo(stream, out, ignoreNlen)
  {
    hide InflateBlocks;
    hide BitsOf;
    forall rest: seq<byte>
      ensures InflateBlocks(BitsOf(stream + rest), 0, [], ignoreNlen) == Some(out)
    {
      assert StoredWith(stream, rest, out, true, ignoreNlen);
    }
  }

  // ---------------------------------------------------------------------------------------------
  // All blocks
  // ---------------------------------------------------------------------------------------------

  lemma LastByte(data: seq<byte>)
    requires data != []
    ensures BitsOf(data) == BitsOf(data[..|data| - 1]) + Lsb(data[|data| - 1], 8)
  {
  }

  /** What has been written is in the stream of the bytes. */
  lemma WrittenIsThere(writer: BitWriter)
    requires writer.Valid()
    ensures At(BitsOf(writer.data), 0, writer.Written())
    ensures BitsOf(writer.data) == writer.Written() + Lsb(0, (8 - writer.bp % 8) % 8)
  {
    hide Pow2;
    hide BitsOf;
    hide At;
    hide Low;
    hide Shr;
    assert Lsb(0, 0) == [];
    hide Lsb;
    var data, r := writer.data, writer.bp % 8;
    if r != 0 {
      var x := data[|data| - 1];
      LowSmall(x, r);
      LsbSplit(x, r, 8 - r);
      LastByte(data);
      assert Lsb(x, 8) == Lsb(x, r) + Lsb(0, 8 - r);
      FrontPart(BitsOf(data[..|data| - 1]), Lsb(x, r), Lsb(0, 8 - r));
    } else {
      FrontPart(BitsOf(data), [], []);
    }
  }

  lemma FrontPart(a: seq<bit>, b: seq<bit>, c: seq<bit>)
    ensures a + (b + c) == (a + b) + c && At(a + (b + c), 0, a + b) && a + b + [] == a + b
  {
    assert (a + (b + c))[0..0 + |a + b|] == a + b;
  }

  lemma SamePrefix(a: seq<byte>, data: seq<byte>)
    requires At(BitsOf(data), 0, BitsOf(a))
    ensures a <= data
  {
    hide BitsOf;
    hide Window;
    forall i | 0 <= i < |a|
      ensures a[i] == data[i]
    {
      ByteInStream(a, i);
      var e := Lsb(a[i], 8);
      assert BitsOf(data)[8 * i..8 * i + 8] == BitsOf(a)[8 * i..8 * i + 8] by {
        assert BitsOf(data)[0..0 + |BitsOf(a)|] == BitsOf(a);
      }
      WindowAt(BitsOf(data), 8 * i, e);
      WindowAt(BitsOf(a), 8 * i, e);
      WindowByte(data, i);
      WindowByte(a, i);
    }
  }

  /** What was written behind the bytes of `out` is a stream of its own in the bytes behind them. */
  lemma StreamBehind(out: seq<byte>, e: seq<bit>, data: seq<byte>)
    requires At(BitsOf(data), 0, BitsOf(out) + e)
    ensures out <= data && At(BitsOf(data[|out|..]), 0, e)
  {
    hide BitsOf;
    AtConcat(BitsOf(data), 0, BitsOf(out), e);
    SamePrefix(out, data);
    var rest := data[|out|..];
    assert data == out + rest;
    BitsOfConcat(out, rest);
    assert BitsOf(data)[8 * |out|..8 * |out| + |e|] == BitsOf(rest)[0..0 + |e|];
  }

  /** Where block `i` of the input starts. */
  function BlockStart(i: nat, blocksize: nat, insize: nat): (n: nat)
    ensures n <= insize
  {
    if i * blocksize < insize then i * blocksize else insize
  }

  /** The blocks cover the input: only the last one ends at its end. */
  lemma BlocksCover(insize: nat, blocksize: nat, n: nat, i: nat)
    requires blocksize > 0 && i < n
    requires n == (if insize == 0 then 1 else (insize + blocksize - 1) / blocksize)
    ensures BlockStart(n, blocksize, insize) == insize
    ensures var start := i * blocksize;
      start <= insize && BlockStart(i, blocksize, insize) == start
      && BlockStart(i + 1, blocksize, insize) == if start + blocksize > insize then insize else start + blocksize
  {
    if insize == 0 {
      assert i == 0 && i * blocksize == 0;
    } else {
      var x := insize + blocksize - 1;
      assert x == n * blocksize + x % blocksize;
      MulDist(i, 1, blocksize);
      MulDist(n, -(i + 1), blocksize);
      if n > i + 1 {
        MulGe(n - (i + 1), blocksize);
      }
    }
  }

  /** A block of the type that is set. */
  ghost predicate IsBlockOf(e: seq<bit>, final: bool, input: seq<byte>, start: nat, end: nat, settings: CompressSettings)
    requires start <= end <= |input|
  {
    if settings.btype == 1 then IsFixedBlock(e, final, input, start, end, settings) else IsDynamicBlock(e, final, input, start, end, settings)
  }

  /** The first `i` of `n` blocks of the input, one after the other. */
  ghost predicate AreBlocks(e: seq<bit>, input: seq<byte>, settings: CompressSettings, blocksize: nat, n: nat, i: nat)
    decreases i
  {
    if i == 0 then e == []
    else
      exists e0: seq<bit>, block: seq<bit> ::
        AreBlocks(e0, input, settings, blocksize, n, i - 1) && e == e0 + block
        && BlockStart(i - 1, blocksize, |input|) <= BlockStart(i, blocksize, |input|)
        && IsBlockOf(block, i == n, input, BlockStart(i - 1, blocksize, |input|), BlockStart(i, blocksize, |input|), settings)
  }

  lemma OneBlockMore(e: seq<bit>, block: seq<bit>, input: seq<byte>, settings: CompressSettings, blocksize: nat, n: nat, i: nat, start: nat, end: nat)
    requires AreBlocks(e, input, settings, blocksize, n, i) && start == BlockStart(i, blocksize, |input|) <= end == BlockStart(i + 1, blocksize, |input|)
    requires IsBlockOf(block, i + 1 == n, input, start, end, settings)
    ensures AreBlocks(e + block, input, settings, blocksize, n, i + 1)
  {
    hide BlockStart;
    hide IsBlockOf;
    var j := i + 1;
    assert j - 1 == i;
  }

  /** How long the blocks are: all of the input in one block with the fixed codes, and otherwise an eighth of it
      and eight bytes, but at least 65536 and at most 262144 bytes. */
  function BlockSize(btype: nat, insize: nat): (n: nat)
    ensures btype == 2 ==> 65536 <= n <= 262144 && (insize <= 65536 ==> n == 65536)
  {
    if btype != 2 then insize
    else if insize / 8 + 8 < 65536 then 65536
    else if insize / 8 + 8 > 262144 then 262144
    else insize / 8 + 8
  }

  /** The bytes hold the blocks of the input, filled up to a whole byte with zeros. */
  ghost predicate HoldsBlocks(stream: seq<byte>, input: seq<byte>, settings: CompressSettings) {
    var size := BlockSize(settings.btype, |input|);
    size > 0 &&
    var n := if |input| == 0 then 1 else (|input| + size - 1) / size;
    exists e: seq<bit>, k: nat :: k < 8 && BitsOf(stream) == e + Lsb(0, k) && AreBlocks(e, input, settings, size, n, n)
  }

  /** One block, of the type that is set. */
  method DeflateBlock(writer: BitWriter, hash: Hash, input: seq<byte>, start: nat, end: nat, settings: CompressSettings, final: bool,
                      ghost ignoreNlen: bool, ghost w: seq<bit>, ghost e0: seq<bit>)
    returns (error: nat, ghost e: seq<bit>, ghost block: seq<bit>)
    requires writer.Valid() && start <= end <= |input| && hash.windowsize == settings.lz77.windowsize && 1 <= settings.btype <= 2
    requires settings.useLz77 && LegalSettings(settings) ==> hash.Ready(input, start)
    requires writer.Written() == w + e0 && IsStream(e0, false, [], input[..start], ignoreNlen)
    modifies writer, hash.Repr()
    ensures writer.Valid() && (error == 0 <==> LegalSettings(settings))
    ensures error == 0 && settings.useLz77 ==> hash.Ready(input, end)
    ensures error == 0 ==> writer.Written() == w + e && IsStream(e, final, [], input[..end], ignoreNlen)
    ensures error == 0 ==> e == e0 + block && IsBlockOf(block, final, input, start, end, settings)
  {
    hide IsFixedBlock;
    hide IsDynamicBlock;
    hide LegalSettings;
    hide Hash.Ready;
    hide BitWriter.Valid;
    hide BitWriter.Written;
    hide IsBlock;
    hide IsStream;
    if settings.btype == 1 {
      error, block := DeflateFixed(writer, hash, input, start, end, settings, final, ignoreNlen);
    } else {
      error, block := DeflateDynamic(writer, hash, input, start, end, settings, final, ignoreNlen);
    }
    e := e0 + block;
    if error == 0 {
      StreamStep(e0, block, final, [], input[..start], input[..end], ignoreNlen);
      assert w + e0 + block == w + e;
    }
  }

  /** The settings that the library can work with; a fixed block of no data would divide by zero. */
  ghost predicate Deflates(settings: CompressSettings) {
    settings.btype <= 2 && (settings.btype > 0 ==> LegalSettings(settings))
  }

  /** Deflates the input after what the output holds already. What it appends inflates to the input. */
  method Deflatev(out: seq<byte>, input: seq<byte>, settings: CompressSettings, ghost ignoreNlen: bool)
    returns (error: nat, result: seq<byte>)
    requires settings.btype == 1 ==> input != []
    ensures error == 0 <==> Deflates(settings)
    ensures settings.btype > 2 ==> error == 61
    ensures error == 0 ==> out <= result
    ensures error == 0 && (settings.btype > 0 || input != []) ==> InflatesTo(result[|out|..], input, ignoreNlen)
    ensures error == 0 && settings.btype > 0 ==> HoldsBlocks(result[|out|..], input, settings)
    ensures error == 0 && settings.btype == 0 ==> |result| == |out| + |input| + 5 * ((|input| + 65534) / 65535)
    ensures settings.btype == 0 && input == [] ==> result == out
  {
    hide InflatesTo;
    hide HoldsBlocks;
    hide LegalSettings;
    if settings.btype > 2 {
      return 61, out;
    } else if settings.btype == 0 {
      ghost var stream;
      result, stream := DeflateNoCompression(out, input, ignoreNlen);
      assert result[|out|..] == stream;
      return 0, result;
    }
    var insize := |input|;
    var blocksize := insize;
    if settings.btype == 2 {
      blocksize := insize / 8 + 8;
      if blocksize < 65536 {
        blocksize := 65536;
      }
      if blocksize > 262144 {
        blocksize := 262144;
      }
    }
    assert blocksize == BlockSize(settings.btype, insize);
    hide BlockSize;
    var numdeflateblocks := (insize + blocksize - 1) / blocksize;
    BlockCount(insize, blocksize);
    if numdeflateblocks == 0 {
      numdeflateblocks := 1;
    }
    error, result := DeflateBlocks(out, input, settings, blocksize, numdeflateblocks, ignoreNlen);
  }

  lemma BlockCount(insize: nat, blocksize: nat)
    requires blocksize > 0
    ensures insize == 0 ==> (insize + blocksize - 1) / blocksize == 0
    ensures insize > 0 ==> (insize + blocksize - 1) / blocksize > 0
  {
    if insize == 0 {
      DivModUnique(blocksize - 1, blocksize, 0, blocksize - 1);
    } else {
      var x := insize + blocksize - 1;
      assert x >= blocksize;
    }
  }

  /** Block after block, with one hash and one bit writer for all of them. */
  method DeflateBlocks(out: seq<byte>, input: seq<byte>, settings: CompressSettings, blocksize: nat, numdeflateblocks: nat, ghost ignoreNlen: bool)
    returns (error: nat, result: seq<byte>)
    requires 1 <= settings.btype <= 2 && blocksize > 0
    requires numdeflateblocks == (if |input| == 0 then 1 else (|input| + blocksize - 1) / blocksize) > 0
    ensures error == 0 <==> LegalSettings(settings)
    ensures error == 0 ==> out <= result && InflatesTo(result[|out|..], input, ignoreNlen)
    ensures error == 0 && blocksize == BlockSize(settings.btype, |input|) ==> HoldsBlocks(result[|out|..], input, settings)
  {
    hide IsBlockOf;
    hide AreBlocks;
    hide HoldsBlocks;
    hide BlockSize;
    hide InflatesTo;
    hide LegalSettings;
    hide BitsOf;
    hide IsStream;
    hide At;
    hide BitWriter.Valid;
    hide BitWriter.Written;
    hide BlockStart;
    var insize := |input|;
    error := 0;
    var writer := new BitWriter(out);
    var hash := new Hash(settings.lz77.windowsize);
    ghost var e: seq<bit> := [];
    EmptyStream([], ignoreNlen);
    NoBlockYet(input, settings, blocksize, numdeflateblocks);
    StartsAtZero(settings, blocksize, insize);
    assert BitsOf(out) + e == BitsOf(out);
    var i := 0;
    while i != numdeflateblocks && error == 0
      invariant 0 <= i <= numdeflateblocks && writer.Valid() && fresh(hash.Repr())
      invariant error == 0 && settings.useLz77 && LegalSettings(settings) ==> hash.Ready(input, BlockStart(i, blocksize, insize))
      invariant error != 0 ==> !LegalSettings(settings)
      invariant error == 0 && i > 0 ==> LegalSettings(settings)
      invariant error == 0 ==> writer.Written() == BitsOf(out) + e
      invariant error == 0 ==> IsStream(e, i == numdeflateblocks, [], input[..BlockStart(i, blocksize, insize)], ignoreNlen)
      invariant error == 0 ==> AreBlocks(e, input, settings, blocksize, numdeflateblocks, i)
      decreases numdeflateblocks - i
    {
      ghost var e0, block := e, [];
      var final := i == numdeflateblocks - 1;
      BlocksCover(insize, blocksize, numdeflateblocks, i);
      var start := i * blocksize;
      var end := start + blocksize;
      if end > insize {
        end := insize;
      }
      error, e, block := DeflateBlock(writer, hash, input, start, end, settings, final, ignoreNlen, BitsOf(out), e);
      if error == 0 {
        OneBlockMore(e0, block, input, settings, blocksize, numdeflateblocks, i, start, end);
      }
      i := i + 1;
    }
    result := writer.data;
    if error == 0 {
      WrittenIsThere(writer);
      StreamBehind(out, e, result);
      assert out + result[|out|..] == result;
      BlocksHeld(out, e, result[|out|..], (8 - writer.bp % 8) % 8, input, settings, blocksize, numdeflateblocks);
      BlocksCover(insize, blocksize, numdeflateblocks, numdeflateblocks - 1);
      assert input[..insize] == input;
      StreamDone(e, input, ignoreNlen, result[|out|..]);
    }
  }

  lemma NoBlockYet(input: seq<byte>, settings: CompressSettings, blocksize: nat, n: nat)
    ensures AreBlocks([], input, settings, blocksize, n, 0)
  {
  }

  lemma BlocksHeld(out: seq<byte>, e: seq<bit>, rest: seq<byte>, k: nat, input: seq<byte>, settings: CompressSettings, blocksize: nat, n: nat)
    requires k < 8 && BitsOf(out + rest) == BitsOf(out) + e + Lsb(0, k)
    requires blocksize > 0 && n == (if |input| == 0 then 1 else (|input| + blocksize - 1) / blocksize)
    requires AreBlocks(e, input, settings, blocksize, n, n)
    ensures blocksize == BlockSize(settings.btype, |input|) ==> HoldsBlocks(rest, input, settings)
  {
    hide BitsOf;
    hide Lsb;
    hide AreBlocks;
    hide BlockSize;
    BitsOfConcat(out, rest);
    BehindPrefix(BitsOf(out), BitsOf(rest), e, Lsb(0, k));
  }

  lemma BehindPrefix(a: seq<bit>, b: seq<bit>, e: seq<bit>, f: seq<bit>)
    requires a + b == a + e + f
    ensures b == e + f
  {
    assert (a + b)[|a|..] == b && (a + e + f)[|a|..] == e + f;
  }

  lemma StartsAtZero(settings: CompressSettings, blocksize: nat, insize: nat)
    ensures BlockStart(0, blocksize, insize) == 0
    ensures settings.useLz77 && LegalSettings(settings) ==> settings.lz77.windowsize > 0
  {
  }

  lemma StreamDone(e: seq<bit>, out: seq<byte>, ignoreNlen: bool, stream: seq<byte>)
    requires IsStream(e, true, [], out, ignoreNlen) && At(BitsOf(stream), 0, e)
    ensures InflatesTo(stream, out, ignoreNlen)
  {
    hide InflateBlocks;
    hide BitsOf;
    forall rest: seq<byte>
      ensures InflateBlocks(BitsOf(stream + rest), 0, [], ignoreNlen) == Some(out)
    {
      BitsOfConcat(stream, rest);
      assert BitsOf(stream + rest)[0..0 + |e|] == BitsOf(stream)[0..0 + |e|];
    }
  }

  /** Whatever the settings that deflating accepts, inflating gives the input back. The one exception is
      to store no data. */
  method RoundTrip(input: seq<byte>, settings: CompressSettings, ignoreNlen: bool) returns (error: nat, output: seq<byte>)
    requires Deflates(settings) && (settings.btype == 1 ==> input != [])
    ensures error == 0 <==> settings.btype > 0 || input != []
    ensures error == 0 ==> output == input
  {
    hide InflateBlocks;
    hide BitsOf;
    hide Deflates;
    var compressed;
    error, compressed := Deflatev([], input, settings, ignoreNlen);
    assert compressed[0..] == compressed && compressed + [] == compressed;
    NoBlocks(ignoreNlen);
    var out := new ByteVector([]);
    error := Inflatev(out, compressed, ignoreNlen, 0);
    output := out.data[..out.size];
  }
}
