/** Blocks that are coded with Huffman trees: how their symbols are written, and what the bits mean. The
    fixed block is complete here; a dynamic block needs the trees of `DynamicTrees` as well. */
module HuffmanBlocks {
  import opened Bits
  import opened BitStream
  import opened Canonical
  import opened DeflateFormat
  import opened Wrappers
  import opened HuffmanTree
  import opened Lz77
  import opened Encoding

  datatype CompressSettings = CompressSettings(btype: nat, useLz77: bool, lz77: Lz77Settings)

  /** Compression can fail only for a window size that is not allowed. */
  ghost predicate LegalSettings(settings: CompressSettings) {
    settings.useLz77 ==> LegalWindow(settings.lz77.windowsize)
  }

  // ---------------------------------------------------------------------------------------------
  // Writing tokens
  // ---------------------------------------------------------------------------------------------

  lemma {:induction false} MsbOfLow(x: nat, n: nat)
    ensures Msb(Low(x, n), n) == Msb(x, n)
  {
    if n > 0 {
      MsbOfLow(x / 2, n - 1);
      assert Low(x, n) / 2 == Low(x / 2, n - 1) && Low(x, n) % 2 == x % 2;
    }
  }

  /** Writes the code of a symbol. */
  method WriteCode(writer: BitWriter, tree: Tree, s: nat)
    requires writer.Valid() && tree.Valid() && HasCode(tree.lengths, s)
    modifies writer
    ensures writer.Valid() && writer.Written() == old(writer.Written()) + CodeBits(tree.lengths, s)
  {
    MsbOfLow(Code(tree.lengths, s), tree.lengths[s]);
    writer.WriteBitsReversed(tree.codes[s], tree.lengths[s]);
  }

  /** The numbers of a token among the others. */
  lemma {:induction false} FlatAt(ts: seq<Token>, k: nat)
    requires k < |ts|
    ensures var i, v := |Flat(ts[..k])|, Values(ts[k]);
      && i + |v| <= |Flat(ts)| && Flat(ts)[i..i + |v|] == v
      && |Flat(ts[..k + 1])| == i + |v|
  {
    hide Values;
    var m := |ts| - 1;
    assert ts[..k + 1][..k] == ts[..k];
    if k == m {
      assert ts[..k + 1] == ts;
    } else {
      FlatAt(ts[..m], k);
      assert ts[..m][..k] == ts[..k] && ts[..m][..k + 1] == ts[..k + 1];
    }
  }

  method WriteToken(writer: BitWriter, values: seq<nat>, i0: nat, tree_ll: Tree, tree_d: Tree, ghost t: Token) returns (i: nat)
    requires writer.Valid() && tree_ll.Valid() && tree_d.Valid()
    requires IsToken(t) && HasCodes(tree_ll.lengths, tree_d.lengths, t)
    requires i0 + |Values(t)| <= |values| && values[i0..i0 + |Values(t)|] == Values(t)
    modifies writer
    ensures i == i0 + |Values(t)|
    ensures writer.Valid() && writer.Written() == old(writer.Written()) + EncodeToken(tree_ll.lengths, tree_d.lengths, t)
  {
    hide CodeBits;
    hide Lsb;
    hide Tree.Valid;
    hide Pow2;
    hide LengthExtra;
    hide DistanceExtra;
    i := i0;
    ValuesThere(values, i, t);
    var val := values[i];
    WriteCode(writer, tree_ll, val);
    if val > 256 {
      var length_index := val - FIRST_LENGTH_CODE_INDEX;
      i := i + 1;
      var length_extra_bits := values[i];
      i := i + 1;
      var distance_code := values[i];
      i := i + 1;
      var distance_extra_bits := values[i];
      SingleBits(t);
      WriteExtra(writer, tree_d, length_extra_bits, LengthExtra(length_index), distance_code, distance_extra_bits);
      Concat4(old(writer.Written()), CodeBits(tree_ll.lengths, val), Lsb(length_extra_bits, LengthExtra(length_index)),
              CodeBits(tree_d.lengths, distance_code), Lsb(distance_extra_bits, DistanceExtra(distance_code)));
    }
    i := i + 1;
  }

  /** What follows the symbol of a length. */
  method WriteExtra(writer: BitWriter, tree_d: Tree, length_extra_bits: nat, n_length_extra_bits: nat, distance_code: nat, distance_extra_bits: nat)
    requires writer.Valid() && tree_d.Valid() && HasCode(tree_d.lengths, distance_code) && distance_code < 30
    requires n_length_extra_bits == 1 ==> length_extra_bits < 2
    requires DistanceExtra(distance_code) == 1 ==> distance_extra_bits < 2
    modifies writer
    ensures writer.Valid()
    ensures writer.Written() == old(writer.Written()) + Lsb(length_extra_bits, n_length_extra_bits)
      + CodeBits(tree_d.lengths, distance_code) + Lsb(distance_extra_bits, DistanceExtra(distance_code))
  {
    hide CodeBits;
    hide Lsb;
    hide Tree.Valid;
    hide DistanceExtra;
    writer.WriteBits(length_extra_bits, n_length_extra_bits);
    WriteCode(writer, tree_d, distance_code);
    writer.WriteBits(distance_extra_bits, DistanceExtra(distance_code));
  }

  lemma ValuesThere(values: seq<nat>, i: nat, t: Token)
    requires i + |Values(t)| <= |values| && values[i..i + |Values(t)|] == Values(t)
    ensures t.Literal? ==> values[i] == t.value
    ensures t.Pair? ==> values[i] == t.lengthCode + FIRST_LENGTH_CODE_INDEX && values[i + 1] == t.extraLength
    ensures t.Pair? ==> values[i + 2] == t.distCode && values[i + 3] == t.extraDistance
  {
    var v := values[i..i + |Values(t)|];
    assert v[0] == values[i];
    if t.Pair? {
      assert v[1] == values[i + 1] && v[2] == values[i + 2] && v[3] == values[i + 3];
    }
  }

  /** A field of one bit holds one bit. */
  lemma SingleBits(t: Token)
    requires IsToken(t) && t.Pair?
    ensures LengthExtra(t.lengthCode) == 1 ==> t.extraLength < 2
    ensures DistanceExtra(t.distCode) == 1 ==> t.extraDistance < 2
  {
    hide LengthExtra;
    hide DistanceExtra;
    assert Pow2(1) == 2;
  }

  lemma Concat4(w: seq<bit>, a: seq<bit>, b: seq<bit>, c: seq<bit>, d: seq<bit>)
    ensures w + a + b + c + d == w + (a + b + c + d)
  {
  }

  method WriteLZ77Data(writer: BitWriter, values: seq<nat>, tree_ll: Tree, tree_d: Tree, ghost ts: seq<Token>)
    requires writer.Valid() && tree_ll.Valid() && tree_d.Valid()
    requires AreTokens(ts) && AllHaveCodes(tree_ll.lengths, tree_d.lengths, ts) && values == Flat(ts)
    modifies writer
    ensures writer.Valid() && writer.Written() == old(writer.Written()) + EncodeTokens(tree_ll.lengths, tree_d.lengths, ts)
  {
    hide Flat;
    hide Values;
    hide IsToken;
    hide HasCodes;
    hide EncodeToken;
    hide Acceptable;
    hide CodesOf;
    hide EncodeTokens;
    hide AllHaveCodes;
    hide AreTokens;
    hide Tree.Valid;
    hide BitWriter.Valid;
    hide BitWriter.Written;
    ghost var ll, dl, w := tree_ll.lengths, tree_d.lengths, writer.Written();
    var i: nat := 0;
    ghost var k := 0;
    FlatLength(ts);
    NoTokens(ll, dl, ts);
    while i != |values|
      invariant 0 <= k <= |ts| && i == |Flat(ts[..k])| && (k == |ts| ==> i == |values|)
      invariant writer.Valid() && AreTokens(ts[..k]) && AllHaveCodes(ll, dl, ts[..k])
      invariant writer.Written() == w + EncodeTokens(ll, dl, ts[..k])
      decreases |ts| - k
    {
      FlatAt(ts, k);
      NextToken(ll, dl, ts, k, k + 1, w);
      i := WriteToken(writer, values, i, tree_ll, tree_d, ts[k]);
      k := k + 1;
    }
    FlatGrows(ts, k);
    assert ts[..|ts|] == ts;
  }

  lemma NoTokens(ll: seq<nat>, dl: seq<nat>, ts: seq<Token>)
    ensures AreTokens(ts[..0]) && AllHaveCodes(ll, dl, ts[..0]) && EncodeTokens(ll, dl, ts[..0]) == []
  {
  }

  /** One more token. */
  lemma NextToken(ll: seq<nat>, dl: seq<nat>, ts: seq<Token>, k: nat, n: nat, w: seq<bit>)
    requires k < |ts| && n == k + 1 && AreTokens(ts) && AllHaveCodes(ll, dl, ts)
    ensures IsToken(ts[k]) && HasCodes(ll, dl, ts[k])
    ensures AreTokens(ts[..k]) && AllHaveCodes(ll, dl, ts[..k]) && AreTokens(ts[..n]) && AllHaveCodes(ll, dl, ts[..n])
    ensures w + EncodeTokens(ll, dl, ts[..k]) + EncodeToken(ll, dl, ts[k]) == w + EncodeTokens(ll, dl, ts[..n])
    ensures n == |ts| ==> ts[..n] == ts
  {
    hide EncodeToken;
    hide HasCodes;
    hide IsToken;
    assert ts[..n][..k] == ts[..k];
  }

  lemma FlatLength(ts: seq<Token>)
    ensures Flat(ts[..0]) == [] && Flat(ts[..|ts|]) == Flat(ts) && ts[..0] == []
  {
    assert ts[..|ts|] == ts;
  }

  lemma FlatGrows(ts: seq<Token>, k: nat)
    requires k <= |ts| && |Flat(ts[..k])| == |Flat(ts)|
    ensures k == |ts|
  {
    if k < |ts| {
      FlatAt(ts, k);
    }
  }

  // ---------------------------------------------------------------------------------------------
  // Blocks and streams
  // ---------------------------------------------------------------------------------------------

  /** Wherever the bits of the block stand, they decode to what turns `out0` into `out1`. */
  ghost predicate IsBlock(e: seq<bit>, final: bool, out0: seq<byte>, out1: seq<byte>, ignoreNlen: bool) {
    && |e| >= 3 && e[0] == (if final then 1 else 0)
    && forall bits: seq<bit>, p: nat :: At(bits, p, e) ==> InflateBlock(bits, p + 1, out0, ignoreNlen) == Some((p + |e|, out1))
  }

  /** The same for blocks in a row; `done` says that the last has been among them. */
  ghost predicate IsStream(e: seq<bit>, done: bool, out0: seq<byte>, out1: seq<byte>, ignoreNlen: bool) {
    forall bits: seq<bit>, p: nat :: At(bits, p, e) ==>
      InflateBlocks(bits, p, out0, ignoreNlen) == if done then Some(out1) else InflateBlocks(bits, p + |e|, out1, ignoreNlen)
  }

  lemma EmptyStream(out: seq<byte>, ignoreNlen: bool)
    ensures IsStream([], false, out, out, ignoreNlen)
  {
  }

  lemma BlockDecodes(e: seq<bit>, final: bool, out0: seq<byte>, out1: seq<byte>, ignoreNlen: bool, bits: seq<bit>, p: nat)
    requires IsBlock(e, final, out0, out1, ignoreNlen) && At(bits, p, e)
    ensures InflateBlocks(bits, p, out0, ignoreNlen) == if final then Some(out1) else InflateBlocks(bits, p + |e|, out1, ignoreNlen)
  {
    hide InflateBlock;
    assert bits[p..p + |e|][0] == bits[p];
  }

  lemma StreamStep(a: seq<bit>, e: seq<bit>, final: bool, out0: seq<byte>, out1: seq<byte>, out2: seq<byte>, ignoreNlen: bool)
    requires IsStream(a, false, out0, out1, ignoreNlen) && IsBlock(e, final, out1, out2, ignoreNlen)
    ensures IsStream(a + e, final, out0, out2, ignoreNlen)
  {
    hide IsBlock;
    hide InflateBlocks;
    hide At;
    forall bits: seq<bit>, p: nat | At(bits, p, a + e)
      ensures InflateBlocks(bits, p, out0, ignoreNlen) == if final then Some(out2) else InflateBlocks(bits, p + |a + e|, out2, ignoreNlen)
    {
      AtConcat(bits, p, a, e);
      BlockDecodes(e, final, out1, out2, ignoreNlen, bits, p + |a|);
    }
  }

  /** The bits that announce the trees of a block: none for a fixed one. */
  ghost predicate TreesMean(btype: nat, trees: seq<bit>, ll: seq<nat>, dl: seq<nat>) {
    if btype == 1 then trees == [] && ll == FixedLitLen() && dl == FixedDistance()
    else forall bits: seq<bit>, p: nat :: At(bits, p, trees) ==> ReadTrees(bits, p) == Some(Trees(ll, dl, p + |trees|))
  }

  lemma HuffmanBlockAt(btype: nat, trees: seq<bit>, ll: seq<nat>, dl: seq<nat>, ts: seq<Token>, out0: seq<byte>, data: seq<bit>,
                       bits: seq<bit>, p: nat, ignoreNlen: bool)
    requires IsTree(ll) && IsTree(dl) && AreTokens(ts) && AllHaveCodes(ll, dl, ts) && HasCode(ll, 256) && Expand(ts, out0).Some?
    requires 1 <= btype <= 2 && TreesMean(btype, trees, ll, dl)
    requires data == EncodeTokens(ll, dl, ts) + CodeBits(ll, 256)
    requires At(bits, p, Lsb(btype, 2)) && At(bits, p + 2, trees) && At(bits, p + 2 + |trees|, data)
    ensures InflateBlock(bits, p, out0, ignoreNlen) == Some((p + 2 + |trees| + |data|, Expand(ts, out0).value))
  {
    hide IsTree;
    hide At;
    hide Expand;
    hide EncodeTokens;
    hide CodeBits;
    hide InflateBlock;
    hide FixedLitLen;
    hide FixedDistance;
    hide Lsb;
    hide ReadTrees;
    hide AllHaveCodes;
    AtInside(bits, p, Lsb(btype, 2));
    assert Pow2(2) == 4;
    FieldWritten(bits, p, btype, 2);
    BlockDecoded(ll, dl, bits, p + 2 + |trees|, ts, out0, data);
    BlockOfType(bits, p, out0, ignoreNlen);
  }

  /** A block of type 1 or 2 decodes to its tokens. */
  lemma HuffmanBlock(e: seq<bit>, final: bool, btype: nat, trees: seq<bit>, ll: seq<nat>, dl: seq<nat>, ts: seq<Token>, out0: seq<byte>,
                     data: seq<bit>, ignoreNlen: bool)
    requires IsTree(ll) && IsTree(dl) && AreTokens(ts) && AllHaveCodes(ll, dl, ts) && HasCode(ll, 256) && Expand(ts, out0).Some?
    requires 1 <= btype <= 2 && TreesMean(btype, trees, ll, dl)
    requires data == EncodeTokens(ll, dl, ts) + CodeBits(ll, 256)
    requires e == [if final then 1 else 0] + Lsb(btype, 2) + trees + data
    ensures IsBlock(e, final, out0, Expand(ts, out0).value, ignoreNlen)
  {
    hide IsTree;
    hide At;
    hide Expand;
    hide EncodeTokens;
    hide CodeBits;
    hide InflateBlock;
    hide Lsb;
    hide TreesMean;
    hide AllHaveCodes;
    var b: seq<bit> := [if final then 1 else 0];
    assert e[0] == b[0];
    forall bits: seq<bit>, p: nat | At(bits, p, e)
      ensures InflateBlock(bits, p + 1, out0, ignoreNlen) == Some((p + |e|, Expand(ts, out0).value))
    {
      AtConcat(bits, p, b + Lsb(btype, 2) + trees, data);
      AtConcat(bits, p, b + Lsb(btype, 2), trees);
      AtConcat(bits, p, b, Lsb(btype, 2));
      HuffmanBlockAt(btype, trees, ll, dl, ts, out0, data, bits, p + 1, ignoreNlen);
    }
  }

  lemma BlockOfType(bits: seq<bit>, p: nat, out: seq<byte>, ignoreNlen: bool)
    requires p + 2 <= |bits|
    ensures Window(bits, p, 2) == 1 ==>
      InflateBlock(bits, p, out, ignoreNlen) == InflateSymbols(FixedLitLen(), FixedDistance(), bits, p + 2, out)
    ensures Window(bits, p, 2) == 2 && ReadTrees(bits, p + 2).Some? ==>
      var t := ReadTrees(bits, p + 2).value;
      InflateBlock(bits, p, out, ignoreNlen) == InflateSymbols(t.ll, t.dl, bits, t.next, out)
  {
    hide Window;
    hide ReadTrees;
    hide InflateSymbols;
    hide FixedLitLen;
    hide FixedDistance;
  }

  // ---------------------------------------------------------------------------------------------
  // Fixed blocks
  // ---------------------------------------------------------------------------------------------

  /** Bytes as literals. */
  function Literals(data: seq<byte>): (ts: seq<Token>)
    ensures AreTokens(ts)
  {
    seq(|data|, i requires 0 <= i < |data| => Literal(data[i]))
  }

  lemma LiteralsStep(data: seq<byte>, a: nat, b: nat)
    requires a <= b < |data|
    ensures Literals(data[a..b + 1]) == Literals(data[a..b]) + [Literal(data[b])]
  {
  }

  lemma EmptyExpands(out: seq<byte>, none: seq<byte>)
    requires none == []
    ensures Expand(Literals(none), out) == Some(out) && Flat(Literals(none)) == none
  {
  }

  lemma NextByte(data: seq<byte>, a: nat, c: nat)
    requires a <= c < |data|
    ensures data[a..c] + [data[c]] == data[a..c + 1]
  {
  }

  lemma LiteralExpands(ts: seq<Token>, out: seq<byte>, o: seq<byte>, b: byte)
    requires AreTokens(ts) && Expand(ts, out) == Some(o)
    ensures AreTokens(ts + [Literal(b)]) && Expand(ts + [Literal(b)], out) == Some(o + [b]) && Flat(ts + [Literal(b)]) == Flat(ts) + [b]
  {
    var after := ts + [Literal(b)];
    assert after[..|after| - 1] == ts;
  }

  lemma {:induction false} LiteralsExpand(data: seq<byte>, a: nat, b: nat)
    requires a <= b <= |data|
    ensures Expand(Literals(data[a..b]), data[..a]) == Some(data[..b]) && Flat(Literals(data[a..b])) == data[a..b]
  {
    hide *;
    if a == b {
      EmptyExpands(data[..a], data[a..b]);
    } else {
      var c := b - 1;
      NextByte(data, 0, c);
      NextByte(data, a, c);
      LiteralsStep(data, a, c);
      LiteralsExpand(data, a, c);
      LiteralExpands(Literals(data[a..c]), data[..a], data[..c], data[c]);
    }
  }

  /** The tokens are what the matcher chooses, or one for each byte. */
  ghost predicate TokensChosen(data: seq<byte>, datapos: nat, dataend: nat, settings: CompressSettings, ts: seq<Token>)
    requires datapos <= dataend <= |data|
  {
    if settings.useLz77 then exists steps: seq<Step> :: IsParse(data, datapos, dataend, settings.lz77, steps, ts, dataend)
    else ts == Literals(data[datapos..dataend])
  }

  lemma ParseIsChosen(data: seq<byte>, datapos: nat, dataend: nat, settings: CompressSettings, ts: seq<Token>, steps: seq<Step>)
    requires datapos <= dataend <= |data| && settings.useLz77 && IsParse(data, datapos, dataend, settings.lz77, steps, ts, dataend)
    ensures TokensChosen(data, datapos, dataend, settings, ts)
  {
  }

  lemma FixedHasCodes(ts: seq<Token>)
    requires AreTokens(ts)
    ensures AllHaveCodes(FixedLitLen(), FixedDistance(), ts) && HasCode(FixedLitLen(), 256)
  {
  }

  lemma LiteralsEncoded(ll: seq<nat>, dl: seq<nat>, data: seq<byte>, a: nat, b: nat)
    requires a <= b < |data| && HasCode(ll, data[b]) && forall x: byte :: HasCode(ll, x)
    ensures AllHaveCodes(ll, dl, Literals(data[a..b])) && AllHaveCodes(ll, dl, Literals(data[a..b + 1]))
    ensures EncodeTokens(ll, dl, Literals(data[a..b + 1])) == EncodeTokens(ll, dl, Literals(data[a..b])) + CodeBits(ll, data[b])
  {
    hide CodeBits;
    hide Literals;
    var ts := Literals(data[a..b]);
    LiteralsAre(data[a..b]);
    LiteralsAre(data[a..b + 1]);
    LiteralsStep(data, a, b);
    assert (ts + [Literal(data[b])])[..|ts|] == ts;
  }

  lemma LiteralsAre(data: seq<byte>)
    ensures forall i :: 0 <= i < |Literals(data)| ==> Literals(data)[i].Literal?
  {
  }

  /** The bytes as they are, each as a literal. */
  method WriteLiterals(writer: BitWriter, data: seq<byte>, datapos: nat, dataend: nat, tree_ll: Tree, ghost dl: seq<nat>)
    requires writer.Valid() && tree_ll.Valid() && datapos <= dataend <= |data|
    requires forall x: byte :: HasCode(tree_ll.lengths, x)
    modifies writer
    ensures writer.Valid() && AllHaveCodes(tree_ll.lengths, dl, Literals(data[datapos..dataend]))
    ensures writer.Written() == old(writer.Written()) + EncodeTokens(tree_ll.lengths, dl, Literals(data[datapos..dataend]))
  {
    hide CodeBits;
    hide Tree.Valid;
    hide BitWriter.Valid;
    hide BitWriter.Written;
    hide HasCode;
    hide EncodeTokens;
    hide Literals;
    hide AllHaveCodes;
    ghost var ll, w := tree_ll.lengths, writer.Written();
    NoLiterals(ll, dl, data, datapos);
    for i := datapos to dataend
      invariant writer.Valid() && AllHaveCodes(ll, dl, Literals(data[datapos..i]))
      invariant writer.Written() == w + EncodeTokens(ll, dl, Literals(data[datapos..i]))
    {
      assert HasCode(ll, data[i]);
      LiteralsEncoded(ll, dl, data, datapos, i);
      WriteCode(writer, tree_ll, data[i]);
    }
  }

  lemma NoLiterals(ll: seq<nat>, dl: seq<nat>, data: seq<byte>, a: nat)
    requires a <= |data|
    ensures AllHaveCodes(ll, dl, Literals(data[a..a])) && EncodeTokens(ll, dl, Literals(data[a..a])) == []
  {
  }

  /** The symbols of a fixed block. */
  method WriteFixedSymbols(writer: BitWriter, hash: Hash, data: seq<byte>, datapos: nat, dataend: nat, settings: CompressSettings,
                           tree_ll: Tree, tree_d: Tree)
    returns (error: nat, ghost ts: seq<Token>)
    requires writer.Valid() && datapos <= dataend <= |data| && hash.windowsize == settings.lz77.windowsize
    requires settings.useLz77 && LegalSettings(settings) ==> hash.Ready(data, datapos)
    requires tree_ll.Valid() && tree_ll.lengths == FixedLitLen() && tree_d.Valid() && tree_d.lengths == FixedDistance()
    modifies writer, hash.Repr()
    ensures writer.Valid() && (error == 0 <==> LegalSettings(settings))
    ensures error == 0 && settings.useLz77 ==> hash.Ready(data, dataend)
    ensures error == 0 ==> AreTokens(ts) && Expand(ts, data[..datapos]) == Some(data[..dataend]) && TokensChosen(data, datapos, dataend, settings, ts)
    ensures error == 0 ==> AllHaveCodes(FixedLitLen(), FixedDistance(), ts)
    ensures error == 0 ==> writer.Written() == old(writer.Written()) + EncodeTokens(FixedLitLen(), FixedDistance(), ts)
  {
    hide IsParse;
    hide LegalWindow;
    hide Tree.Valid;
    hide BitWriter.Valid;
    hide BitWriter.Written;
    hide Hash.Ready;
    hide EncodeTokens;
    hide AllHaveCodes;
    hide AreTokens;
    hide FixedLitLen;
    hide FixedDistance;
    hide Expand;
    hide Flat;
    hide Literals;
    hide HasCode;
    if settings.useLz77 {
      var lz77_encoded;
      ghost var steps;
      error, lz77_encoded, ts, steps := EncodeLZ77(hash, data, datapos, dataend, settings.lz77);
      if error == 0 {
        ParseIsChosen(data, datapos, dataend, settings, ts, steps);
        ProgressIs(data, datapos, dataend, settings.lz77.windowsize, ts, lz77_encoded);
        FixedHasCodes(ts);
        WriteLZ77Data(writer, lz77_encoded, tree_ll, tree_d, ts);
      }
    } else {
      ts := Literals(data[datapos..dataend]);
      LiteralsExpand(data, datapos, dataend);
      FixedLiteralCodes();
      WriteLiterals(writer, data, datapos, dataend, tree_ll, tree_d.lengths);
      error := 0;
    }
  }

  method FixedTrees() returns (tree_ll: Tree, tree_d: Tree)
    ensures fresh(tree_ll) && fresh(tree_d) && tree_ll != tree_d && tree_ll.Valid() && tree_d.Valid()
    ensures tree_ll.lengths == FixedLitLen() && tree_d.lengths == FixedDistance()
  {
    tree_ll := new Tree();
    tree_d := new Tree();
    var error := GenerateFixedLitLenTree(tree_ll);
    error := GenerateFixedDistanceTree(tree_d);
  }

  /** The first three bits of a block: whether it is the last one, and its type, lowest bit first. */
  method WriteBlockType(writer: BitWriter, final: bool, b0: bit, b1: bit)
    requires writer.Valid()
    modifies writer
    ensures writer.Valid() && writer.Written() == old(writer.Written()) + [if final then 1 else 0, b0, b1]
  {
    hide BitWriter.Valid;
    hide BitWriter.Written;
    writer.WriteBits(if final then 1 else 0, 1);
    writer.WriteBits(b0, 1);
    writer.WriteBits(b1, 1);
    OneBits(old(writer.Written()), if final then 1 else 0, b0, b1);
  }

  lemma OneBits(w: seq<bit>, f: bit, b0: bit, b1: bit)
    ensures w + Lsb(f, 1) + Lsb(b0, 1) + Lsb(b1, 1) == w + [f, b0, b1]
  {
    hide Lsb;
    LsbOfBit(f);
    LsbOfBit(b0);
    LsbOfBit(b1);
  }

  /** A block with the fixed codes for the tokens that are chosen. */
  ghost predicate IsFixedBlock(e: seq<bit>, final: bool, data: seq<byte>, datapos: nat, dataend: nat, settings: CompressSettings)
    requires datapos <= dataend <= |data|
  {
    exists ts: seq<Token> :: FixedBlockOf(e, final, ts) && TokensChosen(data, datapos, dataend, settings, ts)
  }

  ghost predicate FixedBlockOf(e: seq<bit>, final: bool, ts: seq<Token>) {
    && AreTokens(ts) && AllHaveCodes(FixedLitLen(), FixedDistance(), ts)
    && e == [if final then 1 else 0, 1, 0] + EncodeTokens(FixedLitLen(), FixedDistance(), ts) + CodeBits(FixedLitLen(), 256)
  }

  /** A fixed block of the input from `datapos` to `dataend`. */
  method DeflateFixed(writer: BitWriter, hash: Hash, data: seq<byte>, datapos: nat, dataend: nat, settings: CompressSettings, final: bool,
                      ghost ignoreNlen: bool)
    returns (error: nat, ghost e: seq<bit>)
    requires writer.Valid() && datapos <= dataend <= |data| && hash.windowsize == settings.lz77.windowsize
    requires settings.useLz77 && LegalSettings(settings) ==> hash.Ready(data, datapos)
    modifies writer, hash.Repr()
    ensures writer.Valid() && (error == 0 <==> LegalSettings(settings))
    ensures error == 0 && settings.useLz77 ==> hash.Ready(data, dataend)
    ensures error == 0 ==> writer.Written() == old(writer.Written()) + e
    ensures error == 0 ==> IsBlock(e, final, data[..datapos], data[..dataend], ignoreNlen)
    ensures error == 0 ==> IsFixedBlock(e, final, data, datapos, dataend, settings)
  {
    hide TokensChosen;
    hide LegalSettings;
    hide Tree.Valid;
    hide BitWriter.Valid;
    hide BitWriter.Written;
    hide Hash.Ready;
    hide EncodeTokens;
    hide AllHaveCodes;
    hide AreTokens;
    hide FixedLitLen;
    hide FixedDistance;
    hide CodeBits;
    hide IsBlock;
    hide IsTree;
    hide TreesMean;
    hide HasCode;
    hide Expand;
    hide Lsb;
    e := [];
    var tree_ll, tree_d := FixedTrees();
    ghost var ll, dl, w := FixedLitLen(), FixedDistance(), writer.Written();
    WriteBlockType(writer, final, 1, 0);
    ghost var ts;
    error, ts := WriteFixedSymbols(writer, hash, data, datapos, dataend, settings, tree_ll, tree_d);
    if error == 0 {
      FixedHasCodes(ts);
      WriteCode(writer, tree_ll, 256);
      FixedAreTrees();
      ghost var symbols := EncodeTokens(ll, dl, ts) + CodeBits(ll, 256);
      e := FixedBits(w, final, EncodeTokens(ll, dl, ts), CodeBits(ll, 256));
      assert FixedBlockOf(e, final, ts);
      HuffmanBlock(e, final, 1, [], ll, dl, ts, data[..datapos], symbols, ignoreNlen);
    }
  }

  lemma ProgressIs(input: seq<byte>, inpos: nat, e: nat, windowsize: nat, ts: seq<Token>, out: seq<nat>)
    requires Progress(input, inpos, e, windowsize, ts, out)
    ensures AreTokens(ts) && out == Flat(ts) && Expand(ts, input[..inpos]) == Some(input[..e])
  {
  }

  lemma FixedLiteralCodes()
    ensures forall x: byte :: HasCode(FixedLitLen(), x)
  {
  }

  lemma FixedAreTrees()
    ensures IsTree(FixedLitLen()) && IsTree(FixedDistance()) && TreesMean(1, [], FixedLitLen(), FixedDistance())
  {
    FixedAcceptable();
  }

  /** The bits of a fixed block, put together as they are written. */
  lemma FixedBits(w: seq<bit>, final: bool, symbols: seq<bit>, end: seq<bit>) returns (e: seq<bit>)
    ensures e == [if final then 1 else 0] + Lsb(1, 2) + [] + (symbols + end) == [if final then 1 else 0, 1, 0] + symbols + end
    ensures w + [if final then 1 else 0, 1, 0] + symbols + end == w + e
  {
    var f: bit := if final then 1 else 0;
    TwoBits(1, 0);
    assert [f] + [1, 0] == [f, 1, 0];
    e := [f] + Lsb(1, 2) + [] + (symbols + end);
  }

  lemma TwoBits(b0: bit, b1: bit)
    ensures Lsb(b0 + 2 * b1, 2) == [b0, b1]
  {
    LsbOfBit(b1);
    assert Lsb(b0 + 2 * b1, 2) == [b0] + Lsb(b1, 1);
  }
}
