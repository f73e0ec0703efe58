/** The tables and orders of RFC 1951, each from a rule of its own, so that decoder and encoder cannot share
    an entry that is wrong. */
module StandardTables {
  import opened Bits
  import opened BitStream
  import opened Canonical
  import opened DeflateFormat
  import opened Wrappers
  import opened RunLengths
  import HuffmanBlocks

  // ---------------------------------------------------------------------------------------------
  // The order of bits (section 3.1.1)
  // ---------------------------------------------------------------------------------------------

  /** Bytes are read from their lowest bit on. */
  lemma BitOfStream(data: seq<byte>, q: nat)
    requires q < 8 * |data|
    ensures BitsOf(data)[q] == data[q / 8] / Pow2(q % 8) % 2
  {
    hide Lsb;
    hide BitsOf;
    var i, k := q / 8, q % 8;
    ByteInStream(data, i);
    LsbBit(data[i], 8, k);
    assert BitsOf(data)[8 * i..8 * i + 8][k] == BitsOf(data)[q];
  }

  lemma {:induction false} LsbBit(x: nat, n: nat, k: nat)
    requires k < n
    ensures Lsb(x, n)[k] == x / Pow2(k) % 2
  {
    if k > 0 {
      LsbBit(x / 2, n - 1, k - 1);
      LowIsMod(x, k);
      LowIsMod(x / 2, k - 1);
    }
  }

  /** A field has its lowest bit first. */
  lemma BitOfField(bits: seq<bit>, p: nat, n: nat, k: nat)
    requires k < n
    ensures Window(bits, p, n) / Pow2(k) % 2 == BitAt(bits, p + k)
  {
    WindowParts(bits, p, k, n);
    LowIsMod(Window(bits, p, n), k);
    FirstBit(bits, p + k, n - k);
    hide *;
  }

  lemma FirstBit(bits: seq<bit>, p: nat, n: nat)
    requires n > 0
    ensures Window(bits, p, n) % 2 == BitAt(bits, p)
  {
  }

  /** A code has its highest bit first. */
  lemma {:induction false} BitOfCode(x: nat, n: nat, k: nat)
    requires k < n
    ensures Msb(x, n)[k] == x / Pow2(n - 1 - k) % 2
  {
    if k < n - 1 {
      BitOfCode(x / 2, n - 1, k);
      LowIsMod(x, n - 1 - k);
      LowIsMod(x / 2, n - 2 - k);
    }
  }

  // ---------------------------------------------------------------------------------------------
  // Canonical codes (section 3.2.2)
  // ---------------------------------------------------------------------------------------------

  /** Shorter codes come before longer ones, and codes of one length in the order of their symbols: on a line
      on which a code of l bits takes 2^(15-l) places, each one ends before the next one starts. */
  lemma CodesInOrder(lens: seq<nat>, s: nat, t: nat)
    requires Within(lens, MAXBITS) && s < |lens| && t < |lens| && lens[s] > 0
    requires lens[s] < lens[t] || (lens[s] == lens[t] && s < t)
    ensures Shl(Code(lens, s), MAXBITS - lens[s]) + Pow2(MAXBITS - lens[s]) <= Shl(Code(lens, t), MAXBITS - lens[t])
  {
    hide Shl;
    hide NextCode;
    CodeInterval(lens, s);
    CodeInterval(lens, t);
    var l := lens[s];
    if l < lens[t] {
      EdgeMono(lens, l, lens[t] - 1);
    } else {
      CountPrefix(lens, s, t, l);
      assert Code(lens, s) < Code(lens, t);
      ShlMono(Code(lens, s), Code(lens, t), MAXBITS - l);
    }
  }

  /** ... without gaps: codes that follow each other among those of one length are consecutive numbers. */
  lemma CodesWithoutGaps(lens: seq<nat>, s: nat, t: nat)
    requires s < t < |lens| && lens[s] == lens[t] && forall i :: s < i < t ==> lens[i] != lens[s]
    ensures Code(lens, t) == Code(lens, s) + 1
  {
    CountConstant(lens, s + 1, t, lens[s]);
    assert lens[..s + 1][..s] == lens[..s];
  }

  lemma {:induction false} CountConstant(lens: seq<nat>, a: nat, b: nat, x: nat)
    requires a <= b <= |lens| && forall i :: a <= i < b ==> lens[i] != x
    ensures Count(lens[..b], x) == Count(lens[..a], x)
  {
    if a < b {
      assert lens[..b][..b - 1] == lens[..b - 1];
      CountConstant(lens, a, b - 1, x);
    }
  }

  // ---------------------------------------------------------------------------------------------
  // The order of the code length code (section 3.2.7)
  // ---------------------------------------------------------------------------------------------

  /** The repeat symbols come first, then 0, then the lengths from the middle outwards: 8, 7, 9, 6, ... */
  function Place(s: nat): nat
    requires s < 19
  {
    if s >= 16 then s - 16
    else if s == 0 then 3
    else if s >= 8 then 2 * s - 12
    else 19 - 2 * s
  }

  lemma PlaceIsOrder(s: nat)
    requires s < 19
    ensures Place(s) < 19 && CLCL_ORDER[Place(s)] == s
  {
  }

  lemma OrderIsPlace(i: nat)
    requires i < 19
    ensures CLCL_ORDER[i] < 19 && Place(CLCL_ORDER[i]) == i
  {
  }

  /** The length of each symbol of the code length code is the field at its place, or zero if there are not
      so many fields. */
  lemma {:induction false} LengthAtPlace(bits: seq<bit>, p: nat, n: nat, s: nat)
    requires n <= 19 && s < 19
    ensures CodeLengthLengths(bits, p, n)[s] == if Place(s) < n then Window(bits, p + 3 * Place(s), 3) else 0
  {
    hide Window;
    hide Place;
    if n > 0 {
      LengthAtPlace(bits, p, n - 1, s);
      OrderIsPlace(n - 1);
      PlaceIsOrder(s);
    }
  }

  /** ... and the encoder's fields are the lengths in this order. */
  lemma {:induction false} FieldAtPlace(cl: seq<nat>, n: nat, s: nat)
    requires |cl| == 19 && n <= 19 && s < 19 && Place(s) < n
    ensures EncodeOrder(cl, n)[3 * Place(s)..3 * Place(s) + 3] == Lsb(cl[s], 3)
  {
    hide Lsb;
    PlaceIsOrder(s);
    var e := EncodeOrder(cl, n - 1);
    if Place(s) < n - 1 {
      FieldAtPlace(cl, n - 1, s);
      assert EncodeOrder(cl, n)[..|e|] == e;
    }
  }

  // ---------------------------------------------------------------------------------------------
  // Lengths and distances (section 3.2.5)
  // ---------------------------------------------------------------------------------------------

  function Extra(i: nat, k: nat): nat
    requires k > 0
  {
    if i < 2 * k then 0 else (i - k) / k
  }

  /** From the ninth on, four length symbols in a row have one more extra bit than the four before them. The
      ranges follow each other without a gap from 3 on; the last symbol stands for 258 alone. */
  lemma LengthRanges(i: nat)
    requires i < 29
    ensures LengthExtra(i) == if i == 28 then 0 else Extra(i, 4)
    ensures LengthBase(0) == 3 && LengthBase(28) == 258
    ensures i < 27 ==> LengthBase(i + 1) == LengthBase(i) + Pow2(LengthExtra(i))
    ensures i == 27 ==> LengthBase(i) + Pow2(LengthExtra(i)) == 259
  {
    assert Pow2(1) == 2 && Pow2(2) == 4 && Pow2(3) == 8 && Pow2(4) == 16 && Pow2(5) == 32;
  }

  /** From the fifth on, two distance symbols in a row have one more extra bit than the two before them. The
      ranges follow each other from 1 to 32768. */
  lemma DistanceRanges(d: nat)
    requires d < 30
    ensures DistanceExtra(d) == Extra(d, 2)
    ensures DistanceBase(0) == 1
    ensures d < 29 ==> DistanceBase(d + 1) == DistanceBase(d) + Pow2(DistanceExtra(d))
    ensures d == 29 ==> DistanceBase(d) + Pow2(DistanceExtra(d)) == 32769
  {
    assert Pow2(1) == 2 && Pow2(2) == 4 && Pow2(3) == 8 && Pow2(4) == 16 && Pow2(5) == 32 && Pow2(6) == 64;
    assert Pow2(7) == 128 && Pow2(8) == 256 && Pow2(9) == 512 && Pow2(10) == 1024 && Pow2(11) == 2048;
    assert Pow2(12) == 4096 && Pow2(13) == 8192;
  }

  // ---------------------------------------------------------------------------------------------
  // Repeated code lengths (section 3.2.7)
  // ---------------------------------------------------------------------------------------------

  /** Symbol 16 stands for 3 to 6 lengths, 17 for 3 to 10 and 18 for 11 to 138. */
  lemma RepeatRanges(s: nat, n: nat)
    requires 16 <= s <= 18
    ensures RepeatBase(s) <= n < RepeatBase(s) + Pow2(RepeatExtra(s))
      <==> if s == 16 then 3 <= n <= 6 else if s == 17 then 3 <= n <= 10 else 11 <= n <= 138
  {
    assert Pow2(2) == 4 && Pow2(3) == 8 && Pow2(7) == 128;
  }

  /** ... which are the last length again, or zeros: a decoder that comes to the symbol goes on with them. */
  lemma RepeatsRead(cl: seq<nat>, bits: seq<bit>, p: nat, total: nat, acc: seq<nat>, s: nat)
    requires p <= |bits| && |acc| < total && DecodeSymbol(cl, bits, p) == Some(s) && 16 <= s <= 18 && (s == 16 ==> acc != [])
    requires p + cl[s] + RepeatExtra(s) <= |bits|
    ensures var n := Window(bits, p + cl[s], RepeatExtra(s)) + RepeatBase(s);
      && (if s == 16 then 3 <= n <= 6 else if s == 17 then 3 <= n <= 10 else 11 <= n <= 138)
      && ReadLengths(cl, bits, p, total, acc) ==
         ReadLengths(cl, bits, p + cl[s] + RepeatExtra(s), total, acc + seq(n, _ => if s == 16 then acc[|acc| - 1] else 0))
  {
    hide Window;
    hide DecodeSymbol;
    var n := Window(bits, p + cl[s], RepeatExtra(s)) + RepeatBase(s);
    RepeatRanges(s, n);
    hide Pow2;
    var x := if s == 16 then acc[|acc| - 1] else 0;
    assert acc + Repeat(n, x) == acc + seq(n, _ => if s == 16 then acc[|acc| - 1] else 0);
  }

  // ---------------------------------------------------------------------------------------------
  // The fixed codes (section 3.2.6)
  // ---------------------------------------------------------------------------------------------

  lemma {:induction false} CountRepeat(lens: seq<nat>, n: nat, x: nat, b: nat)
    ensures Count(lens + Repeat(n, x), b) == Count(lens, b) + if x == b then n else 0
  {
    if n == 0 {
      assert lens + Repeat(0, x) == lens;
    } else {
      var t := lens + Repeat(n, x);
      assert t[..|t| - 1] == lens + Repeat(n - 1, x);
      CountRepeat(lens, n - 1, x, b);
    }
  }

  /** How many of the first `s` symbols have `b` bits. */
  lemma FixedCount(s: nat, b: nat)
    requires s <= 288 && 0 < b
    ensures Count(FixedLitLen()[..s], b) ==
      if b == 8 then (if s <= 144 then s else if s <= 280 then 144 else s - 136)
      else if b == 9 then (if s <= 144 then 0 else if s <= 256 then s - 144 else 112)
      else if b == 7 then (if s <= 256 then 0 else if s <= 280 then s - 256 else 24)
      else 0
  {
    var a1, a2, a3 := Repeat(144, 8), Repeat(144, 8) + Repeat(112, 9), Repeat(144, 8) + Repeat(112, 9) + Repeat(24, 7);
    CountRepeat([], if s < 144 then s else 144, 8, b);
    assert [] + Repeat(144, 8) == a1;
    if s <= 144 {
      assert FixedLitLen()[..s] == [] + Repeat(s, 8);
    } else if s <= 256 {
      CountRepeat(a1, s - 144, 9, b);
      assert FixedLitLen()[..s] == a1 + Repeat(s - 144, 9);
    } else if s <= 280 {
      CountRepeat(a1, 112, 9, b);
      CountRepeat(a2, s - 256, 7, b);
      assert FixedLitLen()[..s] == a2 + Repeat(s - 256, 7);
    } else {
      CountRepeat(a1, 112, 9, b);
      CountRepeat(a2, 24, 7, b);
      CountRepeat(a3, s - 280, 8, b);
      assert FixedLitLen()[..s] == a3 + Repeat(s - 280, 8);
    }
  }

  lemma FixedNextCodes()
    ensures NextCode(FixedLitLen(), 7) == 0 && NextCode(FixedLitLen(), 8) == 48 && NextCode(FixedLitLen(), 9) == 400
  {
    hide FixedLitLen;
    hide Count;
    var f := FixedLitLen();
    assert f[..288] == f;
    forall b: nat | 0 < b <= 8
      ensures Count(f, b) == if b == 8 then 152 else if b == 7 then 24 else 0
    {
      FixedCount(288, b);
    }
    assert NextCode(f, 3) == 0;
    assert NextCode(f, 5) == 0;
    assert NextCode(f, 7) == 0;
  }

  /** The codes of literals and lengths: 00110000 to 10111111 for 0 to 143, 110010000 to 111111111 for 144 to
      255, 0000000 to 0010111 for 256 to 279 and 11000000 to 11000111 for 280 to 287. */
  lemma FixedCodes(s: nat)
    requires s < 288
    ensures FixedLitLen()[s] == if s < 144 then 8 else if s < 256 then 9 else if s < 280 then 7 else 8
    ensures Code(FixedLitLen(), s) ==
      if s < 144 then 0x30 + s else if s < 256 then 0x190 + (s - 144) else if s < 280 then s - 256 else 0xC0 + (s - 280)
  {
    FixedNextCodes();
    FixedCount(s, FixedLitLen()[s]);
  }

  /** Distance symbols have codes of five bits, which are their numbers. */
  lemma FixedDistanceCodes(d: nat)
    requires d < 32
    ensures FixedDistance()[d] == 5 && Code(FixedDistance(), d) == d
  {
    var f := FixedDistance();
    assert f == [] + Repeat(32, 5) && f[..d] == [] + Repeat(d, 5);
    CountRepeat([], d, 5, 5);
    forall b: nat | b < 5
      ensures Count(f, b) == 0
    {
      CountRepeat([], 32, 5, b);
    }
    assert NextCode(f, 2) == 0;
    assert NextCode(f, 4) == 0;
    assert NextCode(f, 5) == 0;
  }

  // ---------------------------------------------------------------------------------------------
  // Blocks (sections 3.2.3 and 3.2.7)
  // ---------------------------------------------------------------------------------------------

  /** Where the fields of a dynamic header are, and what they count. */
  lemma HeaderLayout(bits: seq<bit>, p: nat)
    requires ReadTrees(bits, p).Some?
    ensures var hlit, hdist, hclen := Window(bits, p, 5) + 257, Window(bits, p + 5, 5) + 1, Window(bits, p + 10, 4) + 4;
      && hlit <= 288 && hdist <= 32 && hclen <= 19
      && var t, cl := ReadTrees(bits, p).value, CodeLengthLengths(bits, p + 14, hclen);
        ReadLengths(cl, bits, p + 14 + 3 * hclen, hlit + hdist, []) == Some((t.next, t.ll[..hlit] + t.dl[..hdist]))
        && |t.ll| == 288 && |t.dl| == 32 && t.ll[hlit..] == Zeros(288 - hlit) && t.dl[hdist..] == Zeros(32 - hdist)
  {
    hide Window;
    hide ReadLengths;
    hide CodeLengthLengths;
    hide Acceptable;
    hide IsTree;
    assert Pow2(5) == 32 && Pow2(4) == 16;
    hide Pow2;
    var hlit, hdist, hclen := Window(bits, p, 5) + 257, Window(bits, p + 5, 5) + 1, Window(bits, p + 10, 4) + 4;
    var (n, lens) := ReadLengths(CodeLengthLengths(bits, p + 14, hclen), bits, p + 14 + 3 * hclen, hlit + hdist, []).value;
    FillAndCut(lens[..hlit], 288 - hlit);
    FillAndCut(lens[hlit..], 32 - hdist);
    assert lens[..hlit] + lens[hlit..] == lens;
  }

  lemma FillAndCut(a: seq<nat>, n: nat)
    ensures (a + Zeros(n))[..|a|] == a && (a + Zeros(n))[|a|..] == Zeros(n)
  {
  }

  lemma BitsOfOne(x: byte)
    ensures Lsb(x, 8) == [x % 2, x / 2 % 2, x / 4 % 2, x / 8 % 2, x / 16 % 2, x / 32 % 2, x / 64 % 2, x / 128 % 2]
  {
    forall k: nat | k < 8
      ensures Lsb(x, 8)[k] == x / Pow2(k) % 2
    {
      LsbBit(x, 8, k);
    }
    assert Pow2(0) == 1 && Pow2(1) == 2 && Pow2(2) == 4 && Pow2(3) == 8;
    assert Pow2(4) == 16 && Pow2(5) == 32 && Pow2(6) == 64 && Pow2(7) == 128;
  }

  lemma CodeOfA()
    ensures CodeBits(FixedLitLen(), 97) == [1, 0, 0, 1, 0, 0, 0, 1] && CodeBits(FixedLitLen(), 256) == [0, 0, 0, 0, 0, 0, 0]
  {
    FixedCodes(97);
    FixedCodes(256);
    hide FixedLitLen;
    hide Code;
    assert Msb(145, 8) == Msb(72, 7) + [1];
    assert Msb(72, 7) == Msb(36, 6) + [0];
    assert Msb(36, 6) == Msb(18, 5) + [0];
    assert Msb(18, 5) == Msb(9, 4) + [0];
    assert Msb(9, 4) == Msb(4, 3) + [1];
    assert Msb(4, 3) == Msb(2, 2) + [0];
    assert Msb(2, 2) == [1, 0] by { assert Msb(1, 1) == [1] by { assert Msb(0, 0) == []; } }
    assert Msb(0, 7) == Msb(0, 6) + [0];
    assert Msb(0, 6) == Msb(0, 5) + [0];
    assert Msb(0, 5) == Msb(0, 4) + [0];
    assert Msb(0, 4) == Msb(0, 3) + [0];
    assert Msb(0, 3) == Msb(0, 2) + [0];
    assert Msb(0, 2) == [0, 0] by { assert Msb(0, 1) == [0] by { assert Msb(0, 0) == []; } }
  }

  /** A deflated letter: the last block, of type 1, with the code of 97 and the end symbol. */
  const LETTER: seq<byte> := [0x4b, 0x04, 0x00]

  lemma LetterBits(bits: seq<bit>)
    requires bits == BitsOf(LETTER)
    ensures bits == [1, 1, 0, 1, 0, 0, 1, 0] + [0, 0, 1, 0, 0, 0, 0, 0] + [0, 0, 0, 0, 0, 0, 0, 0]
  {
    hide BitsOf;
    hide Lsb;
    BitsOfOne(0x4b);
    BitsOfOne(0x04);
    BitsOfOne(0x00);
    ThreeBytes(0x4b, 0x04, 0x00);
  }

  lemma ThreeBytes(x: byte, y: byte, z: byte)
    ensures BitsOf([x, y, z]) == Lsb(x, 8) + Lsb(y, 8) + Lsb(z, 8)
  {
    hide *;
    BitsOfByte(x);
    BitsOfLast([x], y);
    BitsOfLast([x, y], z);
    assert [x] + [y] == [x, y] && [x, y] + [z] == [x, y, z];
  }

  /** What is widely known as the deflated form of the letter `a` means just that. */
  lemma KnownStream()
    ensures InflateBlocks(BitsOf(LETTER), 0, [], false) == Some([97])
  {
    hide *;
    var bits := BitsOf(LETTER);
    LetterBits(bits);
    LetterSymbols(bits);
    LetterBlock(bits);
  }

  lemma LetterParts(bits: seq<bit>)
    requires bits == [1, 1, 0, 1, 0, 0, 1, 0] + [0, 0, 1, 0, 0, 0, 0, 0] + [0, 0, 0, 0, 0, 0, 0, 0]
    ensures |bits| == 24 && bits[0] == 1 && bits[1] == 1 && bits[2] == 0
    ensures bits[3..3 + 8] == [1, 0, 0, 1, 0, 0, 0, 1] && bits[11..11 + 7] == [0, 0, 0, 0, 0, 0, 0]
  {
  }

  lemma SymbolRead(bits: seq<bit>, p: nat, s: nat)
    requires s < 288 && At(bits, p, CodeBits(FixedLitLen(), s))
    ensures DecodeSymbol(FixedLitLen(), bits, p) == Some(s)
  {
    FixedCodes(s);
    HuffmanBlocks.FixedAreTrees();
    hide FixedLitLen;
    hide CodeBits;
    hide IsTree;
    hide At;
    DecodeWritten(FixedLitLen(), bits, p, s);
  }

  lemma LetterSymbols(bits: seq<bit>)
    requires bits == [1, 1, 0, 1, 0, 0, 1, 0] + [0, 0, 1, 0, 0, 0, 0, 0] + [0, 0, 0, 0, 0, 0, 0, 0]
    ensures |bits| == 24 && bits[0] == 1 && Window(bits, 1, 2) == 1
    ensures DecodeSymbol(FixedLitLen(), bits, 3) == Some(97) && DecodeSymbol(FixedLitLen(), bits, 11) == Some(256)
  {
    hide FixedLitLen;
    hide CodeBits;
    hide DecodeSymbol;
    LetterParts(bits);
    CodeOfA();
    SymbolRead(bits, 3, 97);
    SymbolRead(bits, 11, 256);
    assert Window(bits, 3, 0) == 0;
    assert Window(bits, 2, 1) == 0;
  }

  lemma LetterBlock(bits: seq<bit>)
    requires |bits| == 24 && bits[0] == 1 && Window(bits, 1, 2) == 1
    requires DecodeSymbol(FixedLitLen(), bits, 3) == Some(97) && DecodeSymbol(FixedLitLen(), bits, 11) == Some(256)
    ensures InflateBlocks(bits, 0, [], false) == Some([97])
  {
    FixedCodes(97);
    FixedCodes(256);
    hide FixedLitLen;
    hide DecodeSymbol;
    hide Window;
    hide ReadTrees;
    hide InflateStored;
    assert InflateSymbols(FixedLitLen(), FixedDistance(), bits, 11, [97]) == Some((18, [97]));
    assert [] + [97] == [97];
  }
}
