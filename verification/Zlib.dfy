/** The zlib wrapper (RFC 1950): a header, the deflated data and an Adler-32 checksum. */
module Zlib {
  import opened Bits
  import opened BitStream
  import opened DeflateFormat
  import opened Wrappers
  import opened Canonical
  import opened Inflate
  import opened Deflate
  import opened HuffmanBlocks

  type uint32 = x: int | 0 <= x < 0x1_0000_0000

  // ---------------------------------------------------------------------------------------------
  // Adler-32
  // ---------------------------------------------------------------------------------------------

  const ADLER_BASE: nat := 65521

  /** The two sums of section 2.2 of RFC 1950, reduced after every byte. */
  function AdlerSums(data: seq<byte>, s1: nat, s2: nat): (r: (nat, nat))
    requires s1 < ADLER_BASE && s2 < ADLER_BASE
    ensures r.0 < ADLER_BASE && r.1 < ADLER_BASE
  {
    if data == [] then (s1, s2)
    else
      var (a, b) := AdlerSums(data[..|data| - 1], s1, s2);
      var a' := (a + data[|data| - 1]) % ADLER_BASE;
      (a', (b + a') % ADLER_BASE)
  }

  function Adler(data: seq<byte>): (r: nat)
    ensures r < 0x1_0000_0000
  {
    var (a, b) := AdlerSums(data, 1, 0);
    a + 65536 * b
  }

  /** What the sums may reach after `i` bytes that were not reduced; `5552` is the last count for which
      they stay below 2^32. */
  function SumBound(i: nat): nat {
    65520 + i * 65520 + 255 * (i * (i + 1) / 2)
  }

  lemma SumBoundStep(i: nat)
    requires i < 5552
    ensures SumBound(i + 1) == SumBound(i) + 65520 + 255 * (i + 1)
    ensures SumBound(i + 1) < 0x1_0000_0000
  {
    assert (i + 1) * (i + 2) == i * (i + 1) + 2 * (i + 1);
    Triangle(i + 1);
  }

  lemma Triangle(i: nat)
    requires i <= 5552
    ensures i * (i + 1) <= 5552 * 5553
  {
    MulMono(i, 5552, i + 1);
    MulMono(i + 1, 5553, 5552);
  }

  lemma MulMono(a: nat, b: nat, c: nat)
    requires a <= b
    ensures a * c <= b * c && c * a <= c * b
  {
  }

  lemma CongruentStep(x: nat, y: nat, d: nat)
    requires x % ADLER_BASE == y
    ensures (x + d) % ADLER_BASE == (y + d) % ADLER_BASE
  {
  }

  lemma SecondSum(s1: nat, s2: nat, a: nat, b: nat)
    requires s1 % ADLER_BASE == a && s2 % ADLER_BASE == b
    ensures (s2 + s1) % ADLER_BASE == (b + a) % ADLER_BASE
  {
  }

  lemma SumsStep(data: seq<byte>, i: nat, s1: nat, s2: nat)
    requires i < |data| && s1 < ADLER_BASE && s2 < ADLER_BASE
    ensures var (a, b) := AdlerSums(data[..i], s1, s2);
      var a' := (a + data[i]) % ADLER_BASE;
      AdlerSums(data[..i + 1], s1, s2) == (a', (b + a') % ADLER_BASE)
  {
    assert data[..i + 1][..i] == data[..i];
  }

  /** Sums `amount` bytes without reducing. Neither sum overflows 32 bits. */
  method SumBlock(data: seq<byte>, pos: nat, amount: nat, s1_0: uint32, s2_0: uint32, ghost t1: nat, ghost t2: nat)
    returns (s1: uint32, s2: uint32)
    requires pos + amount <= |data| && amount <= 5552 && s1_0 < ADLER_BASE && s2_0 < ADLER_BASE
    requires t1 < ADLER_BASE && t2 < ADLER_BASE && AdlerSums(data[..pos], t1, t2) == (s1_0, s2_0)
    ensures AdlerSums(data[..pos + amount], t1, t2) == (s1 % ADLER_BASE, s2 % ADLER_BASE)
  {
    hide AdlerSums;
    hide SumBound;
    s1, s2 := s1_0, s2_0;
    assert s2 <= SumBound(0) by { BoundOfNone(); }
    for i := 0 to amount
      invariant s1 <= 65520 + 255 * i && s2 <= SumBound(i)
      invariant AdlerSums(data[..pos + i], t1, t2) == (s1 % ADLER_BASE, s2 % ADLER_BASE)
    {
      SumsStep(data, pos + i, t1, t2);
      SumBoundStep(i);
      CongruentStep(s1, s1 % ADLER_BASE, data[pos + i]);
      SecondSum(s1 + data[pos + i], s2, (s1 + data[pos + i]) % ADLER_BASE, s2 % ADLER_BASE);
      s1 := s1 + data[pos + i];
      s2 := s2 + s1;
    }
  }

  lemma BoundOfNone()
    ensures SumBound(0) == 65520
  {
  }

  /** The checksum with the reductions put off for up to 5552 bytes equals the one that reduces after
      every byte. */
  method UpdateAdler32(adler: uint32, data: seq<byte>) returns (r: uint32)
    requires Low(adler, 16) < ADLER_BASE && Shr(adler, 16) < ADLER_BASE
    ensures var (a, b) := AdlerSums(data, Low(adler, 16), Shr(adler, 16)); r == a + 65536 * b
  {
    hide AdlerSums;
    hide Low;
    hide Shr;
    hide Shl;
    hide BitOr;
    hide BitAnd;
    Halves(adler);
    var s1: uint32 := BitAnd(adler, 0xffff);
    var s2: uint32 := BitAnd(Shr(adler, 16), 0xffff);
    ghost var t1, t2 := s1, s2;
    var len: nat, pos: nat := |data|, 0;
    assert AdlerSums(data[..0], t1, t2) == (t1, t2) by { SumsOfNone(t1, t2); }
    while len != 0
      invariant pos + len == |data| && s1 < ADLER_BASE && s2 < ADLER_BASE
      invariant AdlerSums(data[..pos], t1, t2) == (s1, s2)
    {
      var amount := if len > 5552 then 5552 else len;
      len := len - amount;
      s1, s2 := SumBlock(data, pos, amount, s1, s2, t1, t2);
      pos := pos + amount;
      s1 := s1 % 65521;
      s2 := s2 % 65521;
    }
    assert data[..pos] == data;
    JoinHalves(s1, s2);
    r := BitOr(Shl(s2, 16), s1);
  }

  lemma SumsOfNone(t1: nat, t2: nat)
    requires t1 < ADLER_BASE && t2 < ADLER_BASE
    ensures AdlerSums([], t1, t2) == (t1, t2)
  {
  }

  lemma Halves(x: nat)
    requires Shr(x, 16) < ADLER_BASE
    ensures BitAnd(x, 0xffff) == Low(x, 16) && BitAnd(Shr(x, 16), 0xffff) == Shr(x, 16)
  {
    hide Low;
    hide Shr;
    hide BitAnd;
    Pow2Values();
    BitAndMask(x, 16);
    BitAndMask(Shr(x, 16), 16);
    LowSmall(Shr(x, 16), 16);
  }

  lemma JoinHalves(s1: nat, s2: nat)
    requires s1 < ADLER_BASE && s2 < ADLER_BASE
    ensures BitOr(Shl(s2, 16), s1) == s1 + 65536 * s2 < 0x1_0000_0000
  {
    hide Shl;
    hide BitOr;
    Pow2Values();
    BitOrSwap(Shl(s2, 16), s1);
    BitOrDisjoint(s1, s2, 16);
    ShlTimes(s2, 16);
  }

  /** The sum of the bytes, and the sum in which each byte counts as often as there are bytes from it on
      when `n` is the number of bytes. */
  function ByteSum(data: seq<byte>): nat {
    if data == [] then 0 else ByteSum(data[..|data| - 1]) + data[|data| - 1]
  }

  function WeightedSum(data: seq<byte>, n: nat): nat
    requires |data| <= n
  {
    if data == [] then 0 else WeightedSum(data[..|data| - 1], n) + (n - (|data| - 1)) * data[|data| - 1]
  }

  lemma {:induction false} WeightsGrow(data: seq<byte>, n: nat)
    requires |data| <= n
    ensures WeightedSum(data, n + 1) == WeightedSum(data, n) + ByteSum(data)
  {
    if data != [] {
      var m := |data| - 1;
      WeightsGrow(data[..m], n);
      MulNext(n - m, data[m]);
    }
  }

  lemma MulNext(k: nat, x: nat)
    ensures (k + 1) * x == k * x + x
  {
  }

  /** Reducing after every byte is reducing once at the end. */
  lemma {:induction false} SumsClosed(data: seq<byte>)
    ensures AdlerSums(data, 1, 0) == ((1 + ByteSum(data)) % 65521, (|data| + WeightedSum(data, |data|)) % 65521)
  {
    if data != [] {
      var m := |data| - 1;
      var before, d := data[..m], data[m];
      SumsClosed(before);
      WeightsGrow(before, m);
      CongruentStep(1 + ByteSum(before), (1 + ByteSum(before)) % 65521, d);
      var s1 := 1 + ByteSum(data);
      assert s1 == 1 + ByteSum(before) + d;
      SecondSum(s1, m + WeightedSum(before, m), s1 % 65521, (m + WeightedSum(before, m)) % 65521);
      assert WeightedSum(data, m + 1) == WeightedSum(before, m + 1) + 1 * d;
    }
  }

  /** The checksum of section 2.2 of RFC 1950: one and the sum of the bytes modulo 65521 in the lower half, the
      sum of all these sums on the way in the upper half. */
  lemma AdlerClosed(data: seq<byte>)
    ensures Adler(data) % 65536 == (1 + ByteSum(data)) % 65521
    ensures Adler(data) / 65536 == (|data| + WeightedSum(data, |data|)) % 65521
  {
    hide AdlerSums;
    SumsClosed(data);
    var (a, b) := AdlerSums(data, 1, 0);
    DivModUnique(a + 65536 * b, 65536, b, a);
  }

  method Adler32(data: seq<byte>) returns (r: uint32)
    ensures r == Adler(data)
    ensures r % 65536 == (1 + ByteSum(data)) % 65521
    ensures r / 65536 == (|data| + WeightedSum(data, |data|)) % 65521
  {
    hide AdlerSums;
    AdlerClosed(data);
    Pow2Values();
    LowSmall(1, 16);
    r := UpdateAdler32(1, data);
  }

  // ---------------------------------------------------------------------------------------------
  // 32-bit numbers, highest byte first
  // ---------------------------------------------------------------------------------------------

  function BigEndian(b: seq<byte>): (x: nat)
    requires |b| == 4
    ensures x < 0x1_0000_0000
  {
    16777216 * (b[0] as int) + 65536 * (b[1] as int) + 256 * (b[2] as int) + b[3]
  }

  /** The highest byte comes first. */
  lemma HighestFirst(b: seq<byte>)
    requires |b| == 4
    ensures var x := BigEndian(b);
      b[0] == x / 16777216 && b[1] == x / 65536 % 256 && b[2] == x / 256 % 256 && b[3] == x % 256
  {
    var x := BigEndian(b);
    var a, c := 256 * (b[0] as int) + b[1], 65536 * (b[0] as int) + 256 * (b[1] as int) + b[2];
    assert x / 256 == c && x / 65536 == a && x / 16777216 == b[0];
  }

  lemma ShiftedBytes(b: seq<byte>)
    requires |b| == 4
    ensures Shl(b[0], 24) == 16777216 * (b[0] as int) && Shl(b[1], 16) == 65536 * (b[1] as int) && Shl(b[2], 8) == 256 * (b[2] as int)
  {
    hide Shl;
    Pow2Large();
    ShlTimes(b[0], 24);
    ShlTimes(b[1], 16);
    ShlTimes(b[2], 8);
  }

  lemma Pow2Large()
    ensures Pow2(8) == 256 && Pow2(16) == 65536 && Pow2(24) == 16777216
  {
    Pow2Values();
    assert Pow2(20) == 1048576 by { assert Pow2(18) == 262144; }
    assert Pow2(22) == 4194304;
  }

  method Read32BitInt(b: seq<byte>) returns (r: uint32)
    requires |b| == 4
    ensures r == BigEndian(b)
  {
    hide Shl;
    hide BitOr;
    hide Pow2;
    ShiftedBytes(b);
    Pow2Large();
    BitOrSwap(Shl(b[0], 24), Shl(b[1], 16));
    BitOrDisjoint(Shl(b[1], 16), b[0], 24);
    var x := BitOr(Shl(b[0], 24), Shl(b[1], 16));
    ShlTimes(256 * (b[0] as int) + b[1], 16);
    BitOrSwap(x, Shl(b[2], 8));
    BitOrDisjoint(Shl(b[2], 8), 256 * (b[0] as int) + b[1], 16);
    var y := BitOr(x, Shl(b[2], 8));
    ShlTimes(65536 * (b[0] as int) + 256 * (b[1] as int) + b[2], 8);
    BitOrSwap(y, b[3]);
    BitOrDisjoint(b[3], 65536 * (b[0] as int) + 256 * (b[1] as int) + b[2], 8);
    r := BitOr(y, b[3]);
  }

  lemma LowByte(x: nat)
    ensures BitAnd(x, 0xff) == x % 256
  {
    hide BitAnd;
    Pow2Values();
    BitAndMask(x, 8);
    LowIsMod(x, 8);
  }

  /** The four bytes of a number, which are the number again. */
  method Set32BitInt(value: uint32) returns (b: seq<byte>)
    ensures b == [value / 16777216, value / 65536 % 256, value / 256 % 256, value % 256] && BigEndian(b) == value
  {
    hide Shr;
    hide BitAnd;
    hide Pow2;
    LowByte(Shr(value, 24));
    LowByte(Shr(value, 16));
    LowByte(Shr(value, 8));
    LowByte(value);
    ShiftedParts(value);
    b := [BitAnd(Shr(value, 24), 0xff), BitAnd(Shr(value, 16), 0xff), BitAnd(Shr(value, 8), 0xff), BitAnd(value, 0xff)];
    HighestFirst(b);
  }

  lemma ShiftedParts(value: uint32)
    ensures value == 16777216 * (Shr(value, 24) % 256) + 65536 * (Shr(value, 16) % 256) + 256 * (Shr(value, 8) % 256) + value % 256
  {
    hide Shr;
    hide Low;
    Pow2Large();
    LowIsMod(value, 8);
    LowIsMod(Shr(value, 8), 8);
    LowIsMod(Shr(value, 16), 8);
    ShrAdd(value, 8, 8);
    ShrAdd(value, 16, 8);
    var a := Shr(value, 8);
    var b := Shr(value, 16);
    var c := Shr(value, 24);
    assert value == 256 * a + value % 256 && a == 256 * b + a % 256 && b == 256 * c + b % 256;
    assert c < 256;
  }

  // ---------------------------------------------------------------------------------------------
  // Compressing and decompressing
  // ---------------------------------------------------------------------------------------------

  /** The header: method 8, a window of at most 32768 bytes, no dictionary, a check that divides by 31. */
  predicate ZlibHeader(a: byte, b: byte) {
    (256 * (a as int) + b) % 31 == 0 && a % 16 == 8 && a / 16 <= 7 && b / 32 % 2 == 0
  }

  /** What zlib data means, when `before` is in the output already. The checksum is that of all the output. */
  ghost function Decompressed(input: seq<byte>, before: seq<byte>, ignoreAdler32: bool, ignoreNlen: bool): Option<seq<byte>> {
    if |input| < 4 || !ZlibHeader(input[0], input[1]) then None
    else
      match InflateBlocks(BitsOf(input[2..]), 0, before, ignoreNlen)
      case None => None
      case Some(out) => if ignoreAdler32 || BigEndian(input[|input| - 4..]) == Adler(out) then Some(out) else None
  }

  lemma HeaderFields(a: byte, b: byte)
    ensures BitAnd(a, 15) == a % 16 && BitAnd(Shr(a, 4), 15) == a / 16
    ensures BitAnd(Shr(b, 5), 1) == b / 32 % 2
  {
    hide BitAnd;
    hide Shr;
    hide Low;
    assert Pow2(1) == 2 && Pow2(4) == 16 && Pow2(5) == 32;
    hide Pow2;
    BitAndMask(a, 4);
    LowIsMod(a, 4);
    BitAndMask(Shr(a, 4), 4);
    LowIsMod(Shr(a, 4), 4);
    BitAndMask(Shr(b, 5), 1);
    LowIsMod(b, 5);
    LowIsMod(Shr(b, 5), 1);
    DivModUnique(a / 16, 16, 0, a / 16);
  }

  /** A stream with a meaning has two bytes at least, so that a checksum can be read behind the header. */
  lemma StreamLength(data: seq<byte>, before: seq<byte>, ignoreNlen: bool)
    requires InflateBlocks(BitsOf(data), 0, before, ignoreNlen).Some?
    ensures |data| >= 2
  {
    hide BitsOf;
    hide InflateStored;
    hide ReadTrees;
    hide FixedLitLen;
    hide FixedDistance;
    hide Window;
    var bits := BitsOf(data);
    BlockKind(bits, 1, before, ignoreNlen);
    if Window(bits, 1, 2) == 1 {
      FixedCodesAreLong(bits, 3, before);
    } else if Window(bits, 1, 2) == 0 {
      StoredIsLong(bits, 3, before, ignoreNlen);
    } else {
      TreesAreLong(bits, 3);
    }
  }

  lemma FixedCodesAreLong(bits: seq<bit>, p: nat, out: seq<byte>)
    requires InflateSymbols(FixedLitLen(), FixedDistance(), bits, p, out).Some?
    ensures p + 7 <= |bits|
  {
    var s := DecodeSymbol(FixedLitLen(), bits, p).value;
    assert DeflateFormat.SymbolAt(FixedLitLen(), bits, p, s) && FixedLitLen()[s] >= 7;
  }

  lemma StoredIsLong(bits: seq<bit>, p: nat, out: seq<byte>, ignoreNlen: bool)
    requires InflateStored(bits, p, out, ignoreNlen).Some?
    ensures p + 32 <= |bits|
  {
  }

  lemma TreesAreLong(bits: seq<bit>, p: nat)
    requires ReadTrees(bits, p).Some?
    ensures p + 14 <= |bits|
  {
  }

  /** Decompresses zlib data. It succeeds exactly when the data has a meaning that fits. */
  method DecompressV(out: ByteVector, input: seq<byte>, ignoreAdler32: bool, ignoreNlen: bool, maxOutputSize: nat) returns (error: nat)
    requires out.Valid()
    modifies out, out.data
    ensures out.Valid() && (out.data == old(out.data) || fresh(out.data))
    ensures var r := Decompressed(input, old(out.Contents()), ignoreAdler32, ignoreNlen);
      && (error == 0 <==> r.Some? && Fits(maxOutputSize, |r.value|))
      && (error == 0 ==> r == Some(out.Contents()))
  {
    hide InflateBlocks;
    hide BitsOf;
    hide BitAnd;
    hide Shr;
    hide Adler;
    hide BigEndian;
    if |input| < 2 {
      return 53;
    }
    if ((input[0] as int) * 256 + input[1]) % 31 != 0 {
      return 24;
    }
    HeaderFields(input[0], input[1]);
    var CM := BitAnd(input[0], 15);
    var CINFO := BitAnd(Shr(input[0], 4), 15);
    var FDICT := BitAnd(Shr(input[1], 5), 1);
    if CM != 8 || CINFO > 7 {
      return 25;
    }
    if FDICT != 0 {
      return 26;
    }
    error := Inflatev(out, input[2..], ignoreNlen, maxOutputSize);
    if InflateBlocksMeans(input[2..], old(out.Contents()), ignoreNlen) {
      StreamLength(input[2..], old(out.Contents()), ignoreNlen);
    }
    if error != 0 {
      return;
    }
    if !ignoreAdler32 {
      var ADLER32 := Read32BitInt(input[|input| - 4..]);
      var checksum := Adler32(out.data[..out.size]);
      if checksum != ADLER32 {
        return 58;
      }
    }
  }

  ghost predicate InflateBlocksMeans(data: seq<byte>, before: seq<byte>, ignoreNlen: bool) {
    InflateBlocks(BitsOf(data), 0, before, ignoreNlen).Some?
  }

  /** Zlib data that decompresses to the input, for all settings that deflating accepts. */
  method Compress(input: seq<byte>, settings: CompressSettings, ghost ignoreAdler32: bool, ghost ignoreNlen: bool)
    returns (error: nat, out: seq<byte>)
    requires settings.btype == 1 ==> input != []
    ensures error == 0 <==> Deflates(settings)
    ensures error == 0 ==> |out| >= 6 && out[..2] == [0x78, 0x01] && BigEndian(out[|out| - 4..]) == Adler(input)
    ensures error == 0 && settings.btype > 0 ==> HoldsBlocks(out[2..|out| - 4], input, settings)
    ensures error == 0 && (settings.btype > 0 || input != []) ==> Decompressed(out, [], ignoreAdler32, ignoreNlen) == Some(input)
    ensures error == 0 && settings.btype == 0 && input == [] ==> Decompressed(out, [], ignoreAdler32, ignoreNlen) == None
  {
    hide InflateBlocks;
    hide BitsOf;
    hide Deflates;
    hide InflatesTo;
    hide HoldsBlocks;
    hide Adler;
    hide BigEndian;
    var deflatedata;
    error, deflatedata := Deflatev([], input, settings, ignoreNlen);
    out := [];
    if error == 0 {
      assert deflatedata[0..] == deflatedata;
      var ADLER32 := Adler32(input);
      var CMF, FLEVEL, FDICT := 120, 0, 0;
      var CMFFLG := 256 * CMF + FDICT * 32 + FLEVEL * 64;
      var FCHECK := 31 - CMFFLG % 31;
      CMFFLG := CMFFLG + FCHECK;
      assert CMFFLG == 30721;
      HeaderBytes();
      var checksum := Set32BitInt(ADLER32);
      out := [Shr(CMFFLG, 8), BitAnd(CMFFLG, 255)] + deflatedata + checksum;
      Wrapped(deflatedata, checksum, out, ignoreNlen);
      if settings.btype > 0 || input != [] {
        StreamMeans(deflatedata, input, ignoreNlen, checksum);
      } else {
        EmptyZlib(checksum, out, ignoreNlen);
      }
    }
  }

  lemma HeaderBytes()
    ensures Shr(30721, 8) == 120 && BitAnd(30721, 255) == 1 && ZlibHeader(120, 1)
  {
    hide Shr;
    hide BitAnd;
    Pow2Values();
    LowIsMod(30721, 8);
    BitAndMask(30721, 8);
  }

  lemma Wrapped(stream: seq<byte>, checksum: seq<byte>, out: seq<byte>, ignoreNlen: bool)
    requires |checksum| == 4 && out == [120, 1] + stream + checksum
    ensures |out| >= 6 && out[0] == 120 && out[1] == 1
    ensures out[2..] == stream + checksum && out[|out| - 4..] == checksum && out[2..|out| - 4] == stream
  {
  }

  lemma StreamMeans(stream: seq<byte>, data: seq<byte>, ignoreNlen: bool, rest: seq<byte>)
    requires InflatesTo(stream, data, ignoreNlen)
    ensures InflateBlocks(BitsOf(stream + rest), 0, [], ignoreNlen) == Some(data)
  {
  }

  /** With nothing but the checksum of no data behind the header, there is no block. */
  lemma EmptyZlib(checksum: seq<byte>, out: seq<byte>, ignoreNlen: bool)
    requires |checksum| == 4 && BigEndian(checksum) == Adler([])
    requires |out| == 6 && out[2..] == checksum
    ensures InflateBlocks(BitsOf(out[2..]), 0, [], ignoreNlen) == None
  {
    hide BitsOf;
    hide Window;
    hide InflateBlocks;
    hide InflateBlock;
    var data := out[2..];
    assert Adler([]) == 1;
    assert checksum[0] == 0;
    StoredHeader(data, 0, 0, 0);
    BlocksStep(BitsOf(data), 0, [], ignoreNlen);
    StoredType(BitsOf(data), 1, [], ignoreNlen);
  }

  /** Decompressing undoes compressing. The one exception is to store no data. */
  method CompressDecompress(input: seq<byte>, settings: CompressSettings, ignoreAdler32: bool, ignoreNlen: bool)
    returns (error: nat, output: seq<byte>)
    requires Deflates(settings) && (settings.btype == 1 ==> input != [])
    ensures error == 0 <==> settings.btype > 0 || input != []
    ensures error == 0 ==> output == input
  {
    hide Decompressed;
    hide Deflates;
    var compressed;
    error, compressed := Compress(input, settings, ignoreAdler32, ignoreNlen);
    var out := new ByteVector([]);
    error := DecompressV(out, compressed, ignoreAdler32, ignoreNlen, 0);
    output := out.data[..out.size];
  }
}
