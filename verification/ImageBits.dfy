/** The bits of an image, highest bit of each byte first, and the loops that move them: between lines with
    and without padding, possibly inside one buffer. */
module ImageBits {
  import opened Bits

  // ---------------------------------------------------------------------------------------------
  // One bit of a byte
  // ---------------------------------------------------------------------------------------------

  lemma {:induction false} OrBit(b: nat, k: nat, j: nat)
    ensures Shr(BitOr(b, Pow2(k)), j) % 2 == if j == k then 1 else Shr(b, j) % 2
  {
    if k == 0 {
      assert Pow2(0) == 1;
      assert BitOr(b, 1) % 2 == 1 && BitOr(b, 1) / 2 == b / 2 by { assert BitOr(b / 2, 0) == b / 2; }
      assert j > 0 ==> Shr(BitOr(b, 1), j) == Shr(b / 2, j - 1) == Shr(b, j);
    } else {
      assert BitOr(b, Pow2(k)) % 2 == b % 2 && BitOr(b, Pow2(k)) / 2 == BitOr(b / 2, Pow2(k - 1));
      if j > 0 {
        OrBit(b / 2, k - 1, j - 1);
      }
    }
  }

  lemma {:induction false} OrBound(b: nat, k: nat, n: nat)
    requires b < Pow2(n) && k < n
    ensures BitOr(b, Pow2(k)) < Pow2(n)
  {
    if k == 0 {
      assert BitOr(b, 1) <= b + 1 && (b % 2 == 1 ==> BitOr(b, 1) == b) by { assert BitOr(b / 2, 0) == b / 2; }
    } else {
      OrBound(b / 2, k - 1, n - 1);
      assert BitOr(b, Pow2(k)) == b % 2 + 2 * BitOr(b / 2, Pow2(k - 1));
    }
  }

  lemma {:induction false} AndBit(b: nat, k: nat, n: nat, j: nat)
    requires b < Pow2(n) && k < n
    ensures Pow2(k) < Pow2(n) && BitAnd(b, Pow2(n) - 1 - Pow2(k)) <= b
    ensures Shr(BitAnd(b, Pow2(n) - 1 - Pow2(k)), j) % 2 == if j == k then 0 else Shr(b, j) % 2
  {
    Pow2Mono(k + 1, n);
    if b == 0 {
      ShrZero(j);
    } else if k == 0 {
      ClearLowest(b, n);
      ShrOfEven(b, j);
    } else {
      hide *;
      AndStep(b, k, n);
      var j' := if j > 0 then j - 1 else 0;
      var h, r := b / 2, b % 2;
      AndBit(h, k - 1, n - 1, j');
      var x, x' := BitAnd(b, Pow2(n) - 1 - Pow2(k)), BitAnd(h, Pow2(n - 1) - 1 - Pow2(k - 1));
      DivModUnique(x, 2, x', r);
      ShrStep(x, j);
      ShrStep(b, j);
    }
  }

  lemma AndStep(b: nat, k: nat, n: nat)
    requires 0 < b < Pow2(n) && 0 < k < n && Pow2(k) < Pow2(n)
    ensures Pow2(k - 1) < Pow2(n - 1) && b / 2 < Pow2(n - 1)
    ensures BitAnd(b, Pow2(n) - 1 - Pow2(k)) == b % 2 + 2 * BitAnd(b / 2, Pow2(n - 1) - 1 - Pow2(k - 1))
  {
    var mask := Pow2(n) - 1 - Pow2(k);
    assert mask % 2 == 1 && mask / 2 == Pow2(n - 1) - 1 - Pow2(k - 1);
  }

  lemma ShrStep(x: nat, j: nat)
    ensures Shr(x, j) == if j == 0 then x else Shr(x / 2, j - 1)
  {
  }

  lemma ShrOfEven(b: nat, j: nat)
    ensures Shr(b - b % 2, j) % 2 == if j == 0 then 0 else Shr(b, j) % 2
  {
    if j > 0 {
      assert (b - b % 2) / 2 == b / 2;
    }
  }

  lemma ClearLowest(b: nat, n: nat)
    requires 0 < b < Pow2(n) && n > 0
    ensures Pow2(0) == 1 && Pow2(n) >= 2 && BitAnd(b, Pow2(n) - 1 - Pow2(0)) == b - b % 2
  {
    var mask := Pow2(n) - 2;
    BitAndMask(b / 2, n - 1);
    LowSmall(b / 2, n - 1);
    assert mask % 2 == 0 && mask / 2 == Pow2(n - 1) - 1;
    assert b / 2 == 0 ==> BitAnd(b / 2, mask / 2) == 0;
  }

  // ---------------------------------------------------------------------------------------------
  // The bits of a buffer
  // ---------------------------------------------------------------------------------------------

  function BitIn(b: byte, k: nat): bit
    requires k < 8
  {
    Shr(b, 7 - k) % 2
  }

  /** Bit `p` of the bytes. */
  function PngBit(data: seq<byte>, p: nat): bit
    requires p < 8 * |data|
  {
    BitIn(data[p / 8], p % 8)
  }

  function PngBits(data: seq<byte>): (bs: seq<bit>)
    ensures |bs| == 8 * |data|
  {
    seq(8 * |data|, p requires 0 <= p < 8 * |data| => PngBit(data, p))
  }

  function BitOf(a: array<byte>, p: nat): bit
    requires p < 8 * a.Length
    reads a
  {
    BitIn(a[p / 8], p % 8)
  }

  lemma BitOfArray(a: array<byte>, p: nat)
    requires p < 8 * a.Length
    ensures BitOf(a, p) == PngBits(a[..])[p]
  {
  }

  lemma BitIndex(p: nat)
    ensures Shr(p, 3) == p / 8 && BitAnd(p, 7) == p % 8
  {
    assert Pow2(3) == 8;
    LowIsMod(p, 3);
    BitAndMask(p, 3);
  }

  method ReadBitFromReversedStream(bitpointer: nat, bitstream: array<byte>) returns (result: bit, next: nat)
    requires bitpointer < 8 * bitstream.Length
    ensures result == BitOf(bitstream, bitpointer) && next == bitpointer + 1
  {
    hide Shr;
    hide BitAnd;
    BitIndex(bitpointer);
    var x := Shr(bitstream[Shr(bitpointer, 3)], 7 - BitAnd(bitpointer, 7));
    LastBit(x);
    result := BitAnd(x, 1);
    next := bitpointer + 1;
  }

  /** Sets a bit, whatever it was. No other bit changes. */
  method SetBitOfReversedStream(bitpointer: nat, bitstream: array<byte>, bit: bit) returns (next: nat)
    requires bitpointer < 8 * bitstream.Length
    modifies bitstream
    ensures next == bitpointer + 1 && BitOf(bitstream, bitpointer) == bit
    ensures OnlyBits(bitstream, bitpointer, bitpointer + 1)
  {
    hide Shr;
    hide BitAnd;
    hide BitOr;
    hide Pow2;
    BitIndex(bitpointer);
    var i, k := Shr(bitpointer, 3), 7 - BitAnd(bitpointer, 7);
    var b := bitstream[i];
    var changed: byte;
    if bit == 0 {
      ClearBit(b, k);
      changed := BitAnd(b, 255 - Shl(1, k));
      assert forall j :: 0 <= j < 8 ==> BitIn(changed, j) == if j == 7 - k then 0 else BitIn(b, j);
    } else {
      SetBit(b, k);
      changed := BitOr(b, Shl(1, k));
    }
    assert forall j :: 0 <= j < 8 ==> BitIn(changed, j) == if j == 7 - k then bit else BitIn(b, j);
    bitstream[i] := changed;
    next := bitpointer + 1;
  }

  lemma ClearBit(b: byte, k: nat)
    requires k < 8
    ensures Shl(1, k) <= 255 && BitAnd(b, 255 - Shl(1, k)) < 256
    ensures forall j :: 0 <= j < 8 ==> BitIn(BitAnd(b, 255 - Shl(1, k)), j) == if j == 7 - k then 0 else BitIn(b, j)
  {
    hide Shr;
    hide Shl;
    hide BitAnd;
    hide Pow2;
    Pow2Values();
    ShlOne(k);
    AndBit(b, k, 8, 0);
    forall j | 0 <= j < 8
      ensures BitIn(BitAnd(b, 255 - Shl(1, k)), j) == if j == 7 - k then 0 else BitIn(b, j)
    {
      AndBit(b, k, 8, 7 - j);
    }
  }

  lemma SetBit(b: byte, k: nat)
    requires k < 8
    ensures BitOr(b, Shl(1, k)) < 256
    ensures forall j :: 0 <= j < 8 ==> BitIn(BitOr(b, Shl(1, k)), j) == if j == 7 - k then 1 else BitIn(b, j)
  {
    hide Shr;
    hide Shl;
    hide BitOr;
    hide Pow2;
    Pow2Values();
    ShlOne(k);
    OrBound(b, k, 8);
    forall j | 0 <= j < 8
      ensures BitIn(BitOr(b, Shl(1, k)), j) == if j == 7 - k then 1 else BitIn(b, j)
    {
      OrBit(b, k, 7 - j);
    }
  }

  /** Only the bits from `lo` to `hi` may have changed, and only bytes that hold some of them. */
  twostate predicate OnlyBits(a: array<byte>, lo: nat, hi: nat)
    reads a
  {
    && (forall q: nat :: q < 8 * a.Length && !(lo <= q < hi) ==> BitOf(a, q) == old(BitOf(a, q)))
    && (forall k :: 0 <= k < a.Length && (8 * k + 8 <= lo || hi <= 8 * k) ==> a[k] == old(a[k]))
  }

  /** The bits from `o` on are those of `src` from `i` on. */
  ghost predicate Copied(out: array<byte>, o: nat, src: seq<bit>, i: nat, n: nat)
    reads out
  {
    && o + n <= 8 * out.Length && i + n <= |src|
    && forall q: nat :: o <= q < o + n ==> BitOf(out, q) == src[i + (q - o)]
  }

  /** Copies bits one by one; inside one buffer they may only move towards its start. */
  method CopyBits(out: array<byte>, obp: nat, input: array<byte>, ibp: nat, n: nat, ghost src: seq<bit>)
    requires obp + n <= 8 * out.Length && Copied(input, ibp, src, ibp, n)
    requires out != input || obp <= ibp
    modifies out
    ensures Copied(out, obp, src, ibp, n) && OnlyBits(out, obp, obp + n)
  {
    hide BitOf;
    var o, i := obp, ibp;
    for b := 0 to n
      invariant o == obp + b && i == ibp + b
      invariant Copied(out, obp, src, ibp, b) && OnlyBits(out, obp, o) && Copied(input, i, src, i, n - b)
    {
      var bit;
      bit, i := ReadBitFromReversedStream(i, input);
      o := SetBitOfReversedStream(o, out, bit);
    }
  }

  // ---------------------------------------------------------------------------------------------
  // Padding
  // ---------------------------------------------------------------------------------------------

  /** Where line `y` starts. */
  function LineAt(base: nat, y: nat, linebits: nat): nat {
    base + y * linebits
  }

  lemma LineNext(base: nat, y: nat, linebits: nat)
    ensures LineAt(base, 0, linebits) == base
    ensures LineAt(base, y + 1, linebits) == LineAt(base, y, linebits) + linebits
  {
    MulDist(y, 1, linebits);
  }

  lemma LinesApart(base: nat, y: nat, z: nat, linebits: nat)
    requires y < z
    ensures LineAt(base, y, linebits) + linebits <= LineAt(base, z, linebits)
  {
    MulDist(z, -(y as int), linebits);
    if linebits > 0 {
      MulGe(z - y, linebits);
    }
  }

  /** The first `h` lines have been copied. */
  ghost predicate LinesCopied(out: array<byte>, obase: nat, obits: nat, src: seq<bit>, ibase: nat, ibits: nat, n: nat, h: nat)
    reads out
  {
    forall y: nat :: y < h ==> Copied(out, LineAt(obase, y, obits), src, LineAt(ibase, y, ibits), n)
  }

  /** Takes the padding out from behind the lines, towards the start of one buffer or into another. */
  method RemovePaddingBits(out: array<byte>, obase: nat, input: array<byte>, ibase: nat, olinebits: nat, ilinebits: nat, h: nat, ghost src: seq<bit>)
    requires olinebits <= ilinebits && (out != input || obase <= ibase)
    requires LineAt(obase, h, olinebits) <= 8 * out.Length && LineAt(ibase, h, ilinebits) == |src| <= 8 * input.Length
    requires forall q: nat :: ibase <= q < |src| ==> BitOf(input, q) == src[q]
    modifies out
    ensures LinesCopied(out, obase, olinebits, src, ibase, ilinebits, olinebits, h)
    ensures OnlyBits(out, obase, LineAt(obase, h, olinebits))
  {
    hide BitOf;
    hide LineAt;
    var diff := ilinebits - olinebits;
    var ibp, obp := ibase, obase;
    LineNext(obase, 0, olinebits);
    LineNext(ibase, 0, ilinebits);
    for y := 0 to h
      invariant obp == LineAt(obase, y, olinebits) && ibp == LineAt(ibase, y, ilinebits) && (out != input || obp <= ibp)
      invariant LinesCopied(out, obase, olinebits, src, ibase, ilinebits, olinebits, y)
      invariant OnlyBits(out, obase, obp)
      invariant forall q: nat :: ibp <= q < |src| ==> BitOf(input, q) == src[q]
    {
      LineNext(obase, y, olinebits);
      LineNext(ibase, y, ilinebits);
      LinesFit(obase, y, h, olinebits);
      LinesFit(ibase, y, h, ilinebits);
      CopyLine(out, obase, input, ibase, obp, ibp, olinebits, ilinebits, olinebits, y, src);
      obp := obp + olinebits;
      ibp := ibp + olinebits;
      ibp := ibp + diff;
    }
  }

  /** The next line. */
  method CopyLine(out: array<byte>, ghost obase: nat, input: array<byte>, ghost ibase: nat, obp: nat, ibp: nat, ghost obits: nat, ghost ibits: nat,
                  n: nat, ghost y: nat, ghost src: seq<bit>)
    requires obp == LineAt(obase, y, obits) && ibp == LineAt(ibase, y, ibits) && (out != input || obp <= ibp) && n <= obits
    requires obp + n <= 8 * out.Length && Copied(input, ibp, src, ibp, n)
    requires LinesCopied(out, obase, obits, src, ibase, ibits, n, y)
    modifies out
    ensures LinesCopied(out, obase, obits, src, ibase, ibits, n, y + 1)
    ensures OnlyBits(out, obp, obp + n)
  {
    hide BitOf;
    hide LineAt;
    CopyBits(out, obp, input, ibp, n, src);
    forall z: nat | z < y
      ensures Copied(out, LineAt(obase, z, obits), src, LineAt(ibase, z, ibits), n)
    {
      LinesApart(obase, z, y, obits);
      assert old(Copied(out, LineAt(obase, z, obits), src, LineAt(ibase, z, ibits), n));
    }
  }

  /** The padding of the next line. */
  method PadLine(out: array<byte>, ghost ibase: nat, obp: nat, diff: nat, ghost olinebits: nat, ghost ilinebits: nat, ghost y: nat, ghost src: seq<bit>)
    requires obp == LineAt(0, y, olinebits) + ilinebits && diff == olinebits - ilinebits && obp + diff <= 8 * out.Length
    requires LinesCopied(out, 0, olinebits, src, ibase, ilinebits, ilinebits, y + 1)
    modifies out
    ensures LinesCopied(out, 0, olinebits, src, ibase, ilinebits, ilinebits, y + 1)
    ensures OnlyBits(out, obp, obp + diff) && forall q: nat :: obp <= q < obp + diff ==> BitOf(out, q) == 0
  {
    hide BitOf;
    hide LineAt;
    ClearBits(out, obp, diff);
    forall z: nat | z < y + 1
      ensures Copied(out, LineAt(0, z, olinebits), src, LineAt(ibase, z, ilinebits), ilinebits)
    {
      if z < y {
        LinesApart(0, z, y, olinebits);
      }
      assert old(Copied(out, LineAt(0, z, olinebits), src, LineAt(ibase, z, ilinebits), ilinebits));
    }
  }

  lemma LinesFit(base: nat, y: nat, h: nat, linebits: nat)
    requires y < h
    ensures base <= LineAt(base, y, linebits) && LineAt(base, y, linebits) + linebits <= LineAt(base, h, linebits)
  {
    LinesApart(base, y, h, linebits);
  }

  /** Puts padding behind the lines: zeros. */
  method AddPaddingBits(out: array<byte>, input: array<byte>, ibase: nat, olinebits: nat, ilinebits: nat, h: nat, ghost src: seq<bit>)
    requires olinebits >= ilinebits && out != input
    requires LineAt(0, h, olinebits) <= 8 * out.Length && LineAt(ibase, h, ilinebits) <= |src| <= 8 * input.Length
    requires forall q: nat :: ibase <= q < |src| ==> BitOf(input, q) == src[q]
    modifies out
    ensures LinesCopied(out, 0, olinebits, src, ibase, ilinebits, ilinebits, h)
    ensures PaddingIsZero(out, olinebits, ilinebits, h)
  {
    hide BitOf;
    hide LineAt;
    var diff := olinebits - ilinebits;
    var obp, ibp := 0, ibase;
    LineNext(0, 0, olinebits);
    LineNext(ibase, 0, ilinebits);
    for y := 0 to h
      invariant obp == LineAt(0, y, olinebits) && ibp == LineAt(ibase, y, ilinebits)
      invariant LinesCopied(out, 0, olinebits, src, ibase, ilinebits, ilinebits, y)
      invariant PaddingIsZero(out, olinebits, ilinebits, y)
    {
      LineNext(0, y, olinebits);
      LineNext(ibase, y, ilinebits);
      LinesFit(0, y, h, olinebits);
      LinesFit(ibase, y, h, ilinebits);
      CopyLine(out, 0, input, ibase, obp, ibp, olinebits, ilinebits, ilinebits, y, src);
      obp, ibp := obp + ilinebits, ibp + ilinebits;
      PadLine(out, ibase, obp, diff, olinebits, ilinebits, y, src);
      PaddingApart(olinebits, y);
      obp := obp + diff;
    }
  }

  lemma PaddingApart(olinebits: nat, h: nat)
    ensures forall y: nat :: y < h ==> LineAt(0, y, olinebits) + olinebits <= LineAt(0, h, olinebits)
  {
    hide LineAt;
    forall y: nat | y < h
      ensures LineAt(0, y, olinebits) + olinebits <= LineAt(0, h, olinebits)
    {
      LinesApart(0, y, h, olinebits);
    }
  }

  method ClearBits(out: array<byte>, obp: nat, n: nat)
    requires obp + n <= 8 * out.Length
    modifies out
    ensures OnlyBits(out, obp, obp + n) && forall q: nat :: obp <= q < obp + n ==> BitOf(out, q) == 0
  {
    hide BitOf;
    var o := obp;
    for x := 0 to n
      invariant o == obp + x && OnlyBits(out, obp, o) && forall q: nat :: obp <= q < o ==> BitOf(out, q) == 0
    {
      o := SetBitOfReversedStream(o, out, 0);
    }
  }

  ghost predicate PaddingIsZero(out: array<byte>, olinebits: nat, ilinebits: nat, h: nat)
    reads out
  {
    forall y: nat, q: nat :: y < h && LineAt(0, y, olinebits) + ilinebits <= q < LineAt(0, y, olinebits) + olinebits && q < 8 * out.Length ==>
      BitOf(out, q) == 0
  }
}
