/** Pixels in a buffer: reading them as colours, and writing colours as pixels of a colour model. */
module Pixels {
  import opened Bits
  import opened Wrappers
  import opened ImageBits
  import opened ColorTree

  datatype ColorType = Grey | Rgb | Palette

  datatype Mode = Mode(colorType: ColorType, bitdepth: nat, palette: seq<Color>)

  predicate IsDepth(d: nat) {
    d == 1 || d == 2 || d == 4 || d == 8
  }

  predicate ValidMode(mode: Mode) {
    match mode.colorType
    case Grey => IsDepth(mode.bitdepth) && mode.palette == []
    case Rgb => mode.bitdepth == 8 && mode.palette == []
    case Palette => IsDepth(mode.bitdepth) && 0 < |mode.palette| <= Pow2(mode.bitdepth)
  }

  function Bpp(mode: Mode): nat {
    if mode.colorType.Rgb? then 3 * mode.bitdepth else mode.bitdepth
  }

  /** The bytes that `n` pixels take. */
  function RawSize(n: nat, mode: Mode): nat {
    n / 8 * Bpp(mode) + (n % 8 * Bpp(mode) + 7) / 8
  }

  lemma RawSizeHolds(n: nat, mode: Mode)
    ensures RawSize(n, mode) == (n * Bpp(mode) + 7) / 8 && n * Bpp(mode) <= 8 * RawSize(n, mode)
  {
    var b, q, r := Bpp(mode), n / 8, n % 8;
    assert n * b == 8 * (q * b) + r * b by { MulDist(8 * q, r, b); }
    var t := r * b + 7;
    DivModUnique(n * b + 7, 8, q * b + t / 8, t % 8);
  }

  // ---------------------------------------------------------------------------------------------
  // Fields of bits
  // ---------------------------------------------------------------------------------------------

  /** `n` bits from `p` on as a number, highest first. */
  function Field(data: seq<byte>, p: nat, n: nat): (v: nat)
    requires p + n <= 8 * |data|
    ensures v < Pow2(n)
  {
    if n == 0 then 0 else 2 * Field(data, p, n - 1) + PngBit(data, p + n - 1)
  }

  lemma {:induction false} SameField(s: seq<byte>, t: seq<byte>, p: nat, n: nat)
    requires p + n <= 8 * |s| && p + n <= 8 * |t|
    requires forall q: nat :: p <= q < p + n ==> PngBit(s, q) == PngBit(t, q)
    ensures Field(s, p, n) == Field(t, p, n)
  {
    if n > 0 {
      SameField(s, t, p, n - 1);
    }
  }

  method ReadBitsFromReversedStream(bitpointer: nat, bitstream: array<byte>, nbits: nat) returns (result: nat, next: nat)
    requires bitpointer + nbits <= 8 * bitstream.Length
    ensures result == Field(bitstream[..], bitpointer, nbits) && next == bitpointer + nbits
  {
    hide PngBit;
    hide BitOf;
    result, next := 0, bitpointer;
    for i := 0 to nbits
      invariant result == Field(bitstream[..], bitpointer, i) && next == bitpointer + i
    {
      BitOfData(bitstream, next);
      var bit;
      bit, next := ReadBitFromReversedStream(next, bitstream);
      OrLast(result, bit);
      result := BitOr(Shl(result, 1), bit);
    }
  }

  lemma BitOfData(a: array<byte>, p: nat)
    requires p < 8 * a.Length
    ensures BitOf(a, p) == PngBit(a[..], p)
  {
  }

  lemma OrLast(x: nat, bit: bit)
    ensures BitOr(Shl(x, 1), bit) == 2 * x + bit
  {
    assert Shl(x, 1) == 2 * x by { assert Shl(x, 0) == x; }
    assert BitOr(x, 0) == x;
  }

  /** A field inside one byte. */
  lemma {:induction false} FieldOfByte(data: seq<byte>, k: nat, off: nat, n: nat)
    requires k < |data| && off + n <= 8
    ensures Field(data, 8 * k + off, n) == Low(Shr(data[k], 8 - off - n), n)
  {
    if n > 0 {
      var s, m := 8 - off - n, n - 1;
      FieldOfByte(data, k, off, m);
      BitOfByte(data, k, off + m, 8 * k + off + m);
      ShrStepUp(data[k], s);
    }
  }

  lemma BitOfByte(data: seq<byte>, k: nat, j: nat, p: nat)
    requires k < |data| && j < 8 && p == 8 * k + j
    ensures PngBit(data, p) == Shr(data[k], 7 - j) % 2
  {
    DivModUnique(p, 8, k, j);
  }

  lemma ShrStepUp(x: nat, s: nat)
    ensures Shr(x, s + 1) == Shr(x, s) / 2
  {
    ShrAdd(x, s, 1);
    assert Shr(Shr(x, s), 1) == Shr(Shr(x, s) / 2, 0) == Shr(x, s) / 2;
  }

  lemma WholeByte(data: seq<byte>, k: nat)
    requires k < |data|
    ensures Field(data, 8 * k, 8) == data[k]
  {
    FieldOfByte(data, k, 0, 8);
    Pow2Values();
    LowSmall(data[k], 8);
    assert Shr(data[k], 0) == data[k];
  }

  // ---------------------------------------------------------------------------------------------
  // Reading a pixel
  // ---------------------------------------------------------------------------------------------

  /** The grey level that a value of `d` bits stands for. */
  function GreyOf(v: nat, d: nat): byte
    requires IsDepth(d) && v < Pow2(d)
  {
    Depths();
    v * 255 / (Pow2(d) - 1)
  }

  lemma Depths()
    ensures Pow2(1) == 2 && Pow2(2) == 4 && Pow2(4) == 16 && Pow2(8) == 256
  {
    assert Pow2(8) == 256;
  }

  /** The colour that a value stands for; values outside of the palette stand for none. */
  function ColorOf(v: nat, mode: Mode): Option<Color>
    requires ValidMode(mode) && !mode.colorType.Rgb? && v < Pow2(mode.bitdepth)
  {
    if mode.colorType.Grey? then var g := GreyOf(v, mode.bitdepth); Some(Color(g, g, g, 255))
    else if v < |mode.palette| then Some(mode.palette[v])
    else None
  }

  /** The colour of a pixel. */
  function Pixel(data: seq<byte>, i: nat, mode: Mode): Option<Color>
    requires ValidMode(mode) && (i + 1) * Bpp(mode) <= 8 * |data|
  {
    Depths();
    var p := i * Bpp(mode);
    PixelInside(i, Bpp(mode));
    if mode.colorType.Rgb? then Some(Color(Field(data, p, 8), Field(data, p + 8, 8), Field(data, p + 16, 8), 255))
    else ColorOf(Field(data, p, mode.bitdepth), mode)
  }

  lemma PixelInside(i: nat, b: nat)
    ensures (i + 1) * b == i * b + b
  {
  }

  /** Grey levels are spread evenly: the highest value of `d` bits is 255. */
  lemma GreyScale(v: nat, d: nat)
    requires IsDepth(d) && v < Pow2(d)
    ensures GreyOf(v, d) * (Pow2(d) - 1) == 255 * v
  {
    Depths();
    DivModUnique(v * 255, 15, 17 * v, 0);
    DivModUnique(v * 255, 3, 85 * v, 0);
  }

  /** Bits are counted from the highest of each byte on. */
  lemma HighestBitFirst(data: seq<byte>, q: nat)
    requires q < 8 * |data|
    ensures PngBit(data, q) == data[q / 8] / Pow2(7 - q % 8) % 2
  {
    LowIsMod(data[q / 8], 7 - q % 8);
  }

  /** A pixel of 24 bits is three bytes: red, green and blue. */
  lemma RgbBytes(data: seq<byte>, i: nat)
    requires 3 * i + 3 <= |data|
    ensures Pixel(data, i, Mode(Rgb, 8, [])) == Some(Color(data[3 * i], data[3 * i + 1], data[3 * i + 2], 255))
  {
    hide Field;
    WholeByte(data, 3 * i);
    WholeByte(data, 3 * i + 1);
    WholeByte(data, 3 * i + 2);
  }

  /** The colour depends on the bits of the pixel only. */
  lemma SamePixel(s: seq<byte>, t: seq<byte>, i: nat, mode: Mode)
    requires ValidMode(mode) && (i + 1) * Bpp(mode) <= 8 * |s| && (i + 1) * Bpp(mode) <= 8 * |t|
    requires forall q: nat :: i * Bpp(mode) <= q < (i + 1) * Bpp(mode) ==> PngBit(s, q) == PngBit(t, q)
    ensures Pixel(s, i, mode) == Pixel(t, i, mode)
  {
    hide PngBit;
    var p := i * Bpp(mode);
    PixelInside(i, Bpp(mode));
    if mode.colorType.Rgb? {
      SameField(s, t, p, 8);
      SameField(s, t, p + 8, 8);
      SameField(s, t, p + 16, 8);
    } else {
      SameField(s, t, p, mode.bitdepth);
    }
  }

  method GetPixelColorRGBA8(input: array<byte>, i: nat, mode: Mode) returns (c: Color)
    requires ValidMode(mode) && (i + 1) * Bpp(mode) <= 8 * input.Length && Pixel(input[..], i, mode).Some?
    ensures Pixel(input[..], i, mode) == Some(c)
  {
    hide Field;
    hide Pow2;
    Depths();
    PixelInside(i, Bpp(mode));
    if mode.colorType.Rgb? {
      WholeByte(input[..], 3 * i);
      WholeByte(input[..], 3 * i + 1);
      WholeByte(input[..], 3 * i + 2);
      c := Color(input[3 * i], input[3 * i + 1], input[3 * i + 2], 255);
    } else {
      var value;
      if mode.bitdepth == 8 {
        WholeByte(input[..], i);
        value := input[i];
      } else {
        var j := i * mode.bitdepth;
        value, j := ReadBitsFromReversedStream(j, input, mode.bitdepth);
      }
      if mode.colorType.Grey? {
        var highest := Shl(1, mode.bitdepth) - 1;
        ShlOne(mode.bitdepth);
        var grey := value * 255 / highest;
        c := Color(grey, grey, grey, 255);
      } else {
        c := mode.palette[value];
      }
    }
  }

  // ---------------------------------------------------------------------------------------------
  // Writing a pixel of less than a byte
  // ---------------------------------------------------------------------------------------------

  /** Pixels in a byte, less one. */
  function Mask(bits: nat): nat {
    if bits == 1 then 7 else if bits == 2 then 3 else 1
  }

  /** Where a pixel is: in byte `k`, with `s` bits behind it. */
  predicate IsCell(index: nat, bits: nat, k: nat, s: nat) {
    s + bits <= 8 && index * bits + bits + s == 8 * k + 8
  }

  lemma CellIsThere(index: nat, bits: nat)
    requires bits == 1 || bits == 2 || bits == 4
    ensures BitAnd(index, Mask(bits)) == index % (Mask(bits) + 1) && index % (Mask(bits) + 1) <= Mask(bits)
    ensures var p := index % (Mask(bits) + 1);
      IsCell(index, bits, index * bits / 8, bits * (Mask(bits) - p)) && (p == 0 ==> bits * (Mask(bits) - p) + bits == 8)
  {
    var m := Mask(bits) + 1;
    var n := if bits == 1 then 3 else if bits == 2 then 2 else 1;
    Depths();
    assert Pow2(3) == 8;
    BitAndMask(index, n);
    LowIsMod(index, n);
    var q, p := index / m, index % m;
    DivModUnique(index * bits, 8, q, p * bits);
  }

  lemma {:induction false} ShlBelow(v: nat, a: nat, n: nat)
    requires v < Pow2(a)
    ensures Shl(v, n) + Pow2(n) <= Pow2(n + a)
  {
    if n > 0 {
      ShlBelow(v, a, n - 1);
    }
  }

  /** A byte with zeros from bit `s` + `bits` down, and a value put in above bit `s`. */
  lemma CellWritten(b: byte, v: nat, s: nat, bits: nat)
    requires v < Pow2(bits) && s + bits <= 8 && Low(b, s + bits) == 0
    ensures BitOr(b, Shl(v, s)) == b + Shl(v, s) < 256
    ensures Low(b + Shl(v, s), s) == 0 && Low(Shr(b + Shl(v, s), s), bits) == v
    ensures Shr(b + Shl(v, s), s + bits) == Shr(b, s + bits)
  {
    hide Pow2;
    hide Shl;
    hide Shr;
    hide Low;
    hide BitOr;
    var n := s + bits;
    var h, y := Shr(b, n), Shl(v, s);
    Split(b, n);
    ShlBelow(v, bits, s);
    BitOrDisjoint(y, h, n);
    BitOrSwap(y, b);
    ByteHolds(b, n, h);
    SplitUnique(y, h, n);
    ShlAdd(h, bits, s);
    ShlLinear(v, Shl(h, bits), s);
    assert b + y == Shl(v + Shl(h, bits), s);
    ShlOne(s);
    SplitUnique(0, v + Shl(h, bits), s);
    SplitUnique(v, h, bits);
  }

  lemma ByteHolds(b: byte, n: nat, h: nat)
    requires n <= 8 && b == Shl(h, n)
    ensures b + Pow2(n) <= 256
  {
    Depths();
    if h >= Pow2(8 - n) {
      ShlMono(Pow2(8 - n), h, n);
      Pow2Shl(8 - n, n);
    } else {
      ShlBelow(h, 8 - n, n);
    }
  }

  lemma {:induction false} Pow2Shl(a: nat, n: nat)
    ensures Shl(Pow2(a), n) == Pow2(n + a)
  {
    if n > 0 {
      Pow2Shl(a, n - 1);
    }
  }

  /** What is behind the pixels before `index` in their last byte is zero. */
  predicate RestIsZero(data: seq<byte>, index: nat, bits: nat)
    requires 0 < bits
  {
    index % (Mask(bits) + 1) != 0 ==>
      index * bits / 8 < |data| && Low(data[index * bits / 8], bits * (Mask(bits) + 1 - index % (Mask(bits) + 1))) == 0
  }

  lemma NextCell(index: nat, bits: nat)
    requires bits == 1 || bits == 2 || bits == 4
    ensures var m := Mask(bits); var p := index % (m + 1);
      if p == m then (index + 1) % (m + 1) == 0
      else (index + 1) % (m + 1) == p + 1 && (index + 1) * bits / 8 == index * bits / 8
  {
    var m := Mask(bits);
    var q, p := index / (m + 1), index % (m + 1);
    DivModUnique(index + 1, m + 1, if p == m then q + 1 else q, if p == m then 0 else p + 1);
    DivModUnique(index * bits, 8, q, p * bits);
    if p < m {
      DivModUnique((index + 1) * bits, 8, q, (p + 1) * bits);
    }
  }

  lemma ShrAbove(x: nat, y: nat, n: nat, t: nat)
    requires Shr(x, n) == Shr(y, n) && n <= t
    ensures Shr(x, t) == Shr(y, t)
  {
    ShrAdd(x, n, t - n);
    ShrAdd(y, n, t - n);
  }

  /** A byte that is written changes no bit above the place. */
  lemma BitsBefore(data: seq<byte>, b: byte, k: nat, n: nat, p: nat)
    requires k < |data| && n <= 8 && p + n == 8 * k + 8
    requires n < 8 ==> Shr(b, n) == Shr(data[k], n)
    ensures forall q: nat :: q < p ==> PngBit(data[k := b], q) == PngBit(data, q)
  {
    forall q: nat | q < p
      ensures PngBit(data[k := b], q) == PngBit(data, q)
    {
      hide Shr;
      var j, t := q / 8, q % 8;
      if j == k {
        ShrAbove(b, data[k], n, 7 - t);
      }
    }
  }

  /** Puts a value into its place in a byte. Pixels come in order: the first one in a byte clears the rest. */
  method AddColorBits(out: array<byte>, index: nat, bits: nat, value: nat)
    requires bits == 1 || bits == 2 || bits == 4
    requires (index + 1) * bits <= 8 * out.Length && RestIsZero(out[..], index, bits)
    modifies out
    ensures index * bits + bits <= 8 * out.Length && Field(out[..], index * bits, bits) == Low(value, bits)
    ensures forall q: nat :: q < index * bits ==> PngBit(out[..], q) == old(PngBit(out[..], q))
    ensures RestIsZero(out[..], index + 1, bits)
  {
    hide *;
    CellIsThere(index, bits);
    PixelInside(index, bits);
    BitAndMask(value, bits);
    ShlOne(bits);
    var m := Mask(bits);
    var p := BitAnd(index, m);
    var v := BitAnd(value, Shl(1, bits) - 1);
    ghost var k, s, data := index * bits / 8, bits * (m - p), out[..];
    CellByte(data, index, bits, v, k, s, p);
    if p == 0 {
      out[index * bits / 8] := Shl(v, bits * (m - p));
    } else {
      out[index * bits / 8] := BitOr(out[index * bits / 8], Shl(v, bits * (m - p)));
    }
    assert out[..] == data[k := out[k]];
    CellDone(data, out[k], index, bits, v, k, s, p);
  }

  /** The byte that is written. */
  lemma CellByte(data: seq<byte>, index: nat, bits: nat, v: nat, k: nat, s: nat, p: nat)
    requires (bits == 1 || bits == 2 || bits == 4) && v < Pow2(bits) && RestIsZero(data, index, bits)
    requires p == index % (Mask(bits) + 1) <= Mask(bits) && k == index * bits / 8 && s == bits * (Mask(bits) - p)
    requires (index + 1) * bits <= 8 * |data|
    ensures k < |data| && IsCell(index, bits, k, s)
    ensures var b := if p == 0 then 0 else data[k];
      && BitOr(b, Shl(v, s)) == b + Shl(v, s) < 256
      && Low(b + Shl(v, s), s) == 0 && Low(Shr(b + Shl(v, s), s), bits) == v && Shr(b + Shl(v, s), s + bits) == Shr(b, s + bits)
    ensures BitOr(0, Shl(v, s)) == Shl(v, s)
  {
    hide Pow2;
    hide Shl;
    hide Shr;
    hide Low;
    CellIsThere(index, bits);
    PixelInside(index, bits);
    MulRest(bits, Mask(bits), p);
    LowSmall0(s + bits);
    CellWritten(if p == 0 then 0 else data[k], v, s, bits);
  }

  lemma MulRest(a: nat, m: nat, p: nat)
    requires p <= m
    ensures a * (m - p) + a == a * (m + 1 - p)
  {
  }

  lemma LowSmall0(n: nat)
    ensures Low(0, n) == 0
  {
    LowSmall(0, n);
  }

  lemma CellDone(data: seq<byte>, b: byte, index: nat, bits: nat, v: nat, k: nat, s: nat, p: nat)
    requires (bits == 1 || bits == 2 || bits == 4) && IsCell(index, bits, k, s) && k < |data|
    requires p == index % (Mask(bits) + 1) <= Mask(bits) && k == index * bits / 8 && s == bits * (Mask(bits) - p)
    requires Low(b, s) == 0 && Low(Shr(b, s), bits) == v && (p > 0 ==> Shr(b, s + bits) == Shr(data[k], s + bits))
    ensures index * bits + bits <= 8 * |data| && Field(data[k := b], index * bits, bits) == v
    ensures forall q: nat :: q < index * bits ==> PngBit(data[k := b], q) == PngBit(data, q)
    ensures RestIsZero(data[k := b], index + 1, bits)
  {
    hide *;
    assert s + bits <= 8 && index * bits + bits + s == 8 * k + 8 by { CellIsThere(index, bits); CellParts(index, bits, k, s); }
    FieldAt(data[k := b], k, s, bits, index * bits);
    assert p == 0 ==> s + bits == 8 by { CellIsThere(index, bits); }
    BitsBefore(data, b, k, s + bits, index * bits);
    NextRest(data[k := b], index, bits, k, s, p);
  }

  lemma CellParts(index: nat, bits: nat, k: nat, s: nat)
    requires IsCell(index, bits, k, s)
    ensures s + bits <= 8 && index * bits + bits + s == 8 * k + 8
  {
  }

  lemma FieldAt(data: seq<byte>, k: nat, s: nat, bits: nat, q: nat)
    requires k < |data| && s + bits <= 8 && q + bits + s == 8 * k + 8
    ensures Field(data, q, bits) == Low(Shr(data[k], s), bits)
  {
    hide Field;
    FieldOfByte(data, k, 8 - s - bits, bits);
  }

  lemma NextRest(data: seq<byte>, index: nat, bits: nat, k: nat, s: nat, p: nat)
    requires (bits == 1 || bits == 2 || bits == 4) && k < |data| && Low(data[k], s) == 0
    requires p == index % (Mask(bits) + 1) <= Mask(bits) && k == index * bits / 8 && s == bits * (Mask(bits) - p)
    ensures RestIsZero(data, index + 1, bits)
  {
    hide Low;
    NextCell(index, bits);
    assert Mask(bits) + 1 - (p + 1) == Mask(bits) - p;
  }
}
