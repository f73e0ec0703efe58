/** Choosing the colour model of an image: what is counted, what is chosen and the conversion to it, for grey
    images of 1, 2, 4 or 8 bits without a transparent colour. */
module ColorChoice {
  import opened Bits
  import opened Wrappers
  import opened ImageBits
  import opened ColorTree
  import opened Pixels

  function GreyMode(d: nat): Mode {
    Mode(Grey, d, [])
  }

  function GreyColor(g: byte): Color {
    Color(g, g, g, 255)
  }

  /** The grey of pixel `i` of an image of `d` bits per pixel. */
  function GreyAt(data: seq<byte>, i: nat, d: nat): byte
    requires IsDepth(d) && (i + 1) * d <= 8 * |data|
  {
    PixelInside(i, d);
    GreyOf(Field(data, i * d, d), d)
  }

  lemma GreyPixel(data: seq<byte>, i: nat, d: nat)
    requires IsDepth(d) && (i + 1) * d <= 8 * |data|
    ensures Pixel(data, i, GreyMode(d)) == Some(GreyColor(GreyAt(data, i, d)))
  {
  }

  // ---------------------------------------------------------------------------------------------
  // Bits of a grey
  // ---------------------------------------------------------------------------------------------

  function ValueRequiredBits(value: byte): (bits: nat)
    ensures IsDepth(bits)
  {
    if value == 0 || value == 255 then 1
    else if value % 17 == 0 then if value % 85 == 0 then 2 else 4
    else 8
  }

  /** A grey of 8 bits, cut down to its `d` highest. */
  lemma HighBits(g: byte, d: nat)
    requires IsDepth(d)
    ensures Shr(g, 8 - d) == g / Pow2(8 - d) < Pow2(d)
  {
    Depths();
    assert Pow2(7) == 128 && Pow2(6) == 64 && Pow2(0) == 1;
    LowIsMod(g, 8 - d);
  }

  lemma Nibble(g: byte)
    ensures g / 16 * 255 / 15 == g <==> ValueRequiredBits(g) <= 4
  {
    var q, r := g / 16, g % 16;
    DivModUnique(q * 255, 15, 17 * q, 0);
    DivModUnique(g, 17, if r >= q then q else q - 1, if r >= q then r - q else 17 + r - q);
  }

  lemma TwoBits(g: byte)
    ensures g / 64 * 255 / 3 == g <==> ValueRequiredBits(g) <= 2
  {
    var q := g / 64;
    DivModUnique(q * 255, 3, 85 * q, 0);
    if g == 85 * q {
      DivModUnique(g, 85, q, 0);
      DivModUnique(g, 17, 5 * q, 0);
    }
  }

  lemma OneBit(g: byte)
    ensures g / 128 * 255 / 1 == g <==> ValueRequiredBits(g) <= 1
  {
  }

  /** So many bits are enough, and no fewer are: the highest `d` bits give a grey back exactly when they
      are as many as it requires. */
  lemma RequiredBitsSuffice(g: byte, d: nat)
    requires IsDepth(d)
    ensures Shr(g, 8 - d) < Pow2(d)
    ensures GreyOf(Shr(g, 8 - d), d) == g <==> ValueRequiredBits(g) <= d
  {
    hide ValueRequiredBits;
    hide Shr;
    HighBits(g, d);
    Depths();
    assert Pow2(7) == 128 && Pow2(6) == 64 && Pow2(0) == 1;
    hide Pow2;
    if d == 4 {
      Nibble(g);
    } else if d == 2 {
      TwoBits(g);
    } else if d == 1 {
      OneBit(g);
    } else {
      DivModUnique(g * 255, 255, g, 0);
      DivModUnique(g, 1, g, 0);
    }
  }

  /** What a value of `d` bits stands for needs no more than `d` bits. */
  lemma GreyNeeds(v: nat, d: nat)
    requires IsDepth(d) && v < Pow2(d)
    ensures Shr(GreyOf(v, d), 8 - d) == v && ValueRequiredBits(GreyOf(v, d)) <= d
  {
    hide ValueRequiredBits;
    hide Shr;
    Depths();
    assert Pow2(7) == 128 && Pow2(6) == 64 && Pow2(0) == 1;
    HighBits(GreyOf(v, d), d);
    RequiredBitsSuffice(GreyOf(v, d), d);
    hide Pow2;
    if d == 4 {
      DivModUnique(v * 255, 15, 17 * v, 0);
      DivModUnique(17 * v, 16, v, v);
    } else if d == 2 {
      DivModUnique(v * 255, 3, 85 * v, 0);
    } else if d == 8 {
      DivModUnique(v * 255, 255, v, 0);
      DivModUnique(v, 1, v, 0);
    }
  }

  // ---------------------------------------------------------------------------------------------
  // Conversion
  // ---------------------------------------------------------------------------------------------

  /** What is seen of an opaque grey after its conversion to a colour model; nothing, if the palette lacks it. */
  function Shown(mode: Mode, c: Color): Option<Color>
    requires ValidMode(mode)
  {
    match mode.colorType
    case Grey =>
      HighBits(c.r, mode.bitdepth);
      Some(GreyColor(GreyOf(Shr(c.r, 8 - mode.bitdepth), mode.bitdepth)))
    case Rgb => Some(Color(c.r, c.g, c.b, 255))
    case Palette =>
      var i := LastIndex(mode.palette, c);
      if i < 0 then None else Some(mode.palette[i])
  }

  lemma ShrNothing(x: nat)
    ensures Shr(x, 0) == x
  {
  }

  method Rgba8ToPixel(out: array<byte>, i: nat, mode: Mode, tree: Tree, c: Color) returns (error: nat)
    requires ValidMode(mode) && !mode.colorType.Rgb? && tree.Valid()
    requires mode.colorType.Palette? ==> forall d :: tree.Index(d) == LastIndex(mode.palette, d)
    requires (i + 1) * mode.bitdepth <= 8 * out.Length && (mode.bitdepth < 8 ==> RestIsZero(out[..], i, mode.bitdepth))
    modifies out
    ensures error == if Shown(mode, c) == None then 82 else 0
    ensures error == 0 ==> Pixel(out[..], i, mode) == Shown(mode, c)
    ensures forall q: nat :: q < i * mode.bitdepth && q < 8 * out.Length ==> PngBit(out[..], q) == old(PngBit(out[..], q))
    ensures error == 0 && mode.bitdepth < 8 ==> RestIsZero(out[..], i + 1, mode.bitdepth)
  {
    hide Field;
    hide PngBit;
    hide RestIsZero;
    hide LastIndex;
    hide Shr;
    hide Low;
    hide Pow2;
    ghost var d := mode.bitdepth;
    PixelInside(i, d);
    if mode.colorType.Grey? {
      var grey := c.r;
      HighBits(grey, d);
      if mode.bitdepth == 8 {
        Depths();
        PutByte(out, i, grey);
        ShrNothing(grey);
      } else {
        BitAndMask(Shr(grey, 8 - d), d);
        ShlOne(d);
        LowSmall(Shr(grey, 8 - d), d);
        grey := BitAnd(Shr(grey, 8 - mode.bitdepth), Shl(1, mode.bitdepth) - 1);
        AddColorBits(out, i, mode.bitdepth, grey);
      }
    } else {
      var index := tree.Get(c);
      if index < 0 {
        return 82;
      }
      LowSmall(index, d);
      if mode.bitdepth == 8 {
        PutByte(out, i, index);
      } else {
        AddColorBits(out, i, mode.bitdepth, index);
      }
    }
    error := 0;
  }

  method PutByte(out: array<byte>, i: nat, x: nat)
    requires i < out.Length && x < Pow2(8)
    modifies out
    ensures Field(out[..], 8 * i, 8) == x
    ensures forall q: nat :: q < 8 * i ==> PngBit(out[..], q) == old(PngBit(out[..], q))
  {
    Depths();
    out[i] := x;
    WholeByte(out[..], i);
    BitsBefore(old(out[..]), x, i, 8, 8 * i);
    assert out[..] == old(out[..])[i := x];
  }

  /** The pixels before `i` stay when the bits before them do. */
  lemma PixelsKept(s: seq<byte>, t: seq<byte>, i: nat, mode: Mode)
    requires ValidMode(mode) && i * Bpp(mode) <= 8 * |s| && |s| == |t|
    requires forall q: nat :: q < i * Bpp(mode) ==> PngBit(s, q) == PngBit(t, q)
    ensures forall j: nat :: j < i ==> (j + 1) * Bpp(mode) <= 8 * |s| && Pixel(s, j, mode) == Pixel(t, j, mode)
  {
    hide PngBit;
    hide Pixel;
    hide ValidMode;
    forall j: nat | j < i
      ensures (j + 1) * Bpp(mode) <= 8 * |s| && Pixel(s, j, mode) == Pixel(t, j, mode)
    {
      MulLess(j, i, Bpp(mode));
      SamePixel(s, t, j, mode);
    }
  }

  lemma MulLess(j: nat, i: nat, b: nat)
    requires j < i
    ensures (j + 1) * b <= i * b
  {
  }

  /** The colours of the first `i` pixels of a grey image, as another colour model shows them. */
  ghost predicate Converted(out: seq<byte>, mode: Mode, data: seq<byte>, d: nat, i: nat)
    requires ValidMode(mode) && IsDepth(d)
  {
    forall j: nat :: j < i ==>
      && (j + 1) * Bpp(mode) <= 8 * |out| && (j + 1) * d <= 8 * |data|
      && Pixel(out, j, mode) == Shown(mode, GreyColor(GreyAt(data, j, d))) != None
  }

  lemma ConvertedNext(before: seq<byte>, out: seq<byte>, mode: Mode, data: seq<byte>, d: nat, i: nat)
    requires ValidMode(mode) && IsDepth(d) && Converted(before, mode, data, d, i) && |before| == |out|
    requires (i + 1) * Bpp(mode) <= 8 * |out| && (i + 1) * d <= 8 * |data|
    requires forall q: nat :: q < i * Bpp(mode) ==> q < 8 * |out| && PngBit(out, q) == PngBit(before, q)
    requires Pixel(out, i, mode) == Shown(mode, GreyColor(GreyAt(data, i, d))) != None
    ensures Converted(out, mode, data, d, i + 1)
  {
    hide PngBit;
    hide Pixel;
    hide Shown;
    hide ValidMode;
    hide GreyAt;
    PixelInside(i, Bpp(mode));
    PixelsKept(before, out, i, mode);
  }

  lemma NothingConverted(out: seq<byte>, mode: Mode, data: seq<byte>, d: nat)
    requires ValidMode(mode) && IsDepth(d)
    ensures Converted(out, mode, data, d, 0)
  {
  }

  lemma GreyByte(data: seq<byte>, i: nat)
    requires i < |data|
    ensures GreyAt(data, i, 8) == data[i]
  {
    WholeByte(data, i);
    Depths();
    DivModUnique((data[i] as int) * 255, 255, data[i], 0);
  }

  /** A grey pixel of three bytes. */
  lemma ThreeBytes(before: seq<byte>, out: seq<byte>, i: nat, grey: byte)
    requires 3 * i + 2 < |before| && out == before[3 * i := grey][3 * i + 1 := grey][3 * i + 2 := grey]
    ensures Pixel(out, i, Mode(Rgb, 8, [])) == Shown(Mode(Rgb, 8, []), GreyColor(grey)) != None
    ensures forall q: nat :: q < i * 24 ==> q < 8 * |out| && PngBit(out, q) == PngBit(before, q)
  {
    hide Field;
    WholeByte(out, 3 * i);
    WholeByte(out, 3 * i + 1);
    WholeByte(out, 3 * i + 2);
  }

  /** Greys as pixels of three bytes. */
  method GetPixelColorsRGB8(out: array<byte>, n: nat, input: array<byte>, d: nat)
    requires IsDepth(d) && out != input && 24 * n <= 8 * out.Length && n * d <= 8 * input.Length
    modifies out
    ensures Converted(out[..], Mode(Rgb, 8, []), input[..], d, n)
  {
    hide Converted;
    hide Pixel;
    hide PngBit;
    hide Shown;
    hide Field;
    hide Pow2;
    ghost var data, mode := input[..], Mode(Rgb, 8, []);
    NothingConverted(out[..], mode, data, d);
    if d == 8 {
      for i := 0 to n
        invariant Converted(out[..], mode, data, d, i)
      {
        GreyByte(data, i);
        ghost var before := out[..];
        out[3 * i], out[3 * i + 1], out[3 * i + 2] := input[i], input[i], input[i];
        ThreeBytes(before, out[..], i, input[i]);
        ConvertedNext(before, out[..], mode, data, d, i);
      }
    } else {
      var highest := Shl(1, d) - 1;
      ShlOne(d);
      Depths();
      var j := 0;
      for i := 0 to n
        invariant j == i * d && Converted(out[..], mode, data, d, i)
      {
        MulLess(i, n, d);
        PixelInside(i, d);
        var value;
        value, j := ReadBitsFromReversedStream(j, input, d);
        var grey := value * 255 / highest;
        ghost var before := out[..];
        out[3 * i], out[3 * i + 1], out[3 * i + 2] := grey, grey, grey;
        ThreeBytes(before, out[..], i, grey);
        ConvertedNext(before, out[..], mode, data, d, i);
      }
    }
  }

  /** A grey of `d` bits is shown by its own colour model as it is. */
  lemma GreyStays(data: seq<byte>, i: nat, d: nat)
    requires IsDepth(d) && (i + 1) * d <= 8 * |data|
    ensures Pixel(data, i, GreyMode(d)) == Shown(GreyMode(d), GreyColor(GreyAt(data, i, d)))
  {
    hide Field;
    PixelInside(i, d);
    GreyNeeds(Field(data, i * d, d), d);
  }

  /** Some pixel is a grey that a colour model does not have. */
  ghost predicate Lacks(mode: Mode, data: seq<byte>, d: nat, n: nat)
    requires ValidMode(mode) && IsDepth(d)
  {
    exists i: nat :: i < n && (i + 1) * d <= 8 * |data| && Shown(mode, GreyColor(GreyAt(data, i, d))) == None
  }

  lemma LacksPixel(mode: Mode, data: seq<byte>, d: nat, n: nat, i: nat)
    requires ValidMode(mode) && IsDepth(d) && i < n && (i + 1) * d <= 8 * |data|
    requires Shown(mode, GreyColor(GreyAt(data, i, d))) == None
    ensures Lacks(mode, data, d, n)
  {
  }

  lemma LacksNothing(out: seq<byte>, mode: Mode, data: seq<byte>, d: nat, n: nat)
    requires ValidMode(mode) && IsDepth(d) && Converted(out, mode, data, d, n)
    ensures !Lacks(mode, data, d, n)
  {
  }

  /** Converts the `n` pixels of a grey image. It fails exactly when the palette lacks one of them. */
  method Convert(out: array<byte>, input: array<byte>, modeOut: Mode, d: nat, n: nat) returns (error: nat)
    requires ValidMode(modeOut) && IsDepth(d) && out != input
    requires n * Bpp(modeOut) <= 8 * out.Length && n * d <= 8 * input.Length
    modifies out
    ensures error == if Lacks(modeOut, input[..], d, n) then 82 else 0
    ensures error == 0 ==> Converted(out[..], modeOut, input[..], d, n)
  {
    hide Converted;
    hide Pixel;
    hide PngBit;
    hide Shown;
    hide Field;
    hide GreyAt;
    hide Lacks;
    hide Pow2;
    ghost var data := input[..];
    if modeOut == GreyMode(d) {
      CopyPixels(out, input, d, n);
      LacksNothing(out[..], modeOut, data, d, n);
      return 0;
    }
    if modeOut.colorType.Rgb? {
      GetPixelColorsRGB8(out, n, input, d);
      LacksNothing(out[..], modeOut, data, d, n);
      return 0;
    }
    var tree := FillTree(modeOut.palette);
    error := ConvertPixels(out, input, modeOut, tree, d, n);
  }

  /** The same colour model: the bytes are copied. */
  method CopyPixels(out: array<byte>, input: array<byte>, d: nat, n: nat)
    requires IsDepth(d) && out != input && n * d <= 8 * out.Length && n * d <= 8 * input.Length
    modifies out
    ensures Converted(out[..], GreyMode(d), input[..], d, n)
  {
    hide Converted;
    hide RawSize;
    RawSizeHolds(n, GreyMode(d));
    var numbytes := RawSize(n, GreyMode(d));
    for k := 0 to numbytes
      invariant forall m :: 0 <= m < k ==> out[m] == input[m]
    {
      out[k] := input[k];
    }
    CopiedConverts(out[..], input[..], d, n);
  }

  /** Pixel by pixel, up to the first whose colour is not in the palette. */
  method ConvertPixels(out: array<byte>, input: array<byte>, modeOut: Mode, tree: Tree, d: nat, n: nat) returns (error: nat)
    requires ValidMode(modeOut) && !modeOut.colorType.Rgb? && IsDepth(d) && out != input
    requires tree.Valid() && (modeOut.colorType.Palette? ==> forall c :: tree.Index(c) == LastIndex(modeOut.palette, c))
    requires n * modeOut.bitdepth <= 8 * out.Length && n * d <= 8 * input.Length
    modifies out
    ensures error == if Lacks(modeOut, input[..], d, n) then 82 else 0
    ensures error == 0 ==> Converted(out[..], modeOut, input[..], d, n)
  {
    hide Converted;
    hide Pixel;
    hide PngBit;
    hide Shown;
    hide Field;
    hide GreyAt;
    hide Lacks;
    hide Pow2;
    hide LastIndex;
    ghost var data := input[..];
    NothingConverted(out[..], modeOut, data, d);
    for i := 0 to n
      invariant Converted(out[..], modeOut, data, d, i) && (modeOut.bitdepth < 8 ==> RestIsZero(out[..], i, modeOut.bitdepth))
    {
      MulLess(i, n, d);
      MulLess(i, n, modeOut.bitdepth);
      PixelInside(i, modeOut.bitdepth);
      GreyPixel(data, i, d);
      var c := GetPixelColorRGBA8(input, i, GreyMode(d));
      ghost var before := out[..];
      error := Rgba8ToPixel(out, i, modeOut, tree, c);
      if error != 0 {
        LacksPixel(modeOut, data, d, n, i);
        return;
      }
      ConvertedNext(before, out[..], modeOut, data, d, i);
    }
    LacksNothing(out[..], modeOut, data, d, n);
    error := 0;
  }

  lemma CopiedConverts(out: seq<byte>, data: seq<byte>, d: nat, n: nat)
    requires IsDepth(d) && n * d <= 8 * |out| && n * d <= 8 * |data|
    requires forall m :: 0 <= m < RawSize(n, GreyMode(d)) ==> m < |out| && m < |data| && out[m] == data[m]
    ensures Converted(out, GreyMode(d), data, d, n)
  {
    hide Pixel;
    hide Shown;
    hide GreyAt;
    RawSizeHolds(n, GreyMode(d));
    forall j: nat | j < n
      ensures (j + 1) * d <= 8 * |out| && (j + 1) * d <= 8 * |data|
      ensures Pixel(out, j, GreyMode(d)) == Shown(GreyMode(d), GreyColor(GreyAt(data, j, d))) != None
    {
      MulLess(j, n, d);
      SamePixel(out, data, j, GreyMode(d));
      GreyPixel(data, j, d);
      GreyStays(data, j, d);
    }
  }
}
