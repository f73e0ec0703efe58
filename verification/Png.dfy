/** Grey images as image data of a PNG file and back: colour model, scanlines and zlib one after the other. */
module Png {
  import opened Bits
  import opened Wrappers
  import opened ImageBits
  import opened Pixels
  import opened ColorStats
  import opened Scanlines
  import FilteredImage
  import Adam7
  import Inflate
  import Deflate
  import HuffmanBlocks
  import Zlib
  import ColorChoice
  import ColorTree

  type Color = ColorTree.Color
  type Strategy = FilteredImage.Strategy
  type CompressSettings = HuffmanBlocks.CompressSettings

  /** The image data say of each bit of an image what it is. */
  ghost predicate DataMean(idat: seq<byte>, interlaced: bool, w: nat, h: nat, bpp: nat, image: seq<bit>)
    requires w > 0 && bpp > 0
  {
    && var r := Zlib.Decompressed(idat, [], false, false);
    && r.Some? && |r.value| == ScanlinesSize(interlaced, w, h, bpp) && ScanlinesMean(r.value, interlaced, w, h, bpp, image)
  }

  lemma BppOfMode(mode: Mode)
    requires ValidMode(mode)
    ensures Bpp(mode) > 0 && (Bpp(mode) >= 8 ==> Bpp(mode) % 8 == 0)
  {
  }

  lemma RawSizePositive(w: nat, h: nat, bpp: nat)
    requires h > 0
    ensures FilteredImage.RawSizeIdat(w, h, bpp) > 0
  {
    var line := w / 8 * bpp + 1 + (w % 8 * bpp + 7) / 8;
    assert h * line > 0;
  }

  lemma SomeScanlines(interlaced: bool, w: nat, h: nat, bpp: nat)
    requires w > 0 && h > 0 && bpp > 0
    ensures ScanlinesSize(interlaced, w, h, bpp) > 0
  {
    hide FilteredImage.RawSizeIdat;
    ExpectedIsSize(interlaced, w, h, bpp);
    RawSizePositive(w, h, bpp);
    RawSizePositive((w + 7) / 8, (h + 7) / 8, bpp);
  }

  /** Pixel `i` is an opaque grey. */
  ghost predicate ShowsGrey(out: seq<byte>, mode: Mode, i: nat, g: byte)
    requires ValidMode(mode)
  {
    (i + 1) * Bpp(mode) <= 8 * |out| && Pixel(out, i, mode) == Some(ColorChoice.GreyColor(g))
  }

  /** Every pixel of a grey image of `d` bits per pixel is there, in another colour model. */
  ghost predicate SameImage(out: seq<byte>, mode: Mode, image: seq<byte>, d: nat, n: nat)
    requires ValidMode(mode) && IsImage(image, d, n)
  {
    forall i: nat :: i < n ==> ShowsGrey(out, mode, i, GreyIn(image, d, n, i))
  }

  lemma GreyOfPixel(image: seq<byte>, d: nat, n: nat, i: nat)
    requires IsImage(image, d, n) && i < n
    ensures (i + 1) * d <= 8 * |image| && GreyIn(image, d, n, i) == ColorChoice.GreyAt(image, i, d)
  {
    Inside(image, d, n, i);
  }

  lemma LosslessConversion(out: seq<byte>, mode: Mode, image: seq<byte>, d: nat, n: nat)
    requires ValidMode(mode) && IsImage(image, d, n) && Lossless(mode, image, d, n) && ColorChoice.Converted(out, mode, image, d, n)
    ensures SameImage(out, mode, image, d, n)
  {
    hide Pixel;
    hide ColorChoice.Shown;
    hide ColorChoice.GreyAt;
    forall i: nat | i < n
      ensures ShowsGrey(out, mode, i, GreyIn(image, d, n, i))
    {
      GreyOfPixel(image, d, n, i);
    }
  }

  lemma NothingLacks(mode: Mode, image: seq<byte>, d: nat, n: nat)
    requires ValidMode(mode) && IsImage(image, d, n) && Lossless(mode, image, d, n)
    ensures !ColorChoice.Lacks(mode, image, d, n)
  {
    hide ColorChoice.Shown;
    hide ColorChoice.GreyAt;
    if ColorChoice.Lacks(mode, image, d, n) {
      var i: nat :| i < n && (i + 1) * d <= 8 * |image|
        && ColorChoice.Shown(mode, ColorChoice.GreyColor(ColorChoice.GreyAt(image, i, d))) == None;
      GreyOfPixel(image, d, n, i);
    }
  }

  lemma SameModel(image: seq<byte>, d: nat, n: nat)
    requires IsImage(image, d, n)
    ensures SameImage(image, ColorChoice.GreyMode(d), image, d, n)
  {
    hide Pixel;
    hide ColorChoice.GreyAt;
    forall i: nat | i < n
      ensures ShowsGrey(image, ColorChoice.GreyMode(d), i, GreyIn(image, d, n, i))
    {
      Inside(image, d, n, i);
      ColorChoice.GreyPixel(image, i, d);
    }
  }

  /** Chooses the colour model and converts the image to it, if it is another one. `colors` are those of the
      image, if a palette is allowed. */
  method ChooseAndConvert(image: array<byte>, d: nat, n: nat, allowPalette: bool, allowGreyscale: bool)
    returns (error: nat, mode: Mode, converted: array<byte>, ghost colors: seq<Color>)
    requires IsImage(image[..], d, n)
    ensures ValidMode(mode) && BestModel(mode, colors, image[..], d, n, allowPalette, allowGreyscale)
    ensures error == 0 && ValidMode(mode) && SameImage(converted[..], mode, image[..], d, n) && n * Bpp(mode) <= 8 * converted.Length
  {
    hide Pixel;
    hide ValidMode;
    hide Lossless;
    hide ColorChoice.Converted;
    hide ColorChoice.Lacks;
    hide SameImage;
    hide BestModel;
    var stats := new Stats(allowPalette, allowGreyscale);
    stats.ComputeColorStats(image, d, n);
    mode := AutoChooseColor(stats, image[..], d, n);
    colors := stats.palette;
    IsLossless(mode, colors, image[..], d, n, allowPalette, allowGreyscale);
    error := 0;
    if mode == ColorChoice.GreyMode(d) {
      converted := image;
      SameModel(image[..], d, n);
    } else {
      RawSizeHolds(n, mode);
      converted := new byte[(n * Bpp(mode) + 7) / 8](_ => 0);
      NothingLacks(mode, image[..], d, n);
      error := ColorChoice.Convert(converted, image, mode, d, n);
      LosslessConversion(converted[..], mode, image[..], d, n);
    }
  }

  lemma IsLossless(mode: Mode, colors: seq<Color>, data: seq<byte>, d: nat, n: nat, allowPalette: bool, allowGreyscale: bool)
    requires ValidMode(mode) && IsImage(data, d, n) && BestModel(mode, colors, data, d, n, allowPalette, allowGreyscale)
    ensures Lossless(mode, data, d, n)
  {
  }

  /** The encoder, up to the image data: chooses a colour model, converts to it, filters and compresses. */
  method EncodeImage(image: array<byte>, d: nat, w: nat, h: nat, allowPalette: bool, allowGreyscale: bool, interlaced: bool,
                     strategy: Strategy, settings: CompressSettings)
    returns (error: nat, mode: Mode, idat: seq<byte>, ghost converted: seq<byte>, ghost colors: seq<Color>)
    requires IsImage(image[..], d, w * h) && w > 0 && h > 0
    requires Scanlines.ValidStrategy(strategy) && (strategy.Predefined? ==> |strategy.types| >= h)
    ensures ValidMode(mode) && Bpp(mode) > 0 && (error == 0 <==> Deflate.Deflates(settings))
    ensures BestModel(mode, colors, image[..], d, w * h, allowPalette, allowGreyscale)
    ensures SameImage(converted, mode, image[..], d, w * h) && w * h * Bpp(mode) <= 8 * |converted|
    ensures error == 0 ==> DataMean(idat, interlaced, w, h, Bpp(mode), PngBits(converted))
    ensures error == 0 ==> ScanlinesChosen(strategy, Zlib.Decompressed(idat, [], false, false).value, interlaced, w, h, Bpp(mode))
  {
    hide Pixel;
    hide ValidMode;
    hide SameImage;
    hide Bpp;
    hide ScanlinesMean;
    hide ScanlinesSize;
    hide PngBits;
    hide Deflate.Deflates;
    hide Zlib.Decompressed;
    hide BestModel;
    hide ScanlinesChosen;
    var source;
    error, mode, source, colors := ChooseAndConvert(image, d, w * h, allowPalette, allowGreyscale);
    converted := source[..];
    BppOfMode(mode);
    var scanlines := PreProcessScanlines(source, w, h, Bpp(mode), interlaced, strategy);
    SomeScanlines(interlaced, w, h, Bpp(mode));
    error, idat := Zlib.Compress(scanlines[..], settings, false, false);
  }

  /** The decoder, from the image data on. It fails exactly when they do not decompress to scanlines of the
      right size and with valid filter types. */
  method DecodeImage(idat: seq<byte>, mode: Mode, w: nat, h: nat, interlaced: bool) returns (error: nat, out: array<byte>)
    requires ValidMode(mode) && Bpp(mode) > 0 && w > 0 && h > 0
    ensures fresh(out) && w * h * Bpp(mode) <= 8 * out.Length
    ensures var r := Zlib.Decompressed(idat, [], false, false);
      && (error == 0 <==> r.Some? && |r.value| == ScanlinesSize(interlaced, w, h, Bpp(mode)) && Readable(r.value, interlaced, w, h, Bpp(mode)))
      && (error == 0 ==> ScanlinesMean(r.value, interlaced, w, h, Bpp(mode), PngBits(out[..])))
  {
    hide ValidMode;
    hide Bpp;
    hide ScanlinesMean;
    hide Readable;
    hide PngBits;
    hide Zlib.Decompressed;
    hide RawSize;
    hide Adam7.ExpectedSize;
    hide FilteredImage.RawSizeIdat;
    BppOfMode(mode);
    var expected_size := if interlaced then Adam7.ExpectedSize(w, h, Bpp(mode)) else FilteredImage.RawSizeIdat(w, h, Bpp(mode));
    ExpectedIsSize(interlaced, w, h, Bpp(mode));
    hide ScanlinesSize;
    RawSizeHolds(w * h, mode);
    out := new byte[RawSize(w * h, mode)](_ => 0);
    var v := new Inflate.ByteVector([]);
    error := Zlib.DecompressV(v, idat, false, false, 0);
    if error != 0 {
      return;
    }
    if v.size != expected_size {
      return 91, out;
    }
    var scanlines := new byte[v.size](i requires 0 <= i < v.size && v.size <= v.data.Length reads v, v.data => v.data[i]);
    assert scanlines[..] == v.data[..v.size];
    error := PostProcessScanlines(out, scanlines, w, h, Bpp(mode), interlaced);
  }

  lemma ExpectedIsSize(interlaced: bool, w: nat, h: nat, bpp: nat)
    requires w > 0 && h > 0
    ensures (if interlaced then Adam7.ExpectedSize(w, h, bpp) else FilteredImage.RawSizeIdat(w, h, bpp)) == ScanlinesSize(interlaced, w, h, bpp)
  {
    FilteredImage.RawSizeIsLines(w, h, bpp);
    if interlaced {
      Adam7.ExpectedSizeIsFilterStart(w, h, bpp);
    }
  }

  /** Decoding undoes encoding: reading the pixels of the decoded image gives the greys of the original,
      opaque, whatever colour model, interlacing, filters and compression are used. */
  method ImageRoundTrip(image: array<byte>, d: nat, w: nat, h: nat, allowPalette: bool, allowGreyscale: bool, interlaced: bool,
                        strategy: Strategy, settings: CompressSettings)
    returns (error: nat, mode: Mode, out: array<byte>)
    requires IsImage(image[..], d, w * h) && w > 0 && h > 0 && Deflate.Deflates(settings)
    requires Scanlines.ValidStrategy(strategy) && (strategy.Predefined? ==> |strategy.types| >= h)
    ensures error == 0 && ValidMode(mode) && SameImage(out[..], mode, image[..], d, w * h)
  {
    hide BestModel;
    hide ScanlinesChosen;
    hide ValidMode;
    hide SameImage;
    hide Bpp;
    hide ScanlinesMean;
    hide ScanlinesSize;
    hide Readable;
    hide PngBits;
    hide Zlib.Decompressed;
    var idat;
    ghost var converted, colors;
    error, mode, idat, converted, colors := EncodeImage(image, d, w, h, allowPalette, allowGreyscale, interlaced, strategy, settings);
    ghost var scanlines := Zlib.Decompressed(idat, [], false, false).value;
    MeaningIsReadable(scanlines, interlaced, w, h, Bpp(mode), PngBits(converted));
    error, out := DecodeImage(idat, mode, w, h, interlaced);
    SamePixels(scanlines, interlaced, w, h, mode, converted, out[..]);
    SameImageKept(converted, out[..], mode, image[..], d, w * h);
  }

  /** Images that the same scanlines mean have the same pixels. */
  lemma SamePixels(data: seq<byte>, interlaced: bool, w: nat, h: nat, mode: Mode, s: seq<byte>, t: seq<byte>)
    requires ValidMode(mode) && w > 0 && Bpp(mode) > 0 && ScanlinesSize(interlaced, w, h, Bpp(mode)) <= |data|
    requires ScanlinesMean(data, interlaced, w, h, Bpp(mode), PngBits(s)) && ScanlinesMean(data, interlaced, w, h, Bpp(mode), PngBits(t))
    requires w * h * Bpp(mode) <= 8 * |s| && w * h * Bpp(mode) <= 8 * |t|
    ensures forall i: nat :: i < w * h ==> (i + 1) * Bpp(mode) <= w * h * Bpp(mode) && Pixel(s, i, mode) == Pixel(t, i, mode)
  {
    hide ValidMode;
    hide Pixel;
    hide Bpp;
    hide ScanlinesMean;
    hide ScanlinesSize;
    hide PngBit;
    var b := Bpp(mode);
    forall q: nat | q < w * h * b
      ensures PngBit(s, q) == PngBit(t, q)
    {
      MeaningIsUnique(data, interlaced, w, h, b, PngBits(s), PngBits(t), q);
    }
    forall i: nat | i < w * h
      ensures (i + 1) * b <= w * h * b && Pixel(s, i, mode) == Pixel(t, i, mode)
    {
      ColorChoice.MulLess(i, w * h, b);
      SamePixel(s, t, i, mode);
    }
  }

  lemma SameImageKept(s: seq<byte>, t: seq<byte>, mode: Mode, image: seq<byte>, d: nat, n: nat)
    requires ValidMode(mode) && IsImage(image, d, n) && SameImage(s, mode, image, d, n) && n * Bpp(mode) <= 8 * |t|
    requires forall i: nat :: i < n ==>
      (i + 1) * Bpp(mode) <= n * Bpp(mode) && (i + 1) * Bpp(mode) <= 8 * |s| && Pixel(s, i, mode) == Pixel(t, i, mode)
    ensures SameImage(t, mode, image, d, n)
  {
    hide Pixel;
    hide GreyIn;
    forall i: nat | i < n
      ensures ShowsGrey(t, mode, i, GreyIn(image, d, n, i))
    {
      assert ShowsGrey(s, mode, i, GreyIn(image, d, n, i));
      assert (i + 1) * Bpp(mode) <= n * Bpp(mode);
    }
  }
}
