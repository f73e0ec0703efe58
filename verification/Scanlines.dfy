/** From images to scanlines and back: interlacing, padding and filtering, and the same undone in place. */
module Scanlines {
  import opened Bits
  import opened Wrappers
  import opened Filters
  import opened FilteredImage
  import opened ImageBits
  import opened Adam7
  import opened Interlace

  // ---------------------------------------------------------------------------------------------
  // What scanlines mean
  // ---------------------------------------------------------------------------------------------

  ghost predicate Same(s: seq<bit>, a: nat, t: seq<bit>, b: nat, n: nat) {
    && a + n <= |s| && b + n <= |t|
    && forall q: nat :: a <= q < a + n ==> s[q] == t[b + (q - a)]
  }

  /** The unfiltered lines of an image of `w` by `h` pixels at `at`. */
  function Lines(data: seq<byte>, at: nat, w: nat, h: nat, bpp: nat): Option<seq<byte>>
    requires at + (1 + LineBytes(w, bpp)) * h <= |data| && w > 0 && bpp > 0
  {
    LineHoldsPixel(w, bpp);
    UnfilterRows(data[at..at + (1 + LineBytes(w, bpp)) * h], LineBytes(w, bpp), ByteWidth(bpp), h)
  }

  /** Scanlines without interlacing: each line of the image, filled up to a whole byte. */
  ghost predicate LinesMean(data: seq<byte>, w: nat, h: nat, bpp: nat, image: seq<bit>)
    requires (1 + LineBytes(w, bpp)) * h <= |data| && w > 0 && bpp > 0
  {
    && Lines(data, 0, w, h, bpp).Some?
    && forall y: nat :: y < h ==>
      Same(PngBits(Lines(data, 0, w, h, bpp).value), LineAt(0, y, 8 * LineBytes(w, bpp)), image, LineAt(0, y, w * bpp), w * bpp)
  }

  lemma PassFits(i: nat, w: nat, h: nat, bpp: nat)
    requires i < 7
    ensures FilterStart(i, w, h, bpp) + (1 + LineBytes(PassWidth(i, w, h), bpp)) * PassHeight(i, w, h) <= FilterStart(7, w, h, bpp)
           || PassWidth(i, w, h) == 0
    ensures PassWidth(i, w, h) == 0 <==> PassHeight(i, w, h) == 0
  {
    hide PassWidth;
    hide PassHeight;
    hide LineBytes;
    hide FilterStart;
    NoEmptyPass(i, w, h);
    StartsGrow(i, 7, w, h, bpp);
    MulFlip(1 + LineBytes(PassWidth(i, w, h), bpp), PassHeight(i, w, h));
  }

  lemma MulFlip(a: nat, b: nat)
    ensures a * b == b * a
  {
  }

  /** The unfiltered lines of a pass that is not empty. */
  function PassLines(data: seq<byte>, i: nat, w: nat, h: nat, bpp: nat): Option<seq<byte>>
    requires i < 7 && PassWidth(i, w, h) > 0 && FilterStart(7, w, h, bpp) <= |data| && bpp > 0
  {
    PassFits(i, w, h, bpp);
    Lines(data, FilterStart(i, w, h, bpp), PassWidth(i, w, h), PassHeight(i, w, h), bpp)
  }

  /** Where a pixel is among the lines of its pass. */
  function LineBit(i: nat, x: nat, y: nat, w: nat, h: nat, bpp: nat): nat
    requires i < 7
  {
    LineAt(LineAt(0, y, 8 * LineBytes(PassWidth(i, w, h), bpp)), x, bpp)
  }

  ghost predicate PassMeans(data: seq<byte>, i: nat, w: nat, h: nat, bpp: nat, image: seq<bit>)
    requires i < 7 && FilterStart(7, w, h, bpp) <= |data| && bpp > 0
  {
    PassWidth(i, w, h) > 0 ==>
      && PassLines(data, i, w, h, bpp).Some?
      && forall x: nat, y: nat :: InPass(i, x, y, w, h) ==>
        Same(PngBits(PassLines(data, i, w, h, bpp).value), LineBit(i, x, y, w, h, bpp), image, ImageBit(i, x, y, w, bpp), bpp)
  }

  /** Scanlines of seven passes. */
  ghost predicate PassesMean(data: seq<byte>, w: nat, h: nat, bpp: nat, image: seq<bit>)
    requires FilterStart(7, w, h, bpp) <= |data| && bpp > 0
  {
    forall i: nat :: i < 7 ==> PassMeans(data, i, w, h, bpp, image)
  }

  function ScanlinesSize(interlaced: bool, w: nat, h: nat, bpp: nat): nat {
    if interlaced then FilterStart(7, w, h, bpp) else (1 + LineBytes(w, bpp)) * h
  }

  /** What scanlines mean: the bits of an image. */
  ghost predicate ScanlinesMean(data: seq<byte>, interlaced: bool, w: nat, h: nat, bpp: nat, image: seq<bit>)
    requires ScanlinesSize(interlaced, w, h, bpp) <= |data| && w > 0 && bpp > 0
  {
    if interlaced then PassesMean(data, w, h, bpp, image) else LinesMean(data, w, h, bpp, image)
  }

  lemma SamePoint(s: seq<bit>, a: nat, t: seq<bit>, u: seq<bit>, b: nat, n: nat, q: nat)
    requires Same(s, a, t, b, n) && Same(s, a, u, b, n) && b <= q < b + n
    ensures q < |t| && q < |u| && t[q] == u[q]
  {
    assert s[a + (q - b)] == t[q] && s[a + (q - b)] == u[q];
  }

  /** They mean one image only. */
  lemma MeaningIsUnique(data: seq<byte>, interlaced: bool, w: nat, h: nat, bpp: nat, image: seq<bit>, image': seq<bit>, q: nat)
    requires ScanlinesSize(interlaced, w, h, bpp) <= |data| && w > 0 && bpp > 0 && q < w * h * bpp
    requires ScanlinesMean(data, interlaced, w, h, bpp, image) && ScanlinesMean(data, interlaced, w, h, bpp, image')
    ensures q < |image| && q < |image'| && image[q] == image'[q]
  {
    hide Same;
    hide Lines;
    hide PassLines;
    hide LineBit;
    hide LineAt;
    hide PngBits;
    if interlaced {
      var i, x, y := PixelOfBit(w, h, bpp, q);
      assert PassMeans(data, i, w, h, bpp, image) && PassMeans(data, i, w, h, bpp, image');
      var s := PngBits(PassLines(data, i, w, h, bpp).value);
      SamePoint(s, LineBit(i, x, y, w, h, bpp), image, image', ImageBit(i, x, y, w, bpp), bpp, q);
    } else {
      var y := LineOfBit(w, h, bpp, q);
      var s := PngBits(Lines(data, 0, w, h, bpp).value);
      SamePoint(s, LineAt(0, y, 8 * LineBytes(w, bpp)), image, image', LineAt(0, y, w * bpp), w * bpp, q);
    }
  }

  lemma LineOfBit(w: nat, h: nat, bpp: nat, q: nat) returns (y: nat)
    requires w > 0 && bpp > 0 && q < w * h * bpp
    ensures y < h && LineAt(0, y, w * bpp) <= q < LineAt(0, y, w * bpp) + w * bpp
  {
    var n := w * bpp;
    MulMonotone(1, w, bpp);
    var r;
    y, r := Divide(q, n);
    assert w * h * bpp == h * n;
    BelowProduct(y, h, n, q);
  }

  /** The pixel that a bit of the image belongs to, in its pass. */
  lemma PixelOfBit(w: nat, h: nat, bpp: nat, q: nat) returns (i: nat, x: nat, y: nat)
    requires w > 0 && bpp > 0 && q < w * h * bpp
    ensures i < 7 && InPass(i, x, y, w, h) && PassWidth(i, w, h) > 0
    ensures ImageBit(i, x, y, w, bpp) <= q < ImageBit(i, x, y, w, bpp) + bpp
  {
    hide PixelX;
    hide PixelY;
    hide InPass;
    hide PassOf;
    var n, r := Divide(q, bpp);
    BelowProduct(n, w * h, bpp, q);
    var py, px := Divide(n, w);
    BelowProduct(py, h, w, n);
    i := PassOf(px, py);
    x, y := PassCovers(px, py);
    PassPixels(i, x, y, w, h);
    PixelsHaveWidth(i, x, y, w, h);
  }

  lemma Divide(q: nat, n: nat) returns (k: nat, r: nat)
    requires n > 0
    ensures q == k * n + r && r < n
  {
    k, r := q / n, q % n;
  }

  lemma BelowProduct(k: nat, m: nat, n: nat, q: nat)
    requires q < m * n && k * n <= q
    ensures k < m
  {
    if k >= m {
      MulMonotone(m, k, n);
    }
  }

  lemma PixelsHaveWidth(i: nat, x: nat, y: nat, w: nat, h: nat)
    requires i < 7 && InPass(i, x, y, w, h)
    ensures PassWidth(i, w, h) > 0
  {
  }

  // ---------------------------------------------------------------------------------------------
  // Making scanlines
  // ---------------------------------------------------------------------------------------------

  /** All filter types that the strategy may choose are valid. */
  predicate ValidStrategy(strategy: Strategy) {
    match strategy
    case Fixed(f) => f <= 4
    case MinSum => true
    case Predefined(ts) => ValidTypes(ts)
  }

  lemma ChosenTypes(strategy: Strategy, types: seq<byte>, linebytes: nat, bytewidth: nat, raw: seq<byte>)
    requires ValidStrategy(strategy) && TypesChosen(strategy, types, linebytes, bytewidth, raw)
    ensures ValidTypes(types)
  {
    forall y | 0 <= y < |types|
      ensures types[y] <= 4
    {
      assert RowChosen(strategy, y, types[y], raw, linebytes, bytewidth);
      hide TypeSum;
    }
  }

  /** The filter types in front of the lines at `at` are those that the strategy chooses for these lines. */
  ghost predicate LinesChosen(strategy: Strategy, data: seq<byte>, at: nat, w: nat, h: nat, bpp: nat)
    requires at + (1 + LineBytes(w, bpp)) * h <= |data| && w > 0 && bpp > 0
  {
    var L, r := LineBytes(w, bpp), Lines(data, at, w, h, bpp);
    var n: nat := (1 + L) * h;
    && r.Some?
    && exists types :: |types| == h && TypesIn(data[at..at + n], types, L) && TypesChosen(strategy, types, L, ByteWidth(bpp), r.value)
  }

  ghost predicate PassChosen(strategy: Strategy, data: seq<byte>, i: nat, w: nat, h: nat, bpp: nat)
    requires i < 7 && FilterStart(7, w, h, bpp) <= |data| && bpp > 0
  {
    PassFits(i, w, h, bpp);
    PassWidth(i, w, h) > 0 ==>
      LinesChosen(strategy, data, FilterStart(i, w, h, bpp), PassWidth(i, w, h), PassHeight(i, w, h), bpp)
  }

  /** ... in all scanlines; each pass of an interlaced image counts its lines from the first on. */
  ghost predicate ScanlinesChosen(strategy: Strategy, data: seq<byte>, interlaced: bool, w: nat, h: nat, bpp: nat)
    requires ScanlinesSize(interlaced, w, h, bpp) <= |data| && w > 0 && bpp > 0
  {
    if interlaced then forall i: nat :: i < 7 ==> PassChosen(strategy, data, i, w, h, bpp)
    else LinesChosen(strategy, data, 0, w, h, bpp)
  }

  lemma CopiedIsSame(a: array<byte>, o: nat, src: seq<bit>, i: nat, n: nat)
    requires Copied(a, o, src, i, n)
    ensures Same(PngBits(a[..]), o, src, i, n)
  {
    hide PngBits;
    hide BitOf;
    forall q: nat | o <= q < o + n
      ensures PngBits(a[..])[q] == src[i + (q - o)]
    {
      BitOfArray(a, q);
    }
  }

  /** The bits of bytes inside a buffer. */
  lemma BitsOfPart(a: array<byte>, at: nat, part: seq<byte>, q: nat)
    requires at + |part| <= a.Length && a[at..at + |part|] == part && q < 8 * |part|
    ensures BitOf(a, 8 * at + q) == PngBits(part)[q]
  {
    var k, r := q / 8, q % 8;
    assert part[k] == a[at + k];
    BitAtByte(a, at + k, r, 8 * at + q);
  }

  lemma BitAtByte(a: array<byte>, k: nat, r: nat, q: nat)
    requires k < a.Length && r < 8 && q == 8 * k + r
    ensures BitOf(a, q) == BitIn(a[k], r)
  {
  }

  lemma LineSizes(w: nat, h: nat, bpp: nat)
    ensures LineAt(0, h, w * bpp) == w * h * bpp
    ensures LineAt(0, h, 8 * LineBytes(w, bpp)) == 8 * (LineBytes(w, bpp) * h)
    ensures w * bpp <= 8 * LineBytes(w, bpp) < w * bpp + 8
  {
    assert w * h * bpp == h * (w * bpp);
    assert h * (8 * LineBytes(w, bpp)) == 8 * (LineBytes(w, bpp) * h);
  }

  /** Lines that mean the image, once they are filtered. */
  lemma FilteredLinesMean(data: seq<byte>, types: seq<byte>, raw: seq<byte>, w: nat, h: nat, bpp: nat, src: seq<bit>, strategy: Strategy)
    requires w > 0 && h > 0 && bpp > 0 && |types| == h && ValidTypes(types) && |data| == (1 + LineBytes(w, bpp)) * h
    requires Means(data, types, LineBytes(w, bpp), ByteWidth(bpp), raw)
    requires TypesIn(data, types, LineBytes(w, bpp)) && TypesChosen(strategy, types, LineBytes(w, bpp), ByteWidth(bpp), raw)
    requires forall y: nat :: y < h ==> Same(PngBits(raw), LineAt(0, y, 8 * LineBytes(w, bpp)), src, LineAt(0, y, w * bpp), w * bpp)
    ensures LinesMean(data, w, h, bpp, src) && LinesChosen(strategy, data, 0, w, h, bpp)
  {
    hide TypesIn;
    hide TypesChosen;
    hide UnfilterRows;
    hide LineBytes;
    hide ByteWidth;
    hide Same;
    hide LineAt;
    hide PngBits;
    assert data[0..|data|] == data;
  }

  lemma PaddedLines(padded: array<byte>, w: nat, h: nat, bpp: nat, src: seq<bit>)
    requires LinesCopied(padded, 0, LineBytes(w, bpp) * 8, src, 0, w * bpp, w * bpp, h)
    ensures forall y: nat :: y < h ==>
      Same(PngBits(padded[..]), LineAt(0, y, 8 * LineBytes(w, bpp)), src, LineAt(0, y, w * bpp), w * bpp)
  {
    hide LineBytes;
    hide PngBits;
    hide Same;
    hide LineAt;
    hide Copied;
    forall y: nat | y < h
      ensures Same(PngBits(padded[..]), LineAt(0, y, 8 * LineBytes(w, bpp)), src, LineAt(0, y, w * bpp), w * bpp)
    {
      CopiedIsSame(padded, LineAt(0, y, LineBytes(w, bpp) * 8), src, LineAt(0, y, w * bpp), w * bpp);
    }
  }

  lemma WholeLines(w: nat, bpp: nat)
    requires !(bpp < 8 && w * bpp != LineBytes(w, bpp) * 8) && (bpp >= 8 ==> bpp % 8 == 0)
    ensures 8 * LineBytes(w, bpp) == w * bpp
  {
    if bpp >= 8 {
      EvenBytes(w, bpp);
    }
  }

  lemma UnpaddedLines(input: array<byte>, raw: seq<byte>, w: nat, h: nat, bpp: nat, src: seq<bit>)
    requires IsSource(input, src) && 8 * LineBytes(w, bpp) == w * bpp && LineBytes(w, bpp) * h <= input.Length
    requires raw == input[0..LineBytes(w, bpp) * h]
    ensures forall y: nat :: y < h ==>
      Same(PngBits(raw), LineAt(0, y, 8 * LineBytes(w, bpp)), src, LineAt(0, y, w * bpp), w * bpp)
  {
    hide LineBytes;
    hide PngBits;
    hide LineAt;
    hide BitOf;
    LineSizes(w, h, bpp);
    forall y: nat | y < h
      ensures Same(PngBits(raw), LineAt(0, y, 8 * LineBytes(w, bpp)), src, LineAt(0, y, w * bpp), w * bpp)
    {
      LinesFit(0, y, h, w * bpp);
      forall q: nat | q < 8 * |raw|
        ensures PngBits(raw)[q] == src[q]
      {
        BitsOfPart(input, 0, raw, q);
      }
    }
  }

  /** Scanlines of an image that is not interlaced. */
  method PreProcessLines(out: array<byte>, input: array<byte>, w: nat, h: nat, bpp: nat, strategy: Strategy, ghost src: seq<bit>)
    requires out != input && w > 0 && h > 0 && bpp > 0 && (bpp >= 8 ==> bpp % 8 == 0)
    requires strategy.Predefined? ==> |strategy.types| >= h
    requires out.Length == (1 + LineBytes(w, bpp)) * h && IsSource(input, src) && w * h * bpp <= 8 * input.Length
    modifies out
    ensures ValidStrategy(strategy) ==> LinesMean(out[..], w, h, bpp, src) && LinesChosen(strategy, out[..], 0, w, h, bpp)
  {
    hide LinesChosen;
    hide TypesIn;
    hide TypesChosen;
    hide LineBytes;
    hide ByteWidth;
    hide LinesMean;
    hide Means;
    hide BitOf;
    hide PngBits;
    hide Same;
    hide LineAt;
    hide LinesCopied;
    hide Copied;
    hide ValidTypes;
    LineSizes(w, h, bpp);
    LineHoldsPixel(w, bpp);
    var types;
    if bpp < 8 && w * bpp != LineBytes(w, bpp) * 8 {
      var padded := new byte[LineBytes(w, bpp) * h](_ => 0);
      AddPaddingBits(padded, input, 0, LineBytes(w, bpp) * 8, w * bpp, h, src);
      PaddedLines(padded, w, h, bpp, src);
      types := FilterImage(out, 0, padded, 0, w, h, bpp, strategy);
      assert padded[0..LineBytes(w, bpp) * h] == padded[..] && out[0..out.Length] == out[..];
      if ValidStrategy(strategy) {
        ChosenTypes(strategy, types, LineBytes(w, bpp), ByteWidth(bpp), padded[..]);
        FilteredLinesMean(out[..], types, padded[..], w, h, bpp, src, strategy);
      }
    } else {
      assert 8 * LineBytes(w, bpp) == w * bpp by { WholeLines(w, bpp); }
      types := FilterImage(out, 0, input, 0, w, h, bpp, strategy);
      ghost var raw := input[0..LineBytes(w, bpp) * h];
      UnpaddedLines(input, raw, w, h, bpp, src);
      assert out[0..out.Length] == out[..];
      if ValidStrategy(strategy) {
        ChosenTypes(strategy, types, LineBytes(w, bpp), ByteWidth(bpp), raw);
        FilteredLinesMean(out[..], types, raw, w, h, bpp, src, strategy);
      }
    }
  }

  lemma ArrayIsSource(a: array<byte>)
    ensures IsSource(a, PngBits(a[..]))
  {
    hide BitOf;
    hide PngBits;
    forall q: nat | q < 8 * a.Length
      ensures BitOf(a, q) == PngBits(a[..])[q]
    {
      BitOfArray(a, q);
    }
  }

  /** Places in a pass, counted by lines. */
  lemma PassPlaces(i: nat, x: nat, y: nat, w: nat, h: nat, bpp: nat)
    requires i < 7 && InPass(i, x, y, w, h)
    ensures var n := PassWidth(i, w, h) * bpp;
      && PassBit(i, x, y, w, h, bpp) == LineAt(LineAt(8 * PassStart(i, w, h, bpp), y, n), x, bpp)
      && LineAt(8 * PassStart(i, w, h, bpp), y, n) <= PassBit(i, x, y, w, h, bpp)
      && PassBit(i, x, y, w, h, bpp) + bpp <= LineAt(8 * PassStart(i, w, h, bpp), y, n) + n
      && LineBit(i, x, y, w, h, bpp) - LineAt(0, y, 8 * LineBytes(PassWidth(i, w, h), bpp)) == x * bpp
      && x * bpp + bpp <= n
  {
    hide PassWidth;
    hide PassHeight;
    hide PassStart;
    hide LineBytes;
    LineBits(y, PassWidth(i, w, h), x, bpp);
    MulFlip(bpp, PassWidth(i, w, h));
    IndexApart(x, PassWidth(i, w, h), bpp);
  }

  /** The lines of a pass end inside the data of the passes. */
  lemma PassEnds(i: nat, w: nat, h: nat, bpp: nat)
    requires i < 7
    ensures var pw, ph, ps := PassWidth(i, w, h), PassHeight(i, w, h), PassStart(i, w, h, bpp);
      && LineAt(8 * ps, ph, pw * bpp) <= 8 * (ps + PassSize(i, w, h, bpp)) <= 8 * PassStart(7, w, h, bpp)
      && LineAt(0, ph, 8 * LineBytes(pw, bpp)) == 8 * PaddedSize(i, w, h, bpp)
      && PaddedSize(i, w, h, bpp) == LineBytes(pw, bpp) * ph
      && (pw > 0 ==> FilterSize(i, w, h, bpp) == (1 + LineBytes(pw, bpp)) * ph)
  {
    hide PassWidth;
    hide PassHeight;
    hide PassStart;
    hide LineBytes;
    var pw, ph := PassWidth(i, w, h), PassHeight(i, w, h);
    NoEmptyPass(i, w, h);
    SizesOrdered(i, w, h, bpp);
    StartsGrow(i, 7, w, h, bpp);
    MulAssoc(ph, pw, bpp);
    LineSizes(pw, ph, bpp);
    MulFlip(ph, LineBytes(pw, bpp));
    MulFlip(ph, 1 + LineBytes(pw, bpp));
  }

  /** A pixel of a pass, found among padded lines. */
  lemma PaddedPixel(padded: array<byte>, adam7: array<byte>, asrc: seq<bit>, src: seq<bit>, i: nat, x: nat, y: nat, w: nat, h: nat, bpp: nat)
    requires i < 7 && InPass(i, x, y, w, h) && IsSource(adam7, asrc)
    requires var pw := PassWidth(i, w, h);
      Copied(padded, LineAt(0, y, 8 * LineBytes(pw, bpp)), asrc, LineAt(8 * PassStart(i, w, h, bpp), y, pw * bpp), pw * bpp)
    requires Copied(adam7, PassBit(i, x, y, w, h, bpp), src, ImageBit(i, x, y, w, bpp), bpp)
    ensures Same(PngBits(padded[..]), LineBit(i, x, y, w, h, bpp), src, ImageBit(i, x, y, w, bpp), bpp)
  {
    hide PassWidth;
    hide PassHeight;
    hide PassStart;
    hide LineBytes;
    hide PassBit;
    hide ImageBit;
    hide LineBit;
    hide LineAt;
    hide BitOf;
    hide PngBits;
    PassPlaces(i, x, y, w, h, bpp);
    var pw := PassWidth(i, w, h);
    var o, p := LineAt(0, y, 8 * LineBytes(pw, bpp)), LineAt(8 * PassStart(i, w, h, bpp), y, pw * bpp);
    CopiedIsSame(padded, o, asrc, p, pw * bpp);
    PlaceInLine(i, x, y, w, h, bpp);
  }

  lemma PlaceInLine(i: nat, x: nat, y: nat, w: nat, h: nat, bpp: nat)
    requires i < 7 && InPass(i, x, y, w, h)
    ensures var pw := PassWidth(i, w, h);
      LineBit(i, x, y, w, h, bpp) - LineAt(0, y, 8 * LineBytes(pw, bpp))
        == PassBit(i, x, y, w, h, bpp) - LineAt(8 * PassStart(i, w, h, bpp), y, pw * bpp)
  {
    hide PassWidth;
    hide PassHeight;
    hide PassStart;
    hide LineBytes;
    hide PassBit;
    PassPlaces(i, x, y, w, h, bpp);
  }

  /** ... and where lines need no padding. */
  lemma UnpaddedPixel(adam7: array<byte>, raw: seq<byte>, src: seq<bit>, i: nat, x: nat, y: nat, w: nat, h: nat, bpp: nat)
    requires i < 7 && InPass(i, x, y, w, h) && bpp % 8 == 0
    requires var pw, ps := PassWidth(i, w, h), PassStart(i, w, h, bpp);
      ps + PaddedSize(i, w, h, bpp) <= adam7.Length && raw == adam7[ps..ps + PaddedSize(i, w, h, bpp)]
    requires Copied(adam7, PassBit(i, x, y, w, h, bpp), src, ImageBit(i, x, y, w, bpp), bpp)
    ensures Same(PngBits(raw), LineBit(i, x, y, w, h, bpp), src, ImageBit(i, x, y, w, bpp), bpp)
  {
    hide PassWidth;
    hide PassHeight;
    hide PassStart;
    hide LineBytes;
    hide PassBit;
    hide ImageBit;
    hide BitOf;
    hide PngBits;
    hide PaddedSize;
    hide PassSize;
    hide LineBit;
    var pw, ps := PassWidth(i, w, h), PassStart(i, w, h, bpp);
    PassPlaces(i, x, y, w, h, bpp);
    PassBitInside(i, x, y, w, h, bpp);
    SizesOrdered(i, w, h, bpp);
    EvenBytes(pw, bpp);
    var o := LineBit(i, x, y, w, h, bpp);
    assert PassBit(i, x, y, w, h, bpp) == 8 * ps + o by { PlaceInLine(i, x, y, w, h, bpp); }
    forall q: nat | o <= q < o + bpp
      ensures PngBits(raw)[q] == src[ImageBit(i, x, y, w, bpp) + (q - o)]
    {
      BitsOfPart(adam7, ps, raw, q);
    }
  }

  lemma LinesMeant(data: seq<byte>, types: seq<byte>, raw: seq<byte>, from: nat, pw: nat, ph: nat, bpp: nat, n: nat)
    requires pw > 0 && bpp > 0 && n == (1 + LineBytes(pw, bpp)) * ph && from + n <= |data| && |types| == ph && ValidTypes(types)
    requires Means(data[from..from + n], types, LineBytes(pw, bpp), ByteWidth(bpp), raw)
    ensures Lines(data, from, pw, ph, bpp) == Some(raw)
  {
    hide UnfilterRows;
    hide LineBytes;
    hide ByteWidth;
    hide ValidTypes;
  }

  /** A pass that means its pixels, once it is filtered. */
  lemma FilteredPassMeans(data: seq<byte>, types: seq<byte>, raw: seq<byte>, i: nat, w: nat, h: nat, bpp: nat, src: seq<bit>,
                          from: nat, pw: nat, ph: nat, n: nat, strategy: Strategy)
    requires i < 7 && bpp > 0 && FilterStart(7, w, h, bpp) <= |data| && pw > 0
    requires pw == PassWidth(i, w, h) && ph == PassHeight(i, w, h) && from == FilterStart(i, w, h, bpp) && n == (1 + LineBytes(pw, bpp)) * ph
    requires from + n <= |data| && |types| == ph && ValidTypes(types)
    requires Means(data[from..from + n], types, LineBytes(pw, bpp), ByteWidth(bpp), raw)
    requires TypesIn(data[from..from + n], types, LineBytes(pw, bpp)) && TypesChosen(strategy, types, LineBytes(pw, bpp), ByteWidth(bpp), raw)
    requires forall x: nat, y: nat :: InPass(i, x, y, w, h) ==>
      Same(PngBits(raw), LineBit(i, x, y, w, h, bpp), src, ImageBit(i, x, y, w, bpp), bpp)
    ensures PassMeans(data, i, w, h, bpp, src) && PassChosen(strategy, data, i, w, h, bpp)
  {
    hide TypesIn;
    hide TypesChosen;
    hide Lines;
    hide Means;
    hide ValidTypes;
    hide LineBytes;
    hide ByteWidth;
    hide Same;
    hide LineBit;
    hide ImageBit;
    hide PngBits;
    hide InPass;
    hide PassWidth;
    hide PassHeight;
    hide FilterStart;
    LinesMeant(data, types, raw, from, pw, ph, bpp, n);
  }

  /** Pads and filters one pass. */
  method PreProcessPass(out: array<byte>, adam7: array<byte>, i: nat, passw: nat, passh: nat, filter_passstart: nat, padded_passstart: nat,
                        passstart: nat, w: nat, h: nat, bpp: nat, strategy: Strategy, ghost src: seq<bit>)
    requires out != adam7 && i < 7 && bpp > 0 && (bpp >= 8 ==> bpp % 8 == 0)
    requires strategy.Predefined? ==> |strategy.types| >= PassHeight(i, w, h)
    requires passw == PassWidth(i, w, h) && passh == PassHeight(i, w, h) && filter_passstart == FilterStart(i, w, h, bpp)
    requires padded_passstart == PaddedStart(i, w, h, bpp) && passstart == PassStart(i, w, h, bpp)
    requires out.Length == FilterStart(7, w, h, bpp) && adam7.Length == PassStart(7, w, h, bpp) && Moved(adam7, src, w, h, bpp, true, 7, 0, 0)
    modifies out
    ensures ValidStrategy(strategy) ==> PassMeans(out[..], i, w, h, bpp, src) && PassChosen(strategy, out[..], i, w, h, bpp)
    ensures OnlyLine(out, filter_passstart, FilterSize(i, w, h, bpp))
  {
    hide PassWidth;
    hide PassHeight;
    hide PassStart;
    hide PaddedStart;
    hide FilterStart;
    hide FilterSize;
    hide PaddedSize;
    hide PassSize;
    hide LineBytes;
    hide ByteWidth;
    hide Means;
    hide BitOf;
    hide PngBits;
    hide Same;
    hide LineAt;
    hide LinesCopied;
    hide PassMeans;
    hide PassChosen;
    hide TypesIn;
    hide TypesChosen;
    hide Moved;
    hide ValidTypes;
    PassEnds(i, w, h, bpp);
    StartsGrow(i, 7, w, h, bpp);
    NoEmptyPass(i, w, h);
    var types;
    ghost var raw;
    if bpp < 8 {
      var padded := new byte[PaddedSize(i, w, h, bpp)](_ => 0);
      LineSizes(passw, passh, bpp);
      ArrayIsSource(adam7);
      ghost var asrc := PngBits(adam7[..]);
      AddPaddingBits(padded, adam7, 8 * passstart, 8 * LineBytes(passw, bpp), passw * bpp, passh, asrc);
      types := FilterImage(out, filter_passstart, padded, 0, passw, passh, bpp, strategy);
      raw := padded[..];
      assert padded[0..LineBytes(passw, bpp) * passh] == raw;
      PaddedPixels(padded, adam7, asrc, src, i, w, h, bpp, passw, passw * bpp);
    } else {
      StartsOrdered(i, w, h, bpp);
      SizesOrdered(i, w, h, bpp);
      types := FilterImage(out, filter_passstart, adam7, padded_passstart, passw, passh, bpp, strategy);
      raw := adam7[passstart..passstart + PaddedSize(i, w, h, bpp)];
      UnpaddedPixels(adam7, raw, src, i, w, h, bpp);
    }
    if passw == 0 {
      EmptyPassMeans(out[..], i, w, h, bpp, src, strategy);
    } else if ValidStrategy(strategy) {
      ChosenTypes(strategy, types, LineBytes(passw, bpp), ByteWidth(bpp), raw);
      FilteredPassMeans(out[..], types, raw, i, w, h, bpp, src, filter_passstart, passw, passh, (1 + LineBytes(passw, bpp)) * passh, strategy);
    }
  }

  lemma EmptyPassMeans(data: seq<byte>, i: nat, w: nat, h: nat, bpp: nat, src: seq<bit>, strategy: Strategy)
    requires i < 7 && FilterStart(7, w, h, bpp) <= |data| && bpp > 0 && PassWidth(i, w, h) == 0
    ensures PassMeans(data, i, w, h, bpp, src) && PassChosen(strategy, data, i, w, h, bpp) && FilterSize(i, w, h, bpp) == 0
  {
  }

  lemma PaddedPixels(padded: array<byte>, adam7: array<byte>, asrc: seq<bit>, src: seq<bit>, i: nat, w: nat, h: nat, bpp: nat, pw: nat, n: nat)
    requires i < 7 && IsSource(adam7, asrc) && Moved(adam7, src, w, h, bpp, true, 7, 0, 0)
    requires pw == PassWidth(i, w, h) && n == pw * bpp
    requires LinesCopied(padded, 0, 8 * LineBytes(pw, bpp), asrc, 8 * PassStart(i, w, h, bpp), n, n, PassHeight(i, w, h))
    ensures forall x: nat, y: nat :: InPass(i, x, y, w, h) ==>
      Same(PngBits(padded[..]), LineBit(i, x, y, w, h, bpp), src, ImageBit(i, x, y, w, bpp), bpp)
  {
    hide PassWidth;
    hide PassHeight;
    hide PassStart;
    hide LineBytes;
    hide Same;
    hide LineBit;
    hide LineAt;
    hide PngBits;
    hide PassBit;
    hide ImageBit;
    hide Copied;
    hide IsSource;
    forall x: nat, y: nat | InPass(i, x, y, w, h)
      ensures Same(PngBits(padded[..]), LineBit(i, x, y, w, h, bpp), src, ImageBit(i, x, y, w, bpp), bpp)
    {
      PixelMoved(adam7, src, i, x, y, w, h, bpp, true);
      PaddedPixel(padded, adam7, asrc, src, i, x, y, w, h, bpp);
    }
  }

  lemma PixelMoved(out: array<byte>, src: seq<bit>, i: nat, x: nat, y: nat, w: nat, h: nat, bpp: nat, toPasses: bool)
    requires i < 7 && InPass(i, x, y, w, h) && Moved(out, src, w, h, bpp, toPasses, 7, 0, 0)
    ensures Copied(out, Target(toPasses, i, x, y, w, h, bpp), src, Source(toPasses, i, x, y, w, h, bpp), bpp)
  {
    hide Copied;
    hide InPass;
    hide Target;
    hide Source;
    assert Before(i, y, x, 7, 0, 0);
  }

  lemma UnpaddedPixels(adam7: array<byte>, raw: seq<byte>, src: seq<bit>, i: nat, w: nat, h: nat, bpp: nat)
    requires i < 7 && bpp % 8 == 0 && Moved(adam7, src, w, h, bpp, true, 7, 0, 0)
    requires var ps := PassStart(i, w, h, bpp);
      ps + PaddedSize(i, w, h, bpp) <= adam7.Length && raw == adam7[ps..ps + PaddedSize(i, w, h, bpp)]
    ensures forall x: nat, y: nat :: InPass(i, x, y, w, h) ==>
      Same(PngBits(raw), LineBit(i, x, y, w, h, bpp), src, ImageBit(i, x, y, w, bpp), bpp)
  {
    hide PassWidth;
    hide PassHeight;
    hide PassStart;
    hide PaddedSize;
    hide Same;
    hide LineBit;
    hide PngBits;
    hide PassBit;
    hide ImageBit;
    hide Copied;
    forall x: nat, y: nat | InPass(i, x, y, w, h)
      ensures Same(PngBits(raw), LineBit(i, x, y, w, h, bpp), src, ImageBit(i, x, y, w, bpp), bpp)
    {
      PixelMoved(adam7, src, i, x, y, w, h, bpp, true);
      UnpaddedPixel(adam7, raw, src, i, x, y, w, h, bpp);
    }
  }

  /** What a pass means depends on its own bytes only. */
  lemma PassMeansStays(data: seq<byte>, data': seq<byte>, i: nat, w: nat, h: nat, bpp: nat, src: seq<bit>, strategy: Strategy)
    requires i < 7 && FilterStart(7, w, h, bpp) <= |data| == |data'| && bpp > 0 && PassMeans(data, i, w, h, bpp, src)
    requires PassChosen(strategy, data, i, w, h, bpp)
    requires forall k :: FilterStart(i, w, h, bpp) <= k < FilterStart(i, w, h, bpp) + FilterSize(i, w, h, bpp) && k < |data| ==> data[k] == data'[k]
    ensures PassMeans(data', i, w, h, bpp, src) && PassChosen(strategy, data', i, w, h, bpp)
  {
    hide TypesIn;
    hide TypesChosen;
    hide UnfilterRows;
    hide LineBytes;
    hide Same;
    hide LineBit;
    hide ImageBit;
    hide PngBits;
    hide InPass;
    hide PassWidth;
    hide PassHeight;
    hide FilterStart;
    hide FilterSize;
    hide ByteWidth;
    if PassWidth(i, w, h) > 0 {
      PassFits(i, w, h, bpp);
      PassEnds(i, w, h, bpp);
      var at, n := FilterStart(i, w, h, bpp), FilterSize(i, w, h, bpp);
      assert data[at..at + n] == data'[at..at + n];
    }
  }

  /** Scanlines of an interlaced image. */
  method PreProcessPasses(out: array<byte>, input: array<byte>, w: nat, h: nat, bpp: nat, strategy: Strategy, ghost src: seq<bit>)
    requires out != input && bpp > 0 && (bpp >= 8 ==> bpp % 8 == 0) && (strategy.Predefined? ==> |strategy.types| >= h)
    requires out.Length == FilterStart(7, w, h, bpp) && IsSource(input, src) && w * h * bpp <= 8 * input.Length
    modifies out
    ensures ValidStrategy(strategy) ==> PassesMean(out[..], w, h, bpp, src)
    ensures ValidStrategy(strategy) ==> forall i: nat :: i < 7 ==> PassChosen(strategy, out[..], i, w, h, bpp)
  {
    hide PassWidth;
    hide PassHeight;
    hide PassStart;
    hide PaddedStart;
    hide FilterStart;
    hide FilterSize;
    hide PassMeans;
    hide PassChosen;
    hide Moved;
    var passw, passh, filter_passstart, padded_passstart, passstart := GetPassValues(w, h, bpp);
    var adam7 := new byte[passstart[7]](_ => 0);
    Adam7Interlace(adam7, input, w, h, bpp, src);
    for i := 0 to 7
      invariant Moved(adam7, src, w, h, bpp, true, 7, 0, 0)
      invariant ValidStrategy(strategy) ==> forall k: nat :: k < i ==>
        PassMeans(out[..], k, w, h, bpp, src) && PassChosen(strategy, out[..], k, w, h, bpp)
    {
      ghost var before := out[..];
      PassHeightBound(i, w, h);
      PreProcessPass(out, adam7, i, passw[i], passh[i], filter_passstart[i], padded_passstart[i], passstart[i], w, h, bpp, strategy, src);
      if ValidStrategy(strategy) {
        forall k: nat | k < i
          ensures PassMeans(out[..], k, w, h, bpp, src) && PassChosen(strategy, out[..], k, w, h, bpp)
        {
          StartsGrow(k, i, w, h, bpp);
          PassMeansStays(before, out[..], k, w, h, bpp, src, strategy);
        }
      }
    }
  }

  lemma PassHeightBound(i: nat, w: nat, h: nat)
    requires i < 7
    ensures PassHeight(i, w, h) <= h
  {
    hide InPass;
    hide PixelX;
    if PassHeight(i, w, h) > h {
      RowInImage(i, w, h, h);
    }
  }

  lemma RowInImage(i: nat, w: nat, h: nat, y: nat)
    requires i < 7 && y < PassHeight(i, w, h)
    ensures y < h
  {
    TablesFit(i);
    StepsCount(h, ADAM7_IY[i], ADAM7_DY[i], y);
  }

  /** Turns an image into scanlines that mean it, filtered as the strategy chooses. */
  method PreProcessScanlines(input: array<byte>, w: nat, h: nat, bpp: nat, interlaced: bool, strategy: Strategy) returns (out: array<byte>)
    requires w > 0 && h > 0 && bpp > 0 && (bpp >= 8 ==> bpp % 8 == 0) && (strategy.Predefined? ==> |strategy.types| >= h)
    requires w * h * bpp <= 8 * input.Length
    ensures fresh(out) && out.Length == ScanlinesSize(interlaced, w, h, bpp)
    ensures ValidStrategy(strategy) ==>
      ScanlinesMean(out[..], interlaced, w, h, bpp, PngBits(input[..])) && ScanlinesChosen(strategy, out[..], interlaced, w, h, bpp)
  {
    hide LinesChosen;
    hide PassChosen;
    hide LineBytes;
    hide FilterStart;
    hide PassesMean;
    hide LinesMean;
    hide PngBits;
    hide IsSource;
    ArrayIsSource(input);
    if !interlaced {
      MulDist(1, LineBytes(w, bpp), h);
      MulFlip(h, LineBytes(w, bpp));
      var outsize := h + h * LineBytes(w, bpp);
      assert outsize == (1 + LineBytes(w, bpp)) * h;
      out := new byte[outsize](_ => 0);
      PreProcessLines(out, input, w, h, bpp, strategy, PngBits(input[..]));
    } else {
      out := new byte[FilterStart(7, w, h, bpp)](_ => 0);
      PreProcessPasses(out, input, w, h, bpp, strategy, PngBits(input[..]));
    }
  }

  // ---------------------------------------------------------------------------------------------
  // Reading scanlines
  // ---------------------------------------------------------------------------------------------

  lemma SameBack(s: seq<bit>, a: nat, t: seq<bit>, b: nat, n: nat)
    requires Same(s, a, t, b, n)
    ensures Same(t, b, s, a, n)
  {
    forall q: nat | b <= q < b + n
      ensures t[q] == s[a + (q - b)]
    {
      assert s[a + (q - b)] == t[b + (a + (q - b) - a)];
    }
  }

  /** Lines without padding, read from lines with it. */
  lemma LinesRead(out: array<byte>, data: seq<byte>, w: nat, h: nat, bpp: nat, P: seq<byte>)
    requires (1 + LineBytes(w, bpp)) * h <= |data| && w > 0 && bpp > 0 && Lines(data, 0, w, h, bpp) == Some(P)
    requires LinesCopied(out, 0, w * bpp, PngBits(P), 0, 8 * LineBytes(w, bpp), w * bpp, h)
    ensures LinesMean(data, w, h, bpp, PngBits(out[..]))
  {
    hide Lines;
    hide LineBytes;
    hide Same;
    hide LineAt;
    hide PngBits;
    hide Copied;
    forall y: nat | y < h
      ensures Same(PngBits(P), LineAt(0, y, 8 * LineBytes(w, bpp)), PngBits(out[..]), LineAt(0, y, w * bpp), w * bpp)
    {
      CopiedIsSame(out, LineAt(0, y, w * bpp), PngBits(P), LineAt(0, y, 8 * LineBytes(w, bpp)), w * bpp);
      SameBack(PngBits(out[..]), LineAt(0, y, w * bpp), PngBits(P), LineAt(0, y, 8 * LineBytes(w, bpp)), w * bpp);
    }
  }

  /** ... and where there is no padding. */
  lemma WholeLinesRead(out: array<byte>, data: seq<byte>, w: nat, h: nat, bpp: nat, P: seq<byte>)
    requires (1 + LineBytes(w, bpp)) * h <= |data| && w > 0 && bpp > 0 && Lines(data, 0, w, h, bpp) == Some(P)
    requires 8 * LineBytes(w, bpp) == w * bpp && |P| == LineBytes(w, bpp) * h <= out.Length && out[0..|P|] == P
    ensures LinesMean(data, w, h, bpp, PngBits(out[..]))
  {
    hide Lines;
    hide LineBytes;
    hide BitOf;
    hide PngBits;
    hide LineAt;
    ArrayIsSource(out);
    UnpaddedLines(out, P, w, h, bpp, PngBits(out[..]));
  }

  /** The image of scanlines that are not interlaced. What is read is lost. */
  method PostProcessLines(out: array<byte>, input: array<byte>, w: nat, h: nat, bpp: nat) returns (error: nat)
    requires out != input && w > 0 && h > 0 && bpp > 0 && (bpp >= 8 ==> bpp % 8 == 0)
    requires (1 + LineBytes(w, bpp)) * h <= input.Length && w * h * bpp <= 8 * out.Length
    modifies out, input
    ensures error == if old(Lines(input[..], 0, w, h, bpp)).Some? then 0 else 36
    ensures error == 0 ==> LinesMean(old(input[..]), w, h, bpp, PngBits(out[..]))
  {
    hide LineBytes;
    hide ByteWidth;
    hide UnfilterRows;
    hide BitOf;
    hide PngBits;
    hide LineAt;
    hide LinesCopied;
    hide LinesMean;
    ghost var data := input[..];
    LineSizes(w, h, bpp);
    LineHoldsPixel(w, bpp);
    MulDist(1, LineBytes(w, bpp), h);
    assert data[0..(1 + LineBytes(w, bpp)) * h] == input[0..(1 + LineBytes(w, bpp)) * h];
    if bpp < 8 && w * bpp != LineBytes(w, bpp) * 8 {
      error := UnfilterImage(input, 0, input, 0, w, h, bpp);
      if error == 0 {
        ghost var P := Lines(data, 0, w, h, bpp).value;
        forall q: nat | q < 8 * |P|
          ensures BitOf(input, q) == PngBits(P)[q]
        {
          BitsOfPart(input, 0, P, q);
        }
        RemovePaddingBits(out, 0, input, 0, w * bpp, 8 * LineBytes(w, bpp), h, PngBits(P));
        LinesRead(out, data, w, h, bpp, P);
      }
    } else {
      WholeLines(w, bpp);
      error := UnfilterImage(out, 0, input, 0, w, h, bpp);
      if error == 0 {
        WholeLinesRead(out, data, w, h, bpp, Lines(data, 0, w, h, bpp).value);
      }
    }
  }

  /** The pixels of a pass are where the deinterlacer expects them. */
  ghost predicate PassUnpacked(a: array<byte>, data: seq<byte>, i: nat, w: nat, h: nat, bpp: nat)
    requires i < 7 && FilterStart(7, w, h, bpp) <= |data| && bpp > 0
    reads a
  {
    PassWidth(i, w, h) > 0 ==>
      && PassLines(data, i, w, h, bpp).Some?
      && forall x: nat, y: nat :: InPass(i, x, y, w, h) ==>
        Copied(a, PassBit(i, x, y, w, h, bpp), PngBits(PassLines(data, i, w, h, bpp).value), LineBit(i, x, y, w, h, bpp), bpp)
  }

  lemma CopiedPart(a: array<byte>, o: nat, src: seq<bit>, i: nat, n: nat, t: seq<bit>, at: nat, k: nat, m: nat)
    requires Copied(a, o, src, at + i, n) && k + m <= n && i + n <= |t|
    requires at + |t| <= |src| && forall q: nat :: q < |t| ==> src[at + q] == t[q]
    ensures Copied(a, o + k, t, i + k, m)
  {
    hide BitOf;
    forall q: nat | o + k <= q < o + k + m
      ensures BitOf(a, q) == t[i + k + (q - (o + k))]
    {
      assert src[at + (i + (q - o))] == t[i + (q - o)];
    }
  }

  /** A pixel of a pass, after its padding has been taken out. */
  lemma UnpaddedInPlace(a: array<byte>, src: seq<bit>, P: seq<byte>, i: nat, x: nat, y: nat, w: nat, h: nat, bpp: nat, at: nat)
    requires i < 7 && InPass(i, x, y, w, h) && |P| == LineBytes(PassWidth(i, w, h), bpp) * PassHeight(i, w, h)
    requires 8 * at + 8 * |P| <= |src| && forall q: nat :: q < 8 * |P| ==> src[8 * at + q] == PngBits(P)[q]
    requires var n, L := PassWidth(i, w, h) * bpp, 8 * LineBytes(PassWidth(i, w, h), bpp);
      Copied(a, LineAt(8 * PassStart(i, w, h, bpp), y, n), src, LineAt(8 * at, y, L), n)
    ensures Copied(a, PassBit(i, x, y, w, h, bpp), PngBits(P), LineBit(i, x, y, w, h, bpp), bpp)
  {
    hide PassWidth;
    hide PassHeight;
    hide PassStart;
    hide LineBytes;
    hide PassBit;
    hide BitOf;
    hide PngBits;
    hide Copied;
    PassPlaces(i, x, y, w, h, bpp);
    PlaceInLine(i, x, y, w, h, bpp);
    var pw, ph := PassWidth(i, w, h), PassHeight(i, w, h);
    var n, L := pw * bpp, 8 * LineBytes(pw, bpp);
    LineSizes(pw, ph, bpp);
    LinesFit(0, y, ph, L);
    CopiedPart(a, LineAt(8 * PassStart(i, w, h, bpp), y, n), src, LineAt(0, y, L), n, PngBits(P), 8 * at, x * bpp, bpp);
  }

  lemma InPlaceWithoutPadding(a: array<byte>, P: seq<byte>, i: nat, x: nat, y: nat, w: nat, h: nat, bpp: nat)
    requires i < 7 && InPass(i, x, y, w, h) && bpp % 8 == 0 && |P| == PaddedSize(i, w, h, bpp)
    requires var ps := PassStart(i, w, h, bpp); ps + |P| <= a.Length && a[ps..ps + |P|] == P
    ensures Copied(a, PassBit(i, x, y, w, h, bpp), PngBits(P), LineBit(i, x, y, w, h, bpp), bpp)
  {
    hide PassWidth;
    hide PassHeight;
    hide PassStart;
    hide LineBytes;
    hide PassBit;
    hide LineBit;
    hide BitOf;
    hide PngBits;
    hide PaddedSize;
    hide PassSize;
    var ps, o := PassStart(i, w, h, bpp), LineBit(i, x, y, w, h, bpp);
    PassBitInside(i, x, y, w, h, bpp);
    SizesOrdered(i, w, h, bpp);
    EvenBytes(PassWidth(i, w, h), bpp);
    PlaceInLine(i, x, y, w, h, bpp);
    PassPlaces(i, x, y, w, h, bpp);
    forall q: nat | 8 * ps + o <= q < 8 * ps + o + bpp
      ensures BitOf(a, q) == PngBits(P)[o + (q - (8 * ps + o))]
    {
      BitsOfPart(a, ps, P, q - 8 * ps);
    }
  }

  /** Takes the padding of one pass out, inside the buffer. */
  method UnpadPass(input: array<byte>, i: nat, passw: nat, passh: nat, padded_passstart: nat, passstart: nat, w: nat, h: nat, bpp: nat,
                   ghost P: seq<byte>)
    requires i < 7 && passw == PassWidth(i, w, h) && passh == PassHeight(i, w, h) && passstart == PassStart(i, w, h, bpp) <= padded_passstart
    requires |P| == LineBytes(passw, bpp) * passh && padded_passstart + |P| <= input.Length
    requires input[padded_passstart..padded_passstart + |P|] == P
    modifies input
    ensures forall x: nat, y: nat :: InPass(i, x, y, w, h) ==>
      Copied(input, PassBit(i, x, y, w, h, bpp), PngBits(P), LineBit(i, x, y, w, h, bpp), bpp)
    ensures OnlyBits(input, 8 * passstart, 8 * (passstart + PassSize(i, w, h, bpp)))
  {
    hide PassWidth;
    hide PassHeight;
    hide PassStart;
    hide PassSize;
    hide LineBytes;
    hide LineAt;
    hide BitOf;
    hide PngBits;
    hide PassBit;
    hide LineBit;
    ghost var src := PngBits(input[..])[..8 * (padded_passstart + |P|)];
    SourceOfPass(input, padded_passstart, P, src);
    LineSizes(passw, passh, bpp);
    PassEnds(i, w, h, bpp);
    LineShift(8 * padded_passstart, passh, 8 * LineBytes(passw, bpp));
    SizesOrdered(i, w, h, bpp);
    RemovePaddingBits(input, 8 * passstart, input, 8 * padded_passstart, passw * bpp, 8 * LineBytes(passw, bpp), passh, src);
    forall x: nat, y: nat | InPass(i, x, y, w, h)
      ensures Copied(input, PassBit(i, x, y, w, h, bpp), PngBits(P), LineBit(i, x, y, w, h, bpp), bpp)
    {
      UnpaddedInPlace(input, src, P, i, x, y, w, h, bpp, padded_passstart);
    }
  }

  lemma LineShift(base: nat, h: nat, n: nat)
    ensures LineAt(base, h, n) == base + LineAt(0, h, n)
  {
  }

  lemma SourceOfPass(input: array<byte>, at: nat, P: seq<byte>, src: seq<bit>)
    requires at + |P| <= input.Length && input[at..at + |P|] == P && src == PngBits(input[..])[..8 * (at + |P|)]
    ensures |src| == 8 * at + 8 * |P|
    ensures forall q: nat :: q < |src| ==> BitOf(input, q) == src[q]
    ensures forall q: nat :: q < 8 * |P| ==> src[8 * at + q] == PngBits(P)[q]
  {
    hide BitOf;
    hide PngBits;
    ArrayIsSource(input);
    forall q: nat | q < 8 * |P|
      ensures src[8 * at + q] == PngBits(P)[q]
    {
      BitsOfPart(input, at, P, q);
      assert src[8 * at + q] == BitOf(input, 8 * at + q);
    }
  }

  /** Unfilters one pass and takes its padding out, all inside the buffer. Nothing of the passes before is
      touched, and nothing of the passes that are still to come. */
  method UnpackPass(input: array<byte>, i: nat, passw: nat, passh: nat, filter_passstart: nat, padded_passstart: nat, passstart: nat,
                    w: nat, h: nat, bpp: nat, ghost data: seq<byte>) returns (error: nat)
    requires i < 7 && bpp > 0 && (bpp >= 8 ==> bpp % 8 == 0) && FilterStart(7, w, h, bpp) <= |data| == input.Length
    requires passw == PassWidth(i, w, h) && passh == PassHeight(i, w, h) && filter_passstart == FilterStart(i, w, h, bpp)
    requires padded_passstart == PaddedStart(i, w, h, bpp) && passstart == PassStart(i, w, h, bpp)
    requires forall k :: filter_passstart <= k < |data| ==> input[k] == data[k]
    modifies input
    ensures error == if passw > 0 && PassLines(data, i, w, h, bpp).None? then 36 else 0
    ensures error == 0 ==> PassUnpacked(input, data, i, w, h, bpp)
    ensures forall q: nat :: q < 8 * passstart && q < 8 * input.Length ==> BitOf(input, q) == old(BitOf(input, q))
    ensures forall k :: FilterStart(i + 1, w, h, bpp) <= k < input.Length ==> input[k] == data[k]
  {
    hide PassWidth;
    hide PassHeight;
    hide PassStart;
    hide PaddedStart;
    hide FilterStart;
    hide FilterSize;
    hide PaddedSize;
    hide PassSize;
    hide LineBytes;
    hide ByteWidth;
    hide UnfilterRows;
    hide PngBits;
    hide InPass;
    hide PassBit;
    hide LineBit;
    hide Copied;
    PassEnds(i, w, h, bpp);
    StartsOrdered(i, w, h, bpp);
    SizesOrdered(i, w, h, bpp);
    StartsGrow(i, i + 1, w, h, bpp);
    StartsGrow(i, 7, w, h, bpp);
    NoEmptyPass(i, w, h);
    if passw == 0 {
      return 0;
    }
    PassFits(i, w, h, bpp);
    assert input[filter_passstart..filter_passstart + FilterSize(i, w, h, bpp)] == data[filter_passstart..filter_passstart + FilterSize(i, w, h, bpp)];
    error := UnfilterImage(input, padded_passstart, input, filter_passstart, passw, passh, bpp);
    LowBitsStay(old(input[..]), input, padded_passstart, passstart);
    if error != 0 {
      return;
    }
    ghost var P := PassLines(data, i, w, h, bpp).value;
    if bpp < 8 {
      UnpadPass(input, i, passw, passh, padded_passstart, passstart, w, h, bpp, P);
    } else {
      forall x: nat, y: nat | InPass(i, x, y, w, h)
        ensures Copied(input, PassBit(i, x, y, w, h, bpp), PngBits(P), LineBit(i, x, y, w, h, bpp), bpp)
      {
        InPlaceWithoutPadding(input, P, i, x, y, w, h, bpp);
      }
    }
  }

  lemma LowBitsStay(before: seq<byte>, a: array<byte>, at: nat, ps: nat)
    requires |before| == a.Length && ps <= at && forall k :: 0 <= k < a.Length && k < at ==> a[k] == before[k]
    ensures forall q: nat :: q < 8 * ps && q < 8 * a.Length ==> BitOf(a, q) == PngBits(before)[q]
  {
  }

  /** A pass stays unpacked when the bits up to the next one stay. */
  lemma StillUnpacked(a: array<byte>, before: seq<bit>, data: seq<byte>, k: nat, x: nat, y: nat, i: nat, w: nat, h: nat, bpp: nat, t: seq<bit>, o: nat)
    requires k < i < 7 && InPass(k, x, y, w, h) && |before| == 8 * a.Length
    requires forall q: nat :: q < 8 * PassStart(i, w, h, bpp) && q < 8 * a.Length ==> BitOf(a, q) == before[q]
    requires PassBit(k, x, y, w, h, bpp) + bpp <= |before| && o + bpp <= |t|
    requires forall q: nat :: PassBit(k, x, y, w, h, bpp) <= q < PassBit(k, x, y, w, h, bpp) + bpp ==> before[q] == t[o + (q - PassBit(k, x, y, w, h, bpp))]
    ensures Copied(a, PassBit(k, x, y, w, h, bpp), t, o, bpp)
  {
    hide PassBit;
    hide PassStart;
    hide PassSize;
    hide InPass;
    hide BitOf;
    PassBitInside(k, x, y, w, h, bpp);
    StartsGrow(k, i, w, h, bpp);
  }

  lemma PassesStayUnpacked(a: array<byte>, before: seq<bit>, data: seq<byte>, i: nat, w: nat, h: nat, bpp: nat, k: nat)
    requires k < i < 7 && bpp > 0 && FilterStart(7, w, h, bpp) <= |data| && |before| == 8 * a.Length
    requires forall q: nat :: q < 8 * PassStart(i, w, h, bpp) && q < 8 * a.Length ==> BitOf(a, q) == before[q]
    requires PassWidth(k, w, h) > 0 ==>
      && PassLines(data, k, w, h, bpp).Some?
      && forall x: nat, y: nat :: InPass(k, x, y, w, h) ==>
        Same(before, PassBit(k, x, y, w, h, bpp), PngBits(PassLines(data, k, w, h, bpp).value), LineBit(k, x, y, w, h, bpp), bpp)
    ensures PassUnpacked(a, data, k, w, h, bpp)
  {
    hide PassBit;
    hide PassStart;
    hide LineBit;
    hide InPass;
    hide BitOf;
    hide PngBits;
    hide PassLines;
    hide PassWidth;
    hide FilterStart;
    hide Copied;
    if PassWidth(k, w, h) > 0 {
      var t := PngBits(PassLines(data, k, w, h, bpp).value);
      forall x: nat, y: nat | InPass(k, x, y, w, h)
        ensures Copied(a, PassBit(k, x, y, w, h, bpp), t, LineBit(k, x, y, w, h, bpp), bpp)
      {
        StillUnpacked(a, before, data, k, x, y, i, w, h, bpp, t, LineBit(k, x, y, w, h, bpp));
      }
    }
  }

  lemma UnpackedBits(a: array<byte>, data: seq<byte>, k: nat, w: nat, h: nat, bpp: nat)
    requires k < 7 && FilterStart(7, w, h, bpp) <= |data| && bpp > 0 && PassUnpacked(a, data, k, w, h, bpp)
    ensures PassWidth(k, w, h) > 0 ==>
      && PassLines(data, k, w, h, bpp).Some?
      && forall x: nat, y: nat :: InPass(k, x, y, w, h) ==>
        Same(PngBits(a[..]), PassBit(k, x, y, w, h, bpp), PngBits(PassLines(data, k, w, h, bpp).value), LineBit(k, x, y, w, h, bpp), bpp)
  {
    hide PassBit;
    hide LineBit;
    hide InPass;
    hide PngBits;
    hide PassLines;
    hide PassWidth;
    hide FilterStart;
    hide Copied;
    hide Same;
    if PassWidth(k, w, h) > 0 {
      var t := PngBits(PassLines(data, k, w, h, bpp).value);
      forall x: nat, y: nat | InPass(k, x, y, w, h)
        ensures Same(PngBits(a[..]), PassBit(k, x, y, w, h, bpp), t, LineBit(k, x, y, w, h, bpp), bpp)
      {
        CopiedIsSame(a, PassBit(k, x, y, w, h, bpp), t, LineBit(k, x, y, w, h, bpp), bpp);
      }
    }
  }

  /** All passes, one after the other in the same buffer. */
  method UnpackPasses(input: array<byte>, w: nat, h: nat, bpp: nat) returns (error: nat)
    requires bpp > 0 && (bpp >= 8 ==> bpp % 8 == 0) && FilterStart(7, w, h, bpp) <= input.Length
    modifies input
    ensures error == if Unfilterable(old(input[..]), w, h, bpp) then 0 else 36
    ensures error == 0 ==> forall k: nat :: k < 7 ==> PassUnpacked(input, old(input[..]), k, w, h, bpp)
  {
    hide PassWidth;
    hide PassHeight;
    hide PassStart;
    hide PaddedStart;
    hide FilterStart;
    hide PassLines;
    hide PassUnpacked;
    hide PngBits;
    hide BitOf;
    hide Same;
    ghost var data := input[..];
    var passw, passh, filter_passstart, padded_passstart, passstart := GetPassValues(w, h, bpp);
    for i := 0 to 7
      invariant forall k :: filter_passstart[i] <= k < |data| ==> input[k] == data[k]
      invariant forall k: nat :: k < i ==> PassUnpacked(input, data, k, w, h, bpp)
    {
      ghost var before := PngBits(input[..]);
      forall k: nat | k < i
        ensures PassWidth(k, w, h) > 0 ==>
          && PassLines(data, k, w, h, bpp).Some?
          && forall x: nat, y: nat :: InPass(k, x, y, w, h) ==>
            Same(before, PassBit(k, x, y, w, h, bpp), PngBits(PassLines(data, k, w, h, bpp).value), LineBit(k, x, y, w, h, bpp), bpp)
      {
        UnpackedBits(input, data, k, w, h, bpp);
      }
      ArrayIsSource(input);
      error := UnpackPass(input, i, passw[i], passh[i], filter_passstart[i], padded_passstart[i], passstart[i], w, h, bpp, data);
      if error != 0 {
        return;
      }
      forall k: nat | k < i
        ensures PassUnpacked(input, data, k, w, h, bpp)
      {
        PassesStayUnpacked(input, before, data, i, w, h, bpp, k);
      }
    }
    AllUnfilterable(input, data, w, h, bpp);
    error := 0;
  }

  lemma AllUnfilterable(a: array<byte>, data: seq<byte>, w: nat, h: nat, bpp: nat)
    requires FilterStart(7, w, h, bpp) <= |data| && bpp > 0
    requires forall k: nat :: k < 7 ==> PassUnpacked(a, data, k, w, h, bpp)
    ensures Unfilterable(data, w, h, bpp)
  {
    hide PassWidth;
    hide PassLines;
    hide FilterStart;
    hide Copied;
    forall i: nat | i < 7 && PassWidth(i, w, h) > 0
      ensures PassLines(data, i, w, h, bpp).Some?
    {
      assert PassUnpacked(a, data, i, w, h, bpp);
    }
  }

  /** All filter types of all passes are valid. */
  predicate Unfilterable(data: seq<byte>, w: nat, h: nat, bpp: nat)
    requires FilterStart(7, w, h, bpp) <= |data| && bpp > 0
  {
    forall i: nat :: i < 7 && PassWidth(i, w, h) > 0 ==> PassLines(data, i, w, h, bpp).Some?
  }

  /** The image of interlaced scanlines. What is read is lost. */
  method PostProcessPasses(out: array<byte>, input: array<byte>, w: nat, h: nat, bpp: nat) returns (error: nat)
    requires out != input && bpp > 0 && (bpp >= 8 ==> bpp % 8 == 0)
    requires FilterStart(7, w, h, bpp) <= input.Length && w * h * bpp <= 8 * out.Length
    modifies out, input
    ensures error == if Unfilterable(old(input[..]), w, h, bpp) then 0 else 36
    ensures error == 0 ==> PassesMean(old(input[..]), w, h, bpp, PngBits(out[..]))
  {
    hide PassStart;
    hide FilterStart;
    hide PassUnpacked;
    hide PassMeans;
    hide PngBits;
    hide Moved;
    hide Unfilterable;
    hide IsSource;
    ghost var data := input[..];
    error := UnpackPasses(input, w, h, bpp);
    if error != 0 {
      return;
    }
    StartsOrdered(7, w, h, bpp);
    ArrayIsSource(input);
    ghost var src := PngBits(input[..]);
    Adam7Deinterlace(out, input, w, h, bpp, src);
    forall i: nat | i < 7
      ensures PassMeans(data, i, w, h, bpp, PngBits(out[..]))
    {
      PassRead(out, input, data, src, i, w, h, bpp);
    }
  }

  lemma PassRead(out: array<byte>, input: array<byte>, data: seq<byte>, src: seq<bit>, i: nat, w: nat, h: nat, bpp: nat)
    requires i < 7 && bpp > 0 && FilterStart(7, w, h, bpp) <= |data| && PassUnpacked(input, data, i, w, h, bpp)
    requires src == PngBits(input[..]) && Moved(out, src, w, h, bpp, false, 7, 0, 0)
    ensures PassMeans(data, i, w, h, bpp, PngBits(out[..]))
  {
    hide PassWidth;
    hide PassLines;
    hide FilterStart;
    hide Copied;
    hide PngBits;
    hide PassBit;
    hide ImageBit;
    hide LineBit;
    hide InPass;
    hide Moved;
    hide Same;
    UnpackedBits(input, data, i, w, h, bpp);
    if PassWidth(i, w, h) > 0 {
      var t := PngBits(PassLines(data, i, w, h, bpp).value);
      forall x: nat, y: nat | InPass(i, x, y, w, h)
        ensures Same(t, LineBit(i, x, y, w, h, bpp), PngBits(out[..]), ImageBit(i, x, y, w, bpp), bpp)
      {
        var p, q, l := PassBit(i, x, y, w, h, bpp), ImageBit(i, x, y, w, bpp), LineBit(i, x, y, w, h, bpp);
        PixelMoved(out, src, i, x, y, w, h, bpp, false);
        CopiedIsSame(out, q, src, p, bpp);
        SameChain(PngBits(out[..]), q, src, p, t, l, bpp);
        SameBack(PngBits(out[..]), q, t, l, bpp);
      }
    }
  }

  lemma SameChain(s: seq<bit>, a: nat, t: seq<bit>, b: nat, u: seq<bit>, c: nat, n: nat)
    requires Same(s, a, t, b, n) && Same(t, b, u, c, n)
    ensures Same(s, a, u, c, n)
  {
    forall q: nat | a <= q < a + n
      ensures s[q] == u[c + (q - a)]
    {
      assert t[b + (q - a)] == u[c + (b + (q - a) - b)];
    }
  }

  /** The scanlines have valid filter types. */
  predicate Readable(data: seq<byte>, interlaced: bool, w: nat, h: nat, bpp: nat)
    requires ScanlinesSize(interlaced, w, h, bpp) <= |data| && w > 0 && bpp > 0
  {
    if interlaced then Unfilterable(data, w, h, bpp) else Lines(data, 0, w, h, bpp).Some?
  }

  /** Turns scanlines into the image that they mean. */
  method PostProcessScanlines(out: array<byte>, input: array<byte>, w: nat, h: nat, bpp: nat, interlaced: bool) returns (error: nat)
    requires out != input && w > 0 && h > 0 && (bpp >= 8 ==> bpp % 8 == 0)
    requires ScanlinesSize(interlaced, w, h, bpp) <= input.Length && w * h * bpp <= 8 * out.Length
    modifies out, input
    ensures bpp == 0 ==> error == 31
    ensures bpp > 0 ==> error == if old(Readable(input[..], interlaced, w, h, bpp)) then 0 else 36
    ensures error == 0 ==> ScanlinesMean(old(input[..]), interlaced, w, h, bpp, PngBits(out[..]))
  {
    hide Lines;
    hide FilterStart;
    hide PassesMean;
    hide LinesMean;
    hide LineBytes;
    hide Unfilterable;
    hide PngBits;
    if bpp == 0 {
      return 31;
    }
    if !interlaced {
      error := PostProcessLines(out, input, w, h, bpp);
    } else {
      error := PostProcessPasses(out, input, w, h, bpp);
    }
  }

  /** Scanlines that mean something can be read. */
  lemma MeaningIsReadable(data: seq<byte>, interlaced: bool, w: nat, h: nat, bpp: nat, image: seq<bit>)
    requires ScanlinesSize(interlaced, w, h, bpp) <= |data| && w > 0 && bpp > 0
    requires ScanlinesMean(data, interlaced, w, h, bpp, image)
    ensures Readable(data, interlaced, w, h, bpp)
  {
    hide Lines;
    hide PassLines;
    hide Same;
    hide FilterStart;
    hide LineBytes;
    hide InPass;
    hide PassWidth;
    if interlaced {
      forall i: nat | i < 7 && PassWidth(i, w, h) > 0
        ensures PassLines(data, i, w, h, bpp).Some?
      {
        assert PassMeans(data, i, w, h, bpp, image);
      }
    }
  }

  /** Post-processing undoes pre-processing, for every size, depth and filter choice, with and without
      interlacing: all bits of the image come back. */
  method ScanlinesRoundTrip(image: array<byte>, w: nat, h: nat, bpp: nat, interlaced: bool, strategy: Strategy) returns (error: nat, out: array<byte>)
    requires w > 0 && h > 0 && bpp > 0 && (bpp >= 8 ==> bpp % 8 == 0) && (strategy.Predefined? ==> |strategy.types| >= h)
    requires ValidStrategy(strategy) && 8 * image.Length == (w * h * bpp + 7) / 8 * 8
    ensures error == 0 && out.Length == image.Length
    ensures forall q: nat :: q < w * h * bpp ==> BitOf(out, q) == BitOf(image, q)
  {
    hide ScanlinesMean;
    hide ScanlinesSize;
    hide Readable;
    hide PngBits;
    hide BitOf;
    var scanlines := PreProcessScanlines(image, w, h, bpp, interlaced, strategy);
    ghost var data, bits := scanlines[..], PngBits(image[..]);
    MeaningIsReadable(data, interlaced, w, h, bpp, bits);
    out := new byte[image.Length](_ => 0);
    error := PostProcessScanlines(out, scanlines, w, h, bpp, interlaced);
    forall q: nat | q < w * h * bpp
      ensures BitOf(out, q) == BitOf(image, q)
    {
      MeaningIsUnique(data, interlaced, w, h, bpp, bits, PngBits(out[..]), q);
      BitOfArray(out, q);
      BitOfArray(image, q);
    }
  }
}
