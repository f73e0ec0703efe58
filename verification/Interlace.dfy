/** Interlacing and deinterlacing: every pixel of the seven passes is moved once, between its place in the
    image and its place in the data of its pass. */
module Interlace {
  import opened Bits
  import opened FilteredImage
  import opened ImageBits
  import opened Adam7

  /** The place of a pixel in rows of `n` pixels. */
  function PlaceAfter(base: nat, y: nat, n: nat, x: nat, bpp: nat): nat {
    base + (y * n + x) * bpp
  }

  /** The first bit of a pixel in the image, and in the data of the passes. */
  function ImageBit(i: nat, x: nat, y: nat, w: nat, bpp: nat): nat
    requires i < 7
  {
    PlaceAfter(0, PixelY(i, y), w, PixelX(i, x), bpp)
  }

  function PassBit(i: nat, x: nat, y: nat, w: nat, h: nat, bpp: nat): nat
    requires i < 7
  {
    PlaceAfter(8 * PassStart(i, w, h, bpp), y, PassWidth(i, w, h), x, bpp)
  }

  // ---------------------------------------------------------------------------------------------
  // No two pixels share bits
  // ---------------------------------------------------------------------------------------------

  lemma IndexApart(a: nat, b: nat, n: nat)
    requires a < b
    ensures a * n + n <= b * n
  {
    MulMonotone(a + 1, b, n);
    MulDist(a, 1, n);
  }

  /** Row and column determine the place in a grid, and the other way round. */
  lemma GridIndex(x: nat, y: nat, x': nat, y': nat, n: nat)
    requires x < n && x' < n && y * n + x == y' * n + x'
    ensures x == x' && y == y'
  {
    DivModUnique(y * n + x, n, y, x);
    DivModUnique(y * n + x, n, y', x');
  }

  lemma GridInside(x: nat, y: nat, n: nat, m: nat)
    requires x < n && y < m
    ensures y * n + x < m * n
  {
    MulMonotone(y + 1, m, n);
    MulDist(y, 1, n);
  }

  lemma ImageBitsApart(i: nat, x: nat, y: nat, i': nat, x': nat, y': nat, w: nat, h: nat, bpp: nat)
    requires i < 7 && i' < 7 && InPass(i, x, y, w, h) && InPass(i', x', y', w, h) && (i, x, y) != (i', x', y')
    ensures var a, b := ImageBit(i, x, y, w, bpp), ImageBit(i', x', y', w, bpp);
      a + bpp <= b || b + bpp <= a
  {
    hide InPass;
    hide PixelX;
    hide PixelY;
    hide PassOf;
    PassPixels(i, x, y, w, h);
    PassPixels(i', x', y', w, h);
    var a, b := PixelY(i, y) * w + PixelX(i, x), PixelY(i', y') * w + PixelX(i', x');
    if a == b {
      GridIndex(PixelX(i, x), PixelY(i, y), PixelX(i', x'), PixelY(i', y'), w);
      PassUnique(i, x, y);
      PassUnique(i', x', y');
      PlaceUnique(i, x, y, x', y');
      assert false;
    } else if a < b {
      IndexApart(a, b, bpp);
    } else {
      IndexApart(b, a, bpp);
    }
  }

  lemma ImageBitInside(i: nat, x: nat, y: nat, w: nat, h: nat, bpp: nat)
    requires i < 7 && InPass(i, x, y, w, h)
    ensures ImageBit(i, x, y, w, bpp) + bpp <= w * h * bpp
  {
    hide InPass;
    hide PixelX;
    hide PixelY;
    PassPixels(i, x, y, w, h);
    GridInside(PixelX(i, x), PixelY(i, y), w, h);
    IndexApart(PixelY(i, y) * w + PixelX(i, x), h * w, bpp);
  }

  lemma PlaceInside(start: nat, size: nat, x: nat, y: nat, pw: nat, ph: nat, bpp: nat)
    requires x < pw && y < ph && 8 * size >= ph * pw * bpp
    ensures 8 * start <= PlaceAfter(8 * start, y, pw, x, bpp) && PlaceAfter(8 * start, y, pw, x, bpp) + bpp <= 8 * (start + size)
  {
    GridInside(x, y, pw, ph);
    IndexApart(y * pw + x, ph * pw, bpp);
  }

  lemma PassBitInside(i: nat, x: nat, y: nat, w: nat, h: nat, bpp: nat)
    requires i < 7 && InPass(i, x, y, w, h)
    ensures 8 * PassStart(i, w, h, bpp) <= PassBit(i, x, y, w, h, bpp)
    ensures PassBit(i, x, y, w, h, bpp) + bpp <= 8 * (PassStart(i, w, h, bpp) + PassSize(i, w, h, bpp))
  {
    hide PassWidth;
    hide PassHeight;
    hide PassStart;
    hide PassSize;
    hide PlaceAfter;
    SizesOrdered(i, w, h, bpp);
    PlaceInside(PassStart(i, w, h, bpp), PassSize(i, w, h, bpp), x, y, PassWidth(i, w, h), PassHeight(i, w, h), bpp);
  }

  lemma PassBitsApart(i: nat, x: nat, y: nat, i': nat, x': nat, y': nat, w: nat, h: nat, bpp: nat)
    requires i < 7 && i' < 7 && InPass(i, x, y, w, h) && InPass(i', x', y', w, h) && (i, x, y) != (i', x', y')
    ensures var a, b := PassBit(i, x, y, w, h, bpp), PassBit(i', x', y', w, h, bpp);
      a + bpp <= b || b + bpp <= a
  {
    hide PassWidth;
    hide PassHeight;
    hide PassSize;
    hide PassStart;
    if i == i' {
      var pw := PassWidth(i, w, h);
      var a, b := y * pw + x, y' * pw + x';
      if a == b {
        GridIndex(x, y, x', y', pw);
        assert false;
      } else if a < b {
        IndexApart(a, b, bpp);
      } else {
        IndexApart(b, a, bpp);
      }
    } else {
      PassBitInside(i, x, y, w, h, bpp);
      PassBitInside(i', x', y', w, h, bpp);
      if i < i' {
        StartsGrow(i, i', w, h, bpp);
      } else {
        StartsGrow(i', i, w, h, bpp);
      }
    }
  }

  // ---------------------------------------------------------------------------------------------
  // Moving pixels
  // ---------------------------------------------------------------------------------------------

  /** Where a pixel goes and where it comes from. */
  function Target(toPasses: bool, i: nat, x: nat, y: nat, w: nat, h: nat, bpp: nat): nat
    requires i < 7
  {
    if toPasses then PassBit(i, x, y, w, h, bpp) else ImageBit(i, x, y, w, bpp)
  }

  function Source(toPasses: bool, i: nat, x: nat, y: nat, w: nat, h: nat, bpp: nat): nat
    requires i < 7
  {
    if toPasses then ImageBit(i, x, y, w, bpp) else PassBit(i, x, y, w, h, bpp)
  }

  predicate Before(i': nat, y': nat, x': nat, i: nat, y: nat, x: nat) {
    i' < i || (i' == i && (y' < y || (y' == y && x' < x)))
  }

  /** All pixels before this one are at their place. */
  ghost predicate Moved(out: array<byte>, src: seq<bit>, w: nat, h: nat, bpp: nat, toPasses: bool, i: nat, y: nat, x: nat)
    reads out
  {
    forall i': nat, x': nat, y': nat :: i' < 7 && InPass(i', x', y', w, h) && Before(i', y', x', i, y, x) ==>
      Copied(out, Target(toPasses, i', x', y', w, h, bpp), src, Source(toPasses, i', x', y', w, h, bpp), bpp)
  }

  lemma TargetsApart(toPasses: bool, i: nat, x: nat, y: nat, i': nat, x': nat, y': nat, w: nat, h: nat, bpp: nat)
    requires i < 7 && i' < 7 && InPass(i, x, y, w, h) && InPass(i', x', y', w, h) && (i, x, y) != (i', x', y')
    ensures var a, b := Target(toPasses, i, x, y, w, h, bpp), Target(toPasses, i', x', y', w, h, bpp);
      a + bpp <= b || b + bpp <= a
  {
    hide ImageBit;
    hide PassBit;
    if toPasses {
      PassBitsApart(i, x, y, i', x', y', w, h, bpp);
    } else {
      ImageBitsApart(i, x, y, i', x', y', w, h, bpp);
    }
  }

  /** Copies a pixel of whole bytes. */
  method CopyPixelBytes(out: array<byte>, pixeloutstart: nat, input: array<byte>, pixelinstart: nat, bytewidth: nat, ghost src: seq<bit>)
    requires out != input && pixeloutstart + bytewidth <= out.Length && pixelinstart + bytewidth <= input.Length
    requires Copied(input, 8 * pixelinstart, src, 8 * pixelinstart, 8 * bytewidth)
    modifies out
    ensures Copied(out, 8 * pixeloutstart, src, 8 * pixelinstart, 8 * bytewidth)
    ensures OnlyBits(out, 8 * pixeloutstart, 8 * pixeloutstart + 8 * bytewidth)
  {
    for b := 0 to bytewidth
      invariant out[pixeloutstart..pixeloutstart + b] == input[pixelinstart..pixelinstart + b]
      invariant forall k :: 0 <= k < out.Length && !(pixeloutstart <= k < pixeloutstart + bytewidth) ==> out[k] == old(out[k])
    {
      out[pixeloutstart + b] := input[pixelinstart + b];
    }
    forall q: nat | 8 * pixeloutstart <= q < 8 * pixeloutstart + 8 * bytewidth
      ensures BitOf(out, q) == src[8 * pixelinstart + (q - 8 * pixeloutstart)]
    {
      var p := 8 * pixelinstart + (q - 8 * pixeloutstart);
      var k := q / 8 - pixeloutstart;
      assert out[pixeloutstart..pixeloutstart + bytewidth][k] == input[pixelinstart..pixelinstart + bytewidth][k];
      SameBitOfByte(out, q, input, p, pixeloutstart, pixelinstart, k, q % 8);
    }
  }

  lemma SameBitOfByte(a: array<byte>, q: nat, b: array<byte>, p: nat, at: nat, bt: nat, k: nat, r: nat)
    requires r < 8 && q == 8 * (at + k) + r && p == 8 * (bt + k) + r && q < 8 * a.Length && p < 8 * b.Length
    requires a[at + k] == b[bt + k]
    ensures BitOf(a, q) == BitOf(b, p)
  {
  }

  /** One pixel more. */
  method MovePixel(out: array<byte>, o: nat, input: array<byte>, from: nat, w: nat, h: nat, bpp: nat, toPasses: bool,
                   ghost i: nat, ghost y: nat, ghost x: nat, ghost src: seq<bit>)
    requires out != input && i < 7 && InPass(i, x, y, w, h)
    requires o == Target(toPasses, i, x, y, w, h, bpp) && from == Source(toPasses, i, x, y, w, h, bpp)
    requires o + bpp <= 8 * out.Length && Copied(input, from, src, from, bpp)
    requires bpp >= 8 ==> o % 8 == 0 && from % 8 == 0 && bpp % 8 == 0
    requires Moved(out, src, w, h, bpp, toPasses, i, y, x)
    modifies out
    ensures Moved(out, src, w, h, bpp, toPasses, i, y, x + 1)
  {
    hide BitOf;
    hide InPass;
    hide Target;
    hide Source;
    if bpp >= 8 {
      CopyPixelBytes(out, o / 8, input, from / 8, bpp / 8, src);
    } else {
      CopyBits(out, o, input, from, bpp, src);
    }
    assert Copied(out, o, src, from, bpp) && OnlyBits(out, o, o + bpp);
    forall i': nat, x': nat, y': nat | i' < 7 && InPass(i', x', y', w, h) && Before(i', y', x', i, y, x + 1)
      ensures Copied(out, Target(toPasses, i', x', y', w, h, bpp), src, Source(toPasses, i', x', y', w, h, bpp), bpp)
    {
      if (i', x', y') != (i, x, y) {
        TargetsApart(toPasses, i, x, y, i', x', y', w, h, bpp);
        assert old(Copied(out, Target(toPasses, i', x', y', w, h, bpp), src, Source(toPasses, i', x', y', w, h, bpp), bpp));
      }
    }
  }

  // ---------------------------------------------------------------------------------------------
  // Moving passes
  // ---------------------------------------------------------------------------------------------

  lemma BytePositions(i: nat, x: nat, y: nat, w: nat, h: nat, bpp: nat)
    requires i < 7 && bpp % 8 == 0
    ensures 8 * ((PixelY(i, y) * w + PixelX(i, x)) * (bpp / 8)) == ImageBit(i, x, y, w, bpp)
    ensures 8 * (PassStart(i, w, h, bpp) + (y * PassWidth(i, w, h) + x) * (bpp / 8)) == PassBit(i, x, y, w, h, bpp)
  {
    hide PixelX;
    hide PixelY;
    hide PassStart;
    hide PassWidth;
    EightTimes(PixelY(i, y) * w + PixelX(i, x), bpp / 8, bpp);
    EightTimes(y * PassWidth(i, w, h) + x, bpp / 8, bpp);
  }

  lemma EightTimes(a: nat, b: nat, c: nat)
    requires c == 8 * b
    ensures 8 * (a * b) == a * c
  {
    assert a * (8 * b) == 8 * (a * b);
  }

  lemma BitPositions(i: nat, x: nat, y: nat, w: nat, h: nat, bpp: nat)
    requires i < 7
    ensures PixelY(i, y) * (bpp * w) + PixelX(i, x) * bpp == ImageBit(i, x, y, w, bpp)
    ensures 8 * PassStart(i, w, h, bpp) + (y * (bpp * PassWidth(i, w, h)) + x * bpp) == PassBit(i, x, y, w, h, bpp)
  {
    hide PixelX;
    hide PixelY;
    hide PassStart;
    hide PassWidth;
    LineBits(PixelY(i, y), w, PixelX(i, x), bpp);
    LineBits(y, PassWidth(i, w, h), x, bpp);
  }

  lemma LineBits(y: nat, w: nat, x: nat, bpp: nat)
    ensures y * (bpp * w) + x * bpp == (y * w + x) * bpp
  {
    MulDist(y * w, x, bpp);
    assert y * (bpp * w) == y * w * bpp;
  }

  /** The buffers hold the image and the passes. */
  predicate Room(toPasses: bool, outbits: nat, inbits: nat, w: nat, h: nat, bpp: nat) {
    && 8 * PassStart(7, w, h, bpp) <= (if toPasses then outbits else inbits)
    && w * h * bpp <= (if toPasses then inbits else outbits)
  }

  lemma PixelHasRoom(toPasses: bool, outbits: nat, inbits: nat, i: nat, x: nat, y: nat, w: nat, h: nat, bpp: nat)
    requires i < 7 && InPass(i, x, y, w, h) && Room(toPasses, outbits, inbits, w, h, bpp)
    ensures Target(toPasses, i, x, y, w, h, bpp) + bpp <= outbits && Source(toPasses, i, x, y, w, h, bpp) + bpp <= inbits
  {
    hide InPass;
    hide ImageBit;
    hide PassBit;
    hide PassStart;
    hide PassSize;
    ImageBitInside(i, x, y, w, h, bpp);
    PassBitInside(i, x, y, w, h, bpp);
    StartsGrow(i, 7, w, h, bpp);
  }

  ghost predicate IsSource(input: array<byte>, src: seq<bit>)
    reads input
  {
    |src| == 8 * input.Length && forall q: nat :: q < |src| ==> BitOf(input, q) == src[q]
  }

  /** A pixel of whole bytes, at its place in the image and in the pass. */
  method MovePixelAt(out: array<byte>, input: array<byte>, i: nat, x: nat, y: nat, passw: nat, passstart: nat, w: nat, h: nat, bpp: nat,
                     toPasses: bool, ghost src: seq<bit>)
    requires out != input && i < 7 && InPass(i, x, y, w, h) && Room(toPasses, 8 * out.Length, 8 * input.Length, w, h, bpp) && IsSource(input, src)
    requires passw == PassWidth(i, w, h) && passstart == PassStart(i, w, h, bpp) && (bpp >= 8 ==> bpp % 8 == 0)
    requires Moved(out, src, w, h, bpp, toPasses, i, y, x)
    modifies out
    ensures Moved(out, src, w, h, bpp, toPasses, i, y, x + 1)
  {
    hide BitOf;
    hide InPass;
    hide Moved;
    hide PassStart;
    hide PassWidth;
    hide Room;
    hide ImageBit;
    hide PassBit;
    var image, pass;
    if bpp >= 8 {
      var bytewidth := bpp / 8;
      BytePositions(i, x, y, w, h, bpp);
      image := 8 * (((ADAM7_IY[i] + y * ADAM7_DY[i]) * w + (ADAM7_IX[i] + x * ADAM7_DX[i])) * bytewidth);
      pass := 8 * (passstart + (y * passw + x) * bytewidth);
    } else {
      BitPositions(i, x, y, w, h, bpp);
      var ilinebits, olinebits := bpp * passw, bpp * w;
      image := (ADAM7_IY[i] + y * ADAM7_DY[i]) * olinebits + (ADAM7_IX[i] + x * ADAM7_DX[i]) * bpp;
      pass := 8 * passstart + (y * ilinebits + x * bpp);
    }
    PixelHasRoom(toPasses, 8 * out.Length, 8 * input.Length, i, x, y, w, h, bpp);
    if toPasses {
      MovePixel(out, pass, input, image, w, h, bpp, true, i, y, x, src);
    } else {
      MovePixel(out, image, input, pass, w, h, bpp, false, i, y, x, src);
    }
  }

  method MovePass(out: array<byte>, input: array<byte>, i: nat, passw: nat, passh: nat, passstart: nat, w: nat, h: nat, bpp: nat,
                  toPasses: bool, ghost src: seq<bit>)
    requires out != input && i < 7 && Room(toPasses, 8 * out.Length, 8 * input.Length, w, h, bpp) && IsSource(input, src)
    requires passw == PassWidth(i, w, h) && passh == PassHeight(i, w, h) && passstart == PassStart(i, w, h, bpp)
    requires bpp >= 8 ==> bpp % 8 == 0
    requires Moved(out, src, w, h, bpp, toPasses, i, 0, 0)
    modifies out
    ensures Moved(out, src, w, h, bpp, toPasses, i + 1, 0, 0)
  {
    hide BitOf;
    hide PassStart;
    hide PassWidth;
    hide PassHeight;
    hide Moved;
    hide Room;
    for y := 0 to passh
      invariant Moved(out, src, w, h, bpp, toPasses, i, y, 0)
    {
      for x := 0 to passw
        invariant Moved(out, src, w, h, bpp, toPasses, i, y, x)
      {
        MovePixelAt(out, input, i, x, y, passw, passstart, w, h, bpp, toPasses, src);
      }
      RowMoved(out, src, w, h, bpp, toPasses, i, y);
    }
    PassMoved(out, src, w, h, bpp, toPasses, i);
  }

  lemma RowMoved(out: array<byte>, src: seq<bit>, w: nat, h: nat, bpp: nat, toPasses: bool, i: nat, y: nat)
    requires i < 7 && Moved(out, src, w, h, bpp, toPasses, i, y, PassWidth(i, w, h))
    ensures Moved(out, src, w, h, bpp, toPasses, i, y + 1, 0)
  {
    hide Copied;
    hide PassWidth;
    hide PassHeight;
  }

  lemma PassMoved(out: array<byte>, src: seq<bit>, w: nat, h: nat, bpp: nat, toPasses: bool, i: nat)
    requires i < 7 && Moved(out, src, w, h, bpp, toPasses, i, PassHeight(i, w, h), 0)
    ensures Moved(out, src, w, h, bpp, toPasses, i + 1, 0, 0)
  {
    hide Copied;
    hide PassWidth;
    hide PassHeight;
  }

  /** All pixels of an image, to the passes. */
  method Adam7Interlace(out: array<byte>, input: array<byte>, w: nat, h: nat, bpp: nat, ghost src: seq<bit>)
    requires out != input && (bpp >= 8 ==> bpp % 8 == 0) && IsSource(input, src)
    requires 8 * PassStart(7, w, h, bpp) <= 8 * out.Length && w * h * bpp <= 8 * input.Length
    modifies out
    ensures Moved(out, src, w, h, bpp, true, 7, 0, 0)
  {
    MoveAll(out, input, w, h, bpp, true, src);
  }

  /** All pixels of the passes, to the image. */
  method Adam7Deinterlace(out: array<byte>, input: array<byte>, w: nat, h: nat, bpp: nat, ghost src: seq<bit>)
    requires out != input && (bpp >= 8 ==> bpp % 8 == 0) && IsSource(input, src)
    requires 8 * PassStart(7, w, h, bpp) <= 8 * input.Length && w * h * bpp <= 8 * out.Length
    modifies out
    ensures Moved(out, src, w, h, bpp, false, 7, 0, 0)
  {
    MoveAll(out, input, w, h, bpp, false, src);
  }

  method MoveAll(out: array<byte>, input: array<byte>, w: nat, h: nat, bpp: nat, toPasses: bool, ghost src: seq<bit>)
    requires out != input && (bpp >= 8 ==> bpp % 8 == 0) && IsSource(input, src)
    requires Room(toPasses, 8 * out.Length, 8 * input.Length, w, h, bpp)
    modifies out
    ensures Moved(out, src, w, h, bpp, toPasses, 7, 0, 0)
  {
    hide BitOf;
    hide Moved;
    hide Room;
    hide PassStart;
    hide PassWidth;
    hide PassHeight;
    var passw, passh, filter_passstart, padded_passstart, passstart := GetPassValues(w, h, bpp);
    NothingMoved(out, src, w, h, bpp, toPasses);
    for i := 0 to 7
      invariant Moved(out, src, w, h, bpp, toPasses, i, 0, 0)
    {
      MovePass(out, input, i, passw[i], passh[i], passstart[i], w, h, bpp, toPasses, src);
    }
  }

  lemma NothingMoved(out: array<byte>, src: seq<bit>, w: nat, h: nat, bpp: nat, toPasses: bool)
    ensures Moved(out, src, w, h, bpp, toPasses, 0, 0, 0)
  {
  }
}
