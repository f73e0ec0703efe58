/** Adam7 interlacing (section 8 of the PNG specification): seven passes that share the pixels of an image,
    how their data is laid out, and the loops that move the pixels. */
module Adam7 {
  import opened Bits
  import opened FilteredImage

  const ADAM7_IX: seq<nat> := [0, 4, 0, 2, 0, 1, 0]
  const ADAM7_IY: seq<nat> := [0, 0, 4, 0, 2, 0, 1]
  const ADAM7_DX: seq<nat> := [8, 8, 4, 4, 2, 2, 1]
  const ADAM7_DY: seq<nat> := [8, 8, 8, 4, 4, 2, 2]

  // ---------------------------------------------------------------------------------------------
  // Passes
  // ---------------------------------------------------------------------------------------------

  /** How many of the positions start, start + step, ... are below `n`: (n + step - start - 1) / step, for
      each of the steps that the passes take. */
  function Steps(n: nat, start: nat, step: nat): nat
    requires start < step
  {
    if step == 1 then n
    else if step == 2 then (n + 1 - start) / 2
    else if step == 4 then (n + 3 - start) / 4
    else if step == 8 then (n + 7 - start) / 8
    else 0
  }

  lemma StepsCount(n: nat, start: nat, step: nat, x: nat)
    requires start < step && (step == 1 || step == 2 || step == 4 || step == 8)
    ensures x < Steps(n, start, step) <==> start + x * step < n
  {
  }

  lemma TablesFit(i: nat)
    requires i < 7
    ensures ADAM7_IX[i] < ADAM7_DX[i] && ADAM7_IY[i] < ADAM7_DY[i]
    ensures ADAM7_DX[i] == 1 || ADAM7_DX[i] == 2 || ADAM7_DX[i] == 4 || ADAM7_DX[i] == 8
    ensures ADAM7_DY[i] == 2 || ADAM7_DY[i] == 4 || ADAM7_DY[i] == 8
  {
  }

  /** Width and height of a pass; an empty pass has neither. */
  function PassWidth(i: nat, w: nat, h: nat): nat
    requires i < 7
  {
    TablesFit(i);
    if Steps(h, ADAM7_IY[i], ADAM7_DY[i]) == 0 then 0 else Steps(w, ADAM7_IX[i], ADAM7_DX[i])
  }

  function PassHeight(i: nat, w: nat, h: nat): nat
    requires i < 7
  {
    TablesFit(i);
    if Steps(w, ADAM7_IX[i], ADAM7_DX[i]) == 0 then 0 else Steps(h, ADAM7_IY[i], ADAM7_DY[i])
  }

  predicate InPass(i: nat, x: nat, y: nat, w: nat, h: nat)
    requires i < 7
  {
    x < PassWidth(i, w, h) && y < PassHeight(i, w, h)
  }

  /** Where a pixel of a pass is in the image. */
  function PixelX(i: nat, x: nat): nat
    requires i < 7
  {
    ADAM7_IX[i] + x * ADAM7_DX[i]
  }

  function PixelY(i: nat, y: nat): nat
    requires i < 7
  {
    ADAM7_IY[i] + y * ADAM7_DY[i]
  }

  /** The pixels of a pass are those of its grid that lie in the image. */
  lemma PassPixels(i: nat, x: nat, y: nat, w: nat, h: nat)
    requires i < 7
    ensures InPass(i, x, y, w, h) <==> PixelX(i, x) < w && PixelY(i, y) < h
  {
    TablesFit(i);
    StepsCount(w, ADAM7_IX[i], ADAM7_DX[i], x);
    StepsCount(h, ADAM7_IY[i], ADAM7_DY[i], y);
    StepsCount(w, ADAM7_IX[i], ADAM7_DX[i], 0);
    StepsCount(h, ADAM7_IY[i], ADAM7_DY[i], 0);
  }

  /** The pass that a pixel is in, by its position in a square of eight by eight. */
  function PassOf(px: nat, py: nat): (i: nat)
    ensures i < 7
  {
    if py % 2 == 1 then 6
    else if px % 2 == 1 then 5
    else if py % 4 == 2 then 4
    else if px % 4 == 2 then 3
    else if py % 8 == 4 then 2
    else if px % 8 == 4 then 1
    else 0
  }

  /** The picture in section 8.2 of the PNG specification: the passes of a square of eight by eight pixels. */
  const PATTERN: seq<string> :=
    ["16462646", "77777777", "56565656", "77777777", "36463646", "77777777", "56565656", "77777777"]

  lemma PassPattern(px: nat, py: nat)
    ensures var row := PATTERN[py % 8]; |row| == 8 && PassOf(px, py) + 1 == row[px % 8] as int - '0' as int
  {
    Octet(px);
    Octet(py);
    var x, y := px % 8, py % 8;
    assert PassOf(px, py) == PassOf(x, y);
  }

  /** Remainders by two, four and eight. */
  lemma Octet(p: nat)
    ensures p % 4 == p % 8 || p % 4 == p % 8 - 4
    ensures p % 2 == p % 4 || p % 2 == p % 4 - 2
  {
    var q, r := p / 8, p % 8;
    var r4 := if r < 4 then r else r - 4;
    DivModUnique(p, 4, if r < 4 then 2 * q else 2 * q + 1, r4);
    assert p % 2 == r4 % 2;
  }

  /** Every pixel is in a pass ... */
  lemma PassCovers(px: nat, py: nat) returns (x: nat, y: nat)
    ensures var i := PassOf(px, py); PixelX(i, x) == px && PixelY(i, y) == py
  {
    var i := PassOf(px, py);
    TablesFit(i);
    Octet(px);
    Octet(py);
    hide PixelX;
    hide PixelY;
    assert px % ADAM7_DX[i] == ADAM7_IX[i] && py % ADAM7_DY[i] == ADAM7_IY[i];
    x, y := px / ADAM7_DX[i], py / ADAM7_DY[i];
    PixelAt(i, px, py);
  }

  lemma PixelAt(i: nat, px: nat, py: nat)
    requires i < 7 && px % ADAM7_DX[i] == ADAM7_IX[i] && py % ADAM7_DY[i] == ADAM7_IY[i]
    ensures PixelX(i, px / ADAM7_DX[i]) == px && PixelY(i, py / ADAM7_DY[i]) == py
  {
  }

  /** ... and in no other, and at one place in it. */
  lemma PassUnique(i: nat, x: nat, y: nat)
    requires i < 7
    ensures PassOf(PixelX(i, x), PixelY(i, y)) == i
  {
    TablesFit(i);
    var px, py := PixelX(i, x), PixelY(i, y);
    DivModUnique(px, ADAM7_DX[i], x, ADAM7_IX[i]);
    DivModUnique(py, ADAM7_DY[i], y, ADAM7_IY[i]);
    Octet(px);
    Octet(py);
    hide PixelX;
    hide PixelY;
  }

  lemma PlaceUnique(i: nat, x: nat, y: nat, x': nat, y': nat)
    requires i < 7 && PixelX(i, x) == PixelX(i, x') && PixelY(i, y) == PixelY(i, y')
    ensures x == x' && y == y'
  {
  }

  // ---------------------------------------------------------------------------------------------
  // Layout of the data
  // ---------------------------------------------------------------------------------------------

  /** Bytes of a pass with filter types, with padded lines, and with only its end padded. */
  function FilterSize(i: nat, w: nat, h: nat, bpp: nat): nat
    requires i < 7
  {
    if PassWidth(i, w, h) > 0 && PassHeight(i, w, h) > 0 then PassHeight(i, w, h) * (1 + LineBytes(PassWidth(i, w, h), bpp)) else 0
  }

  function PaddedSize(i: nat, w: nat, h: nat, bpp: nat): nat
    requires i < 7
  {
    PassHeight(i, w, h) * LineBytes(PassWidth(i, w, h), bpp)
  }

  function PassSize(i: nat, w: nat, h: nat, bpp: nat): nat
    requires i < 7
  {
    (PassHeight(i, w, h) * PassWidth(i, w, h) * bpp + 7) / 8
  }

  function FilterStart(i: nat, w: nat, h: nat, bpp: nat): nat
    requires i <= 7
  {
    if i == 0 then 0 else FilterStart(i - 1, w, h, bpp) + FilterSize(i - 1, w, h, bpp)
  }

  function PaddedStart(i: nat, w: nat, h: nat, bpp: nat): nat
    requires i <= 7
  {
    if i == 0 then 0 else PaddedStart(i - 1, w, h, bpp) + PaddedSize(i - 1, w, h, bpp)
  }

  function PassStart(i: nat, w: nat, h: nat, bpp: nat): nat
    requires i <= 7
  {
    if i == 0 then 0 else PassStart(i - 1, w, h, bpp) + PassSize(i - 1, w, h, bpp)
  }

  lemma NoEmptyPass(i: nat, w: nat, h: nat)
    requires i < 7
    ensures PassWidth(i, w, h) == 0 <==> PassHeight(i, w, h) == 0
  {
  }

  lemma RoundUp(n: nat, m: nat)
    requires n <= 8 * m
    ensures (n + 7) / 8 <= m
    ensures n == 8 * m ==> (n + 7) / 8 == m
  {
  }

  /** Fewer bytes as padding goes: a pass is no larger without it. */
  lemma SizesOrdered(i: nat, w: nat, h: nat, bpp: nat)
    requires i < 7
    ensures PassSize(i, w, h, bpp) <= PaddedSize(i, w, h, bpp) <= FilterSize(i, w, h, bpp)
    ensures bpp % 8 == 0 ==> PassSize(i, w, h, bpp) == PaddedSize(i, w, h, bpp)
    ensures 8 * PassSize(i, w, h, bpp) >= PassHeight(i, w, h) * PassWidth(i, w, h) * bpp
  {
    hide PassWidth;
    hide PassHeight;
    var pw, ph := PassWidth(i, w, h), PassHeight(i, w, h);
    NoEmptyPass(i, w, h);
    SizesOfLines(pw, ph, bpp);
  }

  lemma SizesOfLines(pw: nat, ph: nat, bpp: nat)
    ensures (ph * pw * bpp + 7) / 8 <= ph * LineBytes(pw, bpp) <= ph * (1 + LineBytes(pw, bpp))
    ensures bpp % 8 == 0 ==> (ph * pw * bpp + 7) / 8 == ph * LineBytes(pw, bpp)
    ensures ph == 0 ==> ph * LineBytes(pw, bpp) == 0
    ensures pw == 0 ==> LineBytes(pw, bpp) == 0
  {
    var n, L := pw * bpp, LineBytes(pw, bpp);
    assert n <= 8 * L;
    MulMonotone(n, 8 * L, ph);
    MulAssoc(ph, pw, bpp);
    MulSwap(8 * L, ph, L);
    RoundUp(ph * pw * bpp, ph * L);
    MulDist(1, L, ph);
    if bpp % 8 == 0 {
      EvenBytes(pw, bpp);
      assert n == 8 * L;
    }
  }

  lemma EvenBytes(pw: nat, bpp: nat)
    requires bpp % 8 == 0
    ensures pw * bpp == 8 * LineBytes(pw, bpp) && LineBytes(pw, bpp) == pw * (bpp / 8)
  {
    var b := bpp / 8;
    assert bpp == 8 * b;
    assert pw * (8 * b) == 8 * (pw * b);
  }

  lemma MulAssoc(a: nat, b: nat, c: nat)
    ensures a * b * c == a * (b * c)
  {
  }

  lemma MulSwap(a: nat, b: nat, c: nat)
    requires a == 8 * c
    ensures a * b == 8 * (b * c)
  {
  }

  /** The three layouts start no later as padding goes, so that data moves towards the start only. */
  lemma {:induction false} StartsOrdered(i: nat, w: nat, h: nat, bpp: nat)
    requires i <= 7
    ensures PassStart(i, w, h, bpp) <= PaddedStart(i, w, h, bpp) <= FilterStart(i, w, h, bpp)
    ensures bpp % 8 == 0 ==> PassStart(i, w, h, bpp) == PaddedStart(i, w, h, bpp)
  {
    hide PassSize;
    hide PaddedSize;
    hide FilterSize;
    if i > 0 {
      StartsOrdered(i - 1, w, h, bpp);
      SizesOrdered(i - 1, w, h, bpp);
    }
  }

  lemma {:induction false} StartsGrow(i: nat, j: nat, w: nat, h: nat, bpp: nat)
    requires i < j <= 7
    ensures PassStart(i, w, h, bpp) + PassSize(i, w, h, bpp) <= PassStart(j, w, h, bpp)
    ensures PaddedStart(i, w, h, bpp) + PaddedSize(i, w, h, bpp) <= PaddedStart(j, w, h, bpp)
    ensures FilterStart(i, w, h, bpp) + FilterSize(i, w, h, bpp) <= FilterStart(j, w, h, bpp)
  {
    hide PassSize;
    hide PaddedSize;
    hide FilterSize;
    if i + 1 < j {
      StartsGrow(i, j - 1, w, h, bpp);
    }
  }

  /** The size that the decoder expects, pass by pass from the size of the image. */
  function ExpectedSize(w: nat, h: nat, bpp: nat): nat {
    RawSizeIdat((w + 7) / 8, (h + 7) / 8, bpp)
    + (if w > 4 then RawSizeIdat((w + 3) / 8, (h + 7) / 8, bpp) else 0)
    + RawSizeIdat((w + 3) / 4, (h + 3) / 8, bpp)
    + (if w > 2 then RawSizeIdat((w + 1) / 4, (h + 3) / 4, bpp) else 0)
    + RawSizeIdat((w + 1) / 2, (h + 1) / 4, bpp)
    + (if w > 1 then RawSizeIdat(w / 2, (h + 1) / 2, bpp) else 0)
    + RawSizeIdat(w, h / 2, bpp)
  }

  lemma PassRawSize(i: nat, w: nat, h: nat, bpp: nat, pw: nat, ph: nat)
    requires i < 7 && pw == Steps(w, ADAM7_IX[i], ADAM7_DX[i]) && ph == Steps(h, ADAM7_IY[i], ADAM7_DY[i])
    ensures FilterSize(i, w, h, bpp) == if pw == 0 then 0 else RawSizeIdat(pw, ph, bpp)
  {
    hide RawSizeIdat;
    hide LineBytes;
    RawSizeIsLines(pw, ph, bpp);
    if ph == 0 {
      NoHeight(1 + LineBytes(pw, bpp));
    }
  }

  lemma NoHeight(x: nat)
    ensures 0 * x == 0
  {
  }

  /** The expected size is the size of what the encoder writes. */
  lemma ExpectedSizeIsFilterStart(w: nat, h: nat, bpp: nat)
    requires w > 0 && h > 0
    ensures ExpectedSize(w, h, bpp) == FilterStart(7, w, h, bpp)
  {
    hide RawSizeIdat;
    hide FilterSize;
    hide FilterStart;
    FirstPasses(w, h, bpp);
    LastPasses(w, h, bpp);
    SevenSizes(w, h, bpp);
  }

  lemma FirstPasses(w: nat, h: nat, bpp: nat)
    requires w > 0
    ensures FilterSize(0, w, h, bpp) == RawSizeIdat((w + 7) / 8, (h + 7) / 8, bpp)
    ensures FilterSize(1, w, h, bpp) == if w > 4 then RawSizeIdat((w + 3) / 8, (h + 7) / 8, bpp) else 0
    ensures FilterSize(2, w, h, bpp) == RawSizeIdat((w + 3) / 4, (h + 3) / 8, bpp)
    ensures FilterSize(3, w, h, bpp) == if w > 2 then RawSizeIdat((w + 1) / 4, (h + 3) / 4, bpp) else 0
  {
    hide RawSizeIdat;
    hide FilterSize;
    PassRawSize(0, w, h, bpp, (w + 7) / 8, (h + 7) / 8);
    PassRawSize(1, w, h, bpp, (w + 3) / 8, (h + 7) / 8);
    PassRawSize(2, w, h, bpp, (w + 3) / 4, (h + 3) / 8);
    PassRawSize(3, w, h, bpp, (w + 1) / 4, (h + 3) / 4);
  }

  lemma LastPasses(w: nat, h: nat, bpp: nat)
    requires w > 0
    ensures FilterSize(4, w, h, bpp) == RawSizeIdat((w + 1) / 2, (h + 1) / 4, bpp)
    ensures FilterSize(5, w, h, bpp) == if w > 1 then RawSizeIdat(w / 2, (h + 1) / 2, bpp) else 0
    ensures FilterSize(6, w, h, bpp) == RawSizeIdat(w, h / 2, bpp)
  {
    hide RawSizeIdat;
    hide FilterSize;
    PassRawSize(4, w, h, bpp, (w + 1) / 2, (h + 1) / 4);
    PassRawSize(5, w, h, bpp, w / 2, (h + 1) / 2);
    PassRawSize(6, w, h, bpp, w, h / 2);
  }

  lemma NextStart(i: nat, w: nat, h: nat, bpp: nat)
    requires i < 7
    ensures FilterStart(0, w, h, bpp) == 0
    ensures FilterStart(i + 1, w, h, bpp) == FilterStart(i, w, h, bpp) + FilterSize(i, w, h, bpp)
  {
    hide FilterSize;
  }

  lemma SevenSizes(w: nat, h: nat, bpp: nat)
    ensures FilterStart(7, w, h, bpp) ==
      FilterSize(0, w, h, bpp) + FilterSize(1, w, h, bpp) + FilterSize(2, w, h, bpp) + FilterSize(3, w, h, bpp)
      + FilterSize(4, w, h, bpp) + FilterSize(5, w, h, bpp) + FilterSize(6, w, h, bpp)
  {
    hide FilterSize;
    hide FilterStart;
    NextStart(0, w, h, bpp);
    NextStart(1, w, h, bpp);
    NextStart(2, w, h, bpp);
    NextStart(3, w, h, bpp);
    NextStart(4, w, h, bpp);
    NextStart(5, w, h, bpp);
    NextStart(6, w, h, bpp);
  }

  method GetPassSizes(w: nat, h: nat) returns (passw: seq<nat>, passh: seq<nat>)
    ensures |passw| == |passh| == 7
    ensures forall i :: 0 <= i < 7 ==> passw[i] == PassWidth(i, w, h) && passh[i] == PassHeight(i, w, h)
  {
    passw, passh := [], [];
    for i := 0 to 7
      invariant |passw| == |passh| == i
      invariant forall k :: 0 <= k < i ==> passw[k] == PassWidth(k, w, h) && passh[k] == PassHeight(k, w, h)
    {
      TablesFit(i);
      var pw := (w + ADAM7_DX[i] - ADAM7_IX[i] - 1) / ADAM7_DX[i];
      var ph := (h + ADAM7_DY[i] - ADAM7_IY[i] - 1) / ADAM7_DY[i];
      SizesOfPass(i, w, h, pw, ph);
      if pw == 0 {
        ph := 0;
      }
      if ph == 0 {
        pw := 0;
      }
      hide PassWidth;
      hide PassHeight;
      passw, passh := passw + [pw], passh + [ph];
    }
  }

  lemma SizesOfPass(i: nat, w: nat, h: nat, pw: nat, ph: nat)
    requires i < 7 && ADAM7_IX[i] < ADAM7_DX[i] && ADAM7_IY[i] < ADAM7_DY[i]
    requires pw == (w + ADAM7_DX[i] - ADAM7_IX[i] - 1) / ADAM7_DX[i] && ph == (h + ADAM7_DY[i] - ADAM7_IY[i] - 1) / ADAM7_DY[i]
    ensures PassWidth(i, w, h) == (if ph == 0 then 0 else pw) && PassHeight(i, w, h) == if pw == 0 then 0 else ph
  {
  }

  /** Sizes and starts of all passes. */
  method GetPassValues(w: nat, h: nat, bpp: nat)
    returns (passw: seq<nat>, passh: seq<nat>, filter_passstart: seq<nat>, padded_passstart: seq<nat>, passstart: seq<nat>)
    ensures |passw| == |passh| == 7
    ensures forall i :: 0 <= i < 7 ==> passw[i] == PassWidth(i, w, h) && passh[i] == PassHeight(i, w, h)
    ensures |filter_passstart| == 8 && forall i :: 0 <= i <= 7 ==> filter_passstart[i] == FilterStart(i, w, h, bpp)
    ensures |padded_passstart| == 8 && forall i :: 0 <= i <= 7 ==> padded_passstart[i] == PaddedStart(i, w, h, bpp)
    ensures |passstart| == 8 && forall i :: 0 <= i <= 7 ==> passstart[i] == PassStart(i, w, h, bpp)
  {
    hide PassWidth;
    hide PassHeight;
    hide FilterStart;
    hide PaddedStart;
    hide PassStart;
    passw, passh := GetPassSizes(w, h);
    StartsStep(0, w, h, bpp, passw[0], passh[0]);
    filter_passstart, padded_passstart, passstart := [0], [0], [0];
    for i := 0 to 7
      invariant |filter_passstart| == |padded_passstart| == |passstart| == i + 1
      invariant forall k :: 0 <= k <= i ==> filter_passstart[k] == FilterStart(k, w, h, bpp)
      invariant forall k :: 0 <= k <= i ==> padded_passstart[k] == PaddedStart(k, w, h, bpp)
      invariant forall k :: 0 <= k <= i ==> passstart[k] == PassStart(k, w, h, bpp)
    {
      StartsStep(i, w, h, bpp, passw[i], passh[i]);
      var f := filter_passstart[i] + if passw[i] > 0 && passh[i] > 0 then passh[i] * (1 + (passw[i] * bpp + 7) / 8) else 0;
      var p := padded_passstart[i] + passh[i] * ((passw[i] * bpp + 7) / 8);
      var s := passstart[i] + (passh[i] * passw[i] * bpp + 7) / 8;
      filter_passstart, padded_passstart, passstart := filter_passstart + [f], padded_passstart + [p], passstart + [s];
    }
  }

  lemma StartsStep(i: nat, w: nat, h: nat, bpp: nat, pw: nat, ph: nat)
    requires i < 7 && pw == PassWidth(i, w, h) && ph == PassHeight(i, w, h)
    ensures FilterStart(0, w, h, bpp) == PaddedStart(0, w, h, bpp) == PassStart(0, w, h, bpp) == 0
    ensures FilterStart(i + 1, w, h, bpp) == FilterStart(i, w, h, bpp) + if pw > 0 && ph > 0 then ph * (1 + (pw * bpp + 7) / 8) else 0
    ensures PaddedStart(i + 1, w, h, bpp) == PaddedStart(i, w, h, bpp) + ph * ((pw * bpp + 7) / 8)
    ensures PassStart(i + 1, w, h, bpp) == PassStart(i, w, h, bpp) + (ph * pw * bpp + 7) / 8
  {
    hide PassWidth;
    hide PassHeight;
  }
}
