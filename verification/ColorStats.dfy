/** What is counted about the colours of a grey image, and the colour model chosen from it. */
module ColorStats {
  import opened Bits
  import opened Wrappers
  import opened ColorTree
  import opened Pixels
  import opened ColorChoice

  predicate IsImage(data: seq<byte>, d: nat, n: nat) {
    IsDepth(d) && n * d <= 8 * |data|
  }

  lemma Inside(data: seq<byte>, d: nat, n: nat, i: nat)
    requires IsImage(data, d, n) && i < n
    ensures (i + 1) * d <= 8 * |data|
  {
    MulLess(i, n, d);
  }

  /** The grey of a pixel of an image. */
  function GreyIn(data: seq<byte>, d: nat, n: nat, i: nat): byte
    requires IsImage(data, d, n) && i < n
  {
    Inside(data, d, n, i);
    GreyAt(data, i, d)
  }

  // ---------------------------------------------------------------------------------------------
  // Statistics
  // ---------------------------------------------------------------------------------------------

  /** The fewest bits that all of the first `i` pixels can do with. */
  ghost predicate BitsOfGreys(data: seq<byte>, d: nat, n: nat, i: nat, bits: nat)
    requires IsImage(data, d, n) && i <= n
  {
    && IsDepth(bits)
    && (forall k: nat :: k < i ==> ValueRequiredBits(GreyIn(data, d, n, k)) <= bits)
    && (bits > 1 ==> exists k: nat :: k < i && ValueRequiredBits(GreyIn(data, d, n, k)) == bits)
  }

  predicate Distinct(palette: seq<Color>) {
    forall i, j :: 0 <= i < j < |palette| ==> palette[i] != palette[j]
  }

  /** Colours of the first `i` pixels, none of them twice. */
  ghost predicate SomeColors(data: seq<byte>, d: nat, n: nat, i: nat, palette: seq<Color>)
    requires IsImage(data, d, n) && i <= n
  {
    Distinct(palette) && forall c :: c in palette ==> exists k: nat :: k < i && c == GreyColor(GreyIn(data, d, n, k))
  }

  /** ... and all of them. */
  ghost predicate ColorsOfGreys(data: seq<byte>, d: nat, n: nat, i: nat, palette: seq<Color>)
    requires IsImage(data, d, n) && i <= n
  {
    SomeColors(data, d, n, i, palette) && forall k: nat :: k < i ==> GreyColor(GreyIn(data, d, n, k)) in palette
  }

  /** The greys that values below `m` of `d` bits stand for. */
  function Greys(d: nat, m: nat): (s: set<byte>)
    requires IsDepth(d) && m <= Pow2(d)
    ensures |s| <= m
  {
    if m == 0 then {} else Greys(d, m - 1) + {GreyOf(m - 1, d)}
  }

  lemma {:induction false} GreyAmong(d: nat, m: nat, v: nat)
    requires IsDepth(d) && v < m <= Pow2(d)
    ensures GreyOf(v, d) in Greys(d, m)
  {
    if v < m - 1 {
      GreyAmong(d, m - 1, v);
    }
  }

  function Reds(palette: seq<Color>): (s: set<byte>) {
    if palette == [] then {} else Reds(palette[..|palette| - 1]) + {palette[|palette| - 1].r}
  }

  lemma {:induction false} RedsCount(palette: seq<Color>)
    requires forall i, j :: 0 <= i < j < |palette| ==> palette[i].r != palette[j].r
    ensures |Reds(palette)| == |palette| && forall x :: x in Reds(palette) <==> exists k :: 0 <= k < |palette| && palette[k].r == x
  {
    if palette != [] {
      var m := |palette| - 1;
      RedsCount(palette[..m]);
      forall x
        ensures x in Reds(palette) <==> exists k :: 0 <= k < |palette| && palette[k].r == x
      {
        if x in Reds(palette[..m]) {
          var k :| 0 <= k < m && palette[..m][k].r == x;
          assert palette[k].r == x;
        }
        if k :| 0 <= k < |palette| && palette[k].r == x && k < m {
          assert palette[..m][k].r == x;
        }
      }
    }
  }

  lemma SubsetOfSize(s: set<byte>, t: set<byte>, x: byte)
    requires s <= t && |t| <= |s| && x in t
    ensures x in s
  {
    if x !in s {
      assert |t - {x}| == |t| - 1;
      SubsetSize(s, t - {x});
    }
  }

  lemma GreyInRange(data: seq<byte>, d: nat, n: nat, i: nat)
    requires IsImage(data, d, n) && i < n
    ensures GreyIn(data, d, n, i) in Greys(d, Pow2(d))
  {
    hide Greys;
    hide GreyOf;
    Inside(data, d, n, i);
    PixelInside(i, d);
    GreyAmong(d, Pow2(d), Field(data, i * d, d));
  }

  lemma ColorIsGrey(data: seq<byte>, d: nat, n: nat, i: nat, palette: seq<Color>, c: Color)
    requires IsImage(data, d, n) && i <= n && SomeColors(data, d, n, i, palette) && c in palette
    ensures c == GreyColor(c.r) && c.r in Greys(d, Pow2(d))
  {
    hide Greys;
    hide GreyIn;
    var k: nat :| k < i && c == GreyColor(GreyIn(data, d, n, k));
    GreyInRange(data, d, n, k);
  }

  lemma RedsOfGreys(data: seq<byte>, d: nat, n: nat, i: nat, palette: seq<Color>)
    requires IsImage(data, d, n) && i <= n && SomeColors(data, d, n, i, palette)
    ensures |Reds(palette)| == |palette| && Reds(palette) <= Greys(d, Pow2(d))
    ensures forall x :: x in Reds(palette) ==> GreyColor(x) in palette
  {
    hide Greys;
    hide GreyIn;
    forall a, b | 0 <= a < b < |palette|
      ensures palette[a].r != palette[b].r
    {
      ColorIsGrey(data, d, n, i, palette, palette[a]);
      ColorIsGrey(data, d, n, i, palette, palette[b]);
    }
    RedsCount(palette);
    forall x | x in Reds(palette)
      ensures x in Greys(d, Pow2(d)) && GreyColor(x) in palette
    {
      var k :| 0 <= k < |palette| && palette[k].r == x;
      ColorIsGrey(data, d, n, i, palette, palette[k]);
    }
  }

  /** When as many colours have been found as there are values, every pixel has one of them. */
  lemma AllFound(data: seq<byte>, d: nat, n: nat, i: nat, palette: seq<Color>)
    requires IsImage(data, d, n) && i <= n && SomeColors(data, d, n, i, palette) && |palette| >= Pow2(d)
    ensures ColorsOfGreys(data, d, n, n, palette)
  {
    hide Greys;
    hide GreyIn;
    hide Reds;
    RedsOfGreys(data, d, n, i, palette);
    forall k: nat | k < n
      ensures GreyColor(GreyIn(data, d, n, k)) in palette
    {
      GreyInRange(data, d, n, k);
      SubsetOfSize(Reds(palette), Greys(d, Pow2(d)), GreyIn(data, d, n, k));
    }
  }

  lemma NoNewColor(data: seq<byte>, d: nat, n: nat, i: nat, palette: seq<Color>)
    requires IsImage(data, d, n) && i < n && SomeColors(data, d, n, i, palette) && |palette| >= Pow2(d)
    ensures ColorsOfGreys(data, d, n, i + 1, palette)
  {
    hide GreyIn;
    AllFound(data, d, n, i, palette);
    var m := i + 1;
    assert SomeColors(data, d, n, m, palette);
  }

  /** There are no more colours than values. */
  lemma ColorsFit(data: seq<byte>, d: nat, n: nat, i: nat, palette: seq<Color>)
    requires IsImage(data, d, n) && i <= n && SomeColors(data, d, n, i, palette)
    ensures |palette| <= Pow2(d)
  {
    hide Greys;
    hide GreyIn;
    hide Reds;
    RedsOfGreys(data, d, n, i, palette);
    SubsetSize(Reds(palette), Greys(d, Pow2(d)));
  }

  lemma BitsNext(data: seq<byte>, d: nat, n: nat, i: nat, bits: nat)
    requires IsImage(data, d, n) && i < n && BitsOfGreys(data, d, n, i, bits)
    ensures var required := ValueRequiredBits(GreyIn(data, d, n, i));
      BitsOfGreys(data, d, n, i + 1, if bits < d && required > bits then required else bits)
  {
    hide ValueRequiredBits;
    GreyNeedsDepth(data, d, n, i);
    hide GreyIn;
    var m, required := i + 1, ValueRequiredBits(GreyIn(data, d, n, i));
    if bits < d && required > bits {
      assert BitsOfGreys(data, d, n, m, required);
    } else {
      if bits > 1 {
        var k: nat :| k < i && ValueRequiredBits(GreyIn(data, d, n, k)) == bits;
        assert k < m;
      }
      assert BitsOfGreys(data, d, n, m, bits);
    }
  }

  lemma GreyNeedsDepth(data: seq<byte>, d: nat, n: nat, i: nat)
    requires IsImage(data, d, n) && i < n
    ensures ValueRequiredBits(GreyIn(data, d, n, i)) <= d
  {
    hide ValueRequiredBits;
    hide GreyOf;
    Inside(data, d, n, i);
    PixelInside(i, d);
    GreyNeeds(Field(data, i * d, d), d);
  }

  /** Pixels cannot need more bits than they have. */
  lemma BitsDone(data: seq<byte>, d: nat, n: nat, i: nat, bits: nat)
    requires IsImage(data, d, n) && i <= n && BitsOfGreys(data, d, n, i, bits) && (bits >= d || i == n)
    ensures BitsOfGreys(data, d, n, n, bits)
  {
    hide ValueRequiredBits;
    hide GreyIn;
    forall k: nat | k < n && bits >= d
      ensures ValueRequiredBits(GreyIn(data, d, n, k)) <= bits
    {
      GreyNeedsDepth(data, d, n, k);
    }
  }

  lemma Lookup(data: seq<byte>, d: nat, n: nat, i: nat, palette: seq<Color>, g: byte)
    requires IsImage(data, d, n) && i <= n && SomeColors(data, d, n, i, palette)
    ensures LastIndex(palette, GreyColor(g)) >= 0 <==> GreyColor(g) in palette
    ensures GreyColor(g) in palette ==> palette[LastIndex(palette, GreyColor(g))] == GreyColor(g)
  {
    hide GreyIn;
    hide LastIndex;
    hide Greys;
    var j := LastIndex(palette, GreyColor(g));
    if j >= 0 {
      ColorIsGrey(data, d, n, i, palette, palette[j]);
    }
  }

  lemma ColorsNext(data: seq<byte>, d: nat, n: nat, i: nat, palette: seq<Color>)
    requires IsImage(data, d, n) && i < n && SomeColors(data, d, n, i, palette)
    ensures SomeColors(data, d, n, i + 1, palette)
    ensures var c := GreyColor(GreyIn(data, d, n, i));
      var after := if LastIndex(palette, c) >= 0 then palette else palette + [c];
      SomeColors(data, d, n, i + 1, after) && (ColorsOfGreys(data, d, n, i, palette) ==> ColorsOfGreys(data, d, n, i + 1, after))
  {
    hide GreyIn;
    hide LastIndex;
    var g, m := GreyIn(data, d, n, i), i + 1;
    Lookup(data, d, n, i, palette, g);
    assert SomeColors(data, d, n, m, palette);
    if LastIndex(palette, GreyColor(g)) < 0 {
      var after := palette + [GreyColor(g)];
      assert SomeColors(data, d, n, m, after);
    }
  }

  lemma NothingFound(tree: Tree)
    requires tree.Valid() && forall c :: tree.Index(c) == -1
    ensures TreeFinds(tree, [])
  {
  }

  /** The tree finds the colours of the palette at their places, and no others. */
  ghost predicate TreeFinds(tree: Tree, palette: seq<Color>)
    requires tree.Valid()
    reads tree
  {
    forall c :: tree.Index(c) == LastIndex(palette, c)
  }

  /** The statistics: the number of bits for greys, and the colours. Colours are counted up to as many as
      there can be, and only if a palette is allowed. */
  class Stats {
    var bits: nat
    var numcolors: nat
    var palette: seq<Color>
    var numpixels: nat
    var allowPalette: bool
    var allowGreyscale: bool

    constructor (allowPalette: bool, allowGreyscale: bool)
      ensures bits == 1 && numcolors == 0 && palette == [] && numpixels == 0
      ensures this.allowPalette == allowPalette && this.allowGreyscale == allowGreyscale
    {
      bits, numcolors, palette, numpixels := 1, 0, [], 0;
      this.allowPalette, this.allowGreyscale := allowPalette, allowGreyscale;
    }

    /** The statistics are those of an image. */
    ghost predicate Describes(data: seq<byte>, d: nat, n: nat)
      requires IsImage(data, d, n)
      reads this
    {
      && numpixels == n && BitsOfGreys(data, d, n, n, bits)
      && numcolors == |palette| <= Pow2(d)
      && if allowPalette then ColorsOfGreys(data, d, n, n, palette) else palette == []
    }

    /** Counts a colour that is not in the tree yet. */
    method CountColor(tree: Tree, c: Color)
      requires tree.Valid() && TreeFinds(tree, palette) && numcolors == |palette| < 256
      modifies this`numcolors, this`palette, tree
      ensures tree.Valid() && TreeFinds(tree, palette) && numcolors == |palette|
      ensures palette == if LastIndex(old(palette), c) >= 0 then old(palette) else old(palette) + [c]
    {
      var index := tree.Get(c);
      if index < 0 {
        tree.Add(c, numcolors);
        if numcolors < 256 {
          palette := palette + [c];
        }
        numcolors := numcolors + 1;
        assert palette[..|palette| - 1] == old(palette);
      }
    }

    /** The state of the count after `i` pixels. */
    ghost predicate Counted(data: seq<byte>, d: nat, n: nat, i: nat)
      requires IsImage(data, d, n) && i <= n
      reads this
    {
      && BitsOfGreys(data, d, n, i, bits)
      && numcolors == |palette| && SomeColors(data, d, n, i, palette)
      && if allowPalette then ColorsOfGreys(data, d, n, i, palette) else palette == []
    }

    /** Counts one pixel. */
    method CountPixel(c: Color, d: nat, tree: Tree, bits_done0: bool, numcolors_done0: bool, maxnumcolors: nat,
                      ghost data: seq<byte>, ghost n: nat, ghost i: nat)
      returns (bits_done: bool, numcolors_done: bool)
      requires IsImage(data, d, n) && i < n && c == GreyColor(GreyIn(data, d, n, i))
      requires Counted(data, d, n, i) && tree.Valid() && TreeFinds(tree, palette) && maxnumcolors == Pow2(d)
      requires bits_done0 == (bits >= d) && numcolors_done0 == (!allowPalette || numcolors >= maxnumcolors)
      modifies this`bits, this`numcolors, this`palette, tree
      ensures Counted(data, d, n, i + 1) && tree.Valid() && TreeFinds(tree, palette)
      ensures bits_done == (bits >= d) && numcolors_done == (!allowPalette || numcolors >= maxnumcolors)
    {
      hide BitsOfGreys;
      hide SomeColors;
      hide ColorsOfGreys;
      hide GreyIn;
      hide ValueRequiredBits;
      hide LastIndex;
      hide TreeFinds;
      Depths();
      hide Pow2;
      BitsNext(data, d, n, i, bits);
      ColorsNext(data, d, n, i, palette);
      if numcolors >= Pow2(d) {
        NoNewColor(data, d, n, i, palette);
      }
      numcolors_done := numcolors_done0;
      if !bits_done0 && bits < 8 {
        var required := ValueRequiredBits(c.r);
        if required > bits {
          bits := required;
        }
      }
      bits_done := bits >= d;
      if !numcolors_done {
        CountColor(tree, c);
        numcolors_done := numcolors >= maxnumcolors;
      }
    }

    /** Goes through the pixels until no more can change. */
    method ComputeColorStats(input: array<byte>, d: nat, n: nat)
      requires IsImage(input[..], d, n) && bits == 1 && numcolors == 0 && palette == [] && numpixels == 0
      modifies this
      ensures allowPalette == old(allowPalette) && allowGreyscale == old(allowGreyscale)
      ensures Describes(input[..], d, n)
    {
      hide Counted;
      hide Describes;
      hide TreeFinds;
      hide GreyAt;
      hide Pixel;
      ghost var data := input[..];
      var numcolors_done := false;
      var bits_done := bits == 1 && d == 1;
      Depths();
      ShlOne(d);
      hide Pow2;
      var maxnumcolors := if 257 < numcolors + Shl(1, d) then 257 else numcolors + Shl(1, d);
      numpixels := numpixels + n;
      if !allowPalette {
        numcolors_done := true;
      }
      var tree := new Tree();
      NothingFound(tree);
      NothingCounted(data, d, n);
      if bits >= d {
        bits_done := true;
      }
      if numcolors >= maxnumcolors {
        numcolors_done := true;
      }
      for i := 0 to n
        invariant Counted(data, d, n, i) && numpixels == n && allowPalette == old(allowPalette) && allowGreyscale == old(allowGreyscale)
        invariant tree.Valid() && fresh(tree) && TreeFinds(tree, palette)
        invariant bits_done == (bits >= d) && numcolors_done == (!allowPalette || numcolors >= maxnumcolors)
      {
        Inside(data, d, n, i);
        GreyPixel(data, i, d);
        var c := GetPixelColorRGBA8(input, i, GreyMode(d));
        bits_done, numcolors_done := CountPixel(c, d, tree, bits_done, numcolors_done, maxnumcolors, data, n, i);
        if numcolors_done && bits_done {
          Settled(data, d, n, i + 1);
          return;
        }
      }
      Settled(data, d, n, n);
    }

    /** Nothing can change any more. */
    lemma Settled(data: seq<byte>, d: nat, n: nat, i: nat)
      requires IsImage(data, d, n) && i <= n && Counted(data, d, n, i) && numpixels == n
      requires i < n ==> bits >= d && (allowPalette ==> numcolors >= Pow2(d))
      ensures Describes(data, d, n)
    {
      hide BitsOfGreys;
      hide SomeColors;
      hide ColorsOfGreys;
      BitsDone(data, d, n, i, bits);
      ColorsFit(data, d, n, i, palette);
      if allowPalette && i < n {
        AllFound(data, d, n, i, palette);
      }
    }

    lemma NothingCounted(data: seq<byte>, d: nat, n: nat)
      requires IsImage(data, d, n) && bits == 1 && numcolors == 0 && palette == []
      ensures Counted(data, d, n, 0)
    {
    }
  }

  // ---------------------------------------------------------------------------------------------
  // The choice
  // ---------------------------------------------------------------------------------------------

  /** A colour model shows every pixel as it is. */
  ghost predicate Lossless(mode: Mode, data: seq<byte>, d: nat, n: nat)
    requires ValidMode(mode) && IsImage(data, d, n)
  {
    forall i: nat :: i < n ==> Shown(mode, GreyColor(GreyIn(data, d, n, i))) == Some(GreyColor(GreyIn(data, d, n, i)))
  }

  /** Grey of `m` bits is lossless exactly when no pixel requires more. */
  lemma GreyLossless(data: seq<byte>, d: nat, n: nat, bits: nat, m: nat)
    requires IsImage(data, d, n) && BitsOfGreys(data, d, n, n, bits) && IsDepth(m)
    ensures Lossless(GreyMode(m), data, d, n) <==> bits <= m
  {
    hide ValueRequiredBits;
    hide GreyIn;
    hide GreyOf;
    hide Shr;
    forall i: nat | i < n
      ensures Shown(GreyMode(m), GreyColor(GreyIn(data, d, n, i))) == Some(GreyColor(GreyIn(data, d, n, i)))
         <==> ValueRequiredBits(GreyIn(data, d, n, i)) <= m
    {
      RequiredBitsSuffice(GreyIn(data, d, n, i), m);
    }
    if bits > m {
      var k: nat :| k < n && ValueRequiredBits(GreyIn(data, d, n, k)) == bits;
      assert Shown(GreyMode(m), GreyColor(GreyIn(data, d, n, k))) != Some(GreyColor(GreyIn(data, d, n, k)));
    }
  }

  lemma PaletteLossless(data: seq<byte>, d: nat, n: nat, mode: Mode)
    requires IsImage(data, d, n) && ValidMode(mode) && mode.colorType.Palette? && ColorsOfGreys(data, d, n, n, mode.palette)
    ensures Lossless(mode, data, d, n)
  {
    hide GreyIn;
    hide LastIndex;
    forall i: nat | i < n
      ensures Shown(mode, GreyColor(GreyIn(data, d, n, i))) == Some(GreyColor(GreyIn(data, d, n, i)))
    {
      Lookup(data, d, n, n, mode.palette, GreyIn(data, d, n, i));
    }
  }

  /** A palette of these colours is worth it: there are two pixels for each colour, and grey is not allowed or
      loses something at a depth that has a place for each colour. */
  ghost predicate WorthPalette(colors: seq<Color>, data: seq<byte>, d: nat, n: nat, allowGreyscale: bool)
    requires IsImage(data, d, n)
  {
    && 0 < |colors| && 2 * |colors| <= n
    && (allowGreyscale ==> exists m :: IsDepth(m) && |colors| <= Pow2(m) && !Lossless(GreyMode(m), data, d, n))
  }

  /** The colour model for an image with these colours: a palette of them exactly if that is allowed and worth
      it, else grey if it is allowed, or red, green and blue. It shows all pixels as they are, and takes no more
      bits than any grey that does, nor than places for the colours if there are two pixels for each. */
  ghost predicate BestModel(mode: Mode, colors: seq<Color>, data: seq<byte>, d: nat, n: nat, allowPalette: bool, allowGreyscale: bool)
    requires ValidMode(mode) && IsImage(data, d, n)
  {
    && Lossless(mode, data, d, n) && (allowPalette ==> ColorsOfGreys(data, d, n, n, colors))
    && (mode.colorType.Palette? <==> allowPalette && WorthPalette(colors, data, d, n, allowGreyscale))
    && (mode.colorType.Palette? ==> mode.palette == colors)
    && (!mode.colorType.Palette? ==> (mode.colorType.Grey? <==> allowGreyscale))
    && (allowGreyscale ==> forall m :: IsDepth(m) && Lossless(GreyMode(m), data, d, n) ==> mode.bitdepth <= m)
    && (allowPalette && 0 < |colors| && 2 * |colors| <= n ==> forall m :: IsDepth(m) && |colors| <= Pow2(m) ==> Bpp(mode) <= m)
  }

  /** Chooses it from the statistics. */
  method AutoChooseColor(stats: Stats, ghost data: seq<byte>, ghost d: nat, ghost n: nat) returns (mode: Mode)
    requires IsImage(data, d, n) && stats.Describes(data, d, n)
    ensures ValidMode(mode) && BestModel(mode, stats.palette, data, d, n, stats.allowPalette, stats.allowGreyscale)
  {
    hide BitsOfGreys;
    hide ColorsOfGreys;
    hide Lossless;
    Depths();
    hide Pow2;
    var bits := stats.bits;
    assert IsDepth(bits) by { DepthOfGreys(data, d, n, bits); }
    forall m | IsDepth(m)
      ensures Lossless(GreyMode(m), data, d, n) <==> stats.bits <= m
    {
      GreyLossless(data, d, n, stats.bits, m);
    }
    var gray_ok := stats.allowGreyscale;
    if !gray_ok && bits < 8 {
      bits := 8;
    }
    var numcolors := stats.numcolors;
    var palettebits := if numcolors <= 2 then 1 else if numcolors <= 4 then 2 else if numcolors <= 16 then 4 else 8;
    var palette_ok := numcolors <= 256 && bits <= 8 && numcolors != 0;
    if stats.numpixels < numcolors * 2 {
      palette_ok := false;
    }
    if gray_ok && bits <= palettebits {
      palette_ok := false;
    }
    if !stats.allowPalette {
      palette_ok := false;
    }
    if palette_ok {
      mode := Mode(Palette, palettebits, stats.palette);
      PaletteLossless(data, d, n, mode);
    } else {
      mode := Mode(if gray_ok then Grey else Rgb, bits, []);
      if !gray_ok {
        RgbLossless(data, d, n, mode);
      }
    }
  }

  lemma DepthOfGreys(data: seq<byte>, d: nat, n: nat, bits: nat)
    requires IsImage(data, d, n) && BitsOfGreys(data, d, n, n, bits)
    ensures IsDepth(bits)
  {
  }

  lemma RgbLossless(data: seq<byte>, d: nat, n: nat, mode: Mode)
    requires IsImage(data, d, n) && mode == Mode(Rgb, 8, [])
    ensures Lossless(mode, data, d, n)
  {
    hide GreyIn;
  }
}
