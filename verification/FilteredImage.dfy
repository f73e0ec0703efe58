/** Filtering and unfiltering whole images: each scanline carries its filter type in front. */
module FilteredImage {
  import opened Bits
  import opened Wrappers
  import opened Filters
  import opened Unfilter

  /** Bytes of a scanline, and of a pixel (one at least). */
  function LineBytes(w: nat, bpp: nat): nat {
    (w * bpp + 7) / 8
  }

  function ByteWidth(bpp: nat): nat {
    (bpp + 7) / 8
  }

  lemma LineHoldsPixel(w: nat, bpp: nat)
    requires w > 0 && bpp > 0
    ensures 0 < ByteWidth(bpp) <= LineBytes(w, bpp)
  {
    MulMonotone(1, w, bpp);
  }

  lemma MulMonotone(a: nat, b: nat, c: nat)
    requires a <= b
    ensures a * c <= b * c
  {
  }

  lemma MulNext(n: nat, y: nat)
    ensures n * (y + 1) == n * y + n
  {
  }

  /** The size of an image with filter bytes, computed without multiplying width and depth. */
  function RawSizeIdat(w: nat, h: nat, bpp: nat): nat {
    var whole: nat, part: nat := w / 8 * bpp, w % 8 * bpp;
    var line: nat := whole + 1 + (part + 7) / 8;
    h * line
  }

  lemma RawSizeIsLines(w: nat, h: nat, bpp: nat)
    ensures RawSizeIdat(w, h, bpp) == h * (1 + LineBytes(w, bpp))
    ensures RawSizeIdat(w, 1, bpp) - 1 == LineBytes(w, bpp)
  {
    var a, b := w / 8 * bpp, w % 8 * bpp;
    MulDist(8 * (w / 8), w % 8, bpp);
    assert 8 * (w / 8) * bpp == 8 * a;
    assert w * bpp == 8 * a + b;
    assert (8 * a + b + 7) / 8 == a + (b + 7) / 8;
    assert w / 8 * bpp + 1 + (w % 8 * bpp + 7) / 8 == 1 + LineBytes(w, bpp);
    MulOne(w / 8 * bpp + 1 + (w % 8 * bpp + 7) / 8);
  }

  lemma MulOne(x: nat)
    ensures 1 * x == x
  {
  }

  // ---------------------------------------------------------------------------------------------
  // What filtered lines mean
  // ---------------------------------------------------------------------------------------------

  /** The line before the one that comes next. */
  function LastLine(done: seq<byte>, linebytes: nat): (p: Option<seq<byte>>)
    requires linebytes > 0 && |done| % linebytes == 0
    ensures p.Some? ==> |p.value| == linebytes
  {
    if done == [] then None
    else
      assert |done| >= linebytes;
      Some(done[|done| - linebytes..])
  }

  lemma Multiple(n: nat, y: nat)
    requires n > 0
    ensures n * y % n == 0
  {
    DivModUnique(n * y, n, y, 0);
  }

  lemma LastRowFits(linebytes: nat, y: nat)
    requires linebytes > 0 && y > 0
    ensures 0 <= (1 + linebytes) * (y - 1) && (1 + linebytes) * (y - 1) + 1 + linebytes == (1 + linebytes) * y
    ensures 0 <= linebytes * (y - 1) && linebytes * (y - 1) + linebytes == linebytes * y && linebytes * (y - 1) % linebytes == 0
  {
    MulNext(1 + linebytes, y - 1);
    MulNext(linebytes, y - 1);
    Multiple(linebytes, y - 1);
  }

  /** The first `y` lines. A filter type above 4 has no meaning. */
  function UnfilterRows(data: seq<byte>, linebytes: nat, bytewidth: nat, y: nat): (r: Option<seq<byte>>)
    requires 0 < bytewidth <= linebytes && (1 + linebytes) * y <= |data|
    ensures r.Some? ==> |r.value| == linebytes * y
  {
    if y == 0 then Some([])
    else
      LastRowFits(linebytes, y);
      match UnfilterRows(data, linebytes, bytewidth, y - 1)
      case None => None
      case Some(done) =>
        var at := (1 + linebytes) * (y - 1);
        if data[at] > 4 then None
        else
          Some(done + UnfilterRow(data[at], data[at + 1..at + 1 + linebytes], LastLine(done, linebytes), bytewidth, linebytes))
  }

  lemma RowsStep(data: seq<byte>, linebytes: nat, bytewidth: nat, y: nat, at: nat, done: seq<byte>)
    requires 0 < bytewidth <= linebytes && at == (1 + linebytes) * y && at + 1 + linebytes <= |data| && |done| % linebytes == 0
    ensures (1 + linebytes) * (y + 1) == at + 1 + linebytes
    ensures UnfilterRows(data, linebytes, bytewidth, y) == Some(done) ==>
      UnfilterRows(data, linebytes, bytewidth, y + 1) ==
        if data[at] > 4 then None
        else Some(done + UnfilterRow(data[at], data[at + 1..at + 1 + linebytes], LastLine(done, linebytes), bytewidth, linebytes))
  {
    hide UnfilterRow;
    hide LastLine;
    MulNext(1 + linebytes, y);
  }

  /** Once a line has no meaning, the image has none. */
  lemma {:induction false} RowsFail(data: seq<byte>, linebytes: nat, bytewidth: nat, y: nat, h: nat)
    requires 0 < bytewidth <= linebytes && y <= h && (1 + linebytes) * y <= |data| && (1 + linebytes) * h <= |data|
    requires UnfilterRows(data, linebytes, bytewidth, y) == None
    ensures UnfilterRows(data, linebytes, bytewidth, h) == None
  {
    if y < h {
      MulNext(1 + linebytes, h - 1);
      RowsFail(data, linebytes, bytewidth, y, h - 1);
    }
  }

  lemma NoRows(data: seq<byte>, linebytes: nat, bytewidth: nat)
    requires 0 < bytewidth <= linebytes
    ensures UnfilterRows(data, linebytes, bytewidth, 0) == Some([])
  {
  }

  /** Only the lines in question matter. */
  lemma {:induction false} RowsPrefix(data: seq<byte>, more: seq<byte>, linebytes: nat, bytewidth: nat, y: nat)
    requires 0 < bytewidth <= linebytes && (1 + linebytes) * y <= |data|
    ensures UnfilterRows(data + more, linebytes, bytewidth, y) == UnfilterRows(data, linebytes, bytewidth, y)
  {
    hide UnfilterRows;
    if y > 0 {
      var n := y - 1;
      var at := (1 + linebytes) * n;
      MulNext(1 + linebytes, n);
      RowsPrefix(data, more, linebytes, bytewidth, n);
      NextRowSame(data, more, linebytes, bytewidth, n, at);
    } else {
      NoRows(data, linebytes, bytewidth);
      NoRows(data + more, linebytes, bytewidth);
    }
  }

  lemma NextRowSame(data: seq<byte>, more: seq<byte>, linebytes: nat, bytewidth: nat, n: nat, at: nat)
    requires 0 < bytewidth <= linebytes && at == (1 + linebytes) * n && at + 1 + linebytes <= |data|
    requires UnfilterRows(data + more, linebytes, bytewidth, n) == UnfilterRows(data, linebytes, bytewidth, n)
    ensures (1 + linebytes) * (n + 1) == at + 1 + linebytes
    ensures UnfilterRows(data + more, linebytes, bytewidth, n + 1) == UnfilterRows(data, linebytes, bytewidth, n + 1)
  {
    hide UnfilterRow;
    hide LastLine;
    hide UnfilterRows;
    MulNext(1 + linebytes, n);
    assert (data + more)[at + 1..at + 1 + linebytes] == data[at + 1..at + 1 + linebytes];
    var r := UnfilterRows(data, linebytes, bytewidth, n);
    if r.Some? {
      Multiple(linebytes, n);
      RowsStep(data, linebytes, bytewidth, n, at, r.value);
      RowsStep(data + more, linebytes, bytewidth, n, at, r.value);
    } else {
      RowsFail(data, linebytes, bytewidth, n, n + 1);
      RowsFail(data + more, linebytes, bytewidth, n, n + 1);
    }
  }

  // ---------------------------------------------------------------------------------------------
  // Unfiltering an image
  // ---------------------------------------------------------------------------------------------

  /** Unfilters an image, possibly onto itself. It fails exactly when a line has an invalid type. */
  method UnfilterImage(out: array<byte>, to: nat, input: array<byte>, from: nat, w: nat, h: nat, bpp: nat) returns (error: nat)
    requires bpp > 0 && (h > 0 ==> w > 0)
    requires from + (1 + LineBytes(w, bpp)) * h <= input.Length && to + LineBytes(w, bpp) * h <= out.Length
    requires out != input || to <= from
    modifies out
    ensures h > 0 ==>
      var L := LineBytes(w, bpp);
      0 < ByteWidth(bpp) <= L &&
      var r := UnfilterRows(old(input[from..from + (1 + L) * h]), L, ByteWidth(bpp), h);
      && error == (if r.Some? then 0 else 36)
      && (r.Some? ==> out[to..to + L * h] == r.value)
    ensures h == 0 ==> error == 0
    ensures OnlyLine(out, to, LineBytes(w, bpp) * h)
  {
    hide UnfilterRows;
    hide UnfilterRow;
    hide LastLine;
    hide LineBytes;
    hide ByteWidth;
    if h == 0 {
      return 0;
    }
    var bytewidth := ByteWidth(bpp);
    RawSizeIsLines(w, 1, bpp);
    var linebytes := RawSizeIdat(w, 1, bpp) - 1;
    LineHoldsPixel(w, bpp);
    ghost var data := input[from..from + (1 + linebytes) * h];
    ghost var done: seq<byte> := [];
    var prevline: Option<nat> := None;
    RowsStart(data, linebytes, bytewidth);
    for y := 0 to h
      invariant RowsDone(out, to, input, from, data, linebytes, bytewidth, y, done, prevline)
      invariant OnlyLine(out, to, linebytes * h)
    {
      var outindex := linebytes * y;
      var inindex := (1 + linebytes) * y;
      RowBounds(linebytes, y, h);
      error, done := UnfilterNext(out, to, input, from, outindex, inindex, prevline, bytewidth, linebytes, y, data, done);
      if error != 0 {
        RowsFail(data, linebytes, bytewidth, y + 1, h);
        return;
      }
      prevline := Some(to + outindex);
    }
    error := 0;
  }

  lemma RowsStart(data: seq<byte>, linebytes: nat, bytewidth: nat)
    requires 0 < bytewidth <= linebytes
    ensures UnfilterRows(data, linebytes, bytewidth, 0) == Some([])
    ensures linebytes * 0 == 0 && (1 + linebytes) * 0 == 0
  {
  }

  lemma RowBounds(linebytes: nat, y: nat, h: nat)
    requires y < h
    ensures linebytes * y + linebytes <= linebytes * h
    ensures (1 + linebytes) * y + 1 + linebytes <= (1 + linebytes) * h
    ensures linebytes * y <= (1 + linebytes) * y
    ensures (1 + linebytes) * y == y + linebytes * y
    ensures linebytes * (y + 1) == linebytes * y + linebytes
    ensures (1 + linebytes) * (y + 1) == (1 + linebytes) * y + 1 + linebytes
  {
    MulNext(linebytes, y);
    MulNext(1 + linebytes, y);
    MulMonotone(y + 1, h, linebytes);
    MulMonotone(y + 1, h, 1 + linebytes);
    MulDist(1, linebytes, y);
  }

  /** The first `y` lines are unfiltered, and the data of the others is still there. */
  ghost predicate RowsDone(out: array<byte>, to: nat, input: array<byte>, from: nat, data: seq<byte>, linebytes: nat, bytewidth: nat, y: nat,
                           done: seq<byte>, prevline: Option<nat>)
    reads out, input
  {
    && 0 < bytewidth <= linebytes && (1 + linebytes) * y <= |data| && from + |data| <= input.Length && to + |done| <= out.Length
    && |done| == linebytes * y && UnfilterRows(data, linebytes, bytewidth, y) == Some(done) && out[to..to + |done|] == done
    && (forall k :: (1 + linebytes) * y <= k < |data| ==> input[from + k] == data[k])
    && prevline == (if y == 0 then None else Some(to + |done| - linebytes))
  }

  /** Where line `y` is, with and without its filter type. */
  predicate IsRow(linebytes: nat, y: nat, outindex: nat, inindex: nat) {
    && outindex == linebytes * y && inindex == (1 + linebytes) * y && outindex <= inindex
    && linebytes * (y + 1) == outindex + linebytes && (1 + linebytes) * (y + 1) == inindex + 1 + linebytes
  }

  /** The meaning of the first `y` lines. */
  predicate RowsMean(data: seq<byte>, linebytes: nat, bytewidth: nat, y: nat, r: Option<seq<byte>>) {
    0 < bytewidth <= linebytes && (1 + linebytes) * y <= |data| && UnfilterRows(data, linebytes, bytewidth, y) == r
  }

  /** What the next line is read from. */
  lemma RowReady(out: array<byte>, to: nat, input: array<byte>, from: nat, data: seq<byte>, linebytes: nat, bytewidth: nat, y: nat,
                 done: seq<byte>, prevline: Option<nat>, n: nat, m: nat)
    requires RowsDone(out, to, input, from, data, linebytes, bytewidth, y, done, prevline) && IsRow(linebytes, y, n, m)
    requires m + 1 + linebytes <= |data| && to + n + linebytes <= out.Length
    ensures n == |done| <= m && 0 < bytewidth <= linebytes && from + |data| <= input.Length && input[from + m] == data[m]
    ensures prevline.Some? ==> prevline.value + linebytes == to + n
    ensures forall k :: 0 <= k < n ==> out[to + k] == done[k]
    ensures forall k :: m <= k < |data| ==> input[from + k] == data[k]
    ensures RowsMean(data, linebytes, bytewidth, y + 1,
      if data[m] > 4 then None
      else Some(done + UnfilterRow(data[m], Line(input, from + m + 1, linebytes), LineBefore(out, prevline, linebytes), bytewidth, linebytes)))
  {
    hide UnfilterRows;
    hide UnfilterRow;
    Multiple(linebytes, y);
    RowsStep(data, linebytes, bytewidth, y, m, done);
    hide LastLine;
    hide LineBefore;
    SameLine(input, from + m + 1, data, m + 1, linebytes, from);
    LastLineIs(out, to, done, linebytes, y, prevline);
    SameBytes(out, to, done);
  }

  lemma SameLine(a: array<byte>, at: nat, data: seq<byte>, m: nat, n: nat, from: nat)
    requires at == from + m && m + n <= |data| && from + |data| <= a.Length
    requires forall k :: m <= k < |data| ==> a[from + k] == data[k]
    ensures Line(a, at, n) == data[m..m + n]
  {
    forall k | 0 <= k < n
      ensures Line(a, at, n)[k] == data[m..m + n][k]
    {
      assert a[from + (m + k)] == data[m + k];
    }
  }

  lemma SameBytes(a: array<byte>, at: nat, s: seq<byte>)
    requires at + |s| <= a.Length && a[at..at + |s|] == s
    ensures forall k :: 0 <= k < |s| ==> a[at + k] == s[k]
  {
    forall k | 0 <= k < |s|
      ensures a[at + k] == s[k]
    {
      assert a[at..at + |s|][k] == s[k];
    }
  }

  method UnfilterNext(out: array<byte>, to: nat, input: array<byte>, from: nat, outindex: nat, inindex: nat, prevline: Option<nat>,
                      bytewidth: nat, linebytes: nat, ghost y: nat, ghost data: seq<byte>, ghost done: seq<byte>)
    returns (error: nat, ghost done': seq<byte>)
    requires RowsDone(out, to, input, from, data, linebytes, bytewidth, y, done, prevline) && (out != input || to <= from)
    requires IsRow(linebytes, y, outindex, inindex) && inindex + 1 + linebytes <= |data| && to + outindex + linebytes <= out.Length
    modifies out
    ensures error == 0 ==> RowsDone(out, to, input, from, data, linebytes, bytewidth, y + 1, done', Some(to + outindex))
    ensures error != 0 ==> error == 36 && RowsMean(data, linebytes, bytewidth, y + 1, None)
    ensures OnlyLine(out, to + outindex, linebytes)
  {
    hide RowsDone;
    hide RowsMean;
    hide IsRow;
    hide UnfilterRow;
    done' := done;
    RowReady(out, to, input, from, data, linebytes, bytewidth, y, done, prevline, outindex, inindex);
    var filterType := input[from + inindex];
    error := UnfilterScanline(out, to + outindex, input, from + inindex + 1, prevline, bytewidth, filterType, linebytes);
    if error == 0 {
      done' := done + Line(out, to + outindex, linebytes);
      RowsExtended(out, to, input, from, data, linebytes, bytewidth, y, done, outindex, inindex);
    }
  }

  lemma RowsExtended(out: array<byte>, to: nat, input: array<byte>, from: nat, data: seq<byte>, linebytes: nat, bytewidth: nat, y: nat,
                     done: seq<byte>, n: nat, m: nat)
    requires 0 < bytewidth <= linebytes && n == |done| && IsRow(linebytes, y, n, m)
    requires m + 1 + linebytes <= |data| && from + |data| <= input.Length && to + n + linebytes <= out.Length
    requires RowsMean(data, linebytes, bytewidth, y + 1, Some(done + Line(out, to + n, linebytes)))
    requires forall k :: 0 <= k < n ==> out[to + k] == done[k]
    requires forall k :: m + 1 + linebytes <= k < |data| ==> input[from + k] == data[k]
    ensures RowsDone(out, to, input, from, data, linebytes, bytewidth, y + 1, done + Line(out, to + n, linebytes), Some(to + n))
  {
    hide UnfilterRows;
  }

  lemma LastLineIs(out: array<byte>, to: nat, done: seq<byte>, linebytes: nat, y: nat, prevline: Option<nat>)
    requires linebytes > 0 && |done| == linebytes * y && to + |done| <= out.Length && out[to..to + |done|] == done && |done| % linebytes == 0
    requires prevline == if y == 0 then None else Some(to + |done| - linebytes)
    requires y > 0 ==> |done| >= linebytes
    ensures prevline.Some? ==> prevline.value + linebytes <= out.Length
    ensures LineBefore(out, prevline, linebytes) == LastLine(done, linebytes)
  {
    if y > 0 {
      var p := prevline.value;
      assert out[to..to + |done|][|done| - linebytes..] == out[p..p + linebytes];
    }
  }

  // ---------------------------------------------------------------------------------------------
  // Filtering an image
  // ---------------------------------------------------------------------------------------------

  predicate ValidTypes(types: seq<byte>) {
    forall y :: 0 <= y < |types| ==> types[y] <= 4
  }

  /** What the lines written so far mean: the image, or nothing if a type is invalid. */
  ghost predicate Means(data: seq<byte>, types: seq<byte>, linebytes: nat, bytewidth: nat, raw: seq<byte>) {
    && 0 < bytewidth <= linebytes && |data| == (1 + linebytes) * |types| && |raw| == linebytes * |types|
    && UnfilterRows(data, linebytes, bytewidth, |types|) == if ValidTypes(types) then Some(raw) else None
  }

  lemma MeansNothing(linebytes: nat, bytewidth: nat)
    requires 0 < bytewidth <= linebytes
    ensures Means([], [], linebytes, bytewidth, [])
  {
  }

  /** One more line, filtered with any type. */
  lemma MeansLine(data: seq<byte>, types: seq<byte>, linebytes: nat, bytewidth: nat, raw: seq<byte>, t: byte, row: seq<byte>, line: seq<byte>)
    requires Means(data, types, linebytes, bytewidth, raw) && |row| == |line| == linebytes && |raw| % linebytes == 0
    requires t <= 4 ==> row == FilterRow(t, line, LastLine(raw, linebytes), bytewidth)
    ensures Means(data + [t] + row, types + [t], linebytes, bytewidth, raw + line)
  {
    hide UnfilterRow;
    hide FilterRow;
    hide LastLine;
    hide UnfilterRows;
    var y, data' := |types|, data + [t] + row;
    var at := |data|;
    MulNext(1 + linebytes, y);
    MulNext(linebytes, y);
    assert data' == data + ([t] + row);
    RowsPrefix(data, [t] + row, linebytes, bytewidth, y);
    assert data'[at] == t && data'[at + 1..at + 1 + linebytes] == row;
    assert ValidTypes(types + [t]) <==> ValidTypes(types) && t <= 4 by {
      ValidTypesStep(types, t);
    }
    if ValidTypes(types) {
      RowsStep(data', linebytes, bytewidth, y, at, raw);
      if t <= 4 {
        UnfilterUndoesFilter(t, line, LastLine(raw, linebytes), bytewidth, linebytes);
        assert line[..linebytes] == line;
      }
    } else {
      RowsFail(data', linebytes, bytewidth, y, y + 1);
    }
  }

  lemma ValidTypesStep(types: seq<byte>, t: byte)
    ensures ValidTypes(types + [t]) <==> ValidTypes(types) && t <= 4
  {
    if ValidTypes(types + [t]) {
      forall y | 0 <= y < |types|
        ensures types[y] <= 4
      {
        assert (types + [t])[y] <= 4;
      }
      assert (types + [t])[|types|] <= 4;
    }
  }

  /** How to choose the filter types: one for all lines, the one with the smallest sum of absolute
      differences, or as given for each line. */
  datatype Strategy = Fixed(filterType: byte) | MinSum | Predefined(types: seq<byte>)

  /** The sum that the MinSum strategy compares: differences count as signed, a line without a filter not. */
  function SumOf(row: seq<byte>, signed: bool): nat {
    if row == [] then 0
    else
      var s := row[|row| - 1];
      SumOf(row[..|row| - 1], signed) + if !signed || s < 128 then s else 255 - s
  }

  /** Each byte counts for itself: by its distance from zero when it is read as a signed number, one less below
      zero. */
  lemma {:induction false} SumAdds(a: seq<byte>, b: seq<byte>, signed: bool)
    ensures SumOf(a + b, signed) == SumOf(a, signed) + SumOf(b, signed)
    ensures forall x: byte :: SumOf([x], signed) == if !signed then x else if x < 128 then x else (256 - x) - 1
  {
    if b == [] {
      assert a + b == a;
    } else {
      var m := |b| - 1;
      assert (a + b)[..|a + b| - 1] == a + b[..m];
      SumAdds(a, b[..m], signed);
    }
    forall x: byte
      ensures SumOf([x], signed) == if !signed then x else if x < 128 then x else (256 - x) - 1
    {
      assert SumOf([x][..0], signed) == 0;
    }
  }

  method ComputeSum(row: seq<byte>, filterType: byte) returns (sum: nat)
    ensures sum == SumOf(row, filterType != 0)
  {
    sum := 0;
    assert row[..|row|] == row;
    if filterType == 0 {
      for x := 0 to |row|
        invariant sum == SumOf(row[..x], false)
      {
        assert row[..x + 1][..x] == row[..x];
        sum := sum + row[x];
      }
    } else {
      for x := 0 to |row|
        invariant sum == SumOf(row[..x], true)
      {
        assert row[..x + 1][..x] == row[..x];
        var s := row[x];
        sum := sum + if s < 128 then s else 255 - s;
      }
    }
  }

  function TypeSum(t: byte, line: seq<byte>, prev: Option<seq<byte>>, bytewidth: nat): nat
    requires IsLine(line, prev, bytewidth)
  {
    SumOf(FilterRow(t, line, prev, bytewidth), t != 0)
  }

  /** The first of the types with the smallest sum. */
  ghost predicate IsBest(t: byte, line: seq<byte>, prev: Option<seq<byte>>, bytewidth: nat)
    requires IsLine(line, prev, bytewidth)
  {
    && t <= 4
    && forall u: byte :: u <= 4 ==>
      && TypeSum(t, line, prev, bytewidth) <= TypeSum(u, line, prev, bytewidth)
      && (u < t ==> TypeSum(t, line, prev, bytewidth) < TypeSum(u, line, prev, bytewidth))
  }

  /** The type of line `y` is the one that the strategy chooses. */
  ghost predicate Chooses(strategy: Strategy, y: nat, t: byte, line: seq<byte>, prev: Option<seq<byte>>, bytewidth: nat)
    requires IsLine(line, prev, bytewidth)
  {
    match strategy
    case Fixed(f) => t == f
    case MinSum => IsBest(t, line, prev, bytewidth)
    case Predefined(ts) => y < |ts| && t == ts[y]
  }

  /** Line `y` of an image, and the line above it. */
  function RowOf(raw: seq<byte>, linebytes: nat, y: nat): (r: seq<byte>)
    requires linebytes * (y + 1) <= |raw|
    ensures |r| == linebytes
  {
    MulNext(linebytes, y);
    raw[linebytes * y..linebytes * y + linebytes]
  }

  function RowAbove(raw: seq<byte>, linebytes: nat, y: nat): (p: Option<seq<byte>>)
    requires linebytes * (y + 1) <= |raw|
    ensures p.Some? ==> |p.value| == linebytes
  {
    if y == 0 then None
    else
      MulMonotone(y, y + 1, linebytes);
      Some(RowOf(raw, linebytes, y - 1))
  }

  ghost predicate RowChosen(strategy: Strategy, y: nat, t: byte, raw: seq<byte>, linebytes: nat, bytewidth: nat) {
    && bytewidth > 0 && linebytes * (y + 1) <= |raw|
    && Chooses(strategy, y, t, RowOf(raw, linebytes, y), RowAbove(raw, linebytes, y), bytewidth)
  }

  /** The types of all lines are those that the strategy chooses. */
  ghost predicate TypesChosen(strategy: Strategy, types: seq<byte>, linebytes: nat, bytewidth: nat, raw: seq<byte>) {
    forall y :: 0 <= y < |types| ==> RowChosen(strategy, y, types[y], raw, linebytes, bytewidth)
  }

  /** ... and stand in front of the lines. */
  ghost predicate TypesIn(data: seq<byte>, types: seq<byte>, linebytes: nat) {
    forall y :: 0 <= y < |types| ==> TypeIn(data, y, linebytes, types[y])
  }

  predicate TypeIn(data: seq<byte>, y: nat, linebytes: nat, t: byte) {
    (1 + linebytes) * y < |data| && data[(1 + linebytes) * y] == t
  }

  lemma RowStays(strategy: Strategy, y: nat, t: byte, raw: seq<byte>, line: seq<byte>, linebytes: nat, bytewidth: nat)
    requires RowChosen(strategy, y, t, raw, linebytes, bytewidth)
    ensures RowChosen(strategy, y, t, raw + line, linebytes, bytewidth)
  {
    hide Chooses;
    MulNext(linebytes, y);
    assert RowOf(raw + line, linebytes, y) == RowOf(raw, linebytes, y);
    if y > 0 {
      MulNext(linebytes, y - 1);
      assert RowOf(raw + line, linebytes, y - 1) == RowOf(raw, linebytes, y - 1);
    }
  }

  lemma NextRow(raw: seq<byte>, line: seq<byte>, linebytes: nat, y: nat)
    requires linebytes > 0 && |raw| == linebytes * y && |line| == linebytes && |raw| % linebytes == 0
    ensures linebytes * (y + 1) == |raw + line| && RowOf(raw + line, linebytes, y) == line
    ensures RowAbove(raw + line, linebytes, y) == LastLine(raw, linebytes)
  {
    MulNext(linebytes, y);
    if y > 0 {
      MulNext(linebytes, y - 1);
    }
  }

  /** One more line. */
  lemma TypesNext(strategy: Strategy, data: seq<byte>, types: seq<byte>, linebytes: nat, bytewidth: nat, raw: seq<byte>, t: byte,
                  row: seq<byte>, line: seq<byte>)
    requires 0 < bytewidth <= linebytes && |data| == (1 + linebytes) * |types| && |raw| == linebytes * |types| && |raw| % linebytes == 0
    requires TypesChosen(strategy, types, linebytes, bytewidth, raw) && TypesIn(data, types, linebytes)
    requires |line| == linebytes && Chooses(strategy, |types|, t, line, LastLine(raw, linebytes), bytewidth)
    ensures TypesChosen(strategy, types + [t], linebytes, bytewidth, raw + line)
    ensures TypesIn(data + [t] + row, types + [t], linebytes)
  {
    hide Chooses;
    hide LastLine;
    var n, after := |types|, types + [t];
    forall y | 0 <= y < |after|
      ensures RowChosen(strategy, y, after[y], raw + line, linebytes, bytewidth)
      ensures TypeIn(data + [t] + row, y, linebytes, after[y])
    {
      if y < n {
        RowStays(strategy, y, types[y], raw, line, linebytes, bytewidth);
        assert TypeIn(data, y, linebytes, types[y]);
      } else {
        NextRow(raw, line, linebytes, y);
      }
    }
  }

  lemma NoTypes(strategy: Strategy, linebytes: nat, bytewidth: nat)
    ensures TypesChosen(strategy, [], linebytes, bytewidth, []) && TypesIn([], [], linebytes)
  {
  }

  /** The first of the types with the smallest sum, and the line filtered with it. */
  method BestFilter(input: array<byte>, scanline: nat, prevline: Option<nat>, linebytes: nat, bytewidth: nat)
    returns (bestType: byte, row: seq<byte>)
    requires 0 < bytewidth <= linebytes && scanline + linebytes <= input.Length
    requires prevline.Some? ==> prevline.value + linebytes <= input.Length
    ensures var line, prev := Line(input, scanline, linebytes), LineBefore(input, prevline, linebytes);
      row == FilterRow(bestType, line, prev, bytewidth) && IsBest(bestType, line, prev, bytewidth)
  {
    hide FilterRow;
    hide SumOf;
    ghost var line, prev := Line(input, scanline, linebytes), LineBefore(input, prevline, linebytes);
    var attempt := new byte[linebytes](_ => 0);
    FilterScanline(attempt, 0, input, scanline, prevline, linebytes, bytewidth, 0);
    bestType, row := 0, attempt[..];
    var smallest := ComputeSum(row, 0);
    for n := 1 to 5
      invariant bestType < n && row == FilterRow(bestType, line, prev, bytewidth) && smallest == TypeSum(bestType, line, prev, bytewidth)
      invariant forall t: byte :: t < n ==> smallest <= TypeSum(t, line, prev, bytewidth)
      invariant forall t: byte :: t < bestType ==> smallest < TypeSum(t, line, prev, bytewidth)
    {
      var t: byte := n;
      FilterScanline(attempt, 0, input, scanline, prevline, linebytes, bytewidth, t);
      assert attempt[..] == Line(attempt, 0, linebytes);
      var sum := ComputeSum(attempt[..], t);
      if sum < smallest {
        bestType, smallest, row := t, sum, attempt[..];
      }
    }
  }

  /** Filters one line, and stores its type in front. */
  method FilterLine(out: array<byte>, at: nat, input: array<byte>, scanline: nat, prevline: Option<nat>, linebytes: nat, bytewidth: nat,
                    strategy: Strategy, y: nat) returns (t: byte)
    requires out != input && 0 < bytewidth <= linebytes && at + 1 + linebytes <= out.Length && scanline + linebytes <= input.Length
    requires prevline.Some? ==> prevline.value + linebytes <= input.Length
    requires strategy.Predefined? ==> y < |strategy.types|
    modifies out
    ensures Chooses(strategy, y, t, Line(input, scanline, linebytes), LineBefore(input, prevline, linebytes), bytewidth)
    ensures out[at] == t
    ensures t <= 4 ==>
      out[at + 1..at + 1 + linebytes] == FilterRow(t, Line(input, scanline, linebytes), LineBefore(input, prevline, linebytes), bytewidth)
    ensures OnlyLine(out, at, 1 + linebytes)
  {
    hide FilterRow;
    hide IsBest;
    match strategy {
      case Fixed(f) =>
        t := f;
        out[at] := t;
        FilterScanline(out, at + 1, input, scanline, prevline, linebytes, bytewidth, t);
      case Predefined(types) =>
        t := types[y];
        out[at] := t;
        FilterScanline(out, at + 1, input, scanline, prevline, linebytes, bytewidth, t);
      case MinSum =>
        var row;
        t, row := BestFilter(input, scanline, prevline, linebytes, bytewidth);
        out[at] := t;
        for x := 0 to linebytes
          invariant out[at] == t && OnlyLine(out, at, 1 + linebytes)
          invariant forall k :: 0 <= k < x ==> out[at + 1 + k] == row[k]
        {
          out[at + 1 + x] := row[x];
        }
        assert out[at + 1..at + 1 + linebytes] == row;
    }
  }

  /** Filters an image. Whatever types are chosen, unfiltering gives the image back; it fails when a type
      that was set is invalid. */
  method FilterImage(out: array<byte>, to: nat, input: array<byte>, from: nat, w: nat, h: nat, bpp: nat, strategy: Strategy)
    returns (types: seq<byte>)
    requires out != input && bpp > 0 && (h > 0 ==> w > 0) && (strategy.Predefined? ==> |strategy.types| >= h)
    requires to + (1 + LineBytes(w, bpp)) * h <= out.Length && from + LineBytes(w, bpp) * h <= input.Length
    modifies out
    ensures |types| == h && OnlyLine(out, to, (1 + LineBytes(w, bpp)) * h)
    ensures h > 0 ==>
      var L := LineBytes(w, bpp);
      var data, raw := out[to..to + (1 + L) * h], input[from..from + L * h];
      Means(data, types, L, ByteWidth(bpp), raw) && TypesIn(data, types, L) && TypesChosen(strategy, types, L, ByteWidth(bpp), raw)
  {
    hide Means;
    hide LineBytes;
    hide ByteWidth;
    hide FilterRow;
    hide TypesIn;
    hide TypesChosen;
    types := [];
    if h == 0 {
      return;
    }
    RawSizeIsLines(w, 1, bpp);
    var linebytes := RawSizeIdat(w, 1, bpp) - 1;
    LineHoldsPixel(w, bpp);
    var bytewidth := ByteWidth(bpp);
    var prevline: Option<nat> := None;
    MeansNothing(linebytes, bytewidth);
    NoTypes(strategy, linebytes, bytewidth);
    RowsStart([], linebytes, bytewidth);
    assert out[to..to] == [] && input[from..from] == [];
    for y := 0 to h
      invariant |types| == y && OnlyLine(out, to, (1 + linebytes) * h)
      invariant LinesWritten(out, to, input, from, linebytes, bytewidth, (1 + linebytes) * y, linebytes * y, prevline, types, strategy)
    {
      RowBounds(linebytes, y, h);
      var outindex := (1 + linebytes) * y;
      var inindex := linebytes * y;
      var t := FilterNext(out, to, input, from, outindex, inindex, prevline, linebytes, bytewidth, strategy, y, types);
      types := types + [t];
      prevline := Some(from + inindex);
    }
  }

  /** The lines so far are written and mean the image so far. */
  ghost predicate LinesWritten(out: array<byte>, to: nat, input: array<byte>, from: nat, linebytes: nat, bytewidth: nat, outindex: nat, inindex: nat,
                               prevline: Option<nat>, types: seq<byte>, strategy: Strategy)
    reads out, input
  {
    && to + outindex <= out.Length && from + inindex <= input.Length && inindex == linebytes * |types|
    && Means(out[to..to + outindex], types, linebytes, bytewidth, input[from..from + inindex])
    && TypesIn(out[to..to + outindex], types, linebytes) && TypesChosen(strategy, types, linebytes, bytewidth, input[from..from + inindex])
    && (types == [] ==> prevline == None)
    && (types != [] ==> inindex >= linebytes && prevline == Some(from + inindex - linebytes))
  }

  method FilterNext(out: array<byte>, to: nat, input: array<byte>, from: nat, outindex: nat, inindex: nat, prevline: Option<nat>,
                    linebytes: nat, bytewidth: nat, strategy: Strategy, y: nat, ghost types: seq<byte>) returns (t: byte)
    requires out != input && 0 < bytewidth <= linebytes && |types| == y && (strategy.Predefined? ==> y < |strategy.types|)
    requires LinesWritten(out, to, input, from, linebytes, bytewidth, outindex, inindex, prevline, types, strategy)
    requires to + outindex + 1 + linebytes <= out.Length && from + inindex + linebytes <= input.Length
    requires inindex + linebytes == linebytes * (y + 1)
    modifies out
    ensures LinesWritten(out, to, input, from, linebytes, bytewidth, outindex + 1 + linebytes, inindex + linebytes, Some(from + inindex), types + [t], strategy)
    ensures OnlyLine(out, to + outindex, 1 + linebytes)
  {
    hide Means;
    hide FilterRow;
    hide Chooses;
    hide TypesIn;
    hide TypesChosen;
    ghost var data, raw := out[to..to + outindex], input[from..from + inindex];
    MeansSize(data, types, linebytes, bytewidth, raw);
    t := FilterLine(out, to + outindex, input, from + inindex, prevline, linebytes, bytewidth, strategy, y);
    assert out[to..to + outindex] == data;
    WrittenLine(out, to, outindex, input, from, inindex, linebytes, bytewidth, y, prevline, t, data, raw, types, strategy);
  }

  lemma MeansSize(data: seq<byte>, types: seq<byte>, linebytes: nat, bytewidth: nat, raw: seq<byte>)
    requires Means(data, types, linebytes, bytewidth, raw)
    ensures 0 < bytewidth <= linebytes && |data| == (1 + linebytes) * |types| && |raw| == linebytes * |types|
  {
  }

  lemma WrittenLine(out: array<byte>, to: nat, outindex: nat, input: array<byte>, from: nat, inindex: nat, linebytes: nat, bytewidth: nat, y: nat,
                    prevline: Option<nat>, t: byte, data: seq<byte>, raw: seq<byte>, types: seq<byte>, strategy: Strategy)
    requires |types| == y && Means(data, types, linebytes, bytewidth, raw)
    requires to + outindex + 1 + linebytes <= out.Length && from + inindex + linebytes <= input.Length
    requires inindex == linebytes * y && |raw| == inindex && raw == input[from..from + inindex] && (y > 0 ==> inindex >= linebytes)
    requires |data| == outindex && out[to..to + outindex] == data && out[to + outindex] == t
    requires prevline == if y == 0 then None else Some(from + inindex - linebytes)
    requires TypesIn(data, types, linebytes) && TypesChosen(strategy, types, linebytes, bytewidth, raw) && bytewidth > 0
    requires prevline.Some? ==> prevline.value + linebytes <= input.Length
    requires Chooses(strategy, y, t, Line(input, from + inindex, linebytes), LineBefore(input, prevline, linebytes), bytewidth)
    requires t <= 4 ==>
      out[to + outindex + 1..to + outindex + 1 + linebytes]
        == FilterRow(t, Line(input, from + inindex, linebytes), LineBefore(input, prevline, linebytes), bytewidth)
    ensures Means(out[to..to + outindex + 1 + linebytes], types + [t], linebytes, bytewidth, input[from..from + inindex + linebytes])
    ensures TypesIn(out[to..to + outindex + 1 + linebytes], types + [t], linebytes)
    ensures TypesChosen(strategy, types + [t], linebytes, bytewidth, input[from..from + inindex + linebytes])
  {
    hide Means;
    hide FilterRow;
    hide Chooses;
    hide TypesIn;
    hide TypesChosen;
    var row, line := out[to + outindex + 1..to + outindex + 1 + linebytes], Line(input, from + inindex, linebytes);
    MeansSize(data, types, linebytes, bytewidth, raw);
    Multiple(linebytes, y);
    LastLineIs(input, from, raw, linebytes, y, prevline);
    assert out[to..to + outindex + 1 + linebytes] == data + [t] + row;
    assert input[from..from + inindex + linebytes] == raw + line;
    LineMeansAndChosen(strategy, data, types, linebytes, bytewidth, raw, t, row, line);
  }

  lemma LineMeansAndChosen(strategy: Strategy, data: seq<byte>, types: seq<byte>, linebytes: nat, bytewidth: nat, raw: seq<byte>, t: byte,
                           row: seq<byte>, line: seq<byte>)
    requires Means(data, types, linebytes, bytewidth, raw) && |row| == |line| == linebytes && |raw| % linebytes == 0
    requires TypesIn(data, types, linebytes) && TypesChosen(strategy, types, linebytes, bytewidth, raw) && bytewidth > 0
    requires Chooses(strategy, |types|, t, line, LastLine(raw, linebytes), bytewidth)
    requires t <= 4 ==> row == FilterRow(t, line, LastLine(raw, linebytes), bytewidth)
    ensures Means(data + [t] + row, types + [t], linebytes, bytewidth, raw + line)
    ensures TypesIn(data + [t] + row, types + [t], linebytes)
    ensures TypesChosen(strategy, types + [t], linebytes, bytewidth, raw + line)
  {
    hide *;
    MeansSize(data, types, linebytes, bytewidth, raw);
    MeansLine(data, types, linebytes, bytewidth, raw, t, row, line);
    TypesNext(strategy, data, types, linebytes, bytewidth, raw, t, row, line);
  }
}
