/** The scanline filters of PNG (section 9 of the PNG specification). Filtering replaces each byte by its
    difference from a prediction; unfiltering runs in place, several bytes at a time, and is proved to undo
    it. */
module Filters {
  import opened Bits
  import opened Wrappers

  // ---------------------------------------------------------------------------------------------
  // Predictions
  // ---------------------------------------------------------------------------------------------

  function Abs(x: int): nat {
    if x < 0 then -x else x
  }

  /** The neighbour that is closest to left + up - upleft; ties go to the left, then up. */
  function Paeth(left: int, up: int, upleft: int): int {
    var p := left + up - upleft;
    var pa, pb, pc := Abs(p - left), Abs(p - up), Abs(p - upleft);
    if pa <= pb && pa <= pc then left else if pb <= pc then up else upleft
  }

  method PaethPredictor(a0: byte, b: byte, c: byte) returns (r: byte)
    ensures r == Paeth(a0, b, c)
  {
    var a: int := a0;
    var pa: int := Abs((b as int) - c);
    var pb: int := Abs(a - c);
    var pc: int := Abs(a + b - c - c);
    if pb < pa {
      a, pa := b, pb;
    }
    r := if pc < pa then c else a;
  }

  /** The prediction of a byte from its neighbours, by filter type. */
  function Predict(filterType: byte, left: byte, up: byte, upleft: byte): (p: nat)
    ensures p < 256
  {
    if filterType == 1 then left
    else if filterType == 2 then up
    else if filterType == 3 then ((left as int) + up) / 2
    else if filterType == 4 then Paeth(left, up, upleft)
    else 0
  }

  function Left(row: seq<byte>, i: nat, bytewidth: nat): byte
    requires bytewidth > 0 && i <= |row|
  {
    if i < bytewidth then 0 else row[i - bytewidth]
  }

  function Up(prev: Option<seq<byte>>, i: nat): byte
    requires prev.Some? ==> i < |prev.value|
  {
    if prev.Some? then prev.value[i] else 0
  }

  function UpLeft(prev: Option<seq<byte>>, i: nat, bytewidth: nat): byte
    requires bytewidth > 0 && (prev.Some? ==> i < |prev.value|)
  {
    if i < bytewidth then 0 else Up(prev, i - bytewidth)
  }

  // ---------------------------------------------------------------------------------------------
  // A scanline
  // ---------------------------------------------------------------------------------------------

  /** Bytes outside the image count as zero. */
  predicate IsLine(line: seq<byte>, prev: Option<seq<byte>>, bytewidth: nat) {
    bytewidth > 0 && (prev.Some? ==> |prev.value| == |line|)
  }

  function FilterByte(filterType: byte, row: seq<byte>, prev: Option<seq<byte>>, bytewidth: nat, i: nat): byte
    requires IsLine(row, prev, bytewidth) && i < |row|
  {
    ((row[i] as int) - Predict(filterType, Left(row, i, bytewidth), Up(prev, i), UpLeft(prev, i, bytewidth))) % 256
  }

  function FilterRow(filterType: byte, row: seq<byte>, prev: Option<seq<byte>>, bytewidth: nat): (r: seq<byte>)
    requires IsLine(row, prev, bytewidth)
    ensures |r| == |row|
  {
    seq(|row|, i requires 0 <= i < |row| => FilterByte(filterType, row, prev, bytewidth, i))
  }

  /** The predictor is the closest of the three to left + up - upleft, of equally close ones the first. */
  lemma PaethIsClosest(left: byte, up: byte, upleft: byte)
    ensures var e, p := (left as int) + up - upleft, Paeth(left, up, upleft);
      && p in {left as int, up as int, upleft as int}
      && Abs(e - p) <= Abs(e - left) && Abs(e - p) <= Abs(e - up) && Abs(e - p) <= Abs(e - upleft)
      && (p != left ==> Abs(e - p) < Abs(e - left))
      && (p != left && p != up ==> Abs(e - p) < Abs(e - up))
  {
  }

  /** The five filter types of section 9.2 of the PNG specification, on byte `i` of a line: None, Sub, Up,
      Average and Paeth. What is left of the line and above the image counts as zero. */
  lemma FilterTypes(t: byte, row: seq<byte>, prev: Option<seq<byte>>, bytewidth: nat, i: nat)
    requires IsLine(row, prev, bytewidth) && i < |row| && t <= 4
    ensures var a: byte := if i < bytewidth then 0 else row[i - bytewidth];
      var b: byte := if prev.None? then 0 else prev.value[i];
      var c: byte := if i < bytewidth || prev.None? then 0 else prev.value[i - bytewidth];
      FilterRow(t, row, prev, bytewidth)[i] == ((row[i] as int) - [0, a, b, ((a as int) + b) / 2, Paeth(a, b, c)][t]) % 256
  {
    hide Paeth;
    Neighbours(row, prev, bytewidth, i);
    hide Left;
    hide Up;
    hide UpLeft;
  }

  lemma Neighbours(row: seq<byte>, prev: Option<seq<byte>>, bytewidth: nat, i: nat)
    requires IsLine(row, prev, bytewidth) && i < |row|
    ensures Left(row, i, bytewidth) == if i < bytewidth then 0 else row[i - bytewidth]
    ensures Up(prev, i) == if prev.None? then 0 else prev.value[i]
    ensures UpLeft(prev, i, bytewidth) == if i < bytewidth || prev.None? then 0 else prev.value[i - bytewidth]
  {
  }

  /** The byte at `i`, from those that are done. */
  function UnfilterByte(filterType: byte, scan: seq<byte>, prev: Option<seq<byte>>, bytewidth: nat, done: seq<byte>): byte
    requires IsLine(scan, prev, bytewidth) && |done| < |scan|
  {
    var i := |done|;
    ((scan[i] as int) + Predict(filterType, Left(done, i, bytewidth), Up(prev, i), UpLeft(prev, i, bytewidth))) % 256
  }

  /** The first `n` bytes. */
  function UnfilterRow(filterType: byte, scan: seq<byte>, prev: Option<seq<byte>>, bytewidth: nat, n: nat): (r: seq<byte>)
    requires IsLine(scan, prev, bytewidth) && n <= |scan|
    ensures |r| == n
  {
    if n == 0 then []
    else
      var done := UnfilterRow(filterType, scan, prev, bytewidth, n - 1);
      done + [UnfilterByte(filterType, scan, prev, bytewidth, done)]
  }

  lemma ByteUndone(filterType: byte, row: seq<byte>, prev: Option<seq<byte>>, bytewidth: nat, i: nat)
    requires IsLine(row, prev, bytewidth) && i < |row|
    ensures UnfilterByte(filterType, FilterRow(filterType, row, prev, bytewidth), prev, bytewidth, row[..i]) == row[i]
  {
    hide Predict;
    assert Left(row[..i], i, bytewidth) == Left(row, i, bytewidth);
    AddBack(row[i], Predict(filterType, Left(row, i, bytewidth), Up(prev, i), UpLeft(prev, i, bytewidth)));
  }

  lemma AddBack(x: byte, p: nat)
    requires p < 256
    ensures (((x as int) - p) % 256 + p) % 256 == x
  {
  }

  /** Unfiltering undoes filtering, for every type, width and previous line. */
  lemma {:induction false} UnfilterUndoesFilter(filterType: byte, row: seq<byte>, prev: Option<seq<byte>>, bytewidth: nat, n: nat)
    requires IsLine(row, prev, bytewidth) && n <= |row|
    ensures UnfilterRow(filterType, FilterRow(filterType, row, prev, bytewidth), prev, bytewidth, n) == row[..n]
  {
    hide Predict;
    hide FilterByte;
    hide FilterRow;
    hide UnfilterByte;
    if n > 0 {
      UnfilterUndoesFilter(filterType, row, prev, bytewidth, n - 1);
      ByteUndone(filterType, row, prev, bytewidth, n - 1);
      assert row[..n] == row[..n - 1] + [row[n - 1]];
    }
  }

  /** ... and filtering undoes unfiltering: no two scanlines stand for the same row. */
  lemma FilterUndoesUnfilter(filterType: byte, scan: seq<byte>, prev: Option<seq<byte>>, bytewidth: nat)
    requires IsLine(scan, prev, bytewidth)
    ensures FilterRow(filterType, UnfilterRow(filterType, scan, prev, bytewidth, |scan|), prev, bytewidth) == scan
  {
    hide Predict;
    hide UnfilterRow;
    hide FilterByte;
    var row := UnfilterRow(filterType, scan, prev, bytewidth, |scan|);
    forall i | 0 <= i < |scan|
      ensures FilterByte(filterType, row, prev, bytewidth, i) == scan[i]
    {
      UnfilteredAt(filterType, scan, prev, bytewidth, row, i);
      ByteRedone(filterType, scan, row, prev, bytewidth, i);
    }
  }

  lemma UnfilteredAt(filterType: byte, scan: seq<byte>, prev: Option<seq<byte>>, bytewidth: nat, row: seq<byte>, i: nat)
    requires IsLine(scan, prev, bytewidth) && i < |scan| && row == UnfilterRow(filterType, scan, prev, bytewidth, |scan|)
    ensures row[i] == UnfilterByte(filterType, scan, prev, bytewidth, row[..i])
  {
    hide UnfilterRow;
    hide UnfilterByte;
    var n := i + 1;
    RowPrefix(filterType, scan, prev, bytewidth, n, |scan|);
    RowPrefix(filterType, scan, prev, bytewidth, i, |scan|);
    RowStep(filterType, scan, prev, bytewidth, i);
    assert row[i] == row[..n][i];
  }

  lemma ByteRedone(filterType: byte, scan: seq<byte>, row: seq<byte>, prev: Option<seq<byte>>, bytewidth: nat, i: nat)
    requires IsLine(scan, prev, bytewidth) && i < |row| == |scan|
    requires row[i] == UnfilterByte(filterType, scan, prev, bytewidth, row[..i])
    ensures FilterByte(filterType, row, prev, bytewidth, i) == scan[i]
  {
    hide Predict;
    assert Left(row[..i], i, bytewidth) == Left(row, i, bytewidth);
    TakeBack(scan[i], Predict(filterType, Left(row, i, bytewidth), Up(prev, i), UpLeft(prev, i, bytewidth)));
  }

  lemma TakeBack(x: byte, p: nat)
    requires p < 256
    ensures (((x as int) + p) % 256 - p) % 256 == x
  {
  }

  lemma RowStep(filterType: byte, scan: seq<byte>, prev: Option<seq<byte>>, bytewidth: nat, n: nat)
    requires IsLine(scan, prev, bytewidth) && n < |scan|
    ensures var done := UnfilterRow(filterType, scan, prev, bytewidth, n);
      UnfilterRow(filterType, scan, prev, bytewidth, n + 1) == done + [UnfilterByte(filterType, scan, prev, bytewidth, done)]
  {
  }

  lemma {:induction false} RowPrefix(filterType: byte, scan: seq<byte>, prev: Option<seq<byte>>, bytewidth: nat, m: nat, n: nat)
    requires IsLine(scan, prev, bytewidth) && m <= n <= |scan|
    ensures UnfilterRow(filterType, scan, prev, bytewidth, m) == UnfilterRow(filterType, scan, prev, bytewidth, n)[..m]
  {
    if m < n {
      RowPrefix(filterType, scan, prev, bytewidth, m, n - 1);
    }
  }

  // ---------------------------------------------------------------------------------------------
  // The filter loops
  // ---------------------------------------------------------------------------------------------

  function Line(a: array<byte>, at: nat, length: nat): (r: seq<byte>)
    requires at + length <= a.Length
    reads a
    ensures |r| == length
  {
    a[at..at + length]
  }

  /** The line before, if there is one. */
  function LineBefore(a: array<byte>, at: Option<nat>, length: nat): Option<seq<byte>>
    requires at.Some? ==> at.value + length <= a.Length
    reads a
  {
    match at
    case None => None
    case Some(p) => Some(Line(a, p, length))
  }

  /** The first `i` bytes of the filtered line are there. */
  ghost predicate Filtered(out: array<byte>, at: nat, filterType: byte, row: seq<byte>, prev: Option<seq<byte>>, bytewidth: nat, i: nat)
    requires IsLine(row, prev, bytewidth) && i <= |row| && at + |row| <= out.Length
    reads out
  {
    forall k :: 0 <= k < i ==> out[at + k] == FilterByte(filterType, row, prev, bytewidth, k)
  }

  /** The bytes before and behind the line are as they were. */
  twostate predicate OnlyLine(out: array<byte>, at: nat, length: nat)
    reads out
  {
    forall k :: 0 <= k < out.Length && !(at <= k < at + length) ==> out[k] == old(out[k])
  }

  lemma SubByte(row: seq<byte>, prev: Option<seq<byte>>, bytewidth: nat, i: nat)
    requires IsLine(row, prev, bytewidth) && i < |row|
    ensures FilterByte(1, row, prev, bytewidth, i) == if i < bytewidth then row[i] else ((row[i] as int) - row[i - bytewidth]) % 256
  {
    hide Up;
    hide UpLeft;
  }

  lemma UpByte(row: seq<byte>, prev: Option<seq<byte>>, bytewidth: nat, i: nat)
    requires IsLine(row, prev, bytewidth) && i < |row|
    ensures FilterByte(2, row, prev, bytewidth, i) == if prev.Some? then ((row[i] as int) - prev.value[i]) % 256 else row[i]
  {
    hide Left;
    hide UpLeft;
  }

  method FilterSub(out: array<byte>, at: nat, input: array<byte>, scanline: nat, length: nat, bytewidth: nat, ghost prev: Option<seq<byte>>)
    requires out != input && 0 < bytewidth <= length && (prev.Some? ==> |prev.value| == length)
    requires at + length <= out.Length && scanline + length <= input.Length
    modifies out
    ensures Filtered(out, at, 1, Line(input, scanline, length), prev, bytewidth, length) && OnlyLine(out, at, length)
  {
    hide FilterByte;
    ghost var row := Line(input, scanline, length);
    for i := 0 to bytewidth
      invariant Filtered(out, at, 1, row, prev, bytewidth, i) && OnlyLine(out, at, length)
    {
      SubByte(row, prev, bytewidth, i);
      out[at + i] := input[scanline + i];
    }
    for i := bytewidth to length
      invariant Filtered(out, at, 1, row, prev, bytewidth, i) && OnlyLine(out, at, length)
    {
      SubByte(row, prev, bytewidth, i);
      out[at + i] := ((input[scanline + i] as int) - input[scanline + i - bytewidth]) % 256;
    }
  }

  method FilterUp(out: array<byte>, at: nat, input: array<byte>, scanline: nat, prevline: Option<nat>, length: nat, bytewidth: nat)
    requires out != input && 0 < bytewidth <= length
    requires at + length <= out.Length && scanline + length <= input.Length && (prevline.Some? ==> prevline.value + length <= input.Length)
    modifies out
    ensures Filtered(out, at, 2, Line(input, scanline, length), LineBefore(input, prevline, length), bytewidth, length)
    ensures OnlyLine(out, at, length)
  {
    hide FilterByte;
    ghost var row, prev := Line(input, scanline, length), LineBefore(input, prevline, length);
    if prevline.Some? {
      for i := 0 to length
        invariant Filtered(out, at, 2, row, prev, bytewidth, i) && OnlyLine(out, at, length)
      {
        UpByte(row, prev, bytewidth, i);
        out[at + i] := ((input[scanline + i] as int) - input[prevline.value + i]) % 256;
      }
    } else {
      for i := 0 to length
        invariant Filtered(out, at, 2, row, prev, bytewidth, i) && OnlyLine(out, at, length)
      {
        UpByte(row, prev, bytewidth, i);
        out[at + i] := input[scanline + i];
      }
    }
  }

  method FilterAverage(out: array<byte>, at: nat, input: array<byte>, scanline: nat, prevline: Option<nat>, length: nat, bytewidth: nat)
    requires out != input && 0 < bytewidth <= length
    requires at + length <= out.Length && scanline + length <= input.Length && (prevline.Some? ==> prevline.value + length <= input.Length)
    modifies out
    ensures Filtered(out, at, 3, Line(input, scanline, length), LineBefore(input, prevline, length), bytewidth, length)
    ensures OnlyLine(out, at, length)
  {
    if prevline.Some? {
      FilterAverageBelow(out, at, input, scanline, prevline.value, length, bytewidth);
    } else {
      FilterAverageTop(out, at, input, scanline, length, bytewidth);
    }
  }

  /** The average filter for a line with a line above it. */
  method FilterAverageBelow(out: array<byte>, at: nat, input: array<byte>, scanline: nat, p: nat, length: nat, bytewidth: nat)
    requires out != input && 0 < bytewidth <= length
    requires at + length <= out.Length && scanline + length <= input.Length && p + length <= input.Length
    modifies out
    ensures Filtered(out, at, 3, Line(input, scanline, length), Some(Line(input, p, length)), bytewidth, length)
    ensures OnlyLine(out, at, length)
  {
    hide FilterByte;
    ghost var row, prev := Line(input, scanline, length), Some(Line(input, p, length));
    for i := 0 to bytewidth
      invariant Filtered(out, at, 3, row, prev, bytewidth, i) && OnlyLine(out, at, length)
    {
      AverageByte(row, prev, bytewidth, i);
      out[at + i] := ((input[scanline + i] as int) - input[p + i] / 2) % 256;
    }
    for i := bytewidth to length
      invariant Filtered(out, at, 3, row, prev, bytewidth, i) && OnlyLine(out, at, length)
    {
      AverageByte(row, prev, bytewidth, i);
      out[at + i] := ((input[scanline + i] as int) - ((input[scanline + i - bytewidth] as int) + input[p + i]) / 2) % 256;
    }
  }

  /** The average filter for the first line. */
  method FilterAverageTop(out: array<byte>, at: nat, input: array<byte>, scanline: nat, length: nat, bytewidth: nat)
    requires out != input && 0 < bytewidth <= length && at + length <= out.Length && scanline + length <= input.Length
    modifies out
    ensures Filtered(out, at, 3, Line(input, scanline, length), None, bytewidth, length)
    ensures OnlyLine(out, at, length)
  {
    hide FilterByte;
    ghost var row, prev: Option<seq<byte>> := Line(input, scanline, length), None;
    for i := 0 to bytewidth
      invariant Filtered(out, at, 3, row, prev, bytewidth, i) && OnlyLine(out, at, length)
    {
      AverageByte(row, prev, bytewidth, i);
      out[at + i] := input[scanline + i];
    }
    for i := bytewidth to length
      invariant Filtered(out, at, 3, row, prev, bytewidth, i) && OnlyLine(out, at, length)
    {
      AverageByte(row, prev, bytewidth, i);
      out[at + i] := ((input[scanline + i] as int) - input[scanline + i - bytewidth] / 2) % 256;
    }
  }

  lemma AverageByte(row: seq<byte>, prev: Option<seq<byte>>, bytewidth: nat, i: nat)
    requires IsLine(row, prev, bytewidth) && i < |row|
    ensures prev.Some? && i < bytewidth ==> FilterByte(3, row, prev, bytewidth, i) == ((row[i] as int) - prev.value[i] / 2) % 256
    ensures prev.Some? && i >= bytewidth ==>
      FilterByte(3, row, prev, bytewidth, i) == ((row[i] as int) - ((row[i - bytewidth] as int) + prev.value[i]) / 2) % 256
    ensures prev.None? && i < bytewidth ==> FilterByte(3, row, prev, bytewidth, i) == row[i]
    ensures prev.None? && i >= bytewidth ==> FilterByte(3, row, prev, bytewidth, i) == ((row[i] as int) - row[i - bytewidth] / 2) % 256
  {
    hide UpLeft;
  }

  lemma PaethByte(row: seq<byte>, prev: Option<seq<byte>>, bytewidth: nat, i: nat)
    requires IsLine(row, prev, bytewidth) && i < |row|
    ensures FilterByte(4, row, prev, bytewidth, i) ==
      ((row[i] as int) - Paeth(Left(row, i, bytewidth), Up(prev, i), UpLeft(prev, i, bytewidth))) % 256
  {
    hide Paeth;
  }

  /** With no left or no upper neighbours, the Paeth predictor takes the other one. */
  lemma PaethAtEdge(x: byte)
    ensures Paeth(0, x, 0) == x && Paeth(x, 0, 0) == x
  {
  }

  method FilterPaeth(out: array<byte>, at: nat, input: array<byte>, scanline: nat, prevline: Option<nat>, length: nat, bytewidth: nat)
    requires out != input && 0 < bytewidth <= length
    requires at + length <= out.Length && scanline + length <= input.Length && (prevline.Some? ==> prevline.value + length <= input.Length)
    modifies out
    ensures Filtered(out, at, 4, Line(input, scanline, length), LineBefore(input, prevline, length), bytewidth, length)
    ensures OnlyLine(out, at, length)
  {
    if prevline.Some? {
      FilterPaethBelow(out, at, input, scanline, prevline.value, length, bytewidth);
    } else {
      FilterPaethTop(out, at, input, scanline, length, bytewidth);
    }
  }

  /** The Paeth filter for a line with a line above it. */
  method FilterPaethBelow(out: array<byte>, at: nat, input: array<byte>, scanline: nat, p: nat, length: nat, bytewidth: nat)
    requires out != input && 0 < bytewidth <= length
    requires at + length <= out.Length && scanline + length <= input.Length && p + length <= input.Length
    modifies out
    ensures Filtered(out, at, 4, Line(input, scanline, length), Some(Line(input, p, length)), bytewidth, length)
    ensures OnlyLine(out, at, length)
  {
    hide Paeth;
    hide FilterByte;
    hide Predict;
    ghost var row, prev := Line(input, scanline, length), Some(Line(input, p, length));
    for i := 0 to bytewidth
      invariant Filtered(out, at, 4, row, prev, bytewidth, i) && OnlyLine(out, at, length)
    {
      PaethByte(row, prev, bytewidth, i);
      PaethAtEdge(input[p + i]);
      out[at + i] := ((input[scanline + i] as int) - input[p + i]) % 256;
    }
    for i := bytewidth to length
      invariant Filtered(out, at, 4, row, prev, bytewidth, i) && OnlyLine(out, at, length)
    {
      PaethByte(row, prev, bytewidth, i);
      var predicted := PaethPredictor(input[scanline + i - bytewidth], input[p + i], input[p + i - bytewidth]);
      out[at + i] := ((input[scanline + i] as int) - predicted) % 256;
    }
  }

  /** The Paeth filter for the first line. */
  method FilterPaethTop(out: array<byte>, at: nat, input: array<byte>, scanline: nat, length: nat, bytewidth: nat)
    requires out != input && 0 < bytewidth <= length && at + length <= out.Length && scanline + length <= input.Length
    modifies out
    ensures Filtered(out, at, 4, Line(input, scanline, length), None, bytewidth, length)
    ensures OnlyLine(out, at, length)
  {
    hide Paeth;
    hide FilterByte;
    hide Predict;
    ghost var row, prev: Option<seq<byte>> := Line(input, scanline, length), None;
    PaethAtEdge(0);
    for i := 0 to bytewidth
      invariant Filtered(out, at, 4, row, prev, bytewidth, i) && OnlyLine(out, at, length)
    {
      PaethByte(row, prev, bytewidth, i);
      out[at + i] := input[scanline + i];
    }
    for i := bytewidth to length
      invariant Filtered(out, at, 4, row, prev, bytewidth, i) && OnlyLine(out, at, length)
    {
      PaethByte(row, prev, bytewidth, i);
      PaethAtEdge(input[scanline + i - bytewidth]);
      out[at + i] := ((input[scanline + i] as int) - input[scanline + i - bytewidth]) % 256;
    }
  }

  /** Filters the line at `scanline` of `input` into `out`. Nothing is written for an invalid type. */
  method FilterScanline(out: array<byte>, at: nat, input: array<byte>, scanline: nat, prevline: Option<nat>, length: nat, bytewidth: nat,
                        filterType: byte)
    requires out != input && 0 < bytewidth <= length
    requires at + length <= out.Length && scanline + length <= input.Length && (prevline.Some? ==> prevline.value + length <= input.Length)
    modifies out
    ensures OnlyLine(out, at, length)
    ensures filterType <= 4 ==>
      Line(out, at, length) == FilterRow(filterType, Line(input, scanline, length), LineBefore(input, prevline, length), bytewidth)
    ensures filterType > 4 ==> out[..] == old(out[..])
  {
    hide FilterByte;
    ghost var row, prev := Line(input, scanline, length), LineBefore(input, prevline, length);
    if filterType == 0 {
      for i := 0 to length
        invariant Filtered(out, at, 0, row, prev, bytewidth, i) && OnlyLine(out, at, length)
      {
        FilterNone(row, prev, bytewidth, i);
        out[at + i] := input[scanline + i];
      }
    } else if filterType == 1 {
      FilterSub(out, at, input, scanline, length, bytewidth, prev);
    } else if filterType == 2 {
      FilterUp(out, at, input, scanline, prevline, length, bytewidth);
    } else if filterType == 3 {
      FilterAverage(out, at, input, scanline, prevline, length, bytewidth);
    } else if filterType == 4 {
      FilterPaeth(out, at, input, scanline, prevline, length, bytewidth);
    }
  }

  lemma FilterNone(row: seq<byte>, prev: Option<seq<byte>>, bytewidth: nat, i: nat)
    requires IsLine(row, prev, bytewidth) && i < |row|
    ensures FilterByte(0, row, prev, bytewidth, i) == row[i]
  {
  }
}
