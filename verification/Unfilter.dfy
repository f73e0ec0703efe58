/** Unfiltering scanlines, in place if need be: the line that comes out may overlap the one that goes in
    when it lies no higher, because each byte is read before anything is written behind it. */
module Unfilter {
  import opened Bits
  import opened Wrappers
  import opened Filters

  /** The first `i` bytes are unfiltered, and the others are still to be read. */
  ghost predicate Undone(out: array<byte>, recon: nat, input: array<byte>, scanline: nat, filterType: byte, scan: seq<byte>,
                         prev: Option<seq<byte>>, bytewidth: nat, i: nat)
    requires IsLine(scan, prev, bytewidth) && i <= |scan| && recon + |scan| <= out.Length && scanline + |scan| <= input.Length
    reads out, input
  {
    && out[recon..recon + i] == UnfilterRow(filterType, scan, prev, bytewidth, i)
    && forall k :: i <= k < |scan| ==> input[scanline + k] == scan[k]
  }

  /** Stores the next byte. */
  method Put(out: array<byte>, recon: nat, input: array<byte>, scanline: nat, i: nat, v: byte, ghost filterType: byte, ghost scan: seq<byte>,
             ghost prev: Option<seq<byte>>, ghost bytewidth: nat)
    requires IsLine(scan, prev, bytewidth) && i < |scan| && recon + |scan| <= out.Length && scanline + |scan| <= input.Length
    requires out != input || recon <= scanline
    requires Undone(out, recon, input, scanline, filterType, scan, prev, bytewidth, i)
    requires v == UnfilterByte(filterType, scan, prev, bytewidth, out[recon..recon + i])
    modifies out
    ensures Undone(out, recon, input, scanline, filterType, scan, prev, bytewidth, i + 1)
    ensures forall k :: 0 <= k < out.Length && k != recon + i ==> out[k] == old(out[k])
  {
    hide UnfilterByte;
    hide UnfilterRow;
    RowStep(filterType, scan, prev, bytewidth, i);
    out[recon + i] := v;
    assert out[recon..recon + i] == old(out[recon..recon + i]);
    assert out[recon..recon + i + 1] == out[recon..recon + i] + [v];
  }

  lemma UndoNone(scan: seq<byte>, prev: Option<seq<byte>>, bytewidth: nat, done: seq<byte>)
    requires IsLine(scan, prev, bytewidth) && |done| < |scan|
    ensures UnfilterByte(0, scan, prev, bytewidth, done) == scan[|done|]
  {
  }

  lemma UndoSub(scan: seq<byte>, prev: Option<seq<byte>>, bytewidth: nat, done: seq<byte>)
    requires IsLine(scan, prev, bytewidth) && |done| < |scan|
    ensures UnfilterByte(1, scan, prev, bytewidth, done) == ((scan[|done|] as int) + Left(done, |done|, bytewidth)) % 256
  {
  }

  lemma UndoUp(scan: seq<byte>, prev: Option<seq<byte>>, bytewidth: nat, done: seq<byte>)
    requires IsLine(scan, prev, bytewidth) && |done| < |scan|
    ensures UnfilterByte(2, scan, prev, bytewidth, done) == ((scan[|done|] as int) + Up(prev, |done|)) % 256
  {
  }

  lemma UndoAverage(scan: seq<byte>, prev: Option<seq<byte>>, bytewidth: nat, done: seq<byte>)
    requires IsLine(scan, prev, bytewidth) && |done| < |scan|
    ensures UnfilterByte(3, scan, prev, bytewidth, done) ==
      ((scan[|done|] as int) + ((Left(done, |done|, bytewidth) as int) + Up(prev, |done|)) / 2) % 256
  {
  }

  lemma UndoPaeth(scan: seq<byte>, prev: Option<seq<byte>>, bytewidth: nat, done: seq<byte>)
    requires IsLine(scan, prev, bytewidth) && |done| < |scan|
    ensures UnfilterByte(4, scan, prev, bytewidth, done) ==
      ((scan[|done|] as int) + Paeth(Left(done, |done|, bytewidth), Up(prev, |done|), UpLeft(prev, |done|, bytewidth))) % 256
  {
    hide Paeth;
  }

  /** The lines of an in-place run, and what they hold: the line that comes out is not above the one that
      goes in, and the line before lies before both. */
  ghost predicate Lines(out: array<byte>, recon: nat, input: array<byte>, scanline: nat, precon: Option<nat>, length: nat) {
    && recon + length <= out.Length && scanline + length <= input.Length
    && (out != input || recon <= scanline)
    && (precon.Some? ==> precon.value + length <= recon)
  }

  /** The bytes of the first pixel: only the line above counts for them. */
  method UnfilterFirst(out: array<byte>, recon: nat, input: array<byte>, scanline: nat, precon: Option<nat>, length: nat, bytewidth: nat,
                       filterType: byte, ghost scan: seq<byte>, ghost prev: Option<seq<byte>>)
    requires Lines(out, recon, input, scanline, precon, length) && 0 < bytewidth <= length && 1 <= filterType <= 4 && filterType != 2
    requires scan == Line(input, scanline, length) && prev == LineBefore(out, precon, length)
    modifies out
    ensures Undone(out, recon, input, scanline, filterType, scan, prev, bytewidth, bytewidth)
    ensures OnlyLine(out, recon, length)
  {
    hide UnfilterByte;
    hide UnfilterRow;
    hide Paeth;
    assert UnfilterRow(filterType, scan, prev, bytewidth, 0) == [];
    for i := 0 to bytewidth
      invariant Undone(out, recon, input, scanline, filterType, scan, prev, bytewidth, i)
      invariant OnlyLine(out, recon, length)
    {
      ghost var done := out[recon..recon + i];
      UndoSub(scan, prev, bytewidth, done);
      UndoAverage(scan, prev, bytewidth, done);
      UndoPaeth(scan, prev, bytewidth, done);
      var up: byte := if precon.Some? then out[precon.value + i] else 0;
      PaethAtEdge(up);
      assert up == Up(prev, i);
      var predicted: byte := if filterType == 1 then 0 else if filterType == 3 then up / 2 else up;
      Put(out, recon, input, scanline, i, ((input[scanline + i] as int) + predicted) % 256, filterType, scan, prev, bytewidth);
    }
  }

  /** The average or Paeth prediction. */
  method PredictFrom(filterType: byte, r: byte, p: byte, q: byte) returns (predicted: byte)
    requires 3 <= filterType <= 4
    ensures predicted == Predict(filterType, r, p, q)
  {
    hide Paeth;
    if filterType == 3 {
      predicted := ((r as int) + p) / 2;
    } else {
      predicted := PaethPredictor(r, p, q);
    }
  }

  /** One byte behind the first pixel, from neighbours that have been read before. */
  method PutPredicted(out: array<byte>, recon: nat, input: array<byte>, scanline: nat, i: nat, s: byte, r: byte, p: byte, q: byte,
                      filterType: byte, ghost scan: seq<byte>, ghost prev: seq<byte>, ghost bytewidth: nat)
    requires 0 < bytewidth <= i < |scan| == |prev| && recon + |scan| <= out.Length && scanline + |scan| <= input.Length
    requires (out != input || recon <= scanline) && 3 <= filterType <= 4
    requires Undone(out, recon, input, scanline, filterType, scan, Some(prev), bytewidth, i)
    requires s == scan[i] && r == out[recon + i - bytewidth] && p == prev[i] && q == prev[i - bytewidth]
    modifies out
    ensures Undone(out, recon, input, scanline, filterType, scan, Some(prev), bytewidth, i + 1)
    ensures forall k :: 0 <= k < out.Length && k != recon + i ==> out[k] == old(out[k])
  {
    hide Undone;
    hide Predict;
    hide UnfilterRow;
    var predicted := PredictFrom(filterType, r, p, q);
    assert out[recon..recon + i][i - bytewidth] == out[recon + i - bytewidth];
    Put(out, recon, input, scanline, i, ((s as int) + predicted) % 256, filterType, scan, Some(prev), bytewidth);
  }

  lemma StillToRead(out: array<byte>, recon: nat, input: array<byte>, scanline: nat, precon: nat, filterType: byte, scan: seq<byte>,
                    prev: seq<byte>, bytewidth: nat, i: nat)
    requires 0 < bytewidth && i <= |scan| == |prev| && recon + |scan| <= out.Length && scanline + |scan| <= input.Length && precon + |scan| <= out.Length
    requires Undone(out, recon, input, scanline, filterType, scan, Some(prev), bytewidth, i) && Line(out, precon, |scan|) == prev
    ensures forall k :: i <= k < |scan| ==> input[scanline + k] == scan[k]
    ensures forall k :: 0 <= k < |scan| ==> out[precon + k] == prev[k]
  {
  }

  /** Some bytes at a time: all that they need is read before any of them is written. The bytes of a pixel
      do not depend on each other, so that this is the same as one after the other. */
  method UnfilterGroup(out: array<byte>, recon: nat, input: array<byte>, scanline: nat, precon: nat, length: nat, bytewidth: nat,
                       filterType: byte, i: nat, n: nat, ghost scan: seq<byte>, ghost prev: seq<byte>)
    requires Lines(out, recon, input, scanline, Some(precon), length) && 0 < n <= bytewidth <= i && i + n <= length
    requires |scan| == |prev| == length && 3 <= filterType <= 4 && Line(out, precon, length) == prev
    requires Undone(out, recon, input, scanline, filterType, scan, Some(prev), bytewidth, i)
    modifies out
    ensures Undone(out, recon, input, scanline, filterType, scan, Some(prev), bytewidth, i + n)
    ensures OnlyLine(out, recon, length)
  {
    hide Undone;
    hide Line;
    StillToRead(out, recon, input, scanline, precon, filterType, scan, prev, bytewidth, i);
    var j := i - bytewidth;
    var s, r, p, q := input[scanline + i..scanline + i + n], out[recon + j..recon + j + n], out[precon + i..precon + i + n], out[precon + j..precon + j + n];
    for k := 0 to n
      invariant Undone(out, recon, input, scanline, filterType, scan, Some(prev), bytewidth, i + k)
      invariant OnlyLine(out, recon, length) && forall k' :: 0 <= k' < n ==> r[k'] == out[recon + j + k']
    {
      PutPredicted(out, recon, input, scanline, i + k, s[k], r[k], p[k], q[k], filterType, scan, prev, bytewidth);
    }
  }

  /** Average and Paeth for a line with a line above it: four, three or two bytes at a time where the pixels
      are wide enough, and one at a time at the end. */
  method UnfilterBelow(out: array<byte>, recon: nat, input: array<byte>, scanline: nat, precon: nat, length: nat, bytewidth: nat,
                       filterType: byte, ghost scan: seq<byte>, ghost prev: seq<byte>)
    requires Lines(out, recon, input, scanline, Some(precon), length) && 0 < bytewidth <= length && 3 <= filterType <= 4
    requires scan == Line(input, scanline, length) && prev == Line(out, precon, length)
    modifies out
    ensures Undone(out, recon, input, scanline, filterType, scan, Some(prev), bytewidth, length) && OnlyLine(out, recon, length)
  {
    hide Undone;
    UnfilterFirst(out, recon, input, scanline, Some(precon), length, bytewidth, filterType, scan, Some(prev));
    var i := bytewidth;
    if bytewidth >= 4 {
      while i + 3 < length
        invariant bytewidth <= i <= length && OnlyLine(out, recon, length)
        invariant Undone(out, recon, input, scanline, filterType, scan, Some(prev), bytewidth, i)
      {
        UnfilterGroup(out, recon, input, scanline, precon, length, bytewidth, filterType, i, 4, scan, prev);
        i := i + 4;
      }
    } else if bytewidth >= 3 {
      while i + 2 < length
        invariant bytewidth <= i <= length && OnlyLine(out, recon, length)
        invariant Undone(out, recon, input, scanline, filterType, scan, Some(prev), bytewidth, i)
      {
        UnfilterGroup(out, recon, input, scanline, precon, length, bytewidth, filterType, i, 3, scan, prev);
        i := i + 3;
      }
    } else if bytewidth >= 2 {
      while i + 1 < length
        invariant bytewidth <= i <= length && OnlyLine(out, recon, length)
        invariant Undone(out, recon, input, scanline, filterType, scan, Some(prev), bytewidth, i)
      {
        UnfilterGroup(out, recon, input, scanline, precon, length, bytewidth, filterType, i, 2, scan, prev);
        i := i + 2;
      }
    }
    while i != length
      invariant bytewidth <= i <= length && OnlyLine(out, recon, length)
      invariant Undone(out, recon, input, scanline, filterType, scan, Some(prev), bytewidth, i)
    {
      UnfilterGroup(out, recon, input, scanline, precon, length, bytewidth, filterType, i, 1, scan, prev);
      i := i + 1;
    }
  }

  /** Sub, average and Paeth for a line of which only the left neighbours count: all types but up, for the
      first line. */
  method UnfilterTop(out: array<byte>, recon: nat, input: array<byte>, scanline: nat, precon: Option<nat>, length: nat, bytewidth: nat,
                     filterType: byte, ghost scan: seq<byte>, ghost prev: Option<seq<byte>>)
    requires Lines(out, recon, input, scanline, precon, length) && 0 < bytewidth <= length
    requires filterType == 1 || (precon.None? && 3 <= filterType <= 4)
    requires scan == Line(input, scanline, length) && prev == LineBefore(out, precon, length)
    modifies out
    ensures Undone(out, recon, input, scanline, filterType, scan, prev, bytewidth, length) && OnlyLine(out, recon, length)
  {
    hide UnfilterByte;
    hide UnfilterRow;
    hide Paeth;
    UnfilterFirst(out, recon, input, scanline, precon, length, bytewidth, filterType, scan, prev);
    for i := bytewidth to length
      invariant Undone(out, recon, input, scanline, filterType, scan, prev, bytewidth, i) && OnlyLine(out, recon, length)
    {
      ghost var done := out[recon..recon + i];
      UndoSub(scan, prev, bytewidth, done);
      UndoAverage(scan, prev, bytewidth, done);
      UndoPaeth(scan, prev, bytewidth, done);
      var left := out[recon + i - bytewidth];
      assert done[i - bytewidth] == left;
      PaethAtEdge(left);
      var predicted: byte := if filterType == 3 then left / 2 else left;
      Put(out, recon, input, scanline, i, ((input[scanline + i] as int) + predicted) % 256, filterType, scan, prev, bytewidth);
    }
  }

  /** No filter, and up. */
  method UnfilterUp(out: array<byte>, recon: nat, input: array<byte>, scanline: nat, precon: Option<nat>, length: nat, bytewidth: nat,
                    filterType: byte, ghost scan: seq<byte>, ghost prev: Option<seq<byte>>)
    requires Lines(out, recon, input, scanline, precon, length) && 0 < bytewidth <= length && (filterType == 0 || filterType == 2)
    requires scan == Line(input, scanline, length) && prev == LineBefore(out, precon, length)
    modifies out
    ensures Undone(out, recon, input, scanline, filterType, scan, prev, bytewidth, length) && OnlyLine(out, recon, length)
  {
    hide UnfilterByte;
    hide UnfilterRow;
    assert UnfilterRow(filterType, scan, prev, bytewidth, 0) == [];
    for i := 0 to length
      invariant Undone(out, recon, input, scanline, filterType, scan, prev, bytewidth, i) && OnlyLine(out, recon, length)
    {
      ghost var done := out[recon..recon + i];
      UndoNone(scan, prev, bytewidth, done);
      UndoUp(scan, prev, bytewidth, done);
      var up: byte := if filterType == 2 && precon.Some? then out[precon.value + i] else 0;
      assert filterType == 2 ==> up == Up(prev, i);
      Put(out, recon, input, scanline, i, ((input[scanline + i] as int) + up) % 256, filterType, scan, prev, bytewidth);
    }
  }

  /** Unfilters a line, possibly onto itself. */
  method UnfilterScanline(out: array<byte>, recon: nat, input: array<byte>, scanline: nat, precon: Option<nat>, bytewidth: nat,
                          filterType: byte, length: nat) returns (error: nat)
    requires Lines(out, recon, input, scanline, precon, length) && 0 < bytewidth <= length
    modifies out
    ensures error == if filterType <= 4 then 0 else 36
    ensures error == 0 ==>
      Line(out, recon, length) == UnfilterRow(filterType, old(Line(input, scanline, length)), old(LineBefore(out, precon, length)), bytewidth, length)
    ensures OnlyLine(out, recon, length) && (error != 0 ==> out[..] == old(out[..]))
  {
    hide UnfilterRow;
    ghost var scan, prev := Line(input, scanline, length), LineBefore(out, precon, length);
    if filterType > 4 {
      return 36;
    }
    if filterType == 0 || filterType == 2 {
      UnfilterUp(out, recon, input, scanline, precon, length, bytewidth, filterType, scan, prev);
    } else if filterType == 1 || precon.None? {
      UnfilterTop(out, recon, input, scanline, precon, length, bytewidth, filterType, scan, prev);
    } else {
      UnfilterBelow(out, recon, input, scanline, precon.value, length, bytewidth, filterType, scan, prev.value);
    }
    error := 0;
  }
}
