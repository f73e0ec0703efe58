/** The inflator. It reads ahead with zeros past the end of the data and checks afterwards whether it has
    passed the end; it decodes two literals in a row where it can. It is proved to succeed exactly on the
    streams that have a meaning, and to produce what they mean. */
module Inflate {
  import opened Bits
  import opened BitStream
  import opened Canonical
  import opened DecodeTable
  import opened HuffmanTree
  import opened DeflateFormat
  import opened Wrappers
  import opened InflateTrees

  // ---------------------------------------------------------------------------------------------
  // The growable output buffer
  // ---------------------------------------------------------------------------------------------

  class ByteVector {
    var data: array<byte>
    var size: nat

    ghost predicate Valid()
      reads this
    {
      size <= data.Length
    }

    ghost function Contents(): seq<byte>
      requires Valid()
      reads this, data
    {
      data[..size]
    }

    constructor (buffer: seq<byte>)
      ensures Valid() && Contents() == buffer && fresh(data)
    {
      data := new byte[|buffer|](i requires 0 <= i < |buffer| => buffer[i]);
      size := |buffer|;
    }

    /** Makes room for `n` bytes in all, half as much again as before at least. */
    method Reserve(n: nat)
      requires Valid()
      modifies this`data
      ensures Valid() && data.Length >= n && Contents() == old(Contents())
      ensures data == old(data) || fresh(data)
    {
      if n > data.Length {
        var bigger := new byte[n + data.Length / 2](_ => 0);
        forall i | 0 <= i < data.Length {
          bigger[i] := data[i];
        }
        data := bigger;
      }
    }

    /** Sets the size; bytes that this adds are not initialised. */
    method Resize(n: nat)
      requires Valid() && n >= size
      modifies this
      ensures Valid() && size == n && Contents()[..old(size)] == old(Contents())
      ensures data == old(data) || fresh(data)
    {
      ghost var before := Contents();
      Reserve(n);
      assert data[..size] == before;
      size := n;
    }

    method Push(b: byte)
      requires Valid() && size < data.Length
      modifies this`size, data
      ensures Valid() && Contents() == old(Contents()) + [b]
    {
      data[size] := b;
      size := size + 1;
    }

    /** Copies `length` bytes from `distance` back. What the copy overlaps of itself is read after it has
        been written. */
    method CopyMatch(distance: nat, length: nat)
      requires Valid() && 0 < distance <= size && size + length <= data.Length
      modifies this`size, data
      ensures Valid() && Contents() == Copy(old(Contents()), distance, length)
    {
      hide Copy;
      ghost var before := Contents();
      assert Copy(before, distance, 0) == before by { CopyNothing(before, distance); }
      var start := size;
      var backward := start - distance;
      size := size + length;
      if distance < length {
        CopyBytes(start, backward, distance, before, distance, 0);
        start := start + distance;
        for forward := distance to length
          invariant size == |before| + length && start == |before| + forward && backward == start - 2 * distance
          invariant data[..start] == Copy(before, distance, forward)
        {
          CopyOne(before, distance, forward);
          CopyPeriodic(before, distance, forward, start - distance);
          data[start] := data[backward];
          start, backward := start + 1, backward + 1;
        }
      } else {
        CopyBytes(start, backward, length, before, distance, 0);
      }
    }

    /** The library's memcpy, on bytes of the buffer that do not overlap. */
    method CopyBytes(start: nat, backward: nat, n: nat, ghost before: seq<byte>, ghost distance: nat, ghost done: nat)
      requires 0 < distance <= |before| && n <= distance
      requires start == |before| + done && backward == start - distance && start + n <= data.Length
      requires data[..start] == Copy(before, distance, done)
      modifies data
      ensures data[..start + n] == Copy(before, distance, done + n)
    {
      hide Copy;
      for i := 0 to n
        invariant data[..start + i] == Copy(before, distance, done + i)
      {
        CopyOne(before, distance, done + i);
        data[start + i] := data[backward + i];
      }
    }
  }

  lemma CopyNothing(out: seq<byte>, distance: nat)
    requires 0 < distance <= |out|
    ensures Copy(out, distance, 0) == out
  {
  }

  lemma CopyOne(out: seq<byte>, distance: nat, length: nat)
    requires 0 < distance <= |out|
    ensures var c := Copy(out, distance, length); Copy(out, distance, length + 1) == c + [c[|c| - distance]]
  {
  }

  /** What has been copied repeats itself. */
  lemma {:induction false} CopyPeriodic(out: seq<byte>, distance: nat, length: nat, k: nat)
    requires 0 < distance <= |out| <= k < |out| + length
    ensures Copy(out, distance, length)[k] == Copy(out, distance, length)[k - distance]
  {
    if k < |out| + length - 1 {
      CopyPeriodic(out, distance, length - 1, k);
    }
  }

  // ---------------------------------------------------------------------------------------------
  // Steps of the meaning, as seen by a decoder that may have passed the end
  // ---------------------------------------------------------------------------------------------

  lemma LiteralStep(ll: seq<nat>, dl: seq<nat>, bits: seq<bit>, p: nat, out: seq<byte>, s: nat)
    requires IsTree(ll) && Matches(ll, s, Window(bits, p, MAXBITS)) && s < 256
    ensures InflateSymbols(ll, dl, bits, p, out) == InflateSymbols(ll, dl, bits, p + ll[s], out + [s])
  {
    hide IsTree;
    hide Window;
    hide Matches;
    hide Copy;
    hide DecodeMatch;
    MatchInTree(ll, s, Window(bits, p, MAXBITS));
    DecodeFromWindow(ll, bits, p, s);
  }

  lemma MatchInTree(lens: seq<nat>, s: nat, v: nat)
    requires Matches(lens, s, v)
    ensures s < |lens| && lens[s] > 0
  {
  }

  lemma EndStep(ll: seq<nat>, dl: seq<nat>, bits: seq<bit>, p: nat, out: seq<byte>, s: nat)
    requires IsTree(ll) && Matches(ll, s, Window(bits, p, MAXBITS)) && s == 256
    ensures InflateSymbols(ll, dl, bits, p, out) == if p + ll[s] <= |bits| then Some((p + ll[s], out)) else None
  {
    DecodeFromWindow(ll, bits, p, s);
  }

  lemma BadStep(ll: seq<nat>, dl: seq<nat>, bits: seq<bit>, p: nat, out: seq<byte>, s: nat)
    requires IsTree(ll) && s > 285
    requires NoMatch(ll, Window(bits, p, MAXBITS)) || Matches(ll, s, Window(bits, p, MAXBITS))
    ensures InflateSymbols(ll, dl, bits, p, out) == None
  {
    if Matches(ll, s, Window(bits, p, MAXBITS)) {
      DecodeFromWindow(ll, bits, p, s);
    } else {
      NoDecodeFromWindow(ll, bits, p);
    }
  }

  lemma MatchStep(ll: seq<nat>, dl: seq<nat>, bits: seq<bit>, p: nat, out: seq<byte>, s: nat)
    requires IsTree(ll) && Matches(ll, s, Window(bits, p, MAXBITS)) && 257 <= s <= 285
    ensures InflateSymbols(ll, dl, bits, p, out) ==
      match DecodeMatch(dl, bits, p + ll[s], s - 257)
      case None => None
      case Some(m) =>
        if m.distance > |out| then None else InflateSymbols(ll, dl, bits, m.next, Copy(out, m.distance, m.length))
  {
    hide DecodeMatch;
    hide Copy;
    hide RevCode;
    hide Low;
    hide IsTree;
    hide Window;
    DecodeFromWindow(ll, bits, p, s);
    if p + ll[s] > |bits| {
      assert DecodeMatch(dl, bits, p + ll[s], s - 257) == None by { MatchPastEnd(dl, bits, p + ll[s], s - 257); }
    }
  }

  lemma MatchPastEnd(dl: seq<nat>, bits: seq<bit>, p: nat, lengthIndex: nat)
    requires p > |bits| && lengthIndex < 29
    ensures DecodeMatch(dl, bits, p, lengthIndex) == None
  {
  }

  // ---------------------------------------------------------------------------------------------
  // Compressed blocks
  // ---------------------------------------------------------------------------------------------

  lemma TreeIs(tree: Tree)
    requires tree.Valid()
    ensures TreeLengths(tree.lengths) && IsTree(tree.lengths)
  {
  }

  /** Reads a distance. Symbol `d` is what the table says comes next. */
  method ReadDistance(reader: BitReader, tree_d: Tree) returns (error: nat, distance: nat, ghost d: nat)
    requires reader.Valid() && tree_d.Valid()
    modifies reader
    ensures reader.Valid() && old(reader.bp) <= reader.bp <= old(reader.bp) + 28
    ensures error == if d <= 29 then 0 else if d <= 31 then 18 else 16
    ensures var v := Window(BitsOf(reader.data), old(reader.bp), MAXBITS);
      if d == INVALIDSYMBOL then NoMatch(tree_d.lengths, v) else Matches(tree_d.lengths, d, v)
    ensures error == 0 ==> d < |tree_d.lengths| && 1 <= distance <= 32768
    ensures error == 0 ==> reader.bp == old(reader.bp) + tree_d.lengths[d] + DistanceExtra(d)
    ensures error == 0 ==> distance == DistanceBase(d) + Window(BitsOf(reader.data), old(reader.bp) + tree_d.lengths[d], DistanceExtra(d))
  {
    hide Window;
    hide BitsOf;
    hide NoMatch;
    hide DistanceBase;
    hide DistanceExtra;
    hide Pow2;
    hide Low;
    hide RevCode;
    TreeIs(tree_d);
    hide Tree.Valid;
    reader.EnsureBits32();
    distance := 0;
    var code_d := tree_d.DecodeSymbol(reader, 32);
    d := code_d;
    if code_d > 29 {
      return (if code_d <= 31 then 18 else 16), distance, d;
    }
    assert 0 < tree_d.lengths[code_d] <= MAXBITS;
    DistanceTable(code_d);
    distance := DistanceBase(code_d);
    var numextrabits_d := DistanceExtra(code_d);
    WindowEmpty(BitsOf(reader.data), reader.bp);
    if numextrabits_d != 0 {
      var extra := reader.ReadBits(numextrabits_d, 32 - tree_d.lengths[code_d]);
      distance := distance + extra;
    }
    error := 0;
  }

  /** Reads the rest of a length and the distance. */
  method ReadMatch(reader: BitReader, tree_d: Tree, lengthIndex: nat) returns (error: nat, length: nat, distance: nat)
    requires reader.Valid() && tree_d.Valid() && lengthIndex < 29
    modifies reader
    ensures reader.Valid() && old(reader.bp) <= reader.bp <= old(reader.bp) + 33
    ensures error == 0 || error == 16 || error == 18
    ensures var m := DecodeMatch(tree_d.lengths, BitsOf(reader.data), old(reader.bp), lengthIndex);
      if error == 0 && reader.bp <= reader.bitsize then m == Some(Match(length, distance, reader.bp)) else m == None
    ensures error == 0 ==> 3 <= length <= 258 && 1 <= distance <= 32768
  {
    hide Window;
    hide BitsOf;
    hide Matches;
    hide NoMatch;
    hide LengthBase;
    hide LengthExtra;
    hide DistanceBase;
    hide DistanceExtra;
    hide DecodeMatch;
    hide Pow2;
    TreeIs(tree_d);
    hide Tree.Valid;
    hide IsTree;
    hide TreeLengths;
    ghost var p := reader.bp;
    LengthTable(lengthIndex);
    length := LengthBase(lengthIndex);
    var extra := ReadExtra(reader, LengthExtra(lengthIndex));
    length := length + extra;
    ghost var q, d := reader.bp, 0;
    error, distance, d := ReadDistance(reader, tree_d);
    MatchRead(tree_d.lengths, BitsOf(reader.data), p, lengthIndex, q, d);
  }

  /** Reads the extra bits of a length, if it has any. */
  method ReadExtra(reader: BitReader, n: nat) returns (extra: nat)
    requires reader.Valid() && n <= 5
    modifies reader
    ensures reader.Valid() && reader.bp == old(reader.bp) + n
    ensures extra == Window(BitsOf(reader.data), old(reader.bp), n) < Pow2(n)
  {
    WindowEmpty(BitsOf(reader.data), reader.bp);
    extra := 0;
    if n != 0 {
      reader.EnsureBits25();
      extra := reader.ReadBits(n, 25);
    }
  }

  /** The meaning of a match, in terms of what is read of it. */
  lemma MatchFromParts(dl: seq<nat>, bits: seq<bit>, p: nat, lengthIndex: nat, d: nat)
    requires lengthIndex < 29
    requires var q := p + LengthExtra(lengthIndex);
      if d == INVALIDSYMBOL then DecodeSymbol(dl, bits, q) == None
      else d < |dl| && DecodeSymbol(dl, bits, q) == if q + dl[d] <= |bits| then Some(d) else None
    ensures d > 29 ==> DecodeMatch(dl, bits, p, lengthIndex) == None
    ensures d <= 29 ==>
      var q := p + LengthExtra(lengthIndex);
      var n := q + dl[d] + DistanceExtra(d);
      DecodeMatch(dl, bits, p, lengthIndex) ==
        if n > |bits| then None
        else Some(Match(LengthBase(lengthIndex) + Window(bits, p, LengthExtra(lengthIndex)),
                        DistanceBase(d) + Window(bits, q + dl[d], DistanceExtra(d)), n))
  {
    hide Window;
    hide LengthBase;
    hide LengthExtra;
    hide DistanceBase;
    hide DistanceExtra;
    hide DecodeSymbol;
  }

  /** The same, from what decoding through the table says about the distance symbol. */
  lemma MatchRead(dl: seq<nat>, bits: seq<bit>, p: nat, lengthIndex: nat, q: nat, d: nat)
    requires TreeLengths(dl) && IsTree(dl) && lengthIndex < 29 && q == p + LengthExtra(lengthIndex)
    requires if d == INVALIDSYMBOL then NoMatch(dl, Window(bits, q, MAXBITS)) else Matches(dl, d, Window(bits, q, MAXBITS))
    ensures d > 29 ==> DecodeMatch(dl, bits, p, lengthIndex) == None
    ensures d <= 29 ==> d < |dl| && 0 < dl[d] <= MAXBITS
    ensures d <= 29 ==>
      var n := q + dl[d] + DistanceExtra(d);
      DecodeMatch(dl, bits, p, lengthIndex) ==
        if n > |bits| then None
        else Some(Match(LengthBase(lengthIndex) + Window(bits, p, LengthExtra(lengthIndex)),
                        DistanceBase(d) + Window(bits, q + dl[d], DistanceExtra(d)), n))
  {
    hide Window;
    hide Matches;
    hide NoMatch;
    hide IsTree;
    hide TreeLengths;
    hide LengthBase;
    hide LengthExtra;
    hide DistanceBase;
    hide DistanceExtra;
    hide DecodeMatch;
    hide DecodeSymbol;
    SymbolRead(dl, bits, q, d);
    MatchFromParts(dl, bits, p, lengthIndex, d);
  }

  lemma WindowEmpty(bits: seq<bit>, p: nat)
    ensures Window(bits, p, 0) == 0
  {
  }

  /** What decoding through the table says about the symbol in the stream. */
  lemma SymbolRead(lens: seq<nat>, bits: seq<bit>, p: nat, s: nat)
    requires TreeLengths(lens) && IsTree(lens)
    requires var v := Window(bits, p, MAXBITS);
      if s == INVALIDSYMBOL then NoMatch(lens, v) else Matches(lens, s, v)
    ensures s == INVALIDSYMBOL ==> DecodeSymbol(lens, bits, p) == None
    ensures s != INVALIDSYMBOL ==> s < |lens| && 0 < lens[s] <= MAXBITS
    ensures s != INVALIDSYMBOL ==> DecodeSymbol(lens, bits, p) == if p + lens[s] <= |bits| then Some(s) else None
  {
    if s == INVALIDSYMBOL {
      NoDecodeFromWindow(lens, bits, p);
    } else {
      DecodeFromWindow(lens, bits, p, s);
    }
  }

  /** One round of the decoding loop: a literal and then a literal, a match or the end; or, if the first
      symbol is no literal, just that. At most 259 bytes are written. */
  method InflateRound(out: ByteVector, reader: BitReader, tree_ll: Tree, tree_d: Tree) returns (error: nat, done: bool)
    requires out.Valid() && reader.Valid() && tree_ll.Valid() && tree_d.Valid()
    requires out.data.Length >= out.size + 260
    modifies reader, out`size, out.data
    ensures out.Valid() && reader.Valid() && out.size <= old(out.size) + 259
    ensures old(reader.bp) <= reader.bp <= old(reader.bp) + 63
    ensures error == 0 ==> reader.bp > old(reader.bp)
    ensures error in {0, 16, 18, 52}
    ensures var bits, ll, dl := BitsOf(reader.data), tree_ll.lengths, tree_d.lengths;
      var before := InflateSymbols(ll, dl, bits, old(reader.bp), old(out.Contents()));
      if error != 0 then before == None
      else if done then before == if reader.bp <= |bits| then Some((reader.bp, out.Contents())) else None
      else before == InflateSymbols(ll, dl, bits, reader.bp, out.Contents())
    ensures error == 0 ==> old(out.Contents()) <= out.Contents()
  {
    hide InflateSymbols;
    hide BitsOf;
    hide Window;
    hide TableOk;
    hide CodesOf;
    hide Acceptable;
    hide NoMatch;
    hide Copy;
    reader.EnsureBits32();
    ghost var p := reader.bp;
    var code_ll := tree_ll.DecodeSymbol(reader, 32);
    done := false;
    if code_ll <= 255 {
      assert Matches(tree_ll.lengths, code_ll, Window(BitsOf(reader.data), p, MAXBITS));
      LiteralStep(tree_ll.lengths, tree_d.lengths, BitsOf(reader.data), p, out.Contents(), code_ll);
      out.Push(code_ll);
      p := reader.bp;
      code_ll := tree_ll.DecodeSymbol(reader, 32 - tree_ll.lengths[code_ll]);
    }
    error, done := InflateSymbol(out, reader, tree_ll, tree_d, code_ll, p);
  }

  /** What the loop does with the symbol that was read at `p`. */
  method InflateSymbol(out: ByteVector, reader: BitReader, tree_ll: Tree, tree_d: Tree, code_ll: nat, ghost p: nat) returns (error: nat, done: bool)
    requires out.Valid() && reader.Valid() && tree_ll.Valid() && tree_d.Valid()
    requires out.data.Length >= out.size + 258
    requires var v := Window(BitsOf(reader.data), p, MAXBITS);
      if code_ll == INVALIDSYMBOL then NoMatch(tree_ll.lengths, v)
      else Matches(tree_ll.lengths, code_ll, v) && reader.bp == p + tree_ll.lengths[code_ll]
    modifies reader, out`size, out.data
    ensures out.Valid() && reader.Valid() && out.size <= old(out.size) + 258
    ensures old(reader.bp) <= reader.bp <= old(reader.bp) + 33
    ensures error == 0 ==> reader.bp > p
    ensures error in {0, 16, 18, 52}
    ensures var bits, ll, dl := BitsOf(reader.data), tree_ll.lengths, tree_d.lengths;
      var before := InflateSymbols(ll, dl, bits, p, old(out.Contents()));
      if error != 0 then before == None
      else if done then before == if reader.bp <= |bits| then Some((reader.bp, out.Contents())) else None
      else before == InflateSymbols(ll, dl, bits, reader.bp, out.Contents())
    ensures error == 0 ==> old(out.Contents()) <= out.Contents()
  {
    hide InflateSymbols;
    hide BitsOf;
    hide Window;
    hide TableOk;
    hide CodesOf;
    hide Acceptable;
    hide NoMatch;
    hide Copy;
    ghost var bits, ll, dl := BitsOf(reader.data), tree_ll.lengths, tree_d.lengths;
    error, done := 0, false;
    if code_ll <= 255 {
      LiteralStep(ll, dl, bits, p, out.Contents(), code_ll);
      out.Push(code_ll);
    } else if 257 <= code_ll <= 285 {
      MatchStep(ll, dl, bits, p, out.Contents(), code_ll);
      var length, distance;
      error, length, distance := ReadMatch(reader, tree_d, code_ll - 257);
      if error != 0 {
        return;
      }
      if distance > out.size {
        error := 52;
        return;
      }
      PastEnd(ll, dl, bits, reader.bp, Copy(out.Contents(), distance, length));
      out.CopyMatch(distance, length);
    } else if code_ll == 256 {
      EndStep(ll, dl, bits, p, out.Contents(), code_ll);
      done := true;
    } else {
      BadStep(ll, dl, bits, p, out.Contents(), code_ll);
      error := 16;
    }
  }

  lemma PastEnd(ll: seq<nat>, dl: seq<nat>, bits: seq<bit>, p: nat, out: seq<byte>)
    ensures p > |bits| ==> InflateSymbols(ll, dl, bits, p, out) == None
  {
  }

  /** The output stays within the limit, if there is one. */
  predicate Fits(maxOutputSize: nat, n: nat) {
    maxOutputSize == 0 || n <= maxOutputSize
  }

  /** The decoding loop of a block. It succeeds exactly when the symbols have a meaning that fits. */
  method InflateCodes(out: ByteVector, reader: BitReader, tree_ll: Tree, tree_d: Tree, maxOutputSize: nat) returns (error: nat)
    requires out.Valid() && reader.Valid() && tree_ll.Valid() && tree_d.Valid() && reader.bp <= reader.bitsize
    requires out.data.Length >= out.size + 260
    modifies reader, out, out.data
    ensures out.Valid() && reader.Valid() && (out.data == old(out.data) || fresh(out.data))
    ensures var r := InflateSymbols(tree_ll.lengths, tree_d.lengths, BitsOf(reader.data), old(reader.bp), old(out.Contents()));
      && (error == 0 <==> r.Some? && Fits(maxOutputSize, |r.value.1|))
      && (error == 0 ==> r == Some((reader.bp, out.Contents())))
  {
    hide InflateSymbols;
    hide BitsOf;
    hide TableOk;
    hide CodesOf;
    hide Acceptable;
    ghost var bits, ll, dl := BitsOf(reader.data), tree_ll.lengths, tree_d.lengths;
    ghost var r := InflateSymbols(ll, dl, bits, reader.bp, out.Contents());
    error := 0;
    var done := false;
    while error == 0 && !done
      invariant out.Valid() && reader.Valid() && (out.data == old(out.data) || fresh(out.data))
      invariant error == 0 && out.data.Length >= out.size + 260 && reader.bp <= reader.bitsize
      invariant !done ==> r == InflateSymbols(ll, dl, bits, reader.bp, out.Contents())
      invariant done ==> r == Some((reader.bp, out.Contents())) && Fits(maxOutputSize, out.size)
      decreases !done, reader.bitsize - reader.bp
    {
      error, done := InflateRound(out, reader, tree_ll, tree_d);
      if error != 0 {
        break;
      }
      if out.data.Length - out.size < 260 {
        out.Reserve(out.size + 260);
      }
      if reader.bp > reader.bitsize {
        PastEnd(ll, dl, bits, reader.bp, out.Contents());
        error := 51;
        break;
      }
      if maxOutputSize != 0 && out.size > maxOutputSize {
        OnlyGrows(ll, dl, bits, reader.bp, out.Contents());
        error := 109;
        break;
      }
    }
  }

  lemma OnlyGrows(ll: seq<nat>, dl: seq<nat>, bits: seq<bit>, p: nat, out: seq<byte>)
    ensures var r := InflateSymbols(ll, dl, bits, p, out); r.Some? ==> |r.value.1| >= |out|
  {
  }

  /** A compressed block, of type 1 or 2. */
  method InflateHuffmanBlock(out: ByteVector, reader: BitReader, btype: nat, maxOutputSize: nat) returns (error: nat)
    requires out.Valid() && reader.Valid() && reader.bp <= reader.bitsize && (btype == 1 || btype == 2)
    modifies reader, out, out.data
    ensures out.Valid() && reader.Valid() && (out.data == old(out.data) || fresh(out.data))
    ensures var bits, p, o := BitsOf(reader.data), old(reader.bp), old(out.Contents());
      var r := if btype == 1 then InflateSymbols(FixedLitLen(), FixedDistance(), bits, p, o)
               else match ReadTrees(bits, p)
                 case None => None
                 case Some(t) => InflateSymbols(t.ll, t.dl, bits, t.next, o);
      && (error == 0 <==> r.Some? && Fits(maxOutputSize, |r.value.1|))
      && (error == 0 ==> r == Some((reader.bp, out.Contents())))
  {
    hide InflateSymbols;
    hide ReadTrees;
    hide BitsOf;
    hide FixedLitLen;
    hide FixedDistance;
    hide TableOk;
    hide CodesOf;
    hide Acceptable;
    out.Reserve(out.size + 260);
    var tree_ll := new Tree();
    var tree_d := new Tree();
    if btype == 1 {
      error := GenerateFixedLitLenTree(tree_ll);
      error := GenerateFixedDistanceTree(tree_d);
    } else {
      error := GetTreeInflateDynamic(tree_ll, tree_d, reader);
    }
    if error == 0 {
      error := InflateCodes(out, reader, tree_ll, tree_d, maxOutputSize);
    }
  }

  lemma StoredFields(data: seq<byte>, bytepos: nat, q: nat)
    requires bytepos + 4 <= |data| && q == 8 * bytepos
    ensures Window(BitsOf(data), q, 16) == data[bytepos] + Shl(data[bytepos + 1], 8)
    ensures Window(BitsOf(data), q + 16, 16) == data[bytepos + 2] + Shl(data[bytepos + 3], 8)
  {
    hide Window;
    hide BitsOf;
    hide Shl;
    var bits := BitsOf(data);
    WindowSplit(bits, q, 8, 8);
    WindowSplit(bits, q + 16, 8, 8);
    WindowByte(data, bytepos);
    WindowByte(data, bytepos + 1);
    WindowByte(data, bytepos + 2);
    WindowByte(data, bytepos + 3);
  }

  lemma StoredBytes(data: seq<byte>, p: nat, bytepos: nat, n: nat)
    requires p == 8 * bytepos && bytepos + n <= |data|
    ensures BytesAt(BitsOf(data), p, n) == data[bytepos..bytepos + n]
  {
    hide *;
    var r := BytesAt(BitsOf(data), p, n);
    forall i | 0 <= i < n
      ensures r[i] == data[bytepos + i]
    {
      ByteStored(data, p, bytepos, n, i, bytepos + i);
    }
  }

  lemma ByteStored(data: seq<byte>, p: nat, bytepos: nat, n: nat, i: nat, k: nat)
    requires p == 8 * bytepos && i < n && bytepos + i == k < |data|
    ensures BytesAt(BitsOf(data), p, n)[i] == data[k]
  {
    hide *;
    var q := 8 * k;
    ByteOfBytes(BitsOf(data), p, n, i, q);
    StoredByte(data, k, q);
  }

  lemma ByteOfBytes(bits: seq<bit>, p: nat, n: nat, i: nat, q: nat)
    requires i < n && q == p + 8 * i
    ensures BytesAt(bits, p, n)[i] == ByteValue(bits, q)
  {
    hide ByteValue;
  }

  lemma StoredByte(data: seq<byte>, i: nat, q: nat)
    requires i < |data| && q == 8 * i
    ensures ByteValue(BitsOf(data), q) == data[i]
  {
    hide Window;
    hide BitsOf;
    WindowByte(data, i);
  }

  /** The meaning of a stored block, in terms of the bytes. */
  lemma StoredMeaning(data: seq<byte>, p: nat, b: nat, out: seq<byte>, ignoreNlen: bool, len: nat, nlen: nat)
    requires 8 * b <= p + 7 < 8 * b + 8 && b + 4 < |data|
    requires len == data[b] + Shl(data[b + 1], 8) && nlen == data[b + 2] + Shl(data[b + 3], 8)
    ensures (!ignoreNlen && len + nlen != 65535) || b + 4 + len > |data| ==> InflateStored(BitsOf(data), p, out, ignoreNlen) == None
    ensures (ignoreNlen || len + nlen == 65535) && b + 4 + len <= |data| ==>
      InflateStored(BitsOf(data), p, out, ignoreNlen) == Some((8 * (b + 4 + len), out + data[b + 4..b + 4 + len]))
  {
    hide *;
    var bits, q := BitsOf(data), 8 * b;
    StoredFields(data, b, q);
    if b + 4 + len <= |data| {
      var bytes := data[b + 4..b + 4 + len];
      StoredBytes(data, q + 32, b + 4, len);
      StoredParts(bits, p, out, ignoreNlen, b, q, len, bytes, 8 * (b + 4 + len));
    } else {
      StoredTooLong(bits, p, out, ignoreNlen, b, q, len);
    }
  }

  lemma StoredTooLong(bits: seq<bit>, p: nat, out: seq<byte>, ignoreNlen: bool, b: nat, q: nat, len: nat)
    requires q == 8 * b <= p + 7 < q + 8
    requires q + 40 > |bits| || (len == Window(bits, q, 16) && q + 32 + 8 * len > |bits|)
    ensures InflateStored(bits, p, out, ignoreNlen) == None
  {
    hide Window;
    hide BytesAt;
  }

  lemma StoredTooShort(data: seq<byte>, p: nat, b: nat, out: seq<byte>, ignoreNlen: bool)
    requires 8 * b <= p + 7 < 8 * b + 8
    ensures b + 4 >= |data| ==> InflateStored(BitsOf(data), p, out, ignoreNlen) == None
  {
    if b + 4 >= |data| {
      StoredTooLong(BitsOf(data), p, out, ignoreNlen, b, 8 * b, 0);
    }
  }

  lemma StoredParts(bits: seq<bit>, p: nat, out: seq<byte>, ignoreNlen: bool, b: nat, q: nat, len: nat, bytes: seq<byte>, next: nat)
    requires q == 8 * b <= p + 7 < q + 8
    requires q + 40 <= |bits| && next == q + 32 + 8 * len <= |bits|
    requires len == Window(bits, q, 16) && BytesAt(bits, q + 32, len) == bytes
    ensures InflateStored(bits, p, out, ignoreNlen) ==
      if !ignoreNlen && len + Window(bits, q + 16, 16) != 65535 then None
      else Some((next, out + bytes))
  {
    hide Window;
    hide BytesAt;
  }

  lemma EndIsTooShort(bits: seq<bit>, p: nat, b: nat, size: nat, ignoreNlen: bool)
    requires 8 * b <= p + 7 < 8 * b + 8 && |bits| == 8 * size
    ensures EmptyAtEnd(bits, p, ignoreNlen) ==> b + 4 == size
  {
    hide Window;
    DivModUnique(p + 7, 8, b, p + 7 - 8 * b);
  }

  /** A stored block. */
  method InflateNoCompression(out: ByteVector, reader: BitReader, ignoreNlen: bool) returns (error: nat)
    requires out.Valid() && reader.Valid()
    modifies reader, out, out.data
    ensures out.Valid() && reader.Valid() && (out.data == old(out.data) || fresh(out.data))
    ensures var r := InflateStored(BitsOf(reader.data), old(reader.bp), old(out.Contents()), ignoreNlen);
      if error == 0 then r == Some((reader.bp, out.Contents())) else r == None
    ensures EmptyAtEnd(BitsOf(reader.data), old(reader.bp), ignoreNlen) ==> error == 52
  {
    hide BitsOf;
    hide InflateStored;
    hide EmptyAtEnd;
    hide Shl;
    hide Shr;
    var size := reader.size;
    ShrEighth(reader.bp + 7);
    var bytepos := Shr(reader.bp + 7, 3);
    StoredTooShort(reader.data, reader.bp, bytepos, out.Contents(), ignoreNlen);
    EndIsTooShort(BitsOf(reader.data), reader.bp, bytepos, size, ignoreNlen);
    if bytepos + 4 >= size {
      return 52;
    }
    var LEN := reader.data[bytepos] + Shl(reader.data[bytepos + 1], 8);
    bytepos := bytepos + 2;
    var NLEN := reader.data[bytepos] + Shl(reader.data[bytepos + 1], 8);
    bytepos := bytepos + 2;
    StoredMeaning(reader.data, reader.bp, bytepos - 4, out.Contents(), ignoreNlen, LEN, NLEN);
    if !ignoreNlen && LEN + NLEN != 65535 {
      return 21;
    }
    ghost var before := out.Contents();
    out.Resize(out.size + LEN);
    if bytepos + LEN > size {
      return 23;
    }
    CopyIn(out, reader.data, bytepos, LEN, before);
    bytepos := bytepos + LEN;
    ShlEight(bytepos);
    reader.bp := Shl(bytepos, 3);
    error := 0;
  }

  lemma ShlEight(x: nat)
    ensures Shl(x, 3) == 8 * x
  {
    ShlTimes(x, 3);
    assert Pow2(3) == 8;
  }

  lemma ShrEighth(x: nat)
    ensures 8 * Shr(x, 3) <= x < 8 * Shr(x, 3) + 8
  {
    LowIsMod(x, 3);
    assert Pow2(3) == 8;
  }

  method CopyIn(out: ByteVector, input: seq<byte>, from: nat, n: nat, ghost before: seq<byte>)
    requires out.Valid() && out.size == |before| + n && out.Contents()[..|before|] == before && from + n <= |input|
    modifies out.data
    ensures out.Contents() == before + input[from..from + n]
  {
    var start := out.size - n;
    assert out.data[..start] == before;
    for i := 0 to n
      invariant out.data[..start + i] == before + input[from..from + i]
    {
      out.data[start + i] := input[from + i];
      assert input[from..from + i + 1] == input[from..from + i] + [input[from + i]];
    }
  }

  /** One block, behind the bit that says whether it is the last. */
  method InflateOneBlock(out: ByteVector, reader: BitReader, ignoreNlen: bool, maxOutputSize: nat) returns (error: nat)
    requires out.Valid() && reader.Valid() && reader.bp + 2 <= reader.bitsize && reader.Ensured(2)
    modifies reader, out, out.data
    ensures out.Valid() && reader.Valid() && (out.data == old(out.data) || fresh(out.data))
    ensures var r := InflateBlock(BitsOf(reader.data), old(reader.bp), old(out.Contents()), ignoreNlen);
      && (error == 0 <==> r.Some? && Fits(maxOutputSize, |r.value.1|))
      && (error == 0 ==> r == Some((reader.bp, out.Contents())))
  {
    hide InflateBlock;
    hide InflateStored;
    hide InflateSymbols;
    hide ReadTrees;
    hide FixedLitLen;
    hide FixedDistance;
    hide BitsOf;
    hide Window;
    BlockKind(BitsOf(reader.data), reader.bp, out.Contents(), ignoreNlen);
    var BTYPE := reader.ReadBits(2, 2);
    if BTYPE == 3 {
      return 20;
    } else if BTYPE == 0 {
      error := InflateNoCompression(out, reader, ignoreNlen);
    } else {
      error := InflateHuffmanBlock(out, reader, BTYPE, maxOutputSize);
    }
    if error == 0 && maxOutputSize != 0 && out.size > maxOutputSize {
      error := 109;
    }
  }

  /** Inflates a stream after what the output holds already. It succeeds exactly when the stream has a
      meaning that fits, and appends that meaning. Every loop ends, whatever the data. */
  method Inflatev(out: ByteVector, input: seq<byte>, ignoreNlen: bool, maxOutputSize: nat) returns (error: nat)
    requires out.Valid()
    modifies out, out.data
    ensures out.Valid() && (out.data == old(out.data) || fresh(out.data))
    ensures var r := InflateBlocks(BitsOf(input), 0, old(out.Contents()), ignoreNlen);
      && (error == 0 <==> r.Some? && Fits(maxOutputSize, |r.value|))
      && (error == 0 ==> r == Some(out.Contents()))
  {
    hide InflateBlocks;
    hide InflateBlock;
    hide BitsOf;
    hide Window;
    var reader := new BitReader(input);
    ghost var bits := BitsOf(input);
    ghost var r := InflateBlocks(bits, 0, out.Contents(), ignoreNlen);
    error := 0;
    var BFINAL := 0;
    while BFINAL == 0
      invariant out.Valid() && (out.data == old(out.data) || fresh(out.data))
      invariant reader.Valid() && reader.data == input && reader.bp <= reader.bitsize && error == 0
      invariant if BFINAL == 0 then r == InflateBlocks(bits, reader.bp, out.Contents(), ignoreNlen)
                else r == Some(out.Contents()) && Fits(maxOutputSize, out.size)
      decreases BFINAL == 0, reader.bitsize - reader.bp
    {
      ghost var p, o := reader.bp, out.Contents();
      BlocksStep(bits, p, o, ignoreNlen);
      if reader.bitsize - reader.bp < 3 {
        return 52;
      }
      reader.EnsureBits9();
      BFINAL := reader.ReadBits(1, 9);
      reader.EnsuredLess(2, 8);
      error := InflateOneBlock(out, reader, ignoreNlen, maxOutputSize);
      if error != 0 {
        return;
      }
    }
  }

  lemma BlocksStep(bits: seq<bit>, p: nat, out: seq<byte>, ignoreNlen: bool)
    ensures InflateBlocks(bits, p, out, ignoreNlen) ==
      if p + 3 > |bits| then None
      else match InflateBlock(bits, p + 1, out, ignoreNlen)
        case None => None
        case Some((q, out')) =>
          if Window(bits, p, 1) == 1 then Some(out') else InflateBlocks(bits, q, out', ignoreNlen)
    ensures Window(bits, p, 1) < 2
  {
    hide InflateBlock;
    assert Window(bits, p + 1, 0) == 0;
  }

  lemma BlockKind(bits: seq<bit>, p: nat, out: seq<byte>, ignoreNlen: bool)
    requires p + 2 <= |bits|
    ensures Window(bits, p, 2) < 4
    ensures InflateBlock(bits, p, out, ignoreNlen) ==
      match Window(bits, p, 2)
      case 0 => InflateStored(bits, p + 2, out, ignoreNlen)
      case 1 => InflateSymbols(FixedLitLen(), FixedDistance(), bits, p + 2, out)
      case 2 =>
        (match ReadTrees(bits, p + 2)
         case None => None
         case Some(t) => InflateSymbols(t.ll, t.dl, bits, t.next, out))
      case _ => None
  {
    assert Pow2(2) == 4;
  }
}
