/** The bit writer and the bit reader. The stream of a byte sequence is the bits of its bytes, lowest bit
    of each byte first. The writer appends to that stream, and the reader's buffer is a window on it that
    is filled up with zeros past the end. */
module BitStream {
  import opened Bits

  function BitsOf(data: seq<byte>): (bs: seq<bit>)
    ensures |bs| == 8 * |data|
  {
    if data == [] then [] else BitsOf(data[..|data| - 1]) + Lsb(data[|data| - 1], 8)
  }

  function BitAt(bits: seq<bit>, p: nat): bit {
    if p < |bits| then bits[p] else 0
  }

  /** The value of the `n` bits from `p` on, zeros past the end. */
  function Window(bits: seq<bit>, p: nat, n: nat): (w: nat)
    ensures w < Pow2(n)
    decreases n
  {
    if n == 0 then 0 else BitAt(bits, p) + 2 * Window(bits, p + 1, n - 1)
  }

  /** `e` occurs in `bits` at `p`. */
  predicate At(bits: seq<bit>, p: nat, e: seq<bit>) {
    p + |e| <= |bits| && bits[p..p + |e|] == e
  }

  lemma AtConcat(bits: seq<bit>, p: nat, a: seq<bit>, b: seq<bit>)
    ensures At(bits, p, a + b) <==> At(bits, p, a) && At(bits, p + |a|, b)
  {
    if p + |a| + |b| <= |bits| {
      var s := bits[p..p + |a + b|];
      assert s[..|a|] == bits[p..p + |a|] && s[|a|..] == bits[p + |a|..p + |a| + |b|];
      assert (a + b)[..|a|] == a && (a + b)[|a|..] == b;
      assert s == s[..|a|] + s[|a|..];
    }
  }

  lemma {:induction false} WindowSplit(bits: seq<bit>, p: nat, a: nat, b: nat)
    ensures Window(bits, p, a + b) == Window(bits, p, a) + Shl(Window(bits, p + a, b), a)
    decreases a
  {
    if a > 0 {
      WindowSplit(bits, p + 1, a - 1, b);
    }
  }

  /** The low end of a window, and what is left after it. */
  lemma WindowParts(bits: seq<bit>, p: nat, a: nat, n: nat)
    requires a <= n
    ensures Low(Window(bits, p, n), a) == Window(bits, p, a)
    ensures Shr(Window(bits, p, n), a) == Window(bits, p + a, n - a)
  {
    WindowSplit(bits, p, a, n - a);
    SplitUnique(Window(bits, p, a), Window(bits, p + a, n - a), a);
  }

  lemma {:induction false} WindowVal(bits: seq<bit>, p: nat, n: nat)
    requires p + n <= |bits|
    ensures Window(bits, p, n) == Val(bits[p..p + n])
    decreases n
  {
    if n > 0 {
      WindowVal(bits, p + 1, n - 1);
      assert bits[p..p + n][1..] == bits[p + 1..p + 1 + n - 1];
    }
  }

  /** A window on the stream has the value of the bits that occur there. */
  lemma WindowAt(bits: seq<bit>, p: nat, e: seq<bit>)
    requires At(bits, p, e)
    ensures Window(bits, p, |e|) == Val(e)
  {
    WindowVal(bits, p, |e|);
  }

  lemma WindowIsAt(bits: seq<bit>, p: nat, e: seq<bit>)
    requires p + |e| <= |bits| && Window(bits, p, |e|) == Val(e)
    ensures At(bits, p, e)
  {
    WindowVal(bits, p, |e|);
    LsbVal(e);
    LsbVal(bits[p..p + |e|]);
  }

  lemma {:induction false} WindowPastEnd(bits: seq<bit>, p: nat, n: nat)
    requires p >= |bits|
    ensures Window(bits, p, n) == 0
    decreases n
  {
    if n > 0 {
      WindowPastEnd(bits, p + 1, n - 1);
    }
  }

  lemma {:induction false} BitsOfConcat(a: seq<byte>, b: seq<byte>)
    ensures BitsOf(a + b) == BitsOf(a) + BitsOf(b)
  {
    if b == [] {
      assert a + b == a;
    } else {
      var m := |b| - 1;
      BitsOfConcat(a, b[..m]);
      assert (a + b)[..|a + b| - 1] == a + b[..m];
    }
  }

  lemma BitsOfByte(b: byte)
    ensures BitsOf([b]) == Lsb(b, 8)
  {
    assert [b][..0] == [];
  }

  lemma BitsOfLast(before: seq<byte>, y: byte)
    ensures BitsOf(before + [y]) == BitsOf(before) + Lsb(y, 8)
  {
    hide Lsb;
    assert (before + [y])[..|before|] == before;
  }

  lemma Cut(data: seq<byte>, i: nat, n: nat)
    requires i < |data| && n == i + 1
    ensures data == data[..i] + [data[i]] + data[n..]
  {
  }

  lemma ByteInStream(data: seq<byte>, i: nat)
    requires i < |data|
    ensures At(BitsOf(data), 8 * i, Lsb(data[i], 8))
  {
    hide *;
    var n := i + 1;
    Cut(data, i, n);
    StreamOfParts(data[..i], data[i], data[n..], 8 * i);
  }

  lemma StreamOfParts(a: seq<byte>, x: byte, c: seq<byte>, p: nat)
    requires p == 8 * |a|
    ensures At(BitsOf(a + [x] + c), p, Lsb(x, 8))
  {
    hide BitsOf;
    hide Lsb;
    hide At;
    BitsOfConcat(a + [x], c);
    BitsOfConcat(a, [x]);
    BitsOfByte(x);
    StreamParts(BitsOf(a), Lsb(x, 8), BitsOf(c));
  }

  lemma StreamParts(a: seq<bit>, e: seq<bit>, c: seq<bit>)
    ensures At(a + e + c, |a|, e)
  {
  }

  function ByteAt(data: seq<byte>, i: nat): byte {
    if i < |data| then data[i] else 0
  }

  lemma WindowByte(data: seq<byte>, i: nat)
    ensures Window(BitsOf(data), 8 * i, 8) == ByteAt(data, i)
  {
    if i < |data| {
      ByteInStream(data, i);
      WindowAt(BitsOf(data), 8 * i, Lsb(data[i], 8));
      ValLsb(data[i], 8);
      assert Pow2(8) == 256;
      LowSmall(data[i], 8);
    } else {
      WindowPastEnd(BitsOf(data), 8 * i, 8);
    }
  }

  /** One more byte in front of a window that is read byte by byte. */
  lemma WindowMoreBytes(data: seq<byte>, i: nat, n: nat, w: nat)
    requires w == Window(BitsOf(data), 8 * i, n) && n % 8 == 0
    ensures BitOr(w, Shl(ByteAt(data, i + n / 8), n)) == Window(BitsOf(data), 8 * i, n + 8)
  {
    hide Window;
    hide BitsOf;
    hide ByteAt;
    hide BitOr;
    hide Shl;
    hide Pow2;
    WindowSplit(BitsOf(data), 8 * i, n, 8);
    assert 8 * (i + n / 8) == 8 * i + n;
    WindowByte(data, i + n / 8);
    BitOrDisjoint(w, ByteAt(data, i + n / 8), n);
  }

  // ---------------------------------------------------------------------------------------------
  // Writing
  // ---------------------------------------------------------------------------------------------

  class BitWriter {
    var data: seq<byte>
    /** The number of bits written, modulo 256: an unsigned char that may wrap around. */
    var bp: nat

    ghost predicate Valid()
      reads this
    {
      && bp < 256
      && (bp % 8 != 0 ==> data != [] && data[|data| - 1] < Pow2(bp % 8))
    }

    /** What has been written, without the bits that only fill up the last byte. */
    ghost function Written(): seq<bit>
      requires Valid()
      reads this
    {
      if bp % 8 == 0 then BitsOf(data)
      else BitsOf(data[..|data| - 1]) + Lsb(data[|data| - 1], bp % 8)
    }

    constructor (out: seq<byte>)
      ensures Valid() && data == out && Written() == BitsOf(out)
    {
      data, bp := out, 0;
    }

    method WriteBit(bit: bit)
      requires Valid()
      modifies this
      ensures Valid() && Written() == old(Written()) + [bit]
    {
      hide Shl;
      hide BitOr;
      hide BitAnd;
      hide BitsOf;
      hide Lsb;
      hide Pow2;
      var r := BitAnd(bp, 7);
      ByteOffset(bp);
      ghost var before := if r == 0 then data else data[..|data| - 1];
      ghost var x := if r == 0 then 0 else data[|data| - 1];
      if r == 0 {
        data := data + [0];
      }
      assert data == before + [x];
      AppendBit(x, bit, r);
      data := data[|data| - 1 := BitOr(data[|data| - 1], Shl(bit, r))];
      NextOffset(bp, r);
      bp := (bp + 1) % 256;
      Extended(before, x, bit, r, data);
    }

    lemma NextOffset(p: nat, r: nat)
      requires r == p % 8
      ensures (p + 1) % 256 % 8 == if r == 7 then 0 else r + 1
    {
      var q, p' := (p + 1) / 256, (p + 1) % 256;
      DivModUnique(p' + 256 * q, 8, p' / 8 + 32 * q, p' % 8);
      DivModUnique(p + 1, 8, if r == 7 then p / 8 + 1 else p / 8, if r == 7 then 0 else r + 1);
    }

    lemma ByteOffset(p: nat)
      ensures BitAnd(p, 7) == p % 8
    {
      BitAndMask(p, 3);
      LowIsMod(p, 3);
      assert Pow2(3) == 8;
    }

    /** The stream of whole bytes and one byte that holds r + 1 bits. */
    lemma Extended(before: seq<byte>, x: nat, bit: bit, r: nat, after: seq<byte>)
      requires x < Pow2(r) && r < 8 && BitOr(x, Shl(bit, r)) < 256
      requires after == before + [BitOr(x, Shl(bit, r))]
      requires Lsb(BitOr(x, Shl(bit, r)), r + 1) == Lsb(x, r) + [bit]
      ensures (if r == 7 then BitsOf(after) else BitsOf(after[..|after| - 1]) + Lsb(after[|after| - 1], r + 1))
           == BitsOf(before) + Lsb(x, r) + [bit]
    {
      hide *;
      var y := BitOr(x, Shl(bit, r));
      assert after[..|after| - 1] == before && after[|after| - 1] == y;
      if r == 7 {
        BitsOfLast(before, y);
        assert after == before + [y];
        assert BitsOf(before) + (Lsb(x, r) + [bit]) == BitsOf(before) + Lsb(x, r) + [bit];
      }
    }

    lemma AppendBit(x: nat, bit: bit, r: nat)
      requires x < Pow2(r) && r < 8
      ensures BitOr(x, Shl(bit, r)) < Pow2(r + 1) <= 256
      ensures Lsb(BitOr(x, Shl(bit, r)), r + 1) == Lsb(x, r) + [bit]
    {
      hide Shl;
      hide Shr;
      hide Low;
      hide BitOr;
      var y := x + Shl(bit, r);
      BitOrDisjoint(x, bit, r);
      assert y < Pow2(r + 1) <= 256 by {
        ShlOne(r);
        Pow2Mono(r + 1, 8);
        Pow2Values();
      }
      hide Pow2;
      SplitUnique(x, bit, r);
      LsbSplit(y, r, 1);
      LsbOfBit(bit);
      LsbOfLow(y, r);
    }

    lemma LsbOfLow(y: nat, r: nat)
      ensures Lsb(Low(y, r), r) == Lsb(y, r)
    {
      LowLow(y, r, r);
      ValLsb(Low(y, r), r);
      ValLsb(y, r);
      LsbVal(Lsb(y, r));
      LsbVal(Lsb(Low(y, r), r));
    }

    /** Writes a field, lowest bit first. A single bit is written as it is. */
    method WriteBits(value: nat, nbits: nat)
      requires Valid() && (nbits == 1 ==> value < 2)
      modifies this
      ensures Valid() && Written() == old(Written()) + Lsb(value, nbits)
    {
      LastBit(value);
      NoBits(value);
      hide Valid;
      hide Written;
      hide Lsb;
      hide Shr;
      hide BitAnd;
      if nbits == 1 {
        WriteBit(value);
      } else {
        for i := 0 to nbits
          invariant Valid() && Written() == old(Written()) + Lsb(value, i)
        {
          NextLowBit(value, i);
          WriteBit(BitAnd(Shr(value, i), 1));
        }
      }
    }

    lemma NextLowBit(value: nat, i: nat)
      ensures var b := BitAnd(Shr(value, i), 1); b < 2 && Lsb(value, i) + [b] == Lsb(value, i + 1)
    {
      LsbSplit(value, i, 1);
      LastBit(Shr(value, i));
    }

    /** Writes a Huffman code, highest bit first. */
    method WriteBitsReversed(value: nat, nbits: nat)
      requires Valid()
      modifies this
      ensures Valid() && Written() == old(Written()) + Msb(value, nbits)
    {
      NoBits(Shr(value, nbits));
      NoBits(value);
      hide Valid;
      hide Written;
      hide Msb;
      hide Shr;
      hide BitAnd;
      for i := 0 to nbits
        invariant Valid() && Written() == old(Written()) + Msb(Shr(value, nbits - i), i)
      {
        var n := nbits - 1 - i;
        NextHighBit(value, n, i);
        WriteBit(BitAnd(Shr(value, n), 1));
      }
    }

    lemma NoBits(x: nat)
      ensures Lsb(x, 0) == [] && Msb(x, 0) == [] && Shr(x, 0) == x
    {
    }

    lemma NextHighBit(value: nat, n: nat, i: nat)
      ensures var x := Shr(value, n);
        BitAnd(x, 1) < 2 && Msb(Shr(value, n + 1), i) + [BitAnd(x, 1)] == Msb(x, i + 1)
    {
      var x := Shr(value, n);
      LastBit(x);
      ShrAdd(value, n, 1);
      assert Shr(x, 1) == x / 2 by { assert Shr(x / 2, 0) == x / 2; }
    }
  }

  // ---------------------------------------------------------------------------------------------
  // Reading
  // ---------------------------------------------------------------------------------------------

  class BitReader {
    const data: seq<byte>
    const size: nat
    const bitsize: nat
    var bp: nat
    var buffer: nat

    ghost predicate Valid()
      reads this
    {
      size == |data| && bitsize == 8 * size
    }

    /** The low `n` bits of the buffer are those of the stream at `bp`. */
    ghost predicate Ensured(n: nat)
      reads this
    {
      Low(buffer, n) == Window(BitsOf(data), bp, n)
    }

    constructor (data: seq<byte>)
      ensures Valid() && this.data == data && bp == 0
    {
      this.data := data;
      size := |data|;
      bitsize := 8 * |data|;
      bp := 0;
      buffer := 0;
    }

    lemma EnsuredLess(m: nat, n: nat)
      requires Ensured(n) && m <= n
      ensures Ensured(m)
    {
      LowLow(buffer, m, n);
      WindowParts(BitsOf(data), bp, m, n);
    }

    /** The buffer holds whole bytes from the one that `bp` is in; the bits before `bp` are shifted out. */
    lemma AlignedWindow(whole: nat, k: nat, n: nat)
      requires whole == Window(BitsOf(data), 8 * Shr(bp, 3), 8 * k) && n + 7 <= 8 * k
      ensures BitAnd(bp, 7) < 8
      ensures Low(Shr(whole, BitAnd(bp, 7)), n) == Window(BitsOf(data), bp, n)
      ensures Shr(whole, BitAnd(bp, 7)) == Window(BitsOf(data), bp, 8 * k - BitAnd(bp, 7))
    {
      hide Window;
      hide Low;
      hide Shr;
      hide BitAnd;
      hide BitsOf;
      BitOffset();
      var r := BitAnd(bp, 7);
      WindowParts(BitsOf(data), 8 * Shr(bp, 3), r, 8 * k);
      WindowParts(BitsOf(data), bp, n, 8 * k - r);
    }

    lemma BitOffset()
      ensures BitAnd(bp, 7) < 8 && bp == 8 * Shr(bp, 3) + BitAnd(bp, 7)
    {
      BitAndMask(bp, 3);
      assert Pow2(3) == 8;
      Split(bp, 3);
      ShlTimes(Shr(bp, 3), 3);
    }

    lemma BytesWindow(start: nat)
      ensures var bits, d := BitsOf(data), data;
        && Window(bits, 8 * start, 8) == ByteAt(d, start)
        && Window(bits, 8 * start, 16) == BitOr(ByteAt(d, start), Shl(ByteAt(d, start + 1), 8))
        && Window(bits, 8 * start, 24) == BitOr(BitOr(ByteAt(d, start), Shl(ByteAt(d, start + 1), 8)), Shl(ByteAt(d, start + 2), 16))
        && Window(bits, 8 * start, 32) == BitOr(BitOr(BitOr(ByteAt(d, start), Shl(ByteAt(d, start + 1), 8)),
                                                     Shl(ByteAt(d, start + 2), 16)), Shl(ByteAt(d, start + 3), 24))
    {
      hide Window;
      hide BitsOf;
      hide ByteAt;
      hide BitOr;
      hide Shl;
      WindowByte(data, start);
      WindowMoreBytes(data, start, 8, Window(BitsOf(data), 8 * start, 8));
      WindowMoreBytes(data, start, 16, Window(BitsOf(data), 8 * start, 16));
      WindowMoreBytes(data, start, 24, Window(BitsOf(data), 8 * start, 24));
    }

    lemma NoByte(n: nat, x: nat)
      ensures BitOr(x, Shl(0, n)) == x && BitOr(0, x) == x
    {
      ShlOne(n);
    }

    method EnsureBits9()
      requires Valid()
      modifies this`buffer
      ensures Ensured(9)
    {
      hide Shl;
      hide Shr;
      hide Low;
      hide BitOr;
      hide BitAnd;
      hide Window;
      hide BitsOf;
      hide Pow2;
      var start := Shr(bp, 3);
      BytesWindow(start);
      AlignedWindow(Window(BitsOf(data), 8 * start, 16), 2, 9);
      if start + 1 < size {
        buffer := BitOr(data[start], Shl(data[start + 1], 8));
        buffer := Shr(buffer, BitAnd(bp, 7));
      } else {
        NoByte(8, ByteAt(data, start));
        buffer := 0;
        if start < size {
          buffer := data[start];
        }
        buffer := Shr(buffer, BitAnd(bp, 7));
      }
    }

    method EnsureBits17()
      requires Valid()
      modifies this`buffer
      ensures Ensured(17)
    {
      hide Shl;
      hide Shr;
      hide Low;
      hide BitOr;
      hide BitAnd;
      hide Window;
      hide BitsOf;
      hide Pow2;
      var start := Shr(bp, 3);
      BytesWindow(start);
      AlignedWindow(Window(BitsOf(data), 8 * start, 24), 3, 17);
      if start + 2 < size {
        buffer := BitOr(BitOr(data[start], Shl(data[start + 1], 8)), Shl(data[start + 2], 16));
        buffer := Shr(buffer, BitAnd(bp, 7));
      } else {
        NoByte(8, ByteAt(data, start));
        NoByte(16, BitOr(ByteAt(data, start), Shl(ByteAt(data, start + 1), 8)));
        buffer := 0;
        if start < size {
          buffer := BitOr(buffer, data[start]);
        }
        if start + 1 < size {
          buffer := BitOr(buffer, Shl(data[start + 1], 8));
        }
        buffer := Shr(buffer, BitAnd(bp, 7));
      }
    }

    /** The bytes from `start` on, as many as are there and at most four, joined to a number. */
    method JoinBytes(start: nat) returns (b: nat)
      requires Valid()
      ensures b == Window(BitsOf(data), 8 * start, 32)
    {
      hide Shl;
      hide BitOr;
      hide Window;
      hide BitsOf;
      BytesWindow(start);
      NoByte(8, ByteAt(data, start));
      NoByte(16, BitOr(ByteAt(data, start), Shl(ByteAt(data, start + 1), 8)));
      NoByte(24, Window(BitsOf(data), 8 * start, 24));
      b := 0;
      if start < size {
        b := BitOr(b, data[start]);
      }
      if start + 1 < size {
        b := BitOr(b, Shl(data[start + 1], 8));
      }
      if start + 2 < size {
        b := BitOr(b, Shl(data[start + 2], 16));
      }
      if start + 3 < size {
        b := BitOr(b, Shl(data[start + 3], 24));
      }
    }

    method EnsureBits25()
      requires Valid()
      modifies this`buffer
      ensures Ensured(25)
    {
      hide Shl;
      hide Shr;
      hide Low;
      hide BitOr;
      hide BitAnd;
      hide Window;
      hide BitsOf;
      hide Pow2;
      var start := Shr(bp, 3);
      BytesWindow(start);
      AlignedWindow(Window(BitsOf(data), 8 * start, 32), 4, 25);
      if start + 3 < size {
        buffer := BitOr(BitOr(BitOr(data[start], Shl(data[start + 1], 8)), Shl(data[start + 2], 16)), Shl(data[start + 3], 24));
        buffer := Shr(buffer, BitAnd(bp, 7));
      } else {
        buffer := JoinBytes(start);
        buffer := Shr(buffer, BitAnd(bp, 7));
      }
    }

    /** The fifth byte completes the 32 bits; its own high bits are cut off by the width of the buffer. */
    lemma FifthByte(start: nat)
      requires start == Shr(bp, 3)
      ensures var r, b := BitAnd(bp, 7), ByteAt(data, start + 4);
        && r < 8
        && BitOr(Window(BitsOf(data), bp, 32 - r), Low(Shl(Shl(b, 24), 8 - r), 32)) == Window(BitsOf(data), bp, 32)
    {
      BitOffset();
      var r, b := BitAnd(bp, 7), ByteAt(data, start + 4);
      var bits := BitsOf(data);
      WindowByte(data, start + 4);
      WindowParts(bits, 8 * start + 32, r, 8);
      WindowSplit(bits, bp, 32 - r, r);
      ShlAdd(b, 24, 8 - r);
      LowOfShl(b, r, 32 - r);
      BitOrDisjoint(Window(bits, bp, 32 - r), Low(b, r), 32 - r);
    }

    lemma LowOfShl(b: nat, r: nat, n: nat)
      ensures Low(Shl(b, n), r + n) == Shl(Low(b, r), n)
    {
      SplitUnique(0, b, n);
      LowAdd(Shl(b, n), n, r);
    }

    method EnsureBits32()
      requires Valid()
      modifies this`buffer
      ensures Ensured(32)
    {
      hide Shl;
      hide Shr;
      hide Low;
      hide BitOr;
      hide BitAnd;
      hide Window;
      hide BitsOf;
      hide Pow2;
      var start := Shr(bp, 3);
      BytesWindow(start);
      AlignedWindow(Window(BitsOf(data), 8 * start, 32), 4, 25);
      FifthByte(start);
      var r := BitAnd(bp, 7);
      if start + 4 < size {
        buffer := BitOr(BitOr(BitOr(data[start], Shl(data[start + 1], 8)), Shl(data[start + 2], 16)), Shl(data[start + 3], 24));
        buffer := Shr(buffer, r);
        buffer := BitOr(buffer, Low(Shl(Shl(data[start + 4], 24), 8 - r), 32));
      } else {
        buffer := JoinBytes(start);
        buffer := Shr(buffer, r);
        NoHighByte(buffer, r);
      }
      LowSmall(Window(BitsOf(data), bp, 32), 32);
    }

    lemma NoHighByte(x: nat, r: nat)
      requires r <= 8
      ensures BitOr(x, Low(Shl(Shl(0, 24), 8 - r), 32)) == x
    {
      hide Shl;
      hide Low;
      ShlOne(24);
      ShlOne(8 - r);
      LowSmall(0, 32);
    }

    function PeekBits(nbits: nat): nat
      reads this
    {
      BitAnd(buffer, Pow2(nbits) - 1)
    }

    method AdvanceBits(nbits: nat)
      requires Valid()
      modifies this
      ensures Valid() && bp == old(bp) + nbits
      ensures forall n: nat :: old(Ensured(n)) && nbits <= n ==> Ensured(n - nbits)
    {
      ghost var bits := BitsOf(data);
      forall n: nat | Ensured(n) && nbits <= n
        ensures Low(Shr(buffer, nbits), n - nbits) == Window(bits, bp + nbits, n - nbits)
      {
        LowShr(buffer, nbits, n - nbits);
        WindowParts(bits, bp, nbits, n);
      }
      buffer := Shr(buffer, nbits);
      bp := bp + nbits;
    }

    /** Reads a field of which all bits have been ensured. */
    method ReadBits(nbits: nat, ghost ensured: nat) returns (result: nat)
      requires Valid() && Ensured(ensured) && nbits <= ensured
      modifies this
      ensures Valid() && bp == old(bp) + nbits && Ensured(ensured - nbits)
      ensures result == Window(BitsOf(data), old(bp), nbits)
    {
      EnsuredLess(nbits, ensured);
      BitAndMask(buffer, nbits);
      result := PeekBits(nbits);
      AdvanceBits(nbits);
    }
  }
}
