/** Bits, bytes and the C operators on unsigned values.

    A number is read as the sequence of its bits. DEFLATE packs most fields least significant bit
    first (`Lsb`, `Val`) and Huffman codes most significant bit first (`Msb`), so that a code seen by
    a reader of the first kind is reversed (`Rev`). Shifts are defined bit by bit, which keeps the
    proofs about them linear. */
module Bits {
  type byte = x: int | 0 <= x < 256
  type bit = x: int | 0 <= x < 2

  function Pow2(n: nat): (r: nat)
    ensures r > 0
  {
    if n == 0 then 1 else 2 * Pow2(n - 1)
  }

  /** C's `x << n` without loss of high bits. */
  function Shl(x: nat, n: nat): nat {
    if n == 0 then x else 2 * Shl(x, n - 1)
  }

  /** C's `x >> n`. */
  function Shr(x: nat, n: nat): nat {
    if n == 0 then x else Shr(x / 2, n - 1)
  }

  /** The number formed by the `n` low bits of `x`. */
  function Low(x: nat, n: nat): (r: nat)
    ensures r < Pow2(n)
  {
    if n == 0 then 0 else x % 2 + 2 * Low(x / 2, n - 1)
  }

  /** The number whose bits, least significant first, are `bs`. */
  function Val(bs: seq<bit>): (v: nat)
    ensures v < Pow2(|bs|)
  {
    if bs == [] then 0 else bs[0] + 2 * Val(bs[1..])
  }

  /** The `n` low bits of `x`, least significant first. */
  function Lsb(x: nat, n: nat): (bs: seq<bit>)
    ensures |bs| == n
  {
    if n == 0 then [] else [x % 2] + Lsb(x / 2, n - 1)
  }

  /** The `n` low bits of `x`, most significant first. */
  function Msb(x: nat, n: nat): (bs: seq<bit>)
    ensures |bs| == n
  {
    if n == 0 then [] else Msb(x / 2, n - 1) + [x % 2]
  }

  /** The `n` low bits of `x` in reverse order. */
  function Rev(x: nat, n: nat): nat {
    if n == 0 then 0 else Shl(x % 2, n - 1) + Rev(x / 2, n - 1)
  }

  // ---------------------------------------------------------------------------------------------
  // Shifts
  // ---------------------------------------------------------------------------------------------

  lemma {:induction false} Pow2Mono(a: nat, b: nat)
    requires a <= b
    ensures Pow2(a) <= Pow2(b)
  {
    if a < b {
      Pow2Mono(a, b - 1);
    }
  }

  lemma Pow2Values()
    ensures Pow2(8) == 256 && Pow2(15) == 32768 && Pow2(16) == 65536
  {
    assert Pow2(8) == 256;
    assert Pow2(12) == 4096;
    assert Pow2(15) == 32768;
    assert Pow2(16) == 2 * Pow2(15);
  }

  lemma {:induction false} ShlLinear(x: nat, y: nat, n: nat)
    ensures Shl(x + y, n) == Shl(x, n) + Shl(y, n)
  {
    if n > 0 {
      ShlLinear(x, y, n - 1);
    }
  }

  lemma {:induction false} ShlMono(x: nat, y: nat, n: nat)
    requires x <= y
    ensures Shl(x, n) <= Shl(y, n)
    ensures x < y ==> Shl(x, n) + Pow2(n) <= Shl(y, n)
  {
    if n > 0 {
      ShlMono(x, y, n - 1);
    }
  }

  lemma {:induction false} ShlAdd(x: nat, a: nat, b: nat)
    ensures Shl(Shl(x, a), b) == Shl(x, a + b)
  {
    if b > 0 {
      ShlAdd(x, a, b - 1);
    }
  }

  lemma {:induction false} ShlOne(n: nat)
    ensures Shl(1, n) == Pow2(n) && Shl(0, n) == 0
  {
    if n > 0 {
      ShlOne(n - 1);
    }
  }

  lemma {:induction false} ShlDouble(x: nat, n: nat)
    ensures Shl(2 * x, n) == 2 * Shl(x, n)
  {
    if n > 0 {
      ShlDouble(x, n - 1);
    }
  }

  lemma {:induction false} ShlTimes(x: nat, n: nat)
    ensures Shl(x, n) == x * Pow2(n)
  {
    if n > 0 {
      ShlTimes(x, n - 1);
    }
  }

  lemma {:induction false} ShrAdd(x: nat, a: nat, b: nat)
    ensures Shr(Shr(x, a), b) == Shr(x, a + b)
  {
    if a > 0 {
      ShrAdd(x / 2, a - 1, b);
    }
  }

  /** A number is its low bits and the rest. */
  lemma {:induction false} Split(x: nat, n: nat)
    ensures x == Low(x, n) + Shl(Shr(x, n), n)
  {
    if n > 0 {
      Split(x / 2, n - 1);
    }
  }

  /** ... and no other low and high part add up to it. */
  lemma {:induction false} SplitUnique(r: nat, q: nat, n: nat)
    requires r < Pow2(n)
    ensures Low(r + Shl(q, n), n) == r && Shr(r + Shl(q, n), n) == q
  {
    if n > 0 {
      SplitUnique(r / 2, q, n - 1);
      var x := r + Shl(q, n);
      assert x / 2 == r / 2 + Shl(q, n - 1) && x % 2 == r % 2;
    }
  }

  lemma {:induction false} LowSmall(x: nat, n: nat)
    requires x < Pow2(n)
    ensures Low(x, n) == x && Shr(x, n) == 0
  {
    if n > 0 {
      LowSmall(x / 2, n - 1);
    }
  }

  lemma {:induction false} LowLow(x: nat, a: nat, b: nat)
    requires a <= b
    ensures Low(Low(x, b), a) == Low(x, a)
  {
    if a > 0 {
      LowLow(x / 2, a - 1, b - 1);
    }
  }

  lemma {:induction false} LowShr(x: nat, a: nat, b: nat)
    ensures Low(Shr(x, a), b) == Shr(Low(x, a + b), a)
  {
    if a > 0 {
      LowShr(x / 2, a - 1, b);
    }
  }

  lemma {:induction false} LowAdd(x: nat, a: nat, b: nat)
    ensures Low(x, a + b) == Low(x, a) + Shl(Low(Shr(x, a), b), a)
  {
    if a > 0 {
      LowAdd(x / 2, a - 1, b);
    }
  }

  lemma {:induction false} LowOnes(a: nat, b: nat)
    requires a <= b
    ensures Low(Pow2(b) - 1, a) == Pow2(a) - 1
  {
    if a > 0 {
      LowOnes(a - 1, b - 1);
    }
  }

  // ---------------------------------------------------------------------------------------------
  // Numbers and their bits
  // ---------------------------------------------------------------------------------------------

  lemma {:induction false} ValLsb(x: nat, n: nat)
    ensures Val(Lsb(x, n)) == Low(x, n)
  {
    if n > 0 {
      ValLsb(x / 2, n - 1);
      assert Lsb(x, n)[1..] == Lsb(x / 2, n - 1);
    }
  }

  lemma {:induction false} LsbVal(bs: seq<bit>)
    ensures Lsb(Val(bs), |bs|) == bs
  {
    if bs != [] {
      LsbVal(bs[1..]);
      var v := Val(bs);
      assert v % 2 == bs[0] && v / 2 == Val(bs[1..]);
      assert bs == [bs[0]] + bs[1..];
    }
  }

  lemma {:induction false} ValConcat(a: seq<bit>, b: seq<bit>)
    ensures Val(a + b) == Val(a) + Shl(Val(b), |a|)
  {
    if a == [] {
      assert a + b == b;
    } else {
      ValConcat(a[1..], b);
      assert (a + b)[1..] == a[1..] + b;
    }
  }

  lemma {:induction false} LsbSplit(x: nat, a: nat, b: nat)
    ensures Lsb(x, a + b) == Lsb(x, a) + Lsb(Shr(x, a), b)
  {
    if a > 0 {
      LsbSplit(x / 2, a - 1, b);
      assert Lsb(x, a + b) == [x % 2] + (Lsb(x / 2, a - 1) + Lsb(Shr(x / 2, a - 1), b));
    }
  }

  lemma {:induction false} LsbZero(n: nat)
    ensures Lsb(0, n) == seq(n, _ => 0)
  {
    if n > 0 {
      LsbZero(n - 1);
    }
  }

  lemma {:induction false} MsbSplit(x: nat, a: nat, b: nat)
    ensures Msb(x, a + b) == Msb(Shr(x, b), a) + Msb(x, b)
  {
    if b > 0 {
      MsbSplit(x / 2, a, b - 1);
      assert Msb(x, a + b) == Msb(Shr(x / 2, b - 1), a) + Msb(x / 2, b - 1) + [x % 2];
    }
  }

  /** A code written most significant bit first reads back reversed. */
  lemma {:induction false} ValMsb(x: nat, n: nat)
    ensures Val(Msb(x, n)) == Rev(x, n) < Pow2(n)
  {
    if n > 0 {
      ValMsb(x / 2, n - 1);
      ValConcat(Msb(x / 2, n - 1), [x % 2]);
      assert Val([x % 2]) == x % 2 by { assert [x % 2][1..] == []; }
    }
  }

  /** One more low bit of the reversal. */
  lemma {:induction false} RevStep(x: nat, n: nat)
    ensures Rev(x, n + 1) == 2 * Rev(x, n) + Shr(x, n) % 2
  {
    if n > 0 {
      RevStep(x / 2, n - 1);
    } else {
      assert Rev(x / 2, 0) == 0;
    }
  }

  /** The low bits come first in the reversal: dropping its low end drops the high bits of `x`. */
  lemma {:induction false} RevShr(x: nat, l: nat, n: nat)
    requires l <= n
    ensures Shr(Rev(x, n), n - l) == Rev(x, l)
    decreases n - l
  {
    if l < n {
      RevStep(x, n - 1);
      RevShr(x, l, n - 1);
    }
  }

  lemma {:induction false} RevLow(x: nat, n: nat, m: nat)
    requires n <= m
    ensures Rev(Low(x, m), n) == Rev(x, n)
  {
    if n > 0 {
      RevLow(x / 2, n - 1, m - 1);
    }
  }

  lemma {:induction false} RevRev(x: nat, n: nat)
    ensures Rev(Rev(x, n), n) == Low(x, n)
  {
    if n > 0 {
      RevRev(x / 2, n - 1);
      var y := Rev(x / 2, n - 1);
      ValMsb(x / 2, n - 1);
      SplitUnique(y, x % 2, n - 1);
      RevFromParts(y, x % 2, n - 1);
    }
  }

  lemma {:induction false} RevFromParts(y: nat, b: nat, n: nat)
    requires y < Pow2(n) && b < 2
    ensures Rev(y + Shl(b, n), n + 1) == 2 * Rev(y, n) + b
  {
    var z := y + Shl(b, n);
    SplitUnique(y, b, n);
    RevStep(z, n);
    RevLow(z, n, n);
  }

  /** The reversal of the high bits of a code is the low end of the reversal. */
  lemma {:induction false} RevOfShr(x: nat, a: nat, b: nat)
    ensures Rev(Shr(x, b), a) == Low(Rev(x, a + b), a)
  {
    if b == 0 {
      ValMsb(x, a);
      LowSmall(Rev(x, a), a);
    } else {
      RevOfShr(x / 2, a, b - 1);
      var y, z := Rev(x / 2, a + b - 1), Shl(x % 2, a + b - 1);
      ShlAdd(x % 2, b - 1, a);
      LowPlusShl(y, Shl(x % 2, b - 1), a);
    }
  }

  lemma {:induction false} LowPlusShl(y: nat, q: nat, n: nat)
    ensures Low(y + Shl(q, n), n) == Low(y, n)
    ensures Shr(y + Shl(q, n), n) == Shr(y, n) + q
  {
    Split(y, n);
    ShlLinear(Shr(y, n), q, n);
    SplitUnique(Low(y, n), Shr(y, n) + q, n);
  }

  // ---------------------------------------------------------------------------------------------
  // C's bit operators on unsigned values
  // ---------------------------------------------------------------------------------------------

  function BitAnd(a: nat, b: nat): nat {
    if a == 0 || b == 0 then 0 else (if a % 2 == 1 && b % 2 == 1 then 1 else 0) + 2 * BitAnd(a / 2, b / 2)
  }

  function BitOr(a: nat, b: nat): nat
    decreases a + b
  {
    if a == 0 then b
    else if b == 0 then a
    else (if a % 2 == 1 || b % 2 == 1 then 1 else 0) + 2 * BitOr(a / 2, b / 2)
  }

  function BitXor(a: nat, b: nat): nat
    decreases a + b
  {
    if a == 0 then b
    else if b == 0 then a
    else (if a % 2 != b % 2 then 1 else 0) + 2 * BitXor(a / 2, b / 2)
  }

  /** Masking with 2^n - 1 keeps the low n bits. */
  lemma {:induction false} BitAndMask(x: nat, n: nat)
    ensures BitAnd(x, Pow2(n) - 1) == Low(x, n)
  {
    if x == 0 {
      LowSmall(0, n);
    } else if n > 0 {
      BitAndMask(x / 2, n - 1);
      assert (Pow2(n) - 1) % 2 == 1 && (Pow2(n) - 1) / 2 == Pow2(n - 1) - 1;
    }
  }

  /** Joining bit fields that do not overlap is addition. */
  lemma {:induction false} BitOrDisjoint(a: nat, b: nat, n: nat)
    requires a < Pow2(n)
    ensures BitOr(a, Shl(b, n)) == a + Shl(b, n)
  {
    if n > 0 {
      BitOrDisjoint(a / 2, b, n - 1);
    }
  }

  lemma {:induction false} LowIsMod(x: nat, n: nat)
    ensures Low(x, n) == x % Pow2(n) && Shr(x, n) == x / Pow2(n)
  {
    Split(x, n);
    ShlTimes(Shr(x, n), n);
    DivModUnique(x, Pow2(n), Shr(x, n), Low(x, n));
  }

  /** A quotient and a remainder are determined by what they add up to. */
  lemma DivModUnique(x: int, d: int, q: int, r: int)
    requires d > 0 && 0 <= r < d && x == q * d + r
    ensures x / d == q && x % d == r
  {
    var q', r' := x / d, x % d;
    assert x == q' * d + r';
    MulDist(q, -q', d);
    if q > q' {
      MulGe(q - q', d);
    } else if q < q' {
      MulGe(q' - q, d);
    }
  }

  lemma MulGe(k: int, d: int)
    requires k >= 1 && d >= 0
    ensures k * d >= d
  {
  }

  lemma MulDist(x: int, y: int, k: int)
    ensures (x + y) * k == x * k + y * k
  {
  }

  lemma {:induction false} BitOrSwap(a: nat, b: nat)
    ensures BitOr(a, b) == BitOr(b, a)
    decreases a + b
  {
    if a > 0 && b > 0 {
      BitOrSwap(a / 2, b / 2);
    }
  }

  lemma {:induction false} ShrZero(n: nat)
    ensures Shr(0, n) == 0
  {
    if n > 0 {
      ShrZero(n - 1);
    }
  }

  lemma LastBit(x: nat)
    ensures BitAnd(x, 1) == x % 2 && Lsb(x, 1) == [x % 2] && Msb(x, 1) == [x % 2]
  {
    BitAndMask(x, 1);
    assert Low(x, 1) == x % 2 by { assert Low(x / 2, 0) == 0; }
    assert Lsb(x / 2, 0) == [] && Msb(x / 2, 0) == [];
  }

  lemma LsbOfBit(bit: bit)
    ensures Lsb(bit, 1) == [bit]
  {
    assert Lsb(bit / 2, 0) == [];
  }
}
