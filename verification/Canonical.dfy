/** Canonical prefix codes (section 3.2.2 of RFC 1951): codes of one length are consecutive numbers in
    symbol order, and shorter codes precede longer ones. Here the codes are placed on a line of 2^15
    points, where a code of l bits takes an interval of 2^(15-l). The intervals follow each other
    without gaps, which decides when a set of lengths is a code, and a complete one. */
module Canonical {
  import opened Bits

  const MAXBITS: nat := 15

  predicate Within(lens: seq<nat>, L: nat) {
    forall i :: 0 <= i < |lens| ==> lens[i] <= L
  }

  function Count(lens: seq<nat>, b: nat): (n: nat)
    ensures n <= |lens|
  {
    if lens == [] then 0
    else Count(lens[..|lens| - 1], b) + if lens[|lens| - 1] == b then 1 else 0
  }

  /** The number of symbols that have a code. */
  function Present(lens: seq<nat>): nat {
    |lens| - Count(lens, 0)
  }

  /** Kraft's sum of the lengths that are not zero, in units of 2^-L. */
  function KraftSum(lens: seq<nat>, L: nat): nat
    requires Within(lens, L)
  {
    if lens == [] then 0
    else
      var l := lens[|lens| - 1];
      KraftSum(lens[..|lens| - 1], L) + if l == 0 then 0 else Pow2(L - l)
  }

  /** The first code of `b` bits. */
  function NextCode(lens: seq<nat>, b: nat): nat {
    if b == 0 then 0 else 2 * (NextCode(lens, b - 1) + if b == 1 then 0 else Count(lens, b - 1))
  }

  function Code(lens: seq<nat>, s: nat): nat
    requires s < |lens|
  {
    NextCode(lens, lens[s]) + Count(lens[..s], lens[s])
  }

  /** The code of `s` in the order in which its bits are sent. */
  function CodeBits(lens: seq<nat>, s: nat): (bs: seq<bit>)
    requires s < |lens|
    ensures |bs| == lens[s]
  {
    Msb(Code(lens, s), lens[s])
  }

  /** The code of `s` as a reader that takes the first bit for the lowest sees it. */
  function RevCode(lens: seq<nat>, s: nat): nat
    requires s < |lens|
  {
    Rev(Code(lens, s), lens[s])
  }

  /** The bits of `v`, lowest first, start with the code of `s`. */
  predicate Matches(lens: seq<nat>, s: nat, v: nat) {
    s < |lens| && lens[s] > 0 && Low(v, lens[s]) == RevCode(lens, s)
  }

  /** At least two codes that leave no bit sequence without one, or fewer than two. */
  predicate Acceptable(lens: seq<nat>)
    requires Within(lens, MAXBITS)
  {
    Present(lens) < 2 || KraftSum(lens, MAXBITS) == Pow2(MAXBITS)
  }

  // ---------------------------------------------------------------------------------------------
  // The line of intervals
  // ---------------------------------------------------------------------------------------------

  /** Where the codes of at most `b` bits end on the line. */
  function Edge(lens: seq<nat>, b: nat): nat
    requires b <= MAXBITS
  {
    if b == 0 then 0 else Edge(lens, b - 1) + Shl(Count(lens, b), MAXBITS - b)
  }

  lemma {:induction false} EdgeMono(lens: seq<nat>, a: nat, b: nat)
    requires a <= b <= MAXBITS
    ensures Edge(lens, a) <= Edge(lens, b)
  {
    if a < b {
      EdgeMono(lens, a, b - 1);
    }
  }

  /** The codes of `b` bits start where the shorter ones end. */
  lemma {:induction false} NextCodeAtEdge(lens: seq<nat>, b: nat)
    requires 1 <= b <= MAXBITS
    ensures Shl(NextCode(lens, b), MAXBITS - b) == Edge(lens, b - 1)
  {
    if b == 1 {
      assert NextCode(lens, 1) == 0;
      ShlOne(MAXBITS - 1);
    } else {
      var c, n := NextCode(lens, b - 1), Count(lens, b - 1);
      NextCodeAtEdge(lens, b - 1);
      ShlDouble(c + n, MAXBITS - b);
      ShlLinear(c, n, MAXBITS - b + 1);
    }
  }

  lemma {:induction false} EdgeStep(lens: seq<nat>, b: nat)
    requires lens != [] && b <= MAXBITS
    ensures var l := lens[|lens| - 1];
      Edge(lens, b) == Edge(lens[..|lens| - 1], b) + if 1 <= l <= b then Pow2(MAXBITS - l) else 0
  {
    if b > 0 {
      EdgeStep(lens, b - 1);
      ShlOne(MAXBITS - b);
      ShlLinear(Count(lens[..|lens| - 1], b), 1, MAXBITS - b);
    }
  }

  lemma {:induction false} EdgeOfNone(b: nat)
    requires b <= MAXBITS
    ensures Edge([], b) == 0
  {
    if b > 0 {
      EdgeOfNone(b - 1);
      ShlOne(MAXBITS - b);
    }
  }

  /** All codes together end at Kraft's sum. */
  lemma {:induction false} EdgeIsKraft(lens: seq<nat>)
    requires Within(lens, MAXBITS)
    ensures Edge(lens, MAXBITS) == KraftSum(lens, MAXBITS)
  {
    if lens == [] {
      EdgeOfNone(MAXBITS);
    } else {
      EdgeIsKraft(lens[..|lens| - 1]);
      EdgeStep(lens, MAXBITS);
    }
  }

  lemma {:induction false} CountPrefix(lens: seq<nat>, i: nat, j: nat, b: nat)
    requires i <= j <= |lens|
    ensures Count(lens[..i], b) <= Count(lens[..j], b)
    ensures i < j && lens[i] == b ==> Count(lens[..i], b) < Count(lens[..j], b)
    decreases j
  {
    if i < j {
      assert lens[..j][..j - 1] == lens[..j - 1];
      CountPrefix(lens, i, j - 1, b);
    }
  }

  /** The interval of a symbol's code, on the part of the line for its length. */
  lemma CodeInterval(lens: seq<nat>, s: nat)
    requires s < |lens| && 1 <= lens[s] <= MAXBITS
    ensures var l := lens[s];
      && Edge(lens, l - 1) <= Shl(Code(lens, s), MAXBITS - l)
      && Shl(Code(lens, s), MAXBITS - l) + Pow2(MAXBITS - l) <= Edge(lens, l)
  {
    var l, c := lens[s], NextCode(lens, lens[s]);
    var k, n := Count(lens[..s], l), Count(lens, l);
    assert lens[..|lens|] == lens;
    CountPrefix(lens, s, |lens|, l);
    NextCodeAtEdge(lens, l);
    ShlLinear(c, k, MAXBITS - l);
    ShlMono(k, n, MAXBITS - l);
  }

  lemma EdgeBound(lens: seq<nat>, b: nat)
    requires Within(lens, MAXBITS) && b <= MAXBITS
    ensures Edge(lens, b) <= KraftSum(lens, MAXBITS)
  {
    EdgeMono(lens, b, MAXBITS);
    EdgeIsKraft(lens);
  }

  lemma ShlShr(x: nat, u: nat, n: nat)
    ensures Shl(x, n) <= u <==> x <= Shr(u, n)
    ensures u < Shl(x, n) + Pow2(n) <==> Shr(u, n) <= x
  {
    Split(u, n);
    if x <= Shr(u, n) {
      ShlMono(x, Shr(u, n), n);
    } else {
      ShlMono(Shr(u, n), x, n);
    }
  }

  /** When the sum is at most one, codes fit their length. */
  lemma CodeFits(lens: seq<nat>, s: nat)
    requires Within(lens, MAXBITS) && KraftSum(lens, MAXBITS) <= Pow2(MAXBITS)
    requires s < |lens| && lens[s] > 0
    ensures Code(lens, s) < Pow2(lens[s])
  {
    var l, c := lens[s], Code(lens, s);
    CodeInterval(lens, s);
    EdgeBound(lens, l);
    if c >= Pow2(l) {
      ShlMono(Pow2(l), c, MAXBITS - l);
      ShlOne(l);
      ShlOne(MAXBITS);
      ShlAdd(1, l, MAXBITS - l);
    }
  }

  // ---------------------------------------------------------------------------------------------
  // Matching a code is lying in its interval
  // ---------------------------------------------------------------------------------------------

  lemma MatchIsShift(lens: seq<nat>, s: nat, v: nat)
    requires s < |lens| && 1 <= lens[s] <= MAXBITS
    ensures Matches(lens, s, v) <==> Low(Code(lens, s), lens[s]) == Shr(Rev(v, MAXBITS), MAXBITS - lens[s])
  {
    var l, c := lens[s], Code(lens, s);
    RevShr(v, l, MAXBITS);
    RevRev(c, l);
    RevRev(v, l);
    RevLow(v, l, l);
    RevLow(c, l, l);
  }

  lemma MatchIsInterval(lens: seq<nat>, s: nat, v: nat)
    requires Within(lens, MAXBITS) && KraftSum(lens, MAXBITS) <= Pow2(MAXBITS)
    requires s < |lens| && lens[s] > 0
    ensures var p, u := Shl(Code(lens, s), MAXBITS - lens[s]), Rev(v, MAXBITS);
      Matches(lens, s, v) <==> p <= u < p + Pow2(MAXBITS - lens[s])
  {
    CodeFits(lens, s);
    LowSmall(Code(lens, s), lens[s]);
    MatchIsShift(lens, s, v);
    ShlShr(Code(lens, s), Rev(v, MAXBITS), MAXBITS - lens[s]);
  }

  /** Prefix-freedom: no bit sequence starts with two codes. */
  lemma MatchUnique(lens: seq<nat>, s: nat, t: nat, v: nat)
    requires Within(lens, MAXBITS) && KraftSum(lens, MAXBITS) <= Pow2(MAXBITS)
    requires Matches(lens, s, v) && Matches(lens, t, v)
    ensures s == t
  {
    if s != t {
      if lens[s] < lens[t] || (lens[s] == lens[t] && s < t) {
        MatchOrdered(lens, s, t, v);
      } else {
        MatchOrdered(lens, t, s, v);
      }
    }
  }

  lemma MatchOrdered(lens: seq<nat>, s: nat, t: nat, v: nat)
    requires Within(lens, MAXBITS) && KraftSum(lens, MAXBITS) <= Pow2(MAXBITS)
    requires Matches(lens, s, v) && t < |lens|
    requires lens[s] < lens[t] || (lens[s] == lens[t] && s < t)
    ensures !Matches(lens, t, v)
  {
    MatchIsInterval(lens, s, v);
    MatchIsInterval(lens, t, v);
    CodeInterval(lens, s);
    CodeInterval(lens, t);
    var l := lens[s];
    if l < lens[t] {
      EdgeMono(lens, l, lens[t] - 1);
    } else {
      CountPrefix(lens, s, t, l);
      ShlMono(Code(lens, s), Code(lens, t), MAXBITS - l);
    }
  }

  lemma {:induction false} SymbolOfRank(lens: seq<nat>, b: nat, r: nat) returns (s: nat)
    requires r < Count(lens, b)
    ensures s < |lens| && lens[s] == b && Count(lens[..s], b) == r
  {
    var m := |lens| - 1;
    if r < Count(lens[..m], b) {
      s := SymbolOfRank(lens[..m], b, r);
      assert lens[..m][..s] == lens[..s];
    } else {
      s := m;
    }
  }

  lemma {:induction false} LevelOf(lens: seq<nat>, u: nat, b: nat) returns (l: nat)
    requires b <= MAXBITS && u < Edge(lens, b)
    ensures 1 <= l <= b && Edge(lens, l - 1) <= u < Edge(lens, l)
  {
    if u < Edge(lens, b - 1) {
      l := LevelOf(lens, u, b - 1);
    } else {
      l := b;
    }
  }

  /** The symbol whose code, unmasked, covers a point of the line. */
  lemma SymbolAt(lens: seq<nat>, u: nat) returns (s: nat)
    requires Within(lens, MAXBITS) && u < KraftSum(lens, MAXBITS)
    ensures s < |lens| && lens[s] > 0 && Code(lens, s) == Shr(u, MAXBITS - lens[s])
  {
    EdgeIsKraft(lens);
    var l := LevelOf(lens, u, MAXBITS);
    var c, n, k := NextCode(lens, l), Count(lens, l), Shr(u, MAXBITS - l);
    NextCodeAtEdge(lens, l);
    ShlShr(c, u, MAXBITS - l);
    ShlLinear(c, n, MAXBITS - l);
    ShlShr(c + n, u, MAXBITS - l);
    s := SymbolOfRank(lens, l, k - c);
  }

  /** Completeness: when the sum is one, every bit sequence starts with a code. */
  lemma MatchExists(lens: seq<nat>, v: nat) returns (s: nat)
    requires Within(lens, MAXBITS) && KraftSum(lens, MAXBITS) == Pow2(MAXBITS)
    ensures Matches(lens, s, v)
  {
    ValMsb(v, MAXBITS);
    s := SymbolAt(lens, Rev(v, MAXBITS));
    CodeFits(lens, s);
    LowSmall(Code(lens, s), lens[s]);
    MatchIsShift(lens, s, v);
  }

  /** When the sum is below one, no code is all ones. */
  lemma OnesUnmatched(lens: seq<nat>, s: nat)
    requires Within(lens, MAXBITS) && KraftSum(lens, MAXBITS) < Pow2(MAXBITS)
    ensures !Matches(lens, s, Pow2(MAXBITS) - 1)
  {
    hide KraftSum;
    hide Count;
    hide NextCode;
    hide Rev;
    hide Code;
    if s < |lens| && lens[s] > 0 {
      var v := Pow2(MAXBITS) - 1;
      MatchIsInterval(lens, s, v);
      CodeInterval(lens, s);
      EdgeBound(lens, lens[s]);
      RevOfOnes(MAXBITS);
    }
  }

  lemma {:induction false} RevOfOnes(n: nat)
    ensures Rev(Pow2(n) - 1, n) == Pow2(n) - 1
  {
    if n > 0 {
      var x := Pow2(n) - 1;
      assert x % 2 == 1 && x / 2 == Pow2(n - 1) - 1;
      RevOfOnes(n - 1);
      ShlOne(n - 1);
    }
  }

  /** When the sum is above one, the code that passes the end of the line wraps to zero, where the first
      code is. With at most 288 symbols the first code has at most 9 bits. */
  lemma ZerosMatchedTwice(lens: seq<nat>) returns (s: nat, t: nat)
    requires Within(lens, MAXBITS) && KraftSum(lens, MAXBITS) > Pow2(MAXBITS) && |lens| <= 288
    ensures s != t && Matches(lens, s, 0) && Matches(lens, t, 0) && lens[s] <= 9
  {
    hide *;
    s := FirstZeros(lens);
    t := SecondZeros(lens);
    CodesDiffer(lens, s, t);
  }

  lemma CodesDiffer(lens: seq<nat>, s: nat, t: nat)
    requires s < |lens| && t < |lens| && Code(lens, s) == 0 && Code(lens, t) > 0
    ensures s != t
  {
  }

  lemma FirstZeros(lens: seq<nat>) returns (s: nat)
    requires Within(lens, MAXBITS) && KraftSum(lens, MAXBITS) > Pow2(MAXBITS) && |lens| <= 288
    ensures s < |lens| && Matches(lens, s, 0) && Code(lens, s) == 0 && lens[s] <= 9
  {
    hide KraftSum;
    hide Count;
    hide NextCode;
    hide Rev;
    hide Matches;
    hide Code;
    s := SymbolAt(lens, 0);
    ShrZero(MAXBITS - lens[s]);
    LowSmall(0, lens[s]);
    ZeroMatched(lens, s);
    assert Pow2(MAXBITS) == 32768 by { Pow2Values(); }
    if lens[s] >= 10 {
      ShortestIsFirst(lens, s);
      KraftOfLong(lens);
    }
  }

  lemma SecondZeros(lens: seq<nat>) returns (t: nat)
    requires Within(lens, MAXBITS) && KraftSum(lens, MAXBITS) > Pow2(MAXBITS)
    ensures t < |lens| && Matches(lens, t, 0) && Code(lens, t) > 0
  {
    hide KraftSum;
    hide Count;
    hide NextCode;
    hide Rev;
    hide Matches;
    hide Code;
    hide Pow2;
    hide Low;
    hide Shr;
    hide Shl;
    t := SymbolAt(lens, Pow2(MAXBITS));
    ShrPow2(MAXBITS, MAXBITS - lens[t]);
    assert Code(lens, t) == Pow2(lens[t]);
    LowOfPow2(lens[t]);
    ZeroMatched(lens, t);
  }

  lemma ZeroMatched(lens: seq<nat>, s: nat)
    requires s < |lens| && 1 <= lens[s] <= MAXBITS && Low(Code(lens, s), lens[s]) == 0
    ensures Matches(lens, s, 0)
  {
    RevZero(MAXBITS);
    ShrZero(MAXBITS - lens[s]);
    MatchIsShift(lens, s, 0);
  }

  lemma {:induction false} RevZero(n: nat)
    ensures Rev(0, n) == 0
  {
    if n > 0 {
      RevZero(n - 1);
      ShlOne(n - 1);
    }
  }

  lemma LowOfPow2(n: nat)
    ensures Low(Pow2(n), n) == 0 && Pow2(n) > 0
  {
    hide Low;
    hide Shl;
    ShlOne(n);
    SplitUnique(0, 1, n);
  }

  lemma {:induction false} ShrPow2(m: nat, n: nat)
    requires n <= m
    ensures Shr(Pow2(m), n) == Pow2(m - n)
  {
    if n > 0 {
      assert Pow2(m) / 2 == Pow2(m - 1);
      ShrPow2(m - 1, n - 1);
    }
  }

  /** The symbol with code zero is one of the shortest. */
  lemma ShortestIsFirst(lens: seq<nat>, s: nat)
    requires Within(lens, MAXBITS) && s < |lens| && lens[s] > 0 && Code(lens, s) == 0
    ensures forall t :: 0 <= t < |lens| && lens[t] > 0 ==> lens[t] >= lens[s]
  {
    forall t | 0 <= t < |lens| && 0 < lens[t] < lens[s]
      ensures false
    {
      CodeInterval(lens, s);
      CodeInterval(lens, t);
      EdgeMono(lens, lens[t], lens[s] - 1);
      ShlOne(MAXBITS - lens[s]);
    }
  }

  lemma {:induction false} KraftOfLong(lens: seq<nat>)
    requires Within(lens, MAXBITS) && forall t :: 0 <= t < |lens| && lens[t] > 0 ==> lens[t] >= 10
    ensures KraftSum(lens, MAXBITS) <= 32 * |lens|
  {
    if lens != [] {
      KraftOfLong(lens[..|lens| - 1]);
      var l := lens[|lens| - 1];
      if l > 0 {
        Pow2Mono(MAXBITS - l, 5);
        assert Pow2(5) == 32;
      }
    }
  }

  // ---------------------------------------------------------------------------------------------
  // Symbols without a code
  // ---------------------------------------------------------------------------------------------

  function Repeat(n: nat, x: nat): (r: seq<nat>)
    ensures |r| == n && forall i :: 0 <= i < n ==> r[i] == x
  {
    seq(n, _ => x)
  }

  function Zeros(n: nat): (z: seq<nat>)
    ensures |z| == n && forall i :: 0 <= i < n ==> z[i] == 0
  {
    Repeat(n, 0)
  }

  lemma {:induction false} CountZeros(lens: seq<nat>, n: nat, b: nat)
    requires b > 0
    ensures Count(lens + Zeros(n), b) == Count(lens, b)
  {
    if n == 0 {
      assert lens + Zeros(0) == lens;
    } else {
      var t := lens + Zeros(n);
      assert t[..|t| - 1] == lens + Zeros(n - 1);
      CountZeros(lens, n - 1, b);
    }
  }

  lemma {:induction false} KraftZeros(lens: seq<nat>, n: nat, L: nat)
    requires Within(lens, L)
    ensures KraftSum(lens + Zeros(n), L) == KraftSum(lens, L)
  {
    if n == 0 {
      assert lens + Zeros(0) == lens;
    } else {
      var t := lens + Zeros(n);
      assert t[..|t| - 1] == lens + Zeros(n - 1);
      KraftZeros(lens, n - 1, L);
    }
  }

  lemma {:induction false} NextCodeZeros(lens: seq<nat>, n: nat, b: nat)
    ensures NextCode(lens + Zeros(n), b) == NextCode(lens, b)
  {
    if b > 0 {
      NextCodeZeros(lens, n, b - 1);
      if b > 1 {
        CountZeros(lens, n, b - 1);
      }
    }
  }

  /** Symbols without a code at the end of the alphabet change no code: the tree that an encoder trims and
      the one that a decoder fills up to the whole alphabet agree. */
  lemma TrailingZeros(lens: seq<nat>, n: nat, s: nat)
    requires s < |lens|
    ensures Code(lens + Zeros(n), s) == Code(lens, s)
    ensures CodeBits(lens + Zeros(n), s) == CodeBits(lens, s)
  {
    NextCodeZeros(lens, n, lens[s]);
    assert (lens + Zeros(n))[..s] == lens[..s];
  }

  /** A sum in units of 2^-L, in finer units. */
  lemma {:induction false} KraftFiner(lens: seq<nat>, L: nat, M: nat)
    requires Within(lens, L) && L <= M
    ensures Within(lens, M) && KraftSum(lens, M) == Shl(KraftSum(lens, L), M - L)
  {
    ShlOne(M - L);
    if lens != [] {
      var l := lens[|lens| - 1];
      var k := KraftSum(lens[..|lens| - 1], L);
      KraftFiner(lens[..|lens| - 1], L, M);
      ShlLinear(k, Pow2(L - l), M - L);
      ShlOne(L - l);
      ShlOne(M - l);
      ShlAdd(1, L - l, M - L);
    }
  }
}
