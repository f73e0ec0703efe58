/** The LZ77 matcher. Positions of the input are entered into circular hash chains; a match is looked for
    along the chain of its hash, with a second chain for runs of zeros. A match may be held back for one
    position (`lazy`), after which the search steps back. Whatever is found, what is emitted expands to the
    input again. */
module Lz77 {
  import opened Bits
  import opened DeflateFormat
  import opened Wrappers
  import opened HashChains

  const MAX_SUPPORTED_DEFLATE_LENGTH: nat := 258
  const HASH_NUM_VALUES: nat := 1024
  const FIRST_LENGTH_CODE_INDEX: nat := 257

  // ---------------------------------------------------------------------------------------------
  // What is emitted, and what it means
  // ---------------------------------------------------------------------------------------------

  datatype Token =
    | Literal(value: byte)
    | Pair(lengthCode: nat, extraLength: nat, distCode: nat, extraDistance: nat)

  predicate IsToken(t: Token) {
    t.Pair? ==>
      && t.lengthCode < 29 && t.extraLength < Pow2(LengthExtra(t.lengthCode))
      && t.distCode < 30 && t.extraDistance < Pow2(DistanceExtra(t.distCode))
  }

  predicate AreTokens(ts: seq<Token>) {
    forall i :: 0 <= i < |ts| ==> IsToken(ts[i])
  }

  function Length(t: Token): (n: nat)
    requires t.Pair? && IsToken(t)
    ensures n >= 3
  {
    LengthBase(t.lengthCode) + t.extraLength
  }

  function Distance(t: Token): (n: nat)
    requires t.Pair? && IsToken(t)
    ensures n >= 1
  {
    DistanceBase(t.distCode) + t.extraDistance
  }

  function Apply(t: Token, out: seq<byte>): Option<seq<byte>>
    requires IsToken(t)
  {
    match t
    case Literal(b) => Some(out + [b])
    case Pair(_, _, _, _) => if Distance(t) > |out| then None else Some(Copy(out, Distance(t), Length(t)))
  }

  /** What the tokens make of the output before them. */
  function Expand(ts: seq<Token>, out: seq<byte>): Option<seq<byte>>
    requires AreTokens(ts)
  {
    if ts == [] then Some(out)
    else
      match Expand(ts[..|ts| - 1], out)
      case None => None
      case Some(o) => Apply(ts[|ts| - 1], o)
  }

  /** Tokens in the form that the encoder passes on: numbers in a row. */
  function Values(t: Token): seq<nat> {
    match t
    case Literal(b) => [b]
    case Pair(lengthCode, extraLength, distCode, extraDistance) =>
      [lengthCode + FIRST_LENGTH_CODE_INDEX, extraLength, distCode, extraDistance]
  }

  function Flat(ts: seq<Token>): seq<nat> {
    if ts == [] then [] else Flat(ts[..|ts| - 1]) + Values(ts[|ts| - 1])
  }

  /** The distances stay below the window size, and the lengths within what DEFLATE can express. */
  predicate WithinWindow(ts: seq<Token>, windowsize: nat)
    requires AreTokens(ts)
  {
    forall i :: 0 <= i < |ts| && ts[i].Pair? ==> Length(ts[i]) <= 258 && Distance(ts[i]) < windowsize
  }

  /** The input repeats itself from `offset` back. */
  predicate IsMatch(input: seq<byte>, end: nat, pos: nat, length: nat, offset: nat) {
    && 0 < offset <= pos && pos + length <= end <= |input|
    && forall k :: pos <= k < pos + length ==> input[k] == input[k - offset]
  }

  lemma {:induction false} CopyOfMatch(input: seq<byte>, end: nat, pos: nat, length: nat, offset: nat)
    requires IsMatch(input, end, pos, length, offset)
    ensures Copy(input[..pos], offset, length) == input[..pos + length]
  {
    if length > 0 {
      CopyOfMatch(input, end, pos, length - 1, offset);
      var k := pos + length - 1;
      assert input[..k][k - offset] == input[k - offset] == input[k];
      assert input[..k + 1] == input[..k] + [input[k]];
    }
  }

  // ---------------------------------------------------------------------------------------------
  // Length and distance codes
  // ---------------------------------------------------------------------------------------------

  predicate Increasing(a: seq<nat>) {
    forall i, j :: 0 <= i < j < |a| ==> a[i] < a[j]
  }

  /** The last entry that does not exceed the value, by binary search. */
  method SearchCodeIndex(a: seq<nat>, value: nat) returns (left: nat)
    requires a != [] && Increasing(a) && a[0] <= value
    ensures left < |a| && a[left] <= value
    ensures forall i :: left < i < |a| ==> a[i] > value
  {
    left := 1;
    var right := |a| - 1;
    while left <= right
      invariant 1 <= left <= right + 1 <= |a|
      invariant forall i :: 1 <= i < left ==> a[i] < value
      invariant forall i :: right < i < |a| ==> a[i] >= value
      decreases right + 1 - left
    {
      var mid := (left + right) / 2;
      if a[mid] >= value {
        right := mid - 1;
      } else {
        left := mid + 1;
      }
    }
    if left >= |a| || a[left] > value {
      left := left - 1;
    }
  }

  lemma LengthsIncrease()
    ensures Increasing(LENGTHBASE) && |LENGTHBASE| == 29 && LENGTHBASE[0] == 3
  {
  }

  lemma DistancesIncrease()
    ensures Increasing(DISTANCEBASE) && |DISTANCEBASE| == 30 && DISTANCEBASE[0] == 1
  {
  }

  /** Between two bases there are no more values than extra bits can count. */
  lemma LengthGap(i: nat, length: nat)
    requires i < 29 && LengthBase(i) <= length <= 258 && (i < 28 ==> length < LengthBase(i + 1))
    ensures length - LengthBase(i) < Pow2(LengthExtra(i))
  {
    assert Pow2(0) == 1 && Pow2(1) == 2 && Pow2(2) == 4 && Pow2(3) == 8;
    assert Pow2(4) == 16 && Pow2(5) == 32;
  }

  lemma DistanceGap(d: nat, distance: nat)
    requires d < 30 && DistanceBase(d) <= distance <= 32768 && (d < 29 ==> distance < DistanceBase(d + 1))
    ensures distance - DistanceBase(d) < Pow2(DistanceExtra(d))
  {
    assert Pow2(0) == 1 && Pow2(1) == 2 && Pow2(2) == 4 && Pow2(3) == 8;
    assert Pow2(4) == 16 && Pow2(5) == 32 && Pow2(6) == 64 && Pow2(7) == 128;
    assert Pow2(8) == 256 && Pow2(9) == 512 && Pow2(10) == 1024 && Pow2(11) == 2048;
    assert Pow2(12) == 4096 && Pow2(13) == 8192;
  }

  /** The token for a length and a distance, with the last codes that do not pass them. */
  predicate IsPair(t: Token, length: nat, distance: nat) {
    && t.Pair? && IsToken(t) && Length(t) == length && Distance(t) == distance
    && (forall i :: t.lengthCode < i < 29 ==> LengthBase(i) > length)
    && forall d :: t.distCode < d < 30 ==> DistanceBase(d) > distance
  }

  lemma OnePair(t: Token, u: Token, length: nat, distance: nat)
    requires IsPair(t, length, distance) && IsPair(u, length, distance)
    ensures t == u
  {
    hide LengthBase;
    hide DistanceBase;
    hide LengthExtra;
    hide DistanceExtra;
    hide Pow2;
  }

  /** Appends a length and a distance as the token that stands for them. */
  method AddLengthDistance(values: seq<nat>, length: nat, distance: nat) returns (r: seq<nat>, ghost t: Token)
    requires 3 <= length <= 258 && 1 <= distance <= 32768
    ensures IsPair(t, length, distance) && r == values + Values(t)
  {
    LengthsIncrease();
    DistancesIncrease();
    var length_code := SearchCodeIndex(LENGTHBASE, length);
    var extra_length := length - LENGTHBASE[length_code];
    var dist_code := SearchCodeIndex(DISTANCEBASE, distance);
    var extra_distance := distance - DISTANCEBASE[dist_code];
    LengthGap(length_code, length);
    DistanceGap(dist_code, distance);
    t := Pair(length_code, extra_length, dist_code, extra_distance);
    r := values + [length_code + FIRST_LENGTH_CODE_INDEX, extra_length, dist_code, extra_distance];
  }

  // ---------------------------------------------------------------------------------------------
  // Powers of two
  // ---------------------------------------------------------------------------------------------

  ghost predicate IsPowerOfTwo(n: nat) {
    exists k: nat :: n == Pow2(k)
  }

  /** C's test for powers of two. */
  lemma {:induction false} PowerTest(n: nat)
    requires n > 0
    ensures BitAnd(n, n - 1) == 0 <==> IsPowerOfTwo(n)
  {
    if n == 1 {
      assert n == Pow2(0);
    } else if n % 2 == 1 {
      assert (n - 1) / 2 == n / 2;
      AndSelf(n / 2);
      forall k: nat
        ensures n != Pow2(k)
      {
      }
    } else {
      assert (n - 1) / 2 == n / 2 - 1;
      PowerTest(n / 2);
      if IsPowerOfTwo(n / 2) {
        var k: nat :| n / 2 == Pow2(k);
        assert n == Pow2(k + 1);
      }
      if IsPowerOfTwo(n) {
        var k: nat :| n == Pow2(k);
        assert k > 0 && n / 2 == Pow2(k - 1);
      }
    }
  }

  lemma {:induction false} AndSelf(n: nat)
    ensures BitAnd(n, n) == n
  {
    if n > 0 {
      AndSelf(n / 2);
    }
  }

  lemma SlotIsMask(pos: nat, windowsize: nat)
    requires IsPowerOfTwo(windowsize)
    ensures windowsize > 0 && BitAnd(pos, windowsize - 1) == Slot(pos, windowsize)
  {
    var k: nat :| windowsize == Pow2(k);
    BitAndMask(pos, k);
    LowIsMod(pos, k);
  }

  // ---------------------------------------------------------------------------------------------
  // Hashes and zero runs
  // ---------------------------------------------------------------------------------------------

  /** There are `n` zeros from `pos` on. */
  predicate ZeroRun(input: seq<byte>, end: nat, pos: nat, n: nat) {
    && n <= MAX_SUPPORTED_DEFLATE_LENGTH && pos + n <= end <= |input|
    && forall k :: pos <= k < pos + n ==> input[k] == 0
  }

  /** The hash of the three bytes at `pos`, or of those that there are before the end. */
  function HashOf(data: seq<byte>, size: nat, pos: nat): nat
    requires size <= |data|
  {
    if pos + 2 < size then Low(BitXor(BitXor(data[pos], Shl(data[pos + 1], 4)), Shl(data[pos + 2], 8)), 10)
    else if pos + 2 == size then Low(BitXor(data[pos], Shl(data[pos + 1], 8)), 10)
    else if pos + 1 == size then data[pos]
    else 0
  }

  /** Only three bytes count, so that equal triples meet in one chain, and zeros have the hash zero. */
  method GetHash(data: seq<byte>, size: nat, pos: nat) returns (hash: nat)
    requires size <= |data|
    ensures hash == HashOf(data, size, pos) < HASH_NUM_VALUES
    ensures (forall k :: pos <= k < pos + 3 && k < size ==> data[k] == 0) ==> hash == 0
  {
    hide Shl;
    hide BitXor;
    hide Low;
    hide BitAnd;
    hide Pow2;
    XorZero();
    var result := 0;
    if pos + 2 < size {
      result := BitXor(result, Shl(data[pos], 0));
      result := BitXor(result, Shl(data[pos + 1], 4));
      result := BitXor(result, Shl(data[pos + 2], 8));
    } else {
      if pos >= size {
        return 0;
      }
      var amount := size - pos;
      for i := 0 to amount
        invariant result == if i == 0 then 0 else if i == 1 then data[pos] else BitXor(data[pos], Shl(data[pos + 1], 8))
      {
        result := BitXor(result, Shl(data[pos + i], i * 8));
      }
      TenBits(data[pos]);
    }
    TenBits(result);
    hash := BitAnd(result, HASH_NUM_VALUES - 1);
  }

  lemma XorZero()
    ensures forall x: nat {:trigger BitXor(0, x)} :: BitXor(0, x) == x
    ensures forall x: nat {:trigger Shl(x, 0)} :: Shl(x, 0) == x
    ensures Shl(0, 4) == 0 && Shl(0, 8) == 0
  {
    ShlOne(4);
    ShlOne(8);
  }

  lemma TenBits(x: nat)
    ensures BitAnd(x, HASH_NUM_VALUES - 1) == Low(x, 10) < HASH_NUM_VALUES
    ensures x < 1024 ==> Low(x, 10) == x
  {
    assert Pow2(10) == 1024;
    BitAndMask(x, 10);
    if x < 1024 {
      LowSmall(x, 10);
    }
  }

  /** The run of zeros at `pos` is that long, as far as the longest length of a match. */
  predicate IsRunLength(input: seq<byte>, end: nat, pos: nat, n: nat) {
    ZeroRun(input, end, pos, n) && (n == MAX_SUPPORTED_DEFLATE_LENGTH || pos + n == end || input[pos + n] != 0)
  }

  /** What is noted as the run of zeros at `pos`: none unless the hash is zero. */
  predicate IsNumZeros(input: seq<byte>, end: nat, pos: nat, n: nat)
    requires end <= |input|
  {
    if HashOf(input, end, pos) == 0 then IsRunLength(input, end, pos, n) else n == 0
  }

  lemma NumZerosUnique(input: seq<byte>, end: nat, pos: nat, n: nat, m: nat)
    requires end <= |input| && IsNumZeros(input, end, pos, n) && IsNumZeros(input, end, pos, m)
    ensures n == m
  {
    hide HashOf;
  }

  /** The length of the zero run at `pos`, up to the longest length of a match. */
  method CountZeros(data: seq<byte>, size: nat, pos: nat) returns (n: nat)
    requires pos <= size <= |data|
    ensures IsRunLength(data, size, pos, n)
  {
    var end := pos + MAX_SUPPORTED_DEFLATE_LENGTH;
    if end > size {
      end := size;
    }
    var i := pos;
    while i != end && data[i] == 0
      invariant pos <= i <= end
      invariant forall k :: pos <= k < i ==> data[k] == 0
    {
      i := i + 1;
    }
    n := i - pos;
  }

  // ---------------------------------------------------------------------------------------------
  // The hash chains
  // ---------------------------------------------------------------------------------------------

  /** Heads name slots of positions below `n`, or nothing. */
  predicate HeadsOk(head: seq<int>, windowsize: nat, n: nat) {
    forall h :: 0 <= h < |head| ==> -1 <= head[h] < windowsize && head[h] < n
  }

  /** Links lead to slots of positions below `n`, or to where they start. */
  predicate LinksOk(chain: seq<nat>, windowsize: nat, n: nat) {
    && |chain| == windowsize
    && forall w :: 0 <= w < windowsize ==> chain[w] < windowsize && (chain[w] < n || chain[w] == w)
  }

  /** What is noted for the last positions is no longer than the zero runs there. */
  predicate RunsOk(zeros: seq<nat>, input: seq<byte>, windowsize: nat, n: nat) {
    && windowsize > 0 && |zeros| == windowsize
    && forall q: nat :: n < q + windowsize + 1 && q < n ==> ZeroRun(input, |input|, q, zeros[Slot(q, windowsize)])
  }

  lemma LinkEntered(head: seq<int>, chain: seq<nat>, windowsize: nat, n: nat, pos: nat, h: nat, wpos: nat)
    requires HeadsOk(head, windowsize, n) && LinksOk(chain, windowsize, n) && h < |head|
    requires wpos < windowsize && wpos <= pos && (pos == n || pos + 1 == n)
    ensures -1 <= head[h] && HeadsOk(head[h := wpos], windowsize, pos + 1)
    ensures LinksOk(chain, windowsize, pos + 1) && LinksOk(Linked(head, chain, h, wpos), windowsize, pos + 1)
  {
  }

  lemma RunEntered(zeros: seq<nat>, input: seq<byte>, windowsize: nat, n: nat, pos: nat, run: nat)
    requires RunsOk(zeros, input, windowsize, n) && ZeroRun(input, |input|, pos, run)
    requires pos == n || pos + 1 == n
    ensures RunsOk(zeros[Slot(pos, windowsize) := run], input, windowsize, pos + 1)
  {
    hide ZeroRun;
    hide Slot;
    var after := zeros[Slot(pos, windowsize) := run];
    forall q: nat | pos + 1 < q + windowsize + 1 && q < pos + 1
      ensures ZeroRun(input, |input|, q, after[Slot(q, windowsize)])
    {
      if q < pos {
        SlotsDiffer(q, pos, windowsize);
      }
    }
  }

  /** The keys of the positions from `inpos` on are the hashes and runs of zeros there. */
  ghost predicate KeysExact(keys: seq<nat>, runs: seq<nat>, input: seq<byte>, inpos: nat, insize: nat) {
    && insize <= |input| && |keys| == |runs|
    && forall p: nat :: inpos <= p < |keys| ==> keys[p] == HashOf(input, insize, p) && IsNumZeros(input, insize, p, runs[p])
  }

  class Hash {
    const windowsize: nat
    /** The hashes with which positions have been entered, and the numbers of zeros; and whether the heads of the
        last position have been forgotten. */
    ghost var keys: seq<nat>
    ghost var runs: seq<nat>
    ghost var forgotten: bool
    const head: array<int>
    const val: array<int>
    const chain: array<nat>
    const headz: array<int>
    const chainz: array<nat>
    const zeros: array<nat>

    ghost predicate Shape() {
      && head.Length == HASH_NUM_VALUES && headz.Length == MAX_SUPPORTED_DEFLATE_LENGTH + 1
      && val.Length == chain.Length == chainz.Length == zeros.Length == windowsize
      && head != val && head != headz && val != headz
      && chain != chainz && chain != zeros && chainz != zeros
    }

    ghost function Repr(): set<object> {
      var ints: set<object> := {head, val, headz};
      var nats: set<object> := {chain, chainz, zeros};
      {this} + ints + nats
    }

    /** The positions below `n` have been entered. */
    ghost predicate Entered(input: seq<byte>, n: nat)
      reads Repr()
    {
      && Shape()
      && HeadsOk(head[..], windowsize, n) && HeadsOk(headz[..], windowsize, n)
      && LinksOk(chain[..], windowsize, n) && LinksOk(chainz[..], windowsize, n)
      && RunsOk(zeros[..], input, windowsize, n)
      && |keys| == n && ChainsOk()
    }

    /** ... and nothing is left to be done again. */
    ghost predicate Ready(input: seq<byte>, n: nat)
      reads Repr()
    {
      Entered(input, n) && !forgotten
    }

    /** Both chains lead from each position to the latest one before it with the same key. */
    ghost predicate ChainsOk()
      requires Shape()
      reads Repr()
    {
      && Chained(head[..], chain[..], val[..], keys, windowsize, forgotten)
      && Chained(headz[..], chainz[..], zeros[..], runs, windowsize, forgotten)
      && |keys| == |runs| && forall p :: 0 <= p < |keys| && runs[p] > 0 ==> keys[p] == 0
    }

    constructor (windowsize: nat)
      ensures this.windowsize == windowsize && Shape() && fresh(Repr())
      ensures windowsize > 0 ==> forall input :: Ready(input, 0)
    {
      hide Ready;
      this.windowsize := windowsize;
      head := new int[HASH_NUM_VALUES](_ => -1);
      val := new int[windowsize](_ => -1);
      chain := new nat[windowsize](i => i);
      zeros := new nat[windowsize];
      headz := new int[MAX_SUPPORTED_DEFLATE_LENGTH + 1](_ => -1);
      chainz := new nat[windowsize](i => i);
      keys, runs, forgotten := [], [], false;
      new;
      if windowsize > 0 {
        NothingEntered();
      }
    }

    lemma NothingEntered()
      requires Shape() && windowsize > 0 && keys == runs == [] && !forgotten
      requires (forall h :: 0 <= h < head.Length ==> head[h] == -1) && (forall h :: 0 <= h < headz.Length ==> headz[h] == -1)
      requires forall w :: 0 <= w < windowsize ==> chain[w] == w && chainz[w] == w
      ensures forall input :: Ready(input, 0)
    {
      NothingChained(head[..], chain[..], val[..], windowsize);
      NothingChained(headz[..], chainz[..], zeros[..], windowsize);
      hide Chained;
    }

    method UpdateHashChain(wpos: nat, hashval: nat, numzeros: nat, ghost input: seq<byte>, ghost n: nat, ghost pos: nat)
      requires Entered(input, n) && (pos == n || pos + 1 == n) && wpos == Slot(pos, windowsize)
      requires hashval < HASH_NUM_VALUES && ZeroRun(input, |input|, pos, numzeros) && (numzeros > 0 ==> hashval == 0)
      requires forgotten <==> pos + 1 == n
      requires pos + 1 == n ==> keys[pos] == hashval && runs[pos] == numzeros
      modifies Repr()
      ensures Entered(input, pos + 1) && !forgotten
      ensures keys == (if pos == n then old(keys) + [hashval] else old(keys)) && runs == (if pos == n then old(runs) + [numzeros] else old(runs))
    {
      hide Chained;
      hide RunsOk;
      hide ZeroRun;
      hide HeadsOk;
      hide LinksOk;
      assert numzeros <= MAX_SUPPORTED_DEFLATE_LENGTH by { ShortRun(input, pos, numzeros); }
      RunEntered(zeros[..], input, windowsize, n, pos, numzeros);
      LinkEntered(head[..], chain[..], windowsize, n, pos, hashval, wpos);
      LinkEntered(headz[..], chainz[..], windowsize, n, pos, numzeros, wpos);
      HashChains.Enter(head[..], chain[..], val[..], keys, windowsize, forgotten, pos, hashval);
      HashChains.Enter(headz[..], chainz[..], zeros[..], runs, windowsize, forgotten, pos, numzeros);
      keys, runs := if forgotten then keys else keys + [hashval], if forgotten then runs else runs + [numzeros];
      forgotten := false;
      val[wpos] := hashval;
      LinkIn(head, chain, hashval, wpos);
      zeros[wpos] := numzeros;
      LinkIn(headz, chainz, numzeros, wpos);
      assert zeros[..] == old(zeros[..])[wpos := numzeros] && val[..] == old(val[..])[wpos := hashval];
    }

    /** Links a slot to the head, and makes it the head. */
    static method LinkIn(head: array<int>, chain: array<nat>, k: nat, wpos: nat)
      requires k < head.Length && wpos < chain.Length && head[k] >= -1
      modifies head, chain
      ensures head[..] == old(head[..])[k := wpos] && chain[..] == Linked(old(head[..]), old(chain[..]), k, wpos)
    {
      if head[k] != -1 {
        chain[wpos] := head[k];
      }
      head[k] := wpos;
    }

    /** Takes back what `UpdateHashChain` did to the heads, so that the update can be done again. */
    method ForgetHeads(hashval: nat, numzeros: nat, ghost input: seq<byte>, ghost n: nat)
      requires Entered(input, n) && hashval < HASH_NUM_VALUES && numzeros <= MAX_SUPPORTED_DEFLATE_LENGTH
      requires !forgotten && n > 0 && keys[n - 1] == hashval && runs[n - 1] == numzeros
      modifies Repr()
      ensures Entered(input, n) && forgotten && keys == old(keys) && runs == old(runs)
    {
      hide RunsOk;
      hide LinksOk;
      hide Chained;
      ForgetLast(head[..], chain[..], val[..], keys, windowsize, hashval);
      ForgetLast(headz[..], chainz[..], zeros[..], runs, windowsize, numzeros);
      forgotten := true;
      head[hashval] := -1;
      headz[numzeros] := -1;
      assert head[..] == old(head[..])[hashval := -1] && headz[..] == old(headz[..])[numzeros := -1];
    }

    static lemma ShortRun(input: seq<byte>, pos: nat, n: nat)
      requires ZeroRun(input, |input|, pos, n)
      ensures n <= MAX_SUPPORTED_DEFLATE_LENGTH
    {
    }

    /** Hashes the bytes at `pos`, brings the count of zeros up to date and enters the position. */
    method Enter(input: seq<byte>, insize: nat, pos: nat, wpos: nat, numzeros0: nat, ghost n: nat, ghost inpos: nat) returns (hashval: nat, numzeros: nat)
      requires Entered(input, n) && (pos == n || pos + 1 == n) && wpos == Slot(pos, windowsize) && (forgotten <==> pos + 1 == n)
      requires inpos <= pos < insize <= |input| && RunKnown(input, insize, pos, numzeros0) && KeysExact(keys, runs, input, inpos, insize)
      modifies Repr()
      ensures Entered(input, pos + 1) && !forgotten && hashval < HASH_NUM_VALUES && IsNumZeros(input, insize, pos, numzeros)
      ensures KeysExact(keys, runs, input, inpos, insize) && keys[pos] == hashval && runs[pos] == numzeros
    {
      hide HashOf;
      hide RunsOk;
      hide HeadsOk;
      hide LinksOk;
      hide Chained;
      hashval := GetHash(input, insize, pos);
      numzeros := numzeros0;
      if hashval == 0 {
        if numzeros == 0 {
          numzeros := CountZeros(input, insize, pos);
        } else if pos + numzeros > insize || input[pos + numzeros - 1] != 0 {
          numzeros := numzeros - 1;
        }
      } else {
        numzeros := 0;
      }
      if pos + 1 == n {
        NumZerosUnique(input, insize, pos, numzeros, runs[pos]);
      }
      UpdateHashChain(wpos, hashval, numzeros, input, n, pos);
    }

    /** How far the input at `pos` agrees with that from `offset` back, when the first `skip` bytes are known
        to agree. */
    method MatchLength(input: seq<byte>, insize: nat, pos: nat, offset: nat, skip: nat) returns (length: nat)
      requires pos < insize <= |input| && skip <= MAX_SUPPORTED_DEFLATE_LENGTH
      requires IsMatch(input, insize, pos, skip, offset)
      ensures 0 < offset && length <= MAX_SUPPORTED_DEFLATE_LENGTH && IsMatch(input, insize, pos, length, offset)
      ensures length == MAX_SUPPORTED_DEFLATE_LENGTH || pos + length == insize || input[pos + length] != input[pos + length - offset]
    {
      var lastptr := if insize < pos + MAX_SUPPORTED_DEFLATE_LENGTH then insize else pos + MAX_SUPPORTED_DEFLATE_LENGTH;
      var backptr, foreptr := pos - offset + skip, pos + skip;
      while foreptr != lastptr && input[backptr] == input[foreptr]
        invariant foreptr == backptr + offset && pos <= foreptr <= lastptr
        invariant IsMatch(input, insize, pos, foreptr - pos, offset)
      {
        backptr, foreptr := backptr + 1, foreptr + 1;
      }
      length := foreptr - pos;
    }

    /** How far the input at `pos` agrees with that at the latest position of the slot `hashpos`. What both
        positions are known to have of zeros is skipped. */
    method MatchAt(input: seq<byte>, insize: nat, pos: nat, wpos: nat, hashpos: nat, numzeros: nat, current_offset: nat) returns (length: nat)
      requires Entered(input, pos + 1) && wpos == Slot(pos, windowsize) && hashpos < windowsize && hashpos <= pos
      requires pos < insize <= |input| && ZeroRun(input, insize, pos, numzeros)
      requires 0 < current_offset == if hashpos <= wpos then wpos - hashpos else wpos - hashpos + windowsize
      ensures Found(input, insize, pos, length, current_offset, windowsize) && NoLonger(input, insize, pos, current_offset, length)
      ensures Entered(input, pos + 1)
    {
      hide RunsOk;
      hide HeadsOk;
      hide IsMatch;
      hide ZeroRun;
      hide NoLonger;
      SlotBack(pos, hashpos, windowsize);
      RunAt(input, pos, current_offset);
      var skip := 0;
      if numzeros >= 3 {
        skip := zeros[hashpos];
        if skip > numzeros {
          skip := numzeros;
        }
      }
      SkipIsMatch(input, insize, pos, current_offset, zeros[hashpos], numzeros, skip);
      length := MatchLength(input, insize, pos, current_offset, skip);
      LengthIsLongest(input, insize, pos, current_offset, length);
    }

    /** No match from `offset` back is longer. */
    static ghost predicate NoLonger(input: seq<byte>, insize: nat, pos: nat, offset: nat, length: nat) {
      forall m: nat :: m <= MAX_SUPPORTED_DEFLATE_LENGTH && IsMatch(input, insize, pos, m, offset) ==> m <= length
    }

    static lemma LengthIsLongest(input: seq<byte>, insize: nat, pos: nat, offset: nat, length: nat)
      requires length == MAX_SUPPORTED_DEFLATE_LENGTH || pos + length == insize
        || (0 < offset <= pos && pos + length < insize <= |input| && input[pos + length] != input[pos + length - offset])
      ensures NoLonger(input, insize, pos, offset, length)
    {
    }

    /** The longest of the matches at the offsets in `visited`, the first of them if there are several. */
    static ghost predicate IsLongest(input: seq<byte>, insize: nat, pos: nat, length: nat, offset: nat, visited: seq<nat>) {
      && (forall i :: 0 <= i < |visited| ==> NoLonger(input, insize, pos, visited[i], length))
      && (length > 0 ==> exists i :: 0 <= i < |visited| && visited[i] == offset && ShorterBefore(input, insize, pos, length, visited, i))
    }

    static ghost predicate ShorterBefore(input: seq<byte>, insize: nat, pos: nat, length: nat, visited: seq<nat>, i: nat)
      requires i <= |visited| && length > 0
    {
      forall j :: 0 <= j < i ==> NoLonger(input, insize, pos, visited[j], length - 1)
    }

    static lemma OneMoreVisited(input: seq<byte>, insize: nat, pos: nat, length: nat, offset: nat, visited: seq<nat>, o: nat, l: nat)
      requires IsLongest(input, insize, pos, length, offset, visited) && NoLonger(input, insize, pos, o, l)
      ensures l <= length ==> IsLongest(input, insize, pos, length, offset, visited + [o])
      ensures l > length ==> IsLongest(input, insize, pos, l, o, visited + [o])
    {
      hide IsMatch;
      var after := visited + [o];
      if l <= length {
        if length > 0 {
          var i :| 0 <= i < |visited| && visited[i] == offset && ShorterBefore(input, insize, pos, length, visited, i);
          assert after[i] == offset && ShorterBefore(input, insize, pos, length, after, i);
        }
      } else {
        assert after[|visited|] == o && ShorterBefore(input, insize, pos, l, after, |visited|);
      }
    }

    /** Follows the chains for a long match; what it returns is one that cannot be extended, and the longest at
        the offsets that were tried. It is also the longest of all that start less than `bound` back in this
        block: that is the whole window unless the match is as long as was asked for, or the number of links was
        limited to less than the window and used up; and then it is as far as was tried. */
    method LongestMatch(input: seq<byte>, insize: nat, pos: nat, wpos: nat, hashval: nat, numzeros: nat, nicematch: nat,
                        maxchainlength: nat, ghost inpos: nat)
      returns (length: nat, offset: nat, ghost visited: seq<nat>, ghost bound: nat)
      requires Entered(input, pos + 1) && wpos == Slot(pos, windowsize)
      requires inpos <= pos < insize <= |input| && KeysExact(keys, runs, input, inpos, insize) && keys[pos] == hashval && runs[pos] == numzeros
      ensures Found(input, insize, pos, length, offset, windowsize) && IsLongest(input, insize, pos, length, offset, visited)
      ensures BestBelow(input, insize, inpos, pos, length, bound)
      ensures bound != windowsize ==>
        (forall i :: 0 <= i < |visited| ==> visited[i] < bound) && (length >= nicematch || |visited| == maxchainlength < windowsize)
    {
      hide Entered;
      hide Found;
      hide ZeroRun;
      hide Slot;
      hide IsLongest;
      hide NoLonger;
      hide KeysExact;
      hide HashOf;
      hide Searching;
      hide Visited;
      hide Searched;
      hide BestBelow;
      hide IsRunLength;
      length, offset, visited := 0, 0, [];
      NoneVisited(input, insize, pos);
      NothingFound(input, insize, pos, windowsize);
      EnteredShape(input, pos + 1);
      RunAtPosition(keys, runs, input, inpos, insize, pos);
      ghost var limit := if windowsize < pos - inpos + 1 then windowsize else pos - inpos + 1;
      StartSearch(input, pos, limit);
      var hashpos: nat := chain[wpos];
      var prev_offset, chainlength := 0, 0;
      while true
        invariant Entered(input, pos + 1)
        invariant hashpos < windowsize && hashpos <= pos && prev_offset < windowsize
        invariant Found(input, insize, pos, length, offset, windowsize) && chainlength <= maxchainlength
        invariant IsLongest(input, insize, pos, length, offset, visited)
        invariant forall i :: 0 <= i < |visited| ==> visited[i] <= prev_offset
        invariant Searching(keys, runs, windowsize, pos, hashval, numzeros, limit, length, OffsetOf(wpos, hashpos, windowsize), visited, prev_offset, chainlength)
        decreases maxchainlength - chainlength
      {
        if chainlength >= maxchainlength {
          bound := SearchLimited(keys, runs, windowsize, pos, hashval, numzeros, limit, length, OffsetOf(wpos, hashpos, windowsize), visited,
                                 prev_offset, chainlength);
          break;
        }
        chainlength := chainlength + 1;
        var current_offset := if hashpos <= wpos then wpos - hashpos else wpos - hashpos + windowsize;
        assert current_offset == OffsetOf(wpos, hashpos, windowsize);
        if current_offset < prev_offset {
          SearchWrapped(keys, runs, windowsize, pos, hashval, numzeros, limit, length, current_offset, visited, prev_offset, chainlength - 1);
          bound := windowsize;
          break;
        }
        SlotBack(pos, hashpos, windowsize);
        ghost var length0, visited0, prev0 := length, visited, prev_offset;
        prev_offset := current_offset;
        if current_offset > 0 {
          var current_length := MatchAt(input, insize, pos, wpos, hashpos, numzeros, current_offset);
          OneMoreVisited(input, insize, pos, length, offset, visited, current_offset, current_length);
          visited := visited + [current_offset];
          var longer := current_length > length;
          if longer {
            FoundInside(input, insize, pos, current_length, current_offset, windowsize);
            length := current_length;
            offset := current_offset;
          }
          VisitIt(input, inpos, insize, pos, limit, length0, length, current_offset, visited0, prev0, chainlength - 1);
          if longer && current_length >= nicematch {
            bound := SearchEnough(keys, runs, windowsize, pos, hashval, numzeros, limit, length, current_offset, visited, chainlength);
            break;
          }
        } else {
          SearchNothing(keys, runs, windowsize, pos, hashval, numzeros, limit, length, visited, prev0, chainlength - 1);
        }
        GoOn(input, pos, limit, length, current_offset, visited, chainlength);
        if hashpos == chain[hashpos] {
          bound := windowsize;
          break;
        }
        if numzeros >= 3 && length > numzeros {
          hashpos := chainz[hashpos];
          if zeros[hashpos] != numzeros {
            bound := windowsize;
            break;
          }
        } else {
          hashpos := chain[hashpos];
          if val[hashpos] != hashval {
            bound := windowsize;
            break;
          }
        }
      }
      SearchedIsBest(keys, runs, input, inpos, insize, windowsize, pos, hashval, numzeros, limit, length, offset, visited, bound);
    }

    lemma EnteredShape(input: seq<byte>, n: nat)
      requires Entered(input, n)
      ensures Shape() && windowsize > 0 && |keys| == |runs| == n
    {
    }

    lemma StartSearch(input: seq<byte>, pos: nat, limit: nat)
      requires Entered(input, pos + 1) && limit <= windowsize
      ensures Shape() && windowsize > 0 && |keys| == |runs| == pos + 1
      ensures var next := chain[Slot(pos, windowsize)];
        && next < windowsize && next <= pos
        && Searching(keys, runs, windowsize, pos, keys[pos], runs[pos], limit, 0, OffsetOf(Slot(pos, windowsize), next, windowsize), [], 0, 0)
    {
      hide RunsOk;
      hide HeadsOk;
      hide Slot;
      hide Searching;
      hide HeadsLatest;
      hide LinksLatest;
      hide KeysNoted;
      FirstLink(head[..], chain[..], val[..], keys, runs, windowsize, forgotten, pos, keys[pos], runs[pos], limit);
    }

    lemma VisitIt(input: seq<byte>, inpos: nat, insize: nat, pos: nat, limit: nat, length0: nat, length: nat, o: nat, visited: seq<nat>, prev: nat, links: nat)
      requires Entered(input, pos + 1) && |keys| == |runs| == pos + 1 && windowsize > 0
      requires Searching(keys, runs, windowsize, pos, keys[pos], runs[pos], limit, length0, o, visited, prev, links)
      requires KeysExact(keys, runs, input, inpos, insize) && inpos <= pos < insize && limit <= pos - inpos + 1
      requires length0 <= length && (length > length0 ==> length <= MAX_SUPPORTED_DEFLATE_LENGTH && IsMatch(input, insize, pos, length, o))
      ensures Visited(keys, runs, windowsize, pos, keys[pos], runs[pos], limit, length, o, visited + [o], links + 1)
    {
      hide RunsOk;
      hide HeadsOk;
      hide LinksOk;
      hide Chained;
      hide Searching;
      hide Visited;
      hide KeysExact;
      hide IsMatch;
      SearchVisited(keys, runs, input, inpos, insize, windowsize, pos, keys[pos], runs[pos], limit, length0, length, o, visited, prev, links);
    }

    lemma GoOn(input: seq<byte>, pos: nat, limit: nat, length: nat, o: nat, visited: seq<nat>, links: nat)
      requires Entered(input, pos + 1) && |keys| == |runs| == pos + 1 && windowsize > 0 && o <= pos && o < windowsize
      requires Visited(keys, runs, windowsize, pos, keys[pos], runs[pos], limit, length, o, visited, links)
      ensures Shape()
      ensures var hashval, numzeros, h := keys[pos], runs[pos], Slot(pos - o, windowsize);
        var z := numzeros >= 3 && length > numzeros;
        var next := if z then chainz[h] else chain[h];
        && next < windowsize && next <= pos
        && (h == chain[h] || (if z then zeros[next] != numzeros else val[next] != hashval) ==>
              Searched(keys, runs, windowsize, pos, hashval, numzeros, limit, length, visited, windowsize))
        && Searching(keys, runs, windowsize, pos, hashval, numzeros, limit, length, OffsetOf(Slot(pos, windowsize), next, windowsize), visited, o, links)
    {
      hide RunsOk;
      hide HeadsOk;
      hide Slot;
      hide Searching;
      hide Visited;
      hide Searched;
      hide HeadsLatest;
      hide LinksLatest;
      hide KeysNoted;
      SearchGoesOn(head[..], chain[..], val[..], headz[..], chainz[..], zeros[..], keys, runs, windowsize, forgotten, pos, keys[pos], runs[pos], limit,
                   length, o, visited, links);
    }

    static lemma NoneVisited(input: seq<byte>, insize: nat, pos: nat)
      ensures IsLongest(input, insize, pos, 0, 0, [])
    {
    }

    /** A match within the window that cannot be extended, or none. */
    static predicate Found(input: seq<byte>, insize: nat, pos: nat, length: nat, offset: nat, windowsize: nat) {
      && length <= MAX_SUPPORTED_DEFLATE_LENGTH
      && (length > 0 ==>
            && IsMatch(input, insize, pos, length, offset) && offset < windowsize
            && (length == MAX_SUPPORTED_DEFLATE_LENGTH || pos + length == insize || input[pos + length] != input[pos + length - offset]))
    }

    static lemma NothingFound(input: seq<byte>, insize: nat, pos: nat, windowsize: nat)
      ensures Found(input, insize, pos, 0, 0, windowsize)
    {
    }

    lemma RunAt(input: seq<byte>, pos: nat, offset: nat)
      requires Entered(input, pos + 1) && offset <= pos && offset < windowsize
      ensures ZeroRun(input, |input|, pos - offset, zeros[Slot(pos - offset, windowsize)])
    {
      var s := zeros[..];
      assert RunsOk(s, input, windowsize, pos + 1);
    }

    static lemma SkipIsMatch(input: seq<byte>, insize: nat, pos: nat, offset: nat, back: nat, fore: nat, skip: nat)
      requires 0 < offset <= pos && ZeroRun(input, |input|, pos - offset, back) && ZeroRun(input, insize, pos, fore)
      requires skip == 0 || (skip <= back && skip <= fore)
      ensures IsMatch(input, insize, pos, skip, offset) && skip <= MAX_SUPPORTED_DEFLATE_LENGTH
    {
    }
  }

  // ---------------------------------------------------------------------------------------------
  // How far the search gets
  // ---------------------------------------------------------------------------------------------

  /** Matches of less than three bytes are not looked for. */
  function AtLeastTwo(length: nat): nat {
    if length < 2 then 2 else length
  }

  /** No match that starts less than `bound` back in this block is longer. */
  ghost predicate BestBelow(input: seq<byte>, insize: nat, inpos: nat, pos: nat, length: nat, bound: nat) {
    forall o: nat :: 0 < o < bound && inpos + o <= pos ==> Hash.NoLonger(input, insize, pos, o, AtLeastTwo(length))
  }

  /** The chain that is followed: that of the run of zeros once the match is longer than the run. */
  function SearchKeys(keys: seq<nat>, runs: seq<nat>, numzeros: nat, length: nat): seq<nat> {
    if numzeros >= 3 && length > numzeros then runs else keys
  }

  function SearchKey(hashval: nat, numzeros: nat, length: nat): nat {
    if numzeros >= 3 && length > numzeros then numzeros else hashval
  }

  /** Before a link is tried: it leads to the next position on the chain, `o` back, and all before that have been
      visited, one for each link; or all less than `limit` back have been. */
  ghost predicate Searching(keys: seq<nat>, runs: seq<nat>, windowsize: nat, pos: nat, hashval: nat, numzeros: nat, limit: nat, length: nat, o: nat,
                            visited: seq<nat>, prev: nat, links: nat) {
    && |keys| == |runs| == pos + 1 && limit <= windowsize
    && var ks, k := SearchKeys(keys, runs, numzeros, length), SearchKey(hashval, numzeros, length);
      && OnTrack(ks, pos, k, limit, o, visited)
      && (Covered(ks, pos, k, limit, visited) || (|visited| == links && |visited| <= prev < o))
  }

  /** Behind the visit. */
  ghost predicate Visited(keys: seq<nat>, runs: seq<nat>, windowsize: nat, pos: nat, hashval: nat, numzeros: nat, limit: nat, length: nat, o: nat,
                          visited: seq<nat>, links: nat) {
    && |keys| == |runs| == pos + 1 && limit <= windowsize
    && var ks, k := SearchKeys(keys, runs, numzeros, length), SearchKey(hashval, numzeros, length);
      || Covered(ks, pos, k, limit, visited)
      || (0 < o < limit && o <= pos && ks[pos - o] == k && Covered(ks, pos, k, o + 1, visited) && |visited| == links && |visited| <= o)
  }

  /** At the end: all less than `bound` back have been visited. */
  ghost predicate Searched(keys: seq<nat>, runs: seq<nat>, windowsize: nat, pos: nat, hashval: nat, numzeros: nat, limit: nat, length: nat,
                           visited: seq<nat>, bound: nat) {
    && |keys| == |runs| == pos + 1
    && Covered(SearchKeys(keys, runs, numzeros, length), pos, SearchKey(hashval, numzeros, length), if bound == windowsize then limit else bound, visited)
  }

  lemma RunAtPosition(keys: seq<nat>, runs: seq<nat>, input: seq<byte>, inpos: nat, insize: nat, pos: nat)
    requires KeysExact(keys, runs, input, inpos, insize) && inpos <= pos < insize && pos < |keys|
    ensures IsNumZeros(input, insize, pos, runs[pos]) && ZeroRun(input, insize, pos, runs[pos])
  {
    hide HashOf;
  }

  lemma FirstLink(head: seq<int>, chain: seq<nat>, vals: seq<int>, keys: seq<nat>, runs: seq<nat>, windowsize: nat, forgotten: bool, pos: nat,
                  hashval: nat, numzeros: nat, limit: nat)
    requires Chained(head, chain, vals, keys, windowsize, forgotten) && |keys| == |runs| == pos + 1 && keys[pos] == hashval && limit <= windowsize
    requires chain[Slot(pos, windowsize)] < windowsize
    ensures Searching(keys, runs, windowsize, pos, hashval, numzeros, limit, 0,
              OffsetOf(Slot(pos, windowsize), chain[Slot(pos, windowsize)], windowsize), [], 0, 0)
  {
    hide HeadsLatest;
    hide LinksLatest;
    hide KeysNoted;
    hide Slot;
    NextLink(chain, vals, keys, windowsize, pos, hashval, limit, 0, []);
  }

  /** A run of zeros that is as long, and ends in the same way. */
  lemma SameRun(keys: seq<nat>, runs: seq<nat>, input: seq<byte>, inpos: nat, insize: nat, pos: nat, o: nat, length: nat, numzeros: nat)
    requires KeysExact(keys, runs, input, inpos, insize) && |keys| == pos + 1 && pos < insize && runs[pos] == numzeros >= 3
    requires 0 < o && inpos + o <= pos && IsMatch(input, insize, pos, length, o) && numzeros < length <= MAX_SUPPORTED_DEFLATE_LENGTH
    ensures runs[pos - o] == numzeros
  {
    var q := pos - o;
    assert IsNumZeros(input, insize, pos, numzeros) && IsNumZeros(input, insize, q, runs[q]);
    assert HashOf(input, insize, pos) == 0 && HashOf(input, insize, q) == 0 by {
      SameHash(input, insize, pos, o, length);
      hide HashOf;
    }
    hide HashOf;
    forall k | q <= k < q + numzeros
      ensures input[k] == 0
    {
      assert input[k + o] == input[k + o - o];
    }
    assert input[pos + numzeros] == input[pos + numzeros - o];
  }

  /** Matches have the same hash at both ends. */
  lemma SameHash(input: seq<byte>, insize: nat, pos: nat, o: nat, length: nat)
    requires IsMatch(input, insize, pos, length, o) && length >= 3
    ensures HashOf(input, insize, pos) == HashOf(input, insize, pos - o)
  {
    hide Low;
    hide BitXor;
    hide Shl;
    assert input[pos] == input[pos - o] && input[pos + 1] == input[pos + 1 - o] && input[pos + 2] == input[pos + 2 - o];
  }

  /** When no more links may be tried, all before the next position have been visited. */
  lemma SearchLimited(keys: seq<nat>, runs: seq<nat>, windowsize: nat, pos: nat, hashval: nat, numzeros: nat, limit: nat, length: nat, o: nat,
                      visited: seq<nat>, prev: nat, links: nat) returns (bound: nat)
    requires Searching(keys, runs, windowsize, pos, hashval, numzeros, limit, length, o, visited, prev, links)
    ensures Searched(keys, runs, windowsize, pos, hashval, numzeros, limit, length, visited, bound)
    ensures bound != windowsize ==> prev < bound && |visited| == links < windowsize
  {
    bound := if Covered(SearchKeys(keys, runs, numzeros, length), pos, SearchKey(hashval, numzeros, length), limit, visited) then windowsize else o;
  }

  /** A link that leads back to a later position is outdated. */
  lemma SearchWrapped(keys: seq<nat>, runs: seq<nat>, windowsize: nat, pos: nat, hashval: nat, numzeros: nat, limit: nat, length: nat, o: nat,
                      visited: seq<nat>, prev: nat, links: nat)
    requires Searching(keys, runs, windowsize, pos, hashval, numzeros, limit, length, o, visited, prev, links) && o < prev
    ensures Searched(keys, runs, windowsize, pos, hashval, numzeros, limit, length, visited, windowsize)
  {
  }

  lemma SearchEnough(keys: seq<nat>, runs: seq<nat>, windowsize: nat, pos: nat, hashval: nat, numzeros: nat, limit: nat, length: nat, o: nat,
                     visited: seq<nat>, links: nat) returns (bound: nat)
    requires Visited(keys, runs, windowsize, pos, hashval, numzeros, limit, length, o, visited, links)
    ensures Searched(keys, runs, windowsize, pos, hashval, numzeros, limit, length, visited, bound)
    ensures bound != windowsize ==> bound == o + 1
  {
    bound := if Covered(SearchKeys(keys, runs, numzeros, length), pos, SearchKey(hashval, numzeros, length), limit, visited) then windowsize
             else o + 1;
    assert bound == windowsize && !Covered(SearchKeys(keys, runs, numzeros, length), pos, SearchKey(hashval, numzeros, length), limit, visited) ==>
      o + 1 >= limit;
  }

  lemma SearchVisited(keys: seq<nat>, runs: seq<nat>, input: seq<byte>, inpos: nat, insize: nat, windowsize: nat, pos: nat, hashval: nat, numzeros: nat,
                      limit: nat, length0: nat, length: nat, o: nat, visited: seq<nat>, prev: nat, links: nat)
    requires Searching(keys, runs, windowsize, pos, hashval, numzeros, limit, length0, o, visited, prev, links)
    requires KeysExact(keys, runs, input, inpos, insize) && pos < insize && keys[pos] == hashval && runs[pos] == numzeros && limit <= pos - inpos + 1
    requires forall p :: 0 <= p < |keys| && runs[p] > 0 ==> keys[p] == 0
    requires length0 <= length && (length > length0 ==> length <= MAX_SUPPORTED_DEFLATE_LENGTH && IsMatch(input, insize, pos, length, o))
    ensures Visited(keys, runs, windowsize, pos, hashval, numzeros, limit, length, o, visited + [o], links + 1)
  {
    hide KeysExact;
    var ks, k := SearchKeys(keys, runs, numzeros, length0), SearchKey(hashval, numzeros, length0);
    VisitedMore(ks, pos, k, limit, o, visited);
    if numzeros >= 3 && length0 <= numzeros < length {
      if o < limit && !Covered(keys, pos, hashval, limit, visited + [o]) {
        SameRun(keys, runs, input, inpos, insize, pos, o, length, numzeros);
      }
    }
  }

  lemma SearchNothing(keys: seq<nat>, runs: seq<nat>, windowsize: nat, pos: nat, hashval: nat, numzeros: nat, limit: nat, length: nat,
                      visited: seq<nat>, prev: nat, links: nat)
    requires Searching(keys, runs, windowsize, pos, hashval, numzeros, limit, length, 0, visited, prev, links)
    ensures Visited(keys, runs, windowsize, pos, hashval, numzeros, limit, length, 0, visited, links + 1)
  {
  }

  /** The link behind a visited position leads on, unless all have been visited. */
  lemma SearchGoesOn(head: seq<int>, chain: seq<nat>, vals: seq<int>, headz: seq<int>, chainz: seq<nat>, zeros: seq<int>, keys: seq<nat>, runs: seq<nat>,
                     windowsize: nat, forgotten: bool, pos: nat, hashval: nat, numzeros: nat, limit: nat, length: nat, o: nat, visited: seq<nat>, links: nat)
    requires Visited(keys, runs, windowsize, pos, hashval, numzeros, limit, length, o, visited, links)
    requires Chained(head, chain, vals, keys, windowsize, forgotten) && Chained(headz, chainz, zeros, runs, windowsize, forgotten)
    requires forall p :: 0 <= p < |keys| && runs[p] > 0 ==> keys[p] == 0
    requires o <= pos && o < windowsize
    requires chain[Slot(pos - o, windowsize)] < windowsize && chainz[Slot(pos - o, windowsize)] < windowsize
    ensures var z, h := numzeros >= 3 && length > numzeros, Slot(pos - o, windowsize);
      var next := if z then chainz[h] else chain[h];
      && (h == chain[h] || (if z then zeros[next] != numzeros else vals[next] != hashval) ==>
            Searched(keys, runs, windowsize, pos, hashval, numzeros, limit, length, visited, windowsize))
      && Searching(keys, runs, windowsize, pos, hashval, numzeros, limit, length, OffsetOf(Slot(pos, windowsize), next, windowsize), visited, o, links)
  {
    hide HeadsLatest;
    hide LinksLatest;
    hide KeysNoted;
    hide Slot;
    hide Covered;
    var ks, k := SearchKeys(keys, runs, numzeros, length), SearchKey(hashval, numzeros, length);
    if !Covered(ks, pos, k, limit, visited) {
      if numzeros >= 3 && length > numzeros {
        NextLink(chainz, zeros, runs, windowsize, pos, k, limit, o, visited);
        NotTheFirst(chain, keys, runs, windowsize, pos, k, limit, o, visited);
      } else {
        NextLink(chain, vals, keys, windowsize, pos, k, limit, o, visited);
      }
    }
  }

  /** A position that is not the first one with its run of zeros is not the first one with the hash zero. */
  lemma NotTheFirst(chain: seq<nat>, keys: seq<nat>, runs: seq<nat>, windowsize: nat, pos: nat, k: nat, limit: nat, o: nat, visited: seq<nat>)
    requires LinksLatest(chain, keys, windowsize) && |keys| == |runs| == pos + 1 && limit <= windowsize && k > 0
    requires forall p :: 0 <= p < |keys| && runs[p] > 0 ==> keys[p] == 0
    requires o < limit && o <= pos && runs[pos - o] == k && Covered(runs, pos, k, o + 1, visited) && !Covered(runs, pos, k, limit, visited)
    ensures chain[Slot(pos - o, windowsize)] != Slot(pos - o, windowsize)
  {
    hide Slot;
    var d: nat :| 0 < d < limit && d <= pos && runs[pos - d] == k && d !in visited;
    var p := pos - o;
    assert d > o;
    var q := Latest(keys, p, keys[p]);
    assert keys[pos - d] == 0 == keys[p];
    assert LinkIs(chain, keys, windowsize, p);
    assert q >= pos - d;
    SlotsDiffer(q, p, windowsize);
  }

  /** All matches within the bound have been visited. */
  lemma SearchedIsBest(keys: seq<nat>, runs: seq<nat>, input: seq<byte>, inpos: nat, insize: nat, windowsize: nat, pos: nat, hashval: nat,
                       numzeros: nat, limit: nat, length: nat, offset: nat, visited: seq<nat>, bound: nat)
    requires Searched(keys, runs, windowsize, pos, hashval, numzeros, limit, length, visited, bound)
    requires KeysExact(keys, runs, input, inpos, insize) && inpos <= pos < insize && keys[pos] == hashval && runs[pos] == numzeros
    requires limit == if windowsize < pos - inpos + 1 then windowsize else pos - inpos + 1
    requires Hash.IsLongest(input, insize, pos, length, offset, visited)
    ensures BestBelow(input, insize, inpos, pos, length, bound)
  {
    forall o: nat | 0 < o < bound && inpos + o <= pos
      ensures Hash.NoLonger(input, insize, pos, o, AtLeastTwo(length))
    {
      if o in visited {
        var i :| 0 <= i < |visited| && visited[i] == o;
        assert Hash.NoLonger(input, insize, pos, visited[i], length);
      } else {
        UnvisitedIsShort(keys, runs, input, inpos, insize, windowsize, pos, hashval, numzeros, limit, length, visited, bound, o);
      }
    }
  }

  lemma UnvisitedIsShort(keys: seq<nat>, runs: seq<nat>, input: seq<byte>, inpos: nat, insize: nat, windowsize: nat, pos: nat, hashval: nat,
                         numzeros: nat, limit: nat, length: nat, visited: seq<nat>, bound: nat, o: nat)
    requires Searched(keys, runs, windowsize, pos, hashval, numzeros, limit, length, visited, bound)
    requires KeysExact(keys, runs, input, inpos, insize) && inpos <= pos < insize && keys[pos] == hashval && runs[pos] == numzeros
    requires limit == if windowsize < pos - inpos + 1 then windowsize else pos - inpos + 1
    requires 0 < o < bound && inpos + o <= pos && o !in visited
    ensures Hash.NoLonger(input, insize, pos, o, AtLeastTwo(length))
  {
    assert keys[pos] == HashOf(input, insize, pos) && keys[pos - o] == HashOf(input, insize, pos - o);
    hide HashOf;
    forall m: nat | m <= MAX_SUPPORTED_DEFLATE_LENGTH && IsMatch(input, insize, pos, m, o)
      ensures m <= AtLeastTwo(length)
    {
      if m >= 3 {
        SameHash(input, insize, pos, o, m);
        if numzeros >= 3 && numzeros < length < m {
          SameRun(keys, runs, input, inpos, insize, pos, o, m, numzeros);
        }
      }
    }
  }

  /** A count of zeros that was right at this position or at the one before. */
  predicate RunKnown(input: seq<byte>, end: nat, pos: nat, n: nat) {
    n == 0 || IsRunLength(input, end, pos, n) || (pos > 0 && IsRunLength(input, end, pos - 1, n))
  }

  // ---------------------------------------------------------------------------------------------
  // Encoding
  // ---------------------------------------------------------------------------------------------

  /** What has been emitted are tokens that make the input up to `e` out of the input up to `inpos`. */
  ghost predicate Progress(input: seq<byte>, inpos: nat, e: nat, windowsize: nat, ts: seq<Token>, out: seq<nat>) {
    && inpos <= e <= |input|
    && AreTokens(ts) && WithinWindow(ts, windowsize) && out == Flat(ts)
    && Expand(ts, input[..inpos]) == Some(input[..e])
  }

  lemma ProgressStart(input: seq<byte>, inpos: nat, windowsize: nat)
    requires inpos <= |input|
    ensures Progress(input, inpos, inpos, windowsize, [], [])
  {
  }

  lemma ProgressLiteral(input: seq<byte>, inpos: nat, e: nat, windowsize: nat, ts: seq<Token>, out: seq<nat>)
    requires Progress(input, inpos, e, windowsize, ts, out) && e < |input|
    ensures Progress(input, inpos, e + 1, windowsize, ts + [Literal(input[e])], out + [input[e]])
  {
    var after := ts + [Literal(input[e])];
    assert after[..|after| - 1] == ts;
    assert input[..e] + [input[e]] == input[..e + 1];
  }

  lemma ProgressPair(input: seq<byte>, inpos: nat, e: nat, windowsize: nat, ts: seq<Token>, out: seq<nat>, end: nat, t: Token)
    requires Progress(input, inpos, e, windowsize, ts, out)
    requires t.Pair? && IsToken(t) && Length(t) <= 258 && Distance(t) < windowsize
    requires IsMatch(input, end, e, Length(t), Distance(t))
    ensures Progress(input, inpos, e + Length(t), windowsize, ts + [t], out + Values(t))
  {
    hide Copy;
    hide Values;
    hide LengthBase;
    hide DistanceBase;
    var after := ts + [t];
    assert after[..|after| - 1] == ts;
    CopyOfMatch(input, end, e, Length(t), Distance(t));
  }

  /** How the matcher is set up. */
  datatype Lz77Settings = Lz77Settings(windowsize: nat, minmatch: nat, nicematch: nat, lazymatching: bool)

  ghost predicate LegalWindow(windowsize: nat) {
    0 < windowsize <= 32768 && IsPowerOfTwo(windowsize)
  }

  // ---------------------------------------------------------------------------------------------
  // What is chosen
  // ---------------------------------------------------------------------------------------------

  /** What a search at `pos` came to. */
  datatype Search = Search(pos: nat, length: nat, offset: nat)

  function MaxChain(settings: Lz77Settings): nat {
    if settings.windowsize >= 8192 then settings.windowsize else settings.windowsize / 8
  }

  function MaxLazy(settings: Lz77Settings): nat {
    if settings.windowsize >= 8192 then 257 else 64
  }

  function Nice(settings: Lz77Settings): nat {
    if settings.nicematch > 258 then 258 else settings.nicematch
  }

  /** A match, or none, that no other one in the window and this block is longer than; unless it is as long as
      was asked for, or only a limited number of earlier positions was tried, with none left out up to there. */
  ghost predicate IsSearch(input: seq<byte>, inpos: nat, insize: nat, settings: Lz77Settings, s: Search) {
    && inpos <= s.pos < insize && Hash.Found(input, insize, s.pos, s.length, s.offset, settings.windowsize)
    && exists visited: seq<nat>, bound: nat :: SearchedTo(input, inpos, insize, settings, s, visited, bound)
  }

  ghost predicate SearchedTo(input: seq<byte>, inpos: nat, insize: nat, settings: Lz77Settings, s: Search, visited: seq<nat>, bound: nat) {
    && Hash.IsLongest(input, insize, s.pos, s.length, s.offset, visited) && BestBelow(input, insize, inpos, s.pos, s.length, bound)
    && (bound != settings.windowsize ==>
          && (forall i :: 0 <= i < |visited| ==> visited[i] < bound)
          && (s.length >= Nice(settings) || |visited| == MaxChain(settings) < settings.windowsize))
  }

  /** The match is worth a pair of codes. */
  predicate IsWorth(settings: Lz77Settings, s: Search) {
    s.length >= 3 && s.length >= settings.minmatch && !(s.length == 3 && s.offset > 4096)
  }

  /** The match is held back for one position. */
  predicate HoldsBack(settings: Lz77Settings, s: Search) {
    settings.lazymatching && 3 <= s.length <= MaxLazy(settings) && s.length < 258
  }

  /** One round: a match taken at once, or held back and then kept or given up for a longer one at the next
      position. */
  datatype Step = Taken(first: Search) | Kept(first: Search, next: Search) | GivenUp(first: Search, next: Search)

  ghost predicate IsStep(input: seq<byte>, inpos: nat, insize: nat, settings: Lz77Settings, step: Step) {
    && IsSearch(input, inpos, insize, settings, step.first)
    && (step.Taken? <==> !HoldsBack(settings, step.first))
    && (!step.Taken? ==>
          && IsSearch(input, inpos, insize, settings, step.next) && step.next.pos == step.first.pos + 1
          && (step.GivenUp? <==> step.next.length > step.first.length + 1))
  }

  /** The search whose match is emitted. */
  function Chosen(step: Step): Search {
    if step.GivenUp? then step.next else step.first
  }

  function End(settings: Lz77Settings, step: Step): nat {
    Chosen(step).pos + if IsWorth(settings, Chosen(step)) then Chosen(step).length else 1
  }

  /** The last token, and a literal before it for a match that was given up. */
  predicate IsEmitted(input: seq<byte>, settings: Lz77Settings, s: Search, t: Token) {
    if IsWorth(settings, s) then IsPair(t, s.length, s.offset) else s.pos < |input| && t == Literal(input[s.pos])
  }

  /** Rounds from `inpos` to `e` whose choices are the tokens. */
  ghost predicate IsParse(input: seq<byte>, inpos: nat, insize: nat, settings: Lz77Settings, steps: seq<Step>, ts: seq<Token>, e: nat)
    decreases |steps|
  {
    if steps == [] then ts == [] && e == inpos
    else
      var before, step := steps[..|steps| - 1], steps[|steps| - 1];
      var n := if step.GivenUp? then 2 else 1;
      && IsStep(input, inpos, insize, settings, step) && e == End(settings, step) && |ts| >= n
      && IsEmitted(input, settings, Chosen(step), ts[|ts| - 1])
      && (step.GivenUp? ==> step.first.pos < |input| && ts[|ts| - 2] == Literal(input[step.first.pos]))
      && IsParse(input, inpos, insize, settings, before, ts[..|ts| - n], step.first.pos)
  }

  lemma ParseStart(input: seq<byte>, inpos: nat, insize: nat, settings: Lz77Settings)
    ensures IsParse(input, inpos, insize, settings, [], [], inpos)
  {
  }

  lemma ParseStep(input: seq<byte>, inpos: nat, insize: nat, settings: Lz77Settings, steps: seq<Step>, ts: seq<Token>, step: Step, more: seq<Token>)
    requires IsParse(input, inpos, insize, settings, steps, ts, step.first.pos) && IsStep(input, inpos, insize, settings, step)
    requires |more| == (if step.GivenUp? then 2 else 1) && IsEmitted(input, settings, Chosen(step), more[|more| - 1])
    requires step.GivenUp? ==> step.first.pos < |input| && more[0] == Literal(input[step.first.pos])
    ensures IsParse(input, inpos, insize, settings, steps + [step], ts + more, End(settings, step))
  {
    hide IsStep;
    hide IsEmitted;
    hide End;
    var after := steps + [step];
    assert after[..|after| - 1] == steps && (ts + more)[..|ts + more| - |more|] == ts;
  }

  /** Emits a match at `pos`, or a literal if there is no match that is worth it, and enters the positions
      that a match covers. It ends at the last position covered. */
  method Emit(hash: Hash, input: seq<byte>, ghost inpos: nat, insize: nat, pos0: nat, numzeros0: nat, length: nat, offset: nat,
              settings: Lz77Settings, out0: seq<nat>, ghost ts0: seq<Token>, ghost n0: nat)
    returns (pos: nat, numzeros: nat, out: seq<nat>, ghost t: Token, ghost n: nat)
    requires LegalWindow(hash.windowsize) && hash.Entered(input, n0) && (n0 == pos0 + 1 || n0 == pos0 + 2) && (hash.forgotten <==> n0 == pos0 + 2)
    requires inpos <= pos0 && KeysExact(hash.keys, hash.runs, input, inpos, insize)
    requires pos0 < insize <= |input| && RunKnown(input, insize, pos0 + 1, numzeros0)
    requires Hash.Found(input, insize, pos0, length, offset, hash.windowsize)
    requires Progress(input, inpos, pos0, hash.windowsize, ts0, out0)
    modifies hash.Repr()
    ensures pos0 <= pos < insize && hash.Entered(input, n) && (n == pos + 1 || (n == n0 && pos == pos0)) && (hash.forgotten <==> n == pos + 2)
    ensures RunKnown(input, insize, pos + 1, numzeros) && KeysExact(hash.keys, hash.runs, input, inpos, insize)
    ensures Progress(input, inpos, pos + 1, hash.windowsize, ts0 + [t], out)
    ensures IsEmitted(input, settings, Search(pos0, length, offset), t)
    ensures pos + 1 == pos0 + if IsWorth(settings, Search(pos0, length, offset)) then length else 1
  {
    hide Progress;
    hide RunKnown;
    hide HeadsOk;
    hide LinksOk;
    hide RunsOk;
    hide ZeroRun;
    hide KeysExact;
    hide Hash.Entered;
    hide Hash.Found;
    hide IsMatch;
    hide IsPair;
    hide IsPowerOfTwo;
    pos, numzeros, n := pos0, numzeros0, n0;
    if length < 3 {
      ProgressLiteral(input, inpos, pos, hash.windowsize, ts0, out0);
      out, t := out0 + [input[pos]], Literal(input[pos]);
    } else if length < settings.minmatch || (length == 3 && offset > 4096) {
      ProgressLiteral(input, inpos, pos, hash.windowsize, ts0, out0);
      out, t := out0 + [input[pos]], Literal(input[pos]);
    } else {
      FoundInside(input, insize, pos, length, offset, hash.windowsize);
      out, t := AddLengthDistance(out0, length, offset);
      assert t.Pair? && IsToken(t) && Length(t) == length && Distance(t) == offset by { PairIs(t, length, offset); }
      ProgressPair(input, inpos, pos, hash.windowsize, ts0, out0, insize, t);
      pos, numzeros, n := EnterCovered(hash, input, insize, pos, numzeros, length, n, inpos);
    }
  }

  lemma PairIs(t: Token, length: nat, distance: nat)
    requires IsPair(t, length, distance)
    ensures t.Pair? && IsToken(t) && Length(t) == length && Distance(t) == distance
  {
  }

  /** Enters the positions that a match covers behind its first. */
  method EnterCovered(hash: Hash, input: seq<byte>, insize: nat, pos0: nat, numzeros0: nat, length: nat, ghost n0: nat, ghost inpos: nat)
    returns (pos: nat, numzeros: nat, ghost n: nat)
    requires LegalWindow(hash.windowsize) && hash.Entered(input, n0) && (n0 == pos0 + 1 || n0 == pos0 + 2) && (hash.forgotten <==> n0 == pos0 + 2)
    requires length >= 2 && inpos <= pos0 && pos0 + length <= insize <= |input| && RunKnown(input, insize, pos0 + 1, numzeros0)
    requires KeysExact(hash.keys, hash.runs, input, inpos, insize)
    modifies hash.Repr()
    ensures pos == pos0 + length - 1 && hash.Entered(input, n) && n == pos + 1 && !hash.forgotten
    ensures RunKnown(input, insize, pos + 1, numzeros) && KeysExact(hash.keys, hash.runs, input, inpos, insize)
  {
    hide KeysExact;
    hide IsNumZeros;
    hide ZeroRun;
    hide HeadsOk;
    hide LinksOk;
    hide RunsOk;
    pos, numzeros, n := pos0, numzeros0, n0;
    for i := 1 to length
      invariant pos == pos0 + i - 1 && hash.Entered(input, n) && (n == pos + 1 || (i == 1 && n == pos + 2)) && (hash.forgotten <==> n == pos + 2)
      invariant RunKnown(input, insize, pos + 1, numzeros) && KeysExact(hash.keys, hash.runs, input, inpos, insize)
    {
      pos := pos + 1;
      SlotIsMask(pos, hash.windowsize);
      var wpos := BitAnd(pos, hash.windowsize - 1);
      var hashval;
      hashval, numzeros := hash.Enter(input, insize, pos, wpos, numzeros, n, inpos);
      RunStaysKnown(input, insize, pos, numzeros);
      n := pos + 1;
    }
  }

  /** Enters a position and searches for a match there. */
  method SearchAt(hash: Hash, input: seq<byte>, ghost inpos: nat, insize: nat, settings: Lz77Settings, pos: nat, numzeros0: nat, nicematch: nat,
                  maxchainlength: nat, ghost n: nat)
    returns (hashval: nat, numzeros: nat, length: nat, offset: nat)
    requires LegalWindow(settings.windowsize) && hash.windowsize == settings.windowsize
    requires hash.Entered(input, n) && (pos == n || pos + 1 == n) && (hash.forgotten <==> n == pos + 1)
    requires inpos <= pos < insize <= |input| && RunKnown(input, insize, pos, numzeros0) && KeysExact(hash.keys, hash.runs, input, inpos, insize)
    requires nicematch == Nice(settings) && maxchainlength == MaxChain(settings)
    modifies hash.Repr()
    ensures hash.Entered(input, pos + 1) && !hash.forgotten && KeysExact(hash.keys, hash.runs, input, inpos, insize)
    ensures hashval < HASH_NUM_VALUES && numzeros <= MAX_SUPPORTED_DEFLATE_LENGTH
    ensures |hash.keys| == |hash.runs| == pos + 1 && hash.keys[pos] == hashval && hash.runs[pos] == numzeros
    ensures RunKnown(input, insize, pos, numzeros) && RunKnown(input, insize, pos + 1, numzeros)
    ensures Hash.Found(input, insize, pos, length, offset, settings.windowsize)
    ensures IsSearch(input, inpos, insize, settings, Search(pos, length, offset))
  {
    hide RunKnown;
    hide ZeroRun;
    hide IsNumZeros;
    hide KeysExact;
    hide Hash.Entered;
    hide Hash.Found;
    hide Hash.IsLongest;
    hide BestBelow;
    hide IsSearch;
    hide Slot;
    var windowsize := settings.windowsize;
    SlotIsMask(pos, windowsize);
    var wpos := BitAnd(pos, windowsize - 1);
    hashval, numzeros := hash.Enter(input, insize, pos, wpos, numzeros0, n, inpos);
    hash.EnteredShape(input, pos + 1);
    ghost var visited, bound;
    length, offset, visited, bound := hash.LongestMatch(input, insize, pos, wpos, hashval, numzeros, nicematch, maxchainlength, inpos);
    SearchMade(input, inpos, insize, settings, Search(pos, length, offset), visited, bound);
    RunStaysKnown(input, insize, pos, numzeros);
  }

  /** Encodes the input from `inpos` to `insize`; what comes before may be referred to. The tokens expand to
      the input, their distances stay inside the window, they are what the rounds of the search choose, and the
      loop ends although it steps back. */
  method EncodeLZ77(hash: Hash, input: seq<byte>, inpos: nat, insize: nat, settings: Lz77Settings)
    returns (error: nat, out: seq<nat>, ghost ts: seq<Token>, ghost steps: seq<Step>)
    requires inpos <= insize <= |input| && hash.windowsize == settings.windowsize
    requires LegalWindow(settings.windowsize) ==> hash.Ready(input, inpos)
    modifies hash.Repr()
    ensures error == 0 <==> LegalWindow(settings.windowsize)
    ensures error == if settings.windowsize == 0 || settings.windowsize > 32768 then 60 else if error != 0 then 90 else 0
    ensures error == 0 ==> hash.Ready(input, insize) && Progress(input, inpos, insize, settings.windowsize, ts, out)
    ensures error == 0 ==> IsParse(input, inpos, insize, settings, steps, ts, insize)
  {
    hide Progress;
    hide RunKnown;
    hide ZeroRun;
    hide IsNumZeros;
    hide KeysExact;
    hide Hash.Entered;
    hide Hash.Found;
    hide IsSearch;
    hide IsParse;
    hide IsEmitted;
    hide IsWorth;
    hide LegalWindow;
    hide Slot;
    var windowsize := settings.windowsize;
    var maxchainlength := if windowsize >= 8192 then windowsize else windowsize / 8;
    var maxlazymatch := if windowsize >= 8192 then MAX_SUPPORTED_DEFLATE_LENGTH else 64;
    var nicematch := settings.nicematch;
    out, ts, steps := [], [], [];
    WindowTest(windowsize);
    if windowsize == 0 || windowsize > 32768 {
      return 60, out, ts, steps;
    }
    if BitAnd(windowsize, windowsize - 1) != 0 {
      return 90, out, ts, steps;
    }
    if nicematch > MAX_SUPPORTED_DEFLATE_LENGTH {
      nicematch := MAX_SUPPORTED_DEFLATE_LENGTH;
    }
    error := 0;
    ProgressStart(input, inpos, windowsize);
    ParseStart(input, inpos, insize, settings);
    NothingKnown(input, insize, inpos);
    var pos, numzeros: nat := inpos, 0;
    var lazy, lazylength: nat, lazyoffset: nat := false, 0, 0;
    ghost var n: nat := inpos;
    KeysStart(hash, input, inpos, insize);
    while pos < insize
      invariant inpos <= pos <= insize && hash.Entered(input, n) && (n == pos || (n == pos + 1 && pos < insize)) && (hash.forgotten <==> n == pos + 1)
      invariant RunKnown(input, insize, pos, numzeros) && KeysExact(hash.keys, hash.runs, input, inpos, insize)
      invariant Progress(input, inpos, if lazy then pos - 1 else pos, windowsize, ts, out)
      invariant IsParse(input, inpos, insize, settings, steps, ts, if lazy then pos - 1 else pos)
      invariant lazy ==> settings.lazymatching && inpos < pos < insize && n == pos && Hash.Found(input, insize, pos - 1, lazylength, lazyoffset, windowsize)
      invariant lazy ==> IsSearch(input, inpos, insize, settings, Search(pos - 1, lazylength, lazyoffset))
      invariant lazy ==> HoldsBack(settings, Search(pos - 1, lazylength, lazyoffset))
      decreases insize - (if lazy then pos - 1 else pos), !lazy
    {
      var hashval, length, offset;
      hashval, numzeros, length, offset := SearchAt(hash, input, inpos, insize, settings, pos, numzeros, nicematch, maxchainlength, n);
      n := pos + 1;
      ghost var here := Search(pos, length, offset);
      ghost var step, before, skipped := Taken(here), ts, [];
      if settings.lazymatching {
        if !lazy && length >= 3 && length <= maxlazymatch && length < MAX_SUPPORTED_DEFLATE_LENGTH {
          lazy := true;
          lazylength := length;
          lazyoffset := offset;
          FoundInside(input, insize, pos, length, offset, windowsize);
          pos := pos + 1;
          continue;
        }
        if lazy {
          lazy := false;
          if pos == 0 {
            assert false; // error 81
          }
          if length > lazylength + 1 {
            step, skipped := GivenUp(Search(pos - 1, lazylength, lazyoffset), here), [Literal(input[pos - 1])];
            ProgressLiteral(input, inpos, pos - 1, windowsize, ts, out);
            out, ts := out + [input[pos - 1]], ts + [Literal(input[pos - 1])];
          } else {
            step := Kept(Search(pos - 1, lazylength, lazyoffset), here);
            length := lazylength;
            offset := lazyoffset;
            hash.ForgetHeads(hashval, numzeros, input, n);
            pos := pos - 1;
          }
        }
      }
      if length >= 3 && offset > windowsize {
        FoundInside(input, insize, pos, length, offset, windowsize);
        assert false; // error 86
      }
      ghost var t;
      assert ts == before + skipped;
      pos, numzeros, out, t, n := Emit(hash, input, inpos, insize, pos, numzeros, length, offset, settings, out, ts, n);
      ts := ts + [t];
      ParseStep(input, inpos, insize, settings, steps, before, step, skipped + [t]);
      assert ts == before + (skipped + [t]);
      steps := steps + [step];
      pos := pos + 1;
    }
  }

  lemma SearchMade(input: seq<byte>, inpos: nat, insize: nat, settings: Lz77Settings, s: Search, visited: seq<nat>, bound: nat)
    requires inpos <= s.pos < insize && Hash.Found(input, insize, s.pos, s.length, s.offset, settings.windowsize)
    requires SearchedTo(input, inpos, insize, settings, s, visited, bound)
    ensures IsSearch(input, inpos, insize, settings, s)
  {
  }

  lemma KeysStart(hash: Hash, input: seq<byte>, inpos: nat, insize: nat)
    requires hash.Entered(input, inpos) && insize <= |input|
    ensures KeysExact(hash.keys, hash.runs, input, inpos, insize)
  {
  }

  lemma WindowTest(windowsize: nat)
    ensures LegalWindow(windowsize) ==> 0 < windowsize <= 32768
    ensures 0 < windowsize <= 32768 ==> (BitAnd(windowsize, windowsize - 1) == 0 <==> LegalWindow(windowsize))
    ensures LegalWindow(windowsize) ==> IsPowerOfTwo(windowsize)
  {
    if windowsize > 0 {
      PowerTest(windowsize);
    }
  }

  lemma NothingKnown(input: seq<byte>, insize: nat, pos: nat)
    ensures RunKnown(input, insize, pos, 0)
  {
  }

  lemma RunStaysKnown(input: seq<byte>, insize: nat, pos: nat, numzeros: nat)
    requires insize <= |input| && IsNumZeros(input, insize, pos, numzeros)
    ensures RunKnown(input, insize, pos, numzeros) && RunKnown(input, insize, pos + 1, numzeros)
    ensures numzeros <= MAX_SUPPORTED_DEFLATE_LENGTH
  {
    hide HashOf;
  }

  lemma FoundInside(input: seq<byte>, insize: nat, pos: nat, length: nat, offset: nat, windowsize: nat)
    requires Hash.Found(input, insize, pos, length, offset, windowsize) && length > 0
    ensures pos + length <= insize && offset < windowsize
    ensures 0 < offset && length <= MAX_SUPPORTED_DEFLATE_LENGTH && IsMatch(input, insize, pos, length, offset)
  {
  }
}
