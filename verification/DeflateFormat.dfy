/** What a DEFLATE stream means (RFC 1951), stated on its bits one symbol at a time and independently of
    how it is decoded. A stream that ends too early, or that breaks a rule, has no meaning (`None`). */
module DeflateFormat {
  import opened Bits
  import opened Wrappers
  import opened BitStream
  import opened Canonical

  /** The base lengths and numbers of extra bits of symbols 257 to 285. */
  const LENGTHBASE: seq<nat> :=
    [3, 4, 5, 6, 7, 8, 9, 10, 11, 13, 15, 17, 19, 23, 27, 31, 35, 43, 51, 59, 67, 83, 99, 115, 131, 163, 195, 227, 258]
  const LENGTHEXTRA: seq<nat> :=
    [0, 0, 0, 0, 0, 0, 0, 0, 1, 1, 1, 1, 2, 2, 2, 2, 3, 3, 3, 3, 4, 4, 4, 4, 5, 5, 5, 5, 0]
  /** The base distances and numbers of extra bits of distance symbols 0 to 29. */
  const DISTANCEBASE: seq<nat> :=
    [1, 2, 3, 4, 5, 7, 9, 13, 17, 25, 33, 49, 65, 97, 129, 193, 257, 385, 513, 769, 1025, 1537, 2049, 3073, 4097,
     6145, 8193, 12289, 16385, 24577]
  const DISTANCEEXTRA: seq<nat> :=
    [0, 0, 0, 0, 1, 1, 2, 2, 3, 3, 4, 4, 5, 5, 6, 6, 7, 7, 8, 8, 9, 9, 10, 10, 11, 11, 12, 12, 13, 13]
  /** The order in which the lengths of the code length code are sent. */
  const CLCL_ORDER: seq<nat> := [16, 17, 18, 0, 8, 7, 9, 6, 10, 5, 11, 4, 12, 3, 13, 2, 14, 1, 15]

  lemma OrderIsInjective()
    ensures forall i, j :: 0 <= i < j < 19 ==> CLCL_ORDER[i] != CLCL_ORDER[j]
  {
  }

  function LengthBase(i: nat): (n: nat)
    requires i < 29
    ensures 3 <= n <= 258
  {
    LENGTHBASE[i]
  }

  function LengthExtra(i: nat): (n: nat)
    requires i < 29
    ensures n <= 5
  {
    LENGTHEXTRA[i]
  }

  function DistanceBase(d: nat): (n: nat)
    requires d < 30
    ensures 1 <= n <= 24577
  {
    DISTANCEBASE[d]
  }

  function DistanceExtra(d: nat): (n: nat)
    requires d < 30
    ensures n <= 13
  {
    DISTANCEEXTRA[d]
  }

  /** No extra bits lead past the longest length and the longest distance. */
  lemma LengthTable(i: nat)
    requires i < 29
    ensures LengthBase(i) + Pow2(LengthExtra(i)) <= 259
  {
    assert Pow2(5) == 32;
  }

  lemma DistanceTable(d: nat)
    requires d < 30
    ensures DistanceBase(d) + Pow2(DistanceExtra(d)) <= 32769
  {
    assert Pow2(13) == 8192;
  }

  // ---------------------------------------------------------------------------------------------
  // Symbols
  // ---------------------------------------------------------------------------------------------

  predicate SymbolAt(lens: seq<nat>, bits: seq<bit>, p: nat, s: nat) {
    s < |lens| && lens[s] > 0 && At(bits, p, CodeBits(lens, s))
  }

  /** The symbol whose code is at `p`. */
  ghost function DecodeSymbol(lens: seq<nat>, bits: seq<bit>, p: nat): (r: Option<nat>)
    ensures r.Some? ==> SymbolAt(lens, bits, p, r.value)
  {
    if exists s :: SymbolAt(lens, bits, p, s) then
      var s :| SymbolAt(lens, bits, p, s);
      Some(s)
    else None
  }

  /** A length and a distance; the symbol for the length has been read. */
  datatype Match = Match(length: nat, distance: nat, next: nat)

  ghost function DecodeMatch(dl: seq<nat>, bits: seq<bit>, p: nat, lengthIndex: nat): (r: Option<Match>)
    requires lengthIndex < 29
    ensures r.Some? ==> p <= r.value.next <= |bits| && 3 <= r.value.length <= 258 && 1 <= r.value.distance <= 32768
  {
    LengthTable(lengthIndex);
    var q := p + LengthExtra(lengthIndex);
    if q > |bits| then None
    else
      match DecodeSymbol(dl, bits, q)
      case None => None
      case Some(d) =>
        if d > 29 then None
        else
          DistanceTable(d);
          var n := q + dl[d] + DistanceExtra(d);
          if n > |bits| then None
          else Some(Match(LengthBase(lengthIndex) + Window(bits, p, LengthExtra(lengthIndex)),
                          DistanceBase(d) + Window(bits, q + dl[d], DistanceExtra(d)), n))
  }

  /** Repeats bytes from `distance` back, one at a time, so that a copy may overlap itself. */
  function Copy(out: seq<byte>, distance: nat, length: nat): (r: seq<byte>)
    requires 0 < distance <= |out|
    ensures |r| == |out| + length && out <= r
  {
    if length == 0 then out
    else
      var c := Copy(out, distance, length - 1);
      c + [c[|c| - distance]]
  }

  /** The symbols of a compressed block up to the end symbol: where they end, and the output after them. */
  ghost function InflateSymbols(ll: seq<nat>, dl: seq<nat>, bits: seq<bit>, p: nat, out: seq<byte>): (r: Option<(nat, seq<byte>)>)
    ensures r.Some? ==> p < r.value.0 <= |bits| && out <= r.value.1
    decreases |bits| - p
  {
    if p > |bits| then None
    else
      match DecodeSymbol(ll, bits, p)
      case None => None
      case Some(s) =>
        var q := p + ll[s];
        if s < 256 then InflateSymbols(ll, dl, bits, q, out + [s])
        else if s == 256 then Some((q, out))
        else if s > 285 then None
        else
          match DecodeMatch(dl, bits, q, s - 257)
          case None => None
          case Some(m) =>
            if m.distance > |out| then None
            else InflateSymbols(ll, dl, bits, m.next, Copy(out, m.distance, m.length))
  }

  // ---------------------------------------------------------------------------------------------
  // The code lengths of a dynamic block
  // ---------------------------------------------------------------------------------------------

  /** How often a repeat symbol repeats: a base and a number of extra bits. */
  function RepeatBase(s: nat): nat {
    if s == 18 then 11 else 3
  }

  function RepeatExtra(s: nat): nat {
    if s == 16 then 2 else if s == 17 then 3 else 7
  }

  /** Reads code lengths until there are `total`, after those in `acc`. Repeats may cross from the
      literals to the distances, but not the end. */
  ghost function ReadLengths(cl: seq<nat>, bits: seq<bit>, p: nat, total: nat, acc: seq<nat>): (r: Option<(nat, seq<nat>)>)
    ensures r.Some? ==> p <= r.value.0 <= |bits| && |r.value.1| == total && acc <= r.value.1
    decreases |bits| - p
  {
    if p > |bits| || |acc| > total then None
    else if |acc| == total then Some((p, acc))
    else
      match DecodeSymbol(cl, bits, p)
      case None => None
      case Some(s) =>
        var q := p + cl[s];
        if s <= 15 then ReadLengths(cl, bits, q, total, acc + [s])
        else if s > 18 || (s == 16 && acc == []) || q + RepeatExtra(s) > |bits| then None
        else
          var n := RepeatBase(s) + Window(bits, q, RepeatExtra(s));
          var x := if s == 16 then acc[|acc| - 1] else 0;
          ReadLengths(cl, bits, q + RepeatExtra(s), total, acc + Repeat(n, x))
  }

  /** The lengths of the code length code: 3 bits each, in their own order. */
  function CodeLengthLengths(bits: seq<bit>, p: nat, n: nat): (cl: seq<nat>)
    requires n <= 19
    ensures |cl| == 19
  {
    if n == 0 then Repeat(19, 0)
    else CodeLengthLengths(bits, p, n - 1)[CLCL_ORDER[n - 1] := Window(bits, p + 3 * (n - 1), 3)]
  }

  datatype Trees = Trees(ll: seq<nat>, dl: seq<nat>, next: nat)

  lemma {:induction false} CodeLengthLengthsWithin(bits: seq<bit>, p: nat, n: nat)
    requires n <= 19
    ensures Within(CodeLengthLengths(bits, p, n), 7)
  {
    if n > 0 {
      CodeLengthLengthsWithin(bits, p, n - 1);
      assert Pow2(3) == 8;
    }
  }

  /** The header of a dynamic block. */
  ghost function ReadTrees(bits: seq<bit>, p: nat): (r: Option<Trees>)
    ensures r.Some? ==> p <= r.value.next <= |bits|
  {
    if p + 14 > |bits| then None
    else
      var hlit, hdist, hclen := Window(bits, p, 5) + 257, Window(bits, p + 5, 5) + 1, Window(bits, p + 10, 4) + 4;
      assert Pow2(5) == 32 && Pow2(4) == 16;
      var q := p + 14 + 3 * hclen;
      if q > |bits| then None
      else
        var cl := CodeLengthLengths(bits, p + 14, hclen);
        CodeLengthLengthsWithin(bits, p + 14, hclen);
        if !Acceptable(cl) then None
        else
          match ReadLengths(cl, bits, q, hlit + hdist, [])
          case None => None
          case Some((n, lens)) => TreesFrom(lens, hlit, hdist, n)
  }

  /** The two trees, filled up to their alphabets; the end symbol must have a code. */
  function TreesFrom(lens: seq<nat>, hlit: nat, hdist: nat, n: nat): (r: Option<Trees>)
    requires |lens| == hlit + hdist && 257 <= hlit <= 288 && hdist <= 32
    ensures r.Some? ==> r.value.next == n
  {
    var ll, dl := lens[..hlit] + Zeros(288 - hlit), lens[hlit..] + Zeros(32 - hdist);
    if ll[256] == 0 || !IsTree(ll) || !IsTree(dl) then None else Some(Trees(ll, dl, n))
  }

  predicate IsTree(lens: seq<nat>) {
    Within(lens, MAXBITS) && Acceptable(lens)
  }

  // ---------------------------------------------------------------------------------------------
  // Blocks
  // ---------------------------------------------------------------------------------------------

  /** The bytes from bit `p` on. */
  function BytesAt(bits: seq<bit>, p: nat, n: nat): (r: seq<byte>)
    ensures |r| == n
  {
    seq(n, i requires 0 <= i < n => ByteValue(bits, p + 8 * i))
  }

  function ByteValue(bits: seq<bit>, p: nat): byte {
    assert Pow2(8) == 256;
    Window(bits, p, 8)
  }

  /** A stored block from `p`, behind its header: the length and its complement on a byte boundary, then
      the bytes. `spare` is the number of bits that must follow the two lengths. */
  function StoredBlock(bits: seq<bit>, p: nat, out: seq<byte>, ignoreNlen: bool, spare: nat): (r: Option<(nat, seq<byte>)>)
    ensures r.Some? ==> p < r.value.0 <= |bits| && out <= r.value.1
  {
    var q := (p + 7) / 8 * 8;
    if q + 32 + spare > |bits| then None
    else
      var len, nlen := Window(bits, q, 16), Window(bits, q + 16, 16);
      if (!ignoreNlen && len + nlen != 65535) || q + 32 + 8 * len > |bits| then None
      else Some((q + 32 + 8 * len, out + BytesAt(bits, q + 32, len)))
  }

  /** The library wants a byte after the two lengths, even of an empty block. */
  function InflateStored(bits: seq<bit>, p: nat, out: seq<byte>, ignoreNlen: bool): (r: Option<(nat, seq<byte>)>)
    ensures r.Some? ==> p < r.value.0 <= |bits| && out <= r.value.1
  {
    StoredBlock(bits, p, out, ignoreNlen, 8)
  }

  /** The codes of fixed blocks (section 3.2.6 of RFC 1951). */
  function FixedLitLen(): (lens: seq<nat>)
    ensures |lens| == 288
  {
    Repeat(144, 8) + Repeat(112, 9) + Repeat(24, 7) + Repeat(8, 8)
  }

  function FixedDistance(): (lens: seq<nat>)
    ensures |lens| == 32
  {
    Repeat(32, 5)
  }

  /** One block, behind the bit that says whether it is the last. */
  ghost function InflateBlock(bits: seq<bit>, p: nat, out: seq<byte>, ignoreNlen: bool): (r: Option<(nat, seq<byte>)>)
    ensures r.Some? ==> p < r.value.0 <= |bits| && out <= r.value.1
  {
    if p + 2 > |bits| then None
    else
      match Window(bits, p, 2)
      case 0 => InflateStored(bits, p + 2, out, ignoreNlen)
      case 1 => InflateSymbols(FixedLitLen(), FixedDistance(), bits, p + 2, out)
      case 2 =>
        (match ReadTrees(bits, p + 2)
         case None => None
         case Some(t) => InflateSymbols(t.ll, t.dl, bits, t.next, out))
      case _ => None
  }

  /** All blocks from `p` on, up to the last: the output after them. */
  ghost function InflateBlocks(bits: seq<bit>, p: nat, out: seq<byte>, ignoreNlen: bool): (r: Option<seq<byte>>)
    ensures r.Some? ==> out <= r.value
    decreases |bits| - p
  {
    if p + 3 > |bits| then None
    else
      match InflateBlock(bits, p + 1, out, ignoreNlen)
      case None => None
      case Some((q, out')) =>
        if bits[p] == 1 then Some(out') else InflateBlocks(bits, q, out', ignoreNlen)
  }

  // ---------------------------------------------------------------------------------------------
  // The library and the standard on stored blocks
  // ---------------------------------------------------------------------------------------------

  /** A stored block from `p`, behind its header, that is empty and ends the data. */
  predicate EmptyAtEnd(bits: seq<bit>, p: nat, ignoreNlen: bool) {
    var q := (p + 7) / 8 * 8;
    q + 32 == |bits| && Window(bits, q, 16) == 0 && (ignoreNlen || Window(bits, q + 16, 16) == 65535)
  }

  /** The library departs from the standard on stored blocks in one case: an empty block that ends the
      data is refused. */
  lemma StoredBlockAgrees(bits: seq<bit>, p: nat, out: seq<byte>, ignoreNlen: bool)
    requires |bits| % 8 == 0
    ensures InflateStored(bits, p, out, ignoreNlen) == StoredBlock(bits, p, out, ignoreNlen, 0) <==> !EmptyAtEnd(bits, p, ignoreNlen)
    ensures EmptyAtEnd(bits, p, ignoreNlen) ==>
      InflateStored(bits, p, out, ignoreNlen) == None && StoredBlock(bits, p, out, ignoreNlen, 0) == Some((|bits|, out))
  {
    Pow2Values();
    if EmptyAtEnd(bits, p, ignoreNlen) {
      assert out + BytesAt(bits, |bits|, 0) == out;
    }
  }

  /** A distance code that is alone, but longer than one bit. */
  predicate LoneAndLong(dl: seq<nat>) {
    Present(dl) == 1 && exists i :: 0 <= i < |dl| && dl[i] > 1
  }

  /** A dynamic block from `p` whose header the library reads although section 3.2.7 of RFC 1951 rules it out:
      it has more than 286 codes for literals and lengths, or a distance code that is alone without being one
      bit long. */
  ghost predicate ForbiddenHeader(bits: seq<bit>, p: nat) {
    && p + 2 <= |bits| && Window(bits, p, 2) == 2 && ReadTrees(bits, p + 2).Some?
    && (Window(bits, p + 2, 5) + 257 > 286 || LoneAndLong(ReadTrees(bits, p + 2).value.dl))
  }

  /** One block as the standard reads it, behind the bit that says whether it is the last: stored blocks need
      nothing behind them, and headers are not those that it rules out. */
  ghost function StandardBlock(bits: seq<bit>, p: nat, out: seq<byte>, ignoreNlen: bool): (r: Option<(nat, seq<byte>)>)
    ensures r.Some? ==> p < r.value.0 <= |bits| && out <= r.value.1
  {
    if p + 2 <= |bits| && Window(bits, p, 2) == 0 then StoredBlock(bits, p + 2, out, ignoreNlen, 0)
    else if ForbiddenHeader(bits, p) then None
    else InflateBlock(bits, p, out, ignoreNlen)
  }

  /** All blocks from `p` on, as the standard reads them. */
  ghost function StandardBlocks(bits: seq<bit>, p: nat, out: seq<byte>, ignoreNlen: bool): (r: Option<seq<byte>>)
    decreases |bits| - p
  {
    if p + 3 > |bits| then None
    else
      match StandardBlock(bits, p + 1, out, ignoreNlen)
      case None => None
      case Some((q, out')) =>
        if bits[p] == 1 then Some(out') else StandardBlocks(bits, q, out', ignoreNlen)
  }

  /** The standard's reading from `p` on comes to a last block that is stored, empty and ends the data. */
  ghost predicate ReachesEmptyEnd(bits: seq<bit>, p: nat, out: seq<byte>, ignoreNlen: bool)
    decreases |bits| - p
  {
    && p + 3 <= |bits|
    && if bits[p] == 1 then Window(bits, p + 1, 2) == 0 && EmptyAtEnd(bits, p + 3, ignoreNlen)
       else
         match StandardBlock(bits, p + 1, out, ignoreNlen)
         case None => false
         case Some((q, out')) => ReachesEmptyEnd(bits, q, out', ignoreNlen)
  }

  /** The library's reading from `p` on comes to a header that the standard rules out. */
  ghost predicate ReachesForbidden(bits: seq<bit>, p: nat, out: seq<byte>, ignoreNlen: bool)
    decreases |bits| - p
  {
    && p + 3 <= |bits|
    && (ForbiddenHeader(bits, p + 1)
        || (bits[p] == 0 &&
            match InflateBlock(bits, p + 1, out, ignoreNlen)
            case None => false
            case Some((q, out')) => ReachesForbidden(bits, q, out', ignoreNlen)))
  }

  /** The library and the standard agree on one block unless it is stored, empty and ends the data, or has a
      header that the standard rules out. */
  lemma BlocksAgree(bits: seq<bit>, p: nat, out: seq<byte>, ignoreNlen: bool)
    requires |bits| % 8 == 0 && p + 2 <= |bits|
    ensures Window(bits, p, 2) == 0 && EmptyAtEnd(bits, p + 2, ignoreNlen) ==>
      !ForbiddenHeader(bits, p) && InflateBlock(bits, p, out, ignoreNlen) == None && StandardBlock(bits, p, out, ignoreNlen) == Some((|bits|, out))
    ensures ForbiddenHeader(bits, p) ==> Window(bits, p, 2) != 0 && StandardBlock(bits, p, out, ignoreNlen) == None
    ensures !(Window(bits, p, 2) == 0 && EmptyAtEnd(bits, p + 2, ignoreNlen)) && !ForbiddenHeader(bits, p) ==>
      InflateBlock(bits, p, out, ignoreNlen) == StandardBlock(bits, p, out, ignoreNlen)
  {
    hide StoredBlock;
    hide InflateStored;
    hide EmptyAtEnd;
    hide InflateSymbols;
    hide ReadTrees;
    hide FixedLitLen;
    hide FixedDistance;
    hide LoneAndLong;
    StoredBlockAgrees(bits, p + 2, out, ignoreNlen);
  }

  /** On whole streams: they differ exactly when the standard's reading ends with such an empty block, which
      the library refuses, or when the library reads the stream past such a header, at which the standard's
      reading ends. */
  lemma {:induction false} StreamsAgree(bits: seq<bit>, p: nat, out: seq<byte>, ignoreNlen: bool)
    requires |bits| % 8 == 0
    ensures InflateBlocks(bits, p, out, ignoreNlen) != StandardBlocks(bits, p, out, ignoreNlen) <==>
      || ReachesEmptyEnd(bits, p, out, ignoreNlen)
      || (ReachesForbidden(bits, p, out, ignoreNlen) && InflateBlocks(bits, p, out, ignoreNlen).Some?)
    ensures ReachesEmptyEnd(bits, p, out, ignoreNlen) ==>
      InflateBlocks(bits, p, out, ignoreNlen) == None && StandardBlocks(bits, p, out, ignoreNlen).Some?
    ensures ReachesForbidden(bits, p, out, ignoreNlen) ==> StandardBlocks(bits, p, out, ignoreNlen) == None
    decreases |bits| - p
  {
    hide InflateBlock;
    hide StandardBlock;
    hide ForbiddenHeader;
    hide EmptyAtEnd;
    hide Window;
    if p + 3 <= |bits| {
      BlocksAgree(bits, p + 1, out, ignoreNlen);
      if bits[p] == 0 {
        match InflateBlock(bits, p + 1, out, ignoreNlen)
        case None =>
          NothingLeft(bits, out, ignoreNlen);
        case Some((q, out')) =>
          StreamsAgree(bits, q, out', ignoreNlen);
      }
    }
  }

  lemma NothingLeft(bits: seq<bit>, out: seq<byte>, ignoreNlen: bool)
    ensures StandardBlocks(bits, |bits|, out, ignoreNlen) == None && !ReachesEmptyEnd(bits, |bits|, out, ignoreNlen)
  {
  }

  lemma TwoBytes(bits: seq<bit>, p: nat)
    ensures Window(bits, p, 16) == Window(bits, p, 8) + 256 * Window(bits, p + 8, 8)
  {
    hide Window;
    WindowSplit(bits, p, 8, 8);
    ShlTimes(Window(bits, p + 8, 8), 8);
    Pow2Values();
  }

  lemma FirstByte(bits: seq<bit>)
    requires |bits| >= 8 && Window(bits, 0, 8) == 1
    ensures bits[0] == 1 && Window(bits, 1, 2) == 0
  {
    WindowParts(bits, 0, 1, 8);
    WindowParts(bits, 0, 3, 8);
    WindowParts(bits, 0, 1, 3);
    assert Low(1, 3) == 1 && Low(1, 1) == 1 && Shr(1, 1) == 0;
  }

  const EMPTY_STREAM: seq<byte> := [1, 0, 0, 255, 255]

  lemma EmptyStreamBytes(bits: seq<bit>)
    requires bits == BitsOf(EMPTY_STREAM)
    ensures |bits| == 40 && Window(bits, 0, 8) == 1 && Window(bits, 8, 8) == 0 && Window(bits, 16, 8) == 0
    ensures Window(bits, 24, 8) == 255 && Window(bits, 32, 8) == 255
  {
    hide BitsOf;
    hide Window;
    WindowByte(EMPTY_STREAM, 0);
    WindowByte(EMPTY_STREAM, 1);
    WindowByte(EMPTY_STREAM, 2);
    WindowByte(EMPTY_STREAM, 3);
    WindowByte(EMPTY_STREAM, 4);
  }

  lemma EmptyLastBlock(bits: seq<bit>)
    requires |bits| == 40 && Window(bits, 0, 8) == 1 && Window(bits, 8, 8) == 0 && Window(bits, 16, 8) == 0
    requires Window(bits, 24, 8) == 255 && Window(bits, 32, 8) == 255
    ensures InflateBlocks(bits, 0, [], false) == None && StandardBlocks(bits, 0, [], false) == Some([])
  {
    FirstByte(bits);
    hide Window;
    TwoBytes(bits, 8);
    TwoBytes(bits, 24);
    assert EmptyAtEnd(bits, 3, false);
    hide EmptyAtEnd;
    hide InflateBlock;
    hide StandardBlock;
    hide ForbiddenHeader;
    BlocksAgree(bits, 1, [], false);
  }

  /** The shortest such stream: five bytes that the standard reads as nothing. */
  lemma EmptyStreamRefused()
    ensures var bits := BitsOf(EMPTY_STREAM);
      InflateBlocks(bits, 0, [], false) == None && StandardBlocks(bits, 0, [], false) == Some([])
  {
    hide *;
    var bits := BitsOf(EMPTY_STREAM);
    EmptyStreamBytes(bits);
    EmptyLastBlock(bits);
  }

  // ---------------------------------------------------------------------------------------------
  // Codes in the stream
  // ---------------------------------------------------------------------------------------------

  lemma {:induction false} AcceptableSum(lens: seq<nat>)
    requires Within(lens, MAXBITS)
    ensures Present(lens) == 0 ==> KraftSum(lens, MAXBITS) == 0
    ensures Present(lens) == 1 ==> KraftSum(lens, MAXBITS) <= Pow2(MAXBITS - 1)
  {
    if lens != [] {
      var m := |lens| - 1;
      AcceptableSum(lens[..m]);
      if lens[m] > 0 {
        Pow2Mono(MAXBITS - lens[m], MAXBITS - 1);
      }
    }
  }

  lemma AcceptableIsPrefixFree(lens: seq<nat>)
    requires IsTree(lens)
    ensures KraftSum(lens, MAXBITS) <= Pow2(MAXBITS)
  {
    AcceptableSum(lens);
    Pow2Mono(MAXBITS - 1, MAXBITS);
  }

  /** A code at `p` is a code that the window at `p` starts with, if it does not pass the end. */
  lemma MatchesWindow(lens: seq<nat>, bits: seq<bit>, p: nat, s: nat)
    requires Within(lens, MAXBITS)
    ensures SymbolAt(lens, bits, p, s) <==> s < |lens| && p + lens[s] <= |bits| && Matches(lens, s, Window(bits, p, MAXBITS))
  {
    if s < |lens| && lens[s] > 0 && p + lens[s] <= |bits| {
      var l := lens[s];
      WindowParts(bits, p, l, MAXBITS);
      ValMsb(Code(lens, s), l);
      if Window(bits, p, l) == Val(CodeBits(lens, s)) {
        WindowIsAt(bits, p, CodeBits(lens, s));
      } else if At(bits, p, CodeBits(lens, s)) {
        WindowAt(bits, p, CodeBits(lens, s));
      }
    }
  }

  /** Reading on with zeros past the end finds the same symbol, or one that passes the end. */
  lemma DecodeFromWindow(lens: seq<nat>, bits: seq<bit>, p: nat, s: nat)
    requires IsTree(lens) && Matches(lens, s, Window(bits, p, MAXBITS))
    ensures DecodeSymbol(lens, bits, p) == if p + lens[s] <= |bits| then Some(s) else None
  {
    AcceptableIsPrefixFree(lens);
    MatchesWindow(lens, bits, p, s);
    var r := DecodeSymbol(lens, bits, p);
    if r.Some? {
      MatchesWindow(lens, bits, p, r.value);
      MatchUnique(lens, s, r.value, Window(bits, p, MAXBITS));
    }
  }

  lemma NoDecodeFromWindow(lens: seq<nat>, bits: seq<bit>, p: nat)
    requires IsTree(lens) && forall s: nat :: !Matches(lens, s, Window(bits, p, MAXBITS))
    ensures DecodeSymbol(lens, bits, p) == None
  {
    var r := DecodeSymbol(lens, bits, p);
    if r.Some? {
      MatchesWindow(lens, bits, p, r.value);
    }
  }

  /** An encoder's view: where a code has been written, its symbol is decoded. */
  lemma DecodeWritten(lens: seq<nat>, bits: seq<bit>, p: nat, s: nat)
    requires IsTree(lens) && SymbolAt(lens, bits, p, s)
    ensures DecodeSymbol(lens, bits, p) == Some(s)
  {
    MatchesWindow(lens, bits, p, s);
    DecodeFromWindow(lens, bits, p, s);
  }
}
