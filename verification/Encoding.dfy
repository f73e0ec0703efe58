/** The bits that stand for tokens and for code lengths, and the proof that decoding them gives back what
    they stand for. The encoder's trees stop at the last symbol that has a code, the decoder's cover the
    whole alphabet; both give the same codes. */
module Encoding {
  import opened Bits
  import opened BitStream
  import opened Canonical
  import opened DeflateFormat
  import opened Wrappers
  import opened Lz77

  // ---------------------------------------------------------------------------------------------
  // Tokens
  // ---------------------------------------------------------------------------------------------

  predicate HasCode(lens: seq<nat>, s: nat) {
    s < |lens| && lens[s] > 0
  }

  predicate HasCodes(ll: seq<nat>, dl: seq<nat>, t: Token) {
    match t
    case Literal(b) => HasCode(ll, b)
    case Pair(lengthCode, _, distCode, _) => HasCode(ll, lengthCode + FIRST_LENGTH_CODE_INDEX) && HasCode(dl, distCode)
  }

  predicate AllHaveCodes(ll: seq<nat>, dl: seq<nat>, ts: seq<Token>) {
    forall i :: 0 <= i < |ts| ==> HasCodes(ll, dl, ts[i])
  }

  function EncodeToken(ll: seq<nat>, dl: seq<nat>, t: Token): seq<bit>
    requires IsToken(t) && HasCodes(ll, dl, t)
  {
    match t
    case Literal(b) => CodeBits(ll, b)
    case Pair(lengthCode, extraLength, distCode, extraDistance) =>
      CodeBits(ll, lengthCode + FIRST_LENGTH_CODE_INDEX) + Lsb(extraLength, LengthExtra(lengthCode))
        + CodeBits(dl, distCode) + Lsb(extraDistance, DistanceExtra(distCode))
  }

  function EncodeTokens(ll: seq<nat>, dl: seq<nat>, ts: seq<Token>): seq<bit>
    requires AreTokens(ts) && AllHaveCodes(ll, dl, ts)
  {
    if ts == [] then [] else EncodeTokens(ll, dl, ts[..|ts| - 1]) + EncodeToken(ll, dl, ts[|ts| - 1])
  }

  /** A field that has been written reads back. */
  lemma FieldWritten(bits: seq<bit>, p: nat, x: nat, n: nat)
    requires At(bits, p, Lsb(x, n)) && x < Pow2(n)
    ensures Window(bits, p, n) == x
  {
    WindowAt(bits, p, Lsb(x, n));
    ValLsb(x, n);
    LowSmall(x, n);
  }

  lemma PairDecoded(ll: seq<nat>, dl: seq<nat>, bits: seq<bit>, p: nat, t: Token)
    requires IsTree(ll) && IsTree(dl) && t.Pair? && IsToken(t) && HasCodes(ll, dl, t)
    requires At(bits, p, EncodeToken(ll, dl, t))
    ensures DecodeSymbol(ll, bits, p) == Some(t.lengthCode + FIRST_LENGTH_CODE_INDEX)
    ensures DecodeMatch(dl, bits, p + ll[t.lengthCode + FIRST_LENGTH_CODE_INDEX], t.lengthCode)
         == Some(Match(Length(t), Distance(t), p + |EncodeToken(ll, dl, t)|))
  {
    hide CodeBits;
    hide Lsb;
    hide IsTree;
    hide Window;
    hide At;
    hide Pow2;
    hide LengthBase;
    hide LengthExtra;
    hide DistanceBase;
    hide DistanceExtra;
    hide DecodeSymbol;
    var s := t.lengthCode + FIRST_LENGTH_CODE_INDEX;
    var a, b := CodeBits(ll, s), Lsb(t.extraLength, LengthExtra(t.lengthCode));
    var c, d := CodeBits(dl, t.distCode), Lsb(t.extraDistance, DistanceExtra(t.distCode));
    AtConcat(bits, p, a + b + c, d);
    AtConcat(bits, p, a + b, c);
    AtConcat(bits, p, a, b);
    DecodeWritten(ll, bits, p, s);
    var q := p + ll[s];
    FieldWritten(bits, q, t.extraLength, LengthExtra(t.lengthCode));
    DecodeWritten(dl, bits, q + |b|, t.distCode);
    FieldWritten(bits, q + |b| + |c|, t.extraDistance, DistanceExtra(t.distCode));
    AtInside(bits, q + |b| + |c|, d);
  }

  lemma AtInside(bits: seq<bit>, p: nat, e: seq<bit>)
    requires At(bits, p, e)
    ensures p + |e| <= |bits|
  {
  }

  lemma LiteralSymbol(ll: seq<nat>, dl: seq<nat>, bits: seq<bit>, p: nat, out: seq<byte>, b: byte)
    requires p <= |bits| && DecodeSymbol(ll, bits, p) == Some(b)
    ensures InflateSymbols(ll, dl, bits, p, out) == InflateSymbols(ll, dl, bits, p + ll[b], out + [b])
  {
  }

  lemma MatchSymbol(ll: seq<nat>, dl: seq<nat>, bits: seq<bit>, p: nat, out: seq<byte>, i: nat, m: Match)
    requires p <= |bits| && i < 29 && DecodeSymbol(ll, bits, p) == Some(i + 257)
    requires DecodeMatch(dl, bits, p + ll[i + 257], i) == Some(m) && m.distance <= |out|
    ensures InflateSymbols(ll, dl, bits, p, out) == InflateSymbols(ll, dl, bits, m.next, Copy(out, m.distance, m.length))
  {
    hide DecodeSymbol;
    hide DecodeMatch;
    hide Copy;
  }

  /** Decoding one token does what the token does. */
  lemma TokenDecoded(ll: seq<nat>, dl: seq<nat>, bits: seq<bit>, p: nat, t: Token, out: seq<byte>)
    requires IsTree(ll) && IsTree(dl) && IsToken(t) && HasCodes(ll, dl, t)
    requires At(bits, p, EncodeToken(ll, dl, t)) && Apply(t, out).Some?
    ensures InflateSymbols(ll, dl, bits, p, out) == InflateSymbols(ll, dl, bits, p + |EncodeToken(ll, dl, t)|, Apply(t, out).value)
  {
    hide CodeBits;
    hide IsTree;
    hide At;
    hide Lsb;
    hide Copy;
    hide DecodeSymbol;
    hide DecodeMatch;
    hide Length;
    hide Distance;
    hide InflateSymbols;
    AtInside(bits, p, EncodeToken(ll, dl, t));
    match t
    case Literal(b) =>
      DecodeWritten(ll, bits, p, b);
      LiteralSymbol(ll, dl, bits, p, out, b);
    case Pair(_, _, _, _) =>
      PairDecoded(ll, dl, bits, p, t);
      MatchSymbol(ll, dl, bits, p, out, t.lengthCode, Match(Length(t), Distance(t), p + |EncodeToken(ll, dl, t)|));
  }

  lemma {:induction false} TokensDecoded(ll: seq<nat>, dl: seq<nat>, bits: seq<bit>, p: nat, ts: seq<Token>, out: seq<byte>)
    requires IsTree(ll) && IsTree(dl) && AreTokens(ts) && AllHaveCodes(ll, dl, ts)
    requires At(bits, p, EncodeTokens(ll, dl, ts)) && Expand(ts, out).Some?
    ensures InflateSymbols(ll, dl, bits, p, out)
         == InflateSymbols(ll, dl, bits, p + |EncodeTokens(ll, dl, ts)|, Expand(ts, out).value)
  {
    hide InflateSymbols;
    hide IsTree;
    hide IsToken;
    hide HasCodes;
    hide EncodeToken;
    hide Apply;
    hide At;
    if ts != [] {
      var before, t := ts[..|ts| - 1], ts[|ts| - 1];
      var e := EncodeTokens(ll, dl, before);
      AtConcat(bits, p, e, EncodeToken(ll, dl, t));
      TokensDecoded(ll, dl, bits, p, before, out);
      TokenDecoded(ll, dl, bits, p + |e|, t, Expand(before, out).value);
    }
  }

  /** The symbols of a block with the end symbol. */
  lemma BlockDecoded(ll: seq<nat>, dl: seq<nat>, bits: seq<bit>, p: nat, ts: seq<Token>, out: seq<byte>, e: seq<bit>)
    requires IsTree(ll) && IsTree(dl) && AreTokens(ts) && AllHaveCodes(ll, dl, ts) && HasCode(ll, 256)
    requires e == EncodeTokens(ll, dl, ts) + CodeBits(ll, 256) && At(bits, p, e) && Expand(ts, out).Some?
    ensures InflateSymbols(ll, dl, bits, p, out) == Some((p + |e|, Expand(ts, out).value))
  {
    hide Expand;
    hide CodeBits;
    hide EncodeTokens;
    hide IsTree;
    hide At;
    hide DecodeSymbol;
    var s := EncodeTokens(ll, dl, ts);
    AtConcat(bits, p, s, CodeBits(ll, 256));
    TokensDecoded(ll, dl, bits, p, ts, out);
    AtInside(bits, p, e);
    DecodeWritten(ll, bits, p + |s|, 256);
  }

  // ---------------------------------------------------------------------------------------------
  // Trees that are filled up with zeros
  // ---------------------------------------------------------------------------------------------

  lemma FilledCode(lens: seq<nat>, n: nat, s: nat)
    requires HasCode(lens, s)
    ensures HasCode(lens + Zeros(n), s) && CodeBits(lens + Zeros(n), s) == CodeBits(lens, s)
  {
    TrailingZeros(lens, n, s);
  }

  lemma FilledToken(ll: seq<nat>, dl: seq<nat>, m: nat, n: nat, t: Token)
    requires IsToken(t) && HasCodes(ll, dl, t)
    ensures HasCodes(ll + Zeros(m), dl + Zeros(n), t)
    ensures EncodeToken(ll + Zeros(m), dl + Zeros(n), t) == EncodeToken(ll, dl, t)
  {
    hide CodeBits;
    hide Lsb;
    match t {
      case Literal(b) =>
        FilledCode(ll, m, b);
      case Pair(lengthCode, _, distCode, _) =>
        FilledCode(ll, m, lengthCode + FIRST_LENGTH_CODE_INDEX);
        FilledCode(dl, n, distCode);
    }
  }

  lemma {:induction false} FilledTokens(ll: seq<nat>, dl: seq<nat>, m: nat, n: nat, ts: seq<Token>)
    requires AreTokens(ts) && AllHaveCodes(ll, dl, ts)
    ensures AllHaveCodes(ll + Zeros(m), dl + Zeros(n), ts)
    ensures EncodeTokens(ll + Zeros(m), dl + Zeros(n), ts) == EncodeTokens(ll, dl, ts)
  {
    hide EncodeToken;
    hide HasCodes;
    hide Zeros;
    hide IsToken;
    if ts != [] {
      FilledToken(ll, dl, m, n, ts[|ts| - 1]);
      FilledTokens(ll, dl, m, n, ts[..|ts| - 1]);
    }
  }

  /** A complete tree stays a tree when it is filled up. */
  lemma FilledTree(lens: seq<nat>, n: nat)
    requires Within(lens, MAXBITS) && KraftSum(lens, MAXBITS) == Pow2(MAXBITS)
    ensures IsTree(lens + Zeros(n))
  {
    KraftZeros(lens, n, MAXBITS);
  }
}
