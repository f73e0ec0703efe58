/** The base 64 encoding of section 4 of RFC 4648, which the operating system's encoder follows. */
module Base64 {
  import opened Bits
  import opened Wrappers

  const PAD: byte := 61

  function Digit(v: nat): (c: byte)
    requires v < 64
    ensures c != 0 && c != PAD
  {
    if v < 26 then 65 + v
    else if v < 52 then 97 + (v - 26)
    else if v < 62 then 48 + (v - 52)
    else if v == 62 then 43
    else 47
  }

  /** The digits are the characters of table 1 of the standard, in this order. */
  lemma Alphabet(v: nat)
    requires v < 64
    ensures PAD == '=' as int
    ensures v < 26 ==> Digit(v) == "ABCDEFGHIJKLMNOPQRSTUVWXYZ"[v] as int
    ensures 26 <= v < 52 ==> Digit(v) == "abcdefghijklmnopqrstuvwxyz"[v - 26] as int
    ensures v >= 52 ==> Digit(v) == "0123456789+/"[v - 52] as int
  {
  }

  function DigitValue(c: byte): Option<nat> {
    if 65 <= c <= 90 then Some(c - 65)
    else if 97 <= c <= 122 then Some(c - 97 + 26)
    else if 48 <= c <= 57 then Some(c - 48 + 52)
    else if c == 43 then Some(62)
    else if c == 47 then Some(63)
    else None
  }

  lemma DigitValues(v: nat)
    requires v < 64
    ensures DigitValue(Digit(v)) == Some(v)
  {
  }

  /** Three bytes as four digits; one or two bytes at the end are filled up with padding. */
  function Group(a: byte, b: byte, c: byte): seq<byte> {
    [Digit(a / 4), Digit(a % 4 * 16 + b / 16), Digit(b % 16 * 4 + c / 64), Digit(c % 64)]
  }

  /** A group is one number: its bytes are the digits to the base 256, and its characters those to the base 64. */
  lemma GroupIsNumber(a: byte, b: byte, c: byte)
    ensures var x := 65536 * (a as int) + 256 * (b as int) + c;
      && x / 262144 < 64
      && Group(a, b, c) == [Digit(x / 262144), Digit(x / 4096 % 64), Digit(x / 64 % 64), Digit(x % 64)]
  {
    hide Digit;
    var x := 65536 * (a as int) + 256 * (b as int) + c;
    var p, q, r, s := a / 4, a % 4 * 16 + b / 16, b % 16 * 4 + c / 64, c % 64;
    assert x == 262144 * p + 4096 * q + 64 * r + s by {
      assert a == 4 * p + a % 4 && b == 16 * (b / 16) + b % 16 && c == 64 * (c / 64) + s;
    }
    DivModUnique(x, 64, 4096 * p + 64 * q + r, s);
    DivModUnique(x, 4096, 64 * p + q, 64 * r + s);
    DivModUnique(x, 262144, p, 4096 * q + 64 * r + s);
    DivModUnique(4096 * p + 64 * q + r, 64, 64 * p + q, r);
    DivModUnique(64 * p + q, 64, p, q);
  }

  function Encode(data: seq<byte>): seq<byte> {
    if data == [] then []
    else if |data| == 1 then Group(data[0], 0, 0)[..2] + [PAD, PAD]
    else if |data| == 2 then Group(data[0], data[1], 0)[..3] + [PAD]
    else Group(data[0], data[1], data[2]) + Encode(data[3..])
  }

  lemma EncodeGroup(data: seq<byte>)
    requires |data| >= 3
    ensures Encode(data) == Group(data[0], data[1], data[2]) + Encode(data[3..])
  {
  }

  lemma {:induction false} EncodedLength(data: seq<byte>)
    ensures |Encode(data)| == 4 * ((|data| + 2) / 3)
  {
    hide Group;
    if |data| >= 3 {
      EncodedLength(data[3..]);
      DivModUnique(|data| + 2, 3, (|data| - 1) / 3 + 1, (|data| - 1) % 3);
      GroupIsDigits(data[0], data[1], data[2]);
    } else if |data| == 2 {
      GroupIsDigits(data[0], data[1], 0);
    } else if |data| == 1 {
      GroupIsDigits(data[0], 0, 0);
    }
  }

  lemma {:induction false} GroupsConcat(a: seq<byte>, b: seq<byte>, n: nat)
    requires |a| == 3 * n
    ensures Encode(a + b) == Encode(a) + Encode(b)
  {
    if n == 0 {
      assert a + b == b;
    } else {
      hide Encode;
      hide Group;
      var x, y, z, rest := a[0], a[1], a[2], a[3..];
      assert (a + b)[3..] == rest + b && (a + b)[0] == x && (a + b)[1] == y && (a + b)[2] == z;
      EncodeGroup(a);
      EncodeGroup(a + b);
      GroupsConcat(rest, b, n - 1);
    }
  }

  /** Whole groups can be encoded on their own. */
  lemma EncodeConcat(a: seq<byte>, b: seq<byte>)
    requires |a| % 3 == 0
    ensures Encode(a + b) == Encode(a) + Encode(b)
  {
    GroupsConcat(a, b, |a| / 3);
  }

  /** The last `n` characters are padding, and no others; none is zero. */
  predicate EndsInPadding(e: seq<byte>, n: nat) {
    n <= |e| && forall i :: 0 <= i < |e| ==> e[i] != 0 && (e[i] == PAD <==> i >= |e| - n)
  }

  /** What is missing to whole groups of three bytes. */
  function Missing(n: nat): nat {
    if n % 3 == 0 then 0 else 3 - n % 3
  }

  lemma GroupIsDigits(a: byte, b: byte, c: byte)
    ensures |Group(a, b, c)| == 4 && EndsInPadding(Group(a, b, c), 0)
  {
  }

  lemma LastGroup(data: seq<byte>)
    requires |data| < 3
    ensures EndsInPadding(Encode(data), Missing(|data|))
  {
    hide Group;
    hide EndsInPadding;
    if |data| == 1 {
      GroupIsDigits(data[0], 0, 0);
      PaddedGroup(Group(data[0], 0, 0));
    } else if |data| == 2 {
      GroupIsDigits(data[0], data[1], 0);
      PaddedGroup(Group(data[0], data[1], 0));
    } else {
      PaddedNothing();
    }
  }

  lemma PaddedNothing()
    ensures EndsInPadding([], 0)
  {
  }

  lemma PaddedGroup(g: seq<byte>)
    requires |g| == 4 && EndsInPadding(g, 0)
    ensures EndsInPadding(g[..2] + [PAD, PAD], 2) && EndsInPadding(g[..3] + [PAD], 1)
  {
  }

  lemma PaddingBehind(g: seq<byte>, e: seq<byte>, n: nat)
    requires EndsInPadding(g, 0) && EndsInPadding(e, n)
    ensures EndsInPadding(g + e, n)
  {
  }

  /** Padding comes at the very end only, one character for each byte that is missing, and no character is
      zero. */
  lemma {:induction false} PaddingAtEnd(data: seq<byte>)
    ensures EndsInPadding(Encode(data), Missing(|data|))
  {
    hide Group;
    hide EndsInPadding;
    if |data| >= 3 {
      var rest := data[3..];
      PaddingAtEnd(rest);
      DivModUnique(|data|, 3, |rest| / 3 + 1, |rest| % 3);
      GroupIsDigits(data[0], data[1], data[2]);
      PaddingBehind(Group(data[0], data[1], data[2]), Encode(rest), Missing(|rest|));
    } else {
      LastGroup(data);
    }
  }

  /** Reads groups of four digits; the last may be padded. */
  function Decode(e: seq<byte>): Option<seq<byte>> {
    if e == [] then Some([])
    else if |e| < 4 then None
    else
      var p, q, r, s := DigitValue(e[0]), DigitValue(e[1]), DigitValue(e[2]), DigitValue(e[3]);
      if p.None? || q.None? then None
      else if e[2] == PAD then
        if |e| == 4 && e[3] == PAD && q.value % 16 == 0 then Some([p.value * 4 + q.value / 16]) else None
      else if r.None? then None
      else if e[3] == PAD then
        if |e| == 4 && r.value % 4 == 0 then Some([p.value * 4 + q.value / 16, q.value % 16 * 16 + r.value / 4]) else None
      else if s.None? then None
      else
        match Decode(e[4..])
        case None => None
        case Some(rest) => Some([p.value * 4 + q.value / 16, q.value % 16 * 16 + r.value / 4, r.value % 4 * 64 + s.value] + rest)
  }

  /** The four digits of a group, taken apart again. */
  lemma GroupValues(a: byte, b: byte, c: byte)
    ensures var p, q, r, s := a / 4, a % 4 * 16 + b / 16, b % 16 * 4 + c / 64, c % 64;
      && p < 64 && q < 64 && r < 64 && s < 64
      && p * 4 + q / 16 == a && q % 16 * 16 + r / 4 == b && r % 4 * 64 + s == c
  {
  }

  lemma DecodeDigits(p: nat, q: nat, r: nat, s: nat, e: seq<byte>)
    requires p < 64 && q < 64 && r < 64 && s < 64
    ensures p * 4 + q / 16 < 256 && q % 16 * 16 + r / 4 < 256 && r % 4 * 64 + s < 256
    ensures Decode([Digit(p), Digit(q), Digit(r), Digit(s)] + e) ==
      match Decode(e)
      case None => None
      case Some(rest) => Some([p * 4 + q / 16, q % 16 * 16 + r / 4, r % 4 * 64 + s] + rest)
  {
    DigitValues(p);
    DigitValues(q);
    DigitValues(r);
    DigitValues(s);
    hide Digit;
    hide DigitValue;
    var d := [Digit(p), Digit(q), Digit(r), Digit(s)] + e;
    assert d[4..] == e;
  }

  lemma DecodeGroup(a: byte, b: byte, c: byte, e: seq<byte>)
    ensures Decode(Group(a, b, c) + e) ==
      match Decode(e)
      case None => None
      case Some(rest) => Some([a, b, c] + rest)
  {
    hide Decode;
    hide Digit;
    GroupValues(a, b, c);
    DecodeDigits(a / 4, a % 4 * 16 + b / 16, b % 16 * 4 + c / 64, c % 64, e);
  }

  lemma DecodeOne(p: nat, q: nat)
    requires p < 64 && q < 64 && q % 16 == 0
    ensures p * 4 + q / 16 < 256 && Decode([Digit(p), Digit(q), PAD, PAD]) == Some([p * 4 + q / 16])
  {
    DigitValues(p);
    DigitValues(q);
    hide Digit;
    hide DigitValue;
  }

  lemma DecodeTwo(p: nat, q: nat, r: nat)
    requires p < 64 && q < 64 && r < 64 && r % 4 == 0
    ensures p * 4 + q / 16 < 256 && q % 16 * 16 + r / 4 < 256
    ensures Decode([Digit(p), Digit(q), Digit(r), PAD]) == Some([p * 4 + q / 16, q % 16 * 16 + r / 4])
  {
    DigitValues(p);
    DigitValues(q);
    DigitValues(r);
    hide Digit;
    hide DigitValue;
  }

  lemma DecodeLast(a: byte, b: byte)
    ensures Decode([Digit(a / 4), Digit(a % 4 * 16), PAD, PAD]) == Some([a])
    ensures Decode([Digit(a / 4), Digit(a % 4 * 16 + b / 16), Digit(b % 16 * 4), PAD]) == Some([a, b])
  {
    hide *;
    GroupValues(a, 0, 0);
    GroupValues(a, b, 0);
    DecodeOne(a / 4, a % 4 * 16);
    DecodeTwo(a / 4, a % 4 * 16 + b / 16, b % 16 * 4);
  }

  /** Decoding undoes encoding. */
  lemma {:induction false} DecodeEncode(data: seq<byte>)
    ensures Decode(Encode(data)) == Some(data)
  {
    hide Decode;
    hide Digit;
    if data == [] {
      DecodeNothing();
    } else if |data| == 1 {
      DecodeLast(data[0], 0);
      assert Encode(data) == [Digit(data[0] / 4), Digit(data[0] % 4 * 16), PAD, PAD];
      assert data == [data[0]];
    } else if |data| == 2 {
      DecodeLast(data[0], data[1]);
      assert Encode(data) == [Digit(data[0] / 4), Digit(data[0] % 4 * 16 + data[1] / 16), Digit(data[1] % 16 * 4), PAD];
      assert data == [data[0], data[1]];
    } else {
      DecodeGroup(data[0], data[1], data[2], Encode(data[3..]));
      DecodeEncode(data[3..]);
      assert data == [data[0], data[1], data[2]] + data[3..];
    }
  }

  lemma DecodeNothing()
    ensures Decode([]) == Some([])
  {
  }
}
