/** Base64 as defined in section 4 of RFC 4648: each group of three bytes
    becomes four characters of the 64-character alphabet, and a final group
    of one or two bytes is padded with `=`.

    The decoder is strict. A length that is not a multiple of four, a
    character outside the alphabet, padding anywhere but at the end, and
    non-zero pad bits (section 3.5 of RFC 4648) are all rejected. With that,
    decoding is exactly the inverse of encoding: `Decode(s) == Some(b)`
    holds if and only if `s == Encode(b)`. */
module Base64 {
  import opened Wrappers
  import opened Text

  type sextet = x: int | 0 <= x < 64

  const Pad: char := '='

  /** The alphabet of Table 1 of RFC 4648. */
  predicate IsAlphabet(c: char) {
    ('A' <= c <= 'Z') || ('a' <= c <= 'z') || ('0' <= c <= '9') || c == '+' || c == '/'
  }

  /** The character that encodes the 6-bit value `v` (Table 1 of RFC 4648). */
  function CharOf(v: sextet): (c: char)
    ensures IsAlphabet(c)
  {
    if v < 26 then ('A' as int + v) as char
    else if v < 52 then ('a' as int + (v - 26)) as char
    else if v < 62 then ('0' as int + (v - 52)) as char
    else if v == 62 then '+'
    else '/'
  }

  /** The 6-bit value a character encodes, or None outside the alphabet. */
  function IndexOf(c: char): (r: Option<sextet>)
    ensures r.Some? <==> IsAlphabet(c)
    ensures r.Some? ==> CharOf(r.value) == c
  {
    if 'A' <= c <= 'Z' then Some(c as int - 'A' as int)
    else if 'a' <= c <= 'z' then Some(c as int - 'a' as int + 26)
    else if '0' <= c <= '9' then Some(c as int - '0' as int + 52)
    else if c == '+' then Some(62)
    else if c == '/' then Some(63)
    else None
  }

  lemma IndexOfCharOf(v: sextet)
    ensures IndexOf(CharOf(v)) == Some(v)
  {
  }

  /** One to three bytes as one four-character quantum, padded with `=`
      after a short final group. */
  function EncodeGroup(g: seq<byte>): (q: string)
    requires 1 <= |g| <= 3
    ensures |q| == 4
  {
    var x0 := g[0];
    var x1 := if |g| > 1 then g[1] else 0;
    var x2 := if |g| > 2 then g[2] else 0;
    [ CharOf(x0 / 4),
      CharOf(x0 % 4 * 16 + x1 / 16),
      if |g| > 1 then CharOf(x1 % 16 * 4 + x2 / 64) else Pad,
      if |g| > 2 then CharOf(x2 % 64) else Pad ]
  }

  /** The Base64 encoding of `b`: four characters per started group of
      three bytes. */
  function Encode(b: seq<byte>): (s: string)
    ensures |s| == (|b| + 2) / 3 * 4
    decreases |b|
  {
    if |b| == 0 then []
    else if |b| <= 3 then EncodeGroup(b)
    else
      GroupCount(|b|);
      EncodeGroup(b[..3]) + Encode(b[3..])
  }

  /** Every character of an encoding is from the alphabet or `=`. */
  predicate IsEncodedText(s: string) {
    forall i :: 0 <= i < |s| ==> IsAlphabet(s[i]) || s[i] == Pad
  }

  lemma {:induction false} EncodeAlphabet(b: seq<byte>)
    ensures IsEncodedText(Encode(b))
    decreases |b|
  {
    if 0 < |b| <= 3 {
      assert Encode(b) == EncodeGroup(b);
    } else if |b| > 3 {
      EncodeAlphabet(b[3..]);
      assert Encode(b) == EncodeGroup(b[..3]) + Encode(b[3..]);
      EncodedConcat(EncodeGroup(b[..3]), Encode(b[3..]));
    }
  }

  lemma GroupCount(n: int)
    requires n > 3
    ensures 4 + (n - 3 + 2) / 3 * 4 == (n + 2) / 3 * 4
    ensures (n - 3 + 2) / 3 * 4 >= 4
  {
  }

  lemma EncodedConcat(head: string, tail: string)
    requires IsEncodedText(head) && IsEncodedText(tail)
    ensures IsEncodedText(head + tail)
  {
    forall i | 0 <= i < |head + tail|
      ensures IsAlphabet((head + tail)[i]) || (head + tail)[i] == Pad
    {
      if i >= |head| {
        assert (head + tail)[i] == tail[i - |head|];
      }
    }
  }

  /** Decodes one quantum. Padding is accepted only in the final quantum
      (`last`), and its pad bits must be zero. */
  function DecodeGroup(q: string, last: bool): (r: Option<seq<byte>>)
    requires |q| == 4
    ensures r.Some? ==> 1 <= |r.value| <= 3 && (!last ==> |r.value| == 3)
    ensures r.Some? ==> EncodeGroup(r.value) == q
  {
    var i0, i1, i2, i3 := IndexOf(q[0]), IndexOf(q[1]), IndexOf(q[2]), IndexOf(q[3]);
    if i0.None? || i1.None? then None
    else if i2.Some? && i3.Some? then
      EncodeThree(i0.value, i1.value, i2.value, i3.value);
      Some(ThreeOf(i0.value, i1.value, i2.value, i3.value))
    else if last && i2.Some? && q[3] == Pad && i2.value % 4 == 0 then
      EncodeTwo(i0.value, i1.value, i2.value);
      Some(TwoOf(i0.value, i1.value, i2.value))
    else if last && q[2] == Pad && q[3] == Pad && i1.value % 16 == 0 then
      EncodeOne(i0.value, i1.value);
      Some(OneOf(i0.value, i1.value))
    else None
  }

  // The bytes carried by a full quantum, by one with one `=`, and by one
  // with two.

  function ThreeOf(a: sextet, b: sextet, c: sextet, d: sextet): (r: seq<byte>) {
    ThreeBytes(a, b, c, d);
    [a * 4 + b / 16, b % 16 * 16 + c / 4, c % 4 * 64 + d]
  }

  function TwoOf(a: sextet, b: sextet, c: sextet): (r: seq<byte>)
    requires c % 4 == 0
  {
    TwoBytes(a, b, c);
    [a * 4 + b / 16, b % 16 * 16 + c / 4]
  }

  function OneOf(a: sextet, b: sextet): (r: seq<byte>)
    requires b % 16 == 0
  {
    OneByte(a, b);
    [a * 4 + b / 16]
  }

  lemma EncodeThree(a: sextet, b: sextet, c: sextet, d: sextet)
    ensures EncodeGroup(ThreeOf(a, b, c, d)) == [CharOf(a), CharOf(b), CharOf(c), CharOf(d)]
  {
    ThreeBytes(a, b, c, d);
    var g := ThreeOf(a, b, c, d);
    var x0, x1, x2 := g[0], g[1], g[2];
    assert x0 / 4 == a;
    assert x0 % 4 * 16 + x1 / 16 == b;
    assert x1 % 16 * 4 + x2 / 64 == c;
    assert x2 % 64 == d;
  }

  lemma EncodeTwo(a: sextet, b: sextet, c: sextet)
    requires c % 4 == 0
    ensures EncodeGroup(TwoOf(a, b, c)) == [CharOf(a), CharOf(b), CharOf(c), Pad]
  {
    TwoBytes(a, b, c);
    var g := TwoOf(a, b, c);
    var x0, x1 := g[0], g[1];
    assert x0 / 4 == a;
    assert x0 % 4 * 16 + x1 / 16 == b;
    assert x1 % 16 * 4 + 0 / 64 == c;
  }

  lemma EncodeOne(a: sextet, b: sextet)
    requires b % 16 == 0
    ensures EncodeGroup(OneOf(a, b)) == [CharOf(a), CharOf(b), Pad, Pad]
  {
    OneByte(a, b);
    var g := OneOf(a, b);
    var x0 := g[0];
    assert x0 / 4 == a;
    assert x0 % 4 * 16 + 0 / 16 == b;
  }

  /** Strict decoding; None for anything `Encode` cannot produce. */
  function Decode(s: string): (r: Option<seq<byte>>)
    decreases |s|
  {
    if |s| == 0 then Some([])
    else if |s| < 4 then None
    else
      match DecodeGroup(s[..4], |s| == 4)
      case None => None
      case Some(g) =>
        if |s| == 4 then Some(g)
        else
          match Decode(s[4..])
          case None => None
          case Some(rest) => Some(g + rest)
  }

  /** Strict decoding: whatever `Decode` accepts is exactly the encoding of
      the bytes it returns. */
  lemma {:induction false} EncodeDecode(s: string)
    ensures Decode(s).Some? ==> Encode(Decode(s).value) == s
    decreases |s|
  {
    if |s| >= 4 && Decode(s).Some? {
      var g := DecodeGroup(s[..4], |s| == 4).value;
      if |s| > 4 {
        var rest := Decode(s[4..]).value;
        EncodeDecode(s[4..]);
        EncodeConcat(g, rest, s[..4], s[4..]);
        assert s == s[..4] + s[4..];
      }
    }
  }

  /** Encoding a full group followed by more bytes. */
  lemma EncodeConcat(g: seq<byte>, rest: seq<byte>, head: string, tail: string)
    requires |g| == 3 && rest != []
    requires EncodeGroup(g) == head && Encode(rest) == tail
    ensures Encode(g + rest) == head + tail
  {
    assert (g + rest)[..3] == g && (g + rest)[3..] == rest;
  }

  // Bit arithmetic of one quantum: the four 6-bit values a, b, c, d read
  // back as three 8-bit values and encoded again give a, b, c, d.

  lemma ThreeBytes(a: sextet, b: sextet, c: sextet, d: sextet)
    ensures 0 <= a * 4 + b / 16 < 256 && 0 <= b % 16 * 16 + c / 4 < 256 && 0 <= c % 4 * 64 + d < 256
    ensures (a * 4 + b / 16) / 4 == a
    ensures (a * 4 + b / 16) % 4 * 16 + (b % 16 * 16 + c / 4) / 16 == b
    ensures (b % 16 * 16 + c / 4) % 16 * 4 + (c % 4 * 64 + d) / 64 == c
    ensures (c % 4 * 64 + d) % 64 == d
  {
  }

  lemma TwoBytes(a: sextet, b: sextet, c: sextet)
    requires c % 4 == 0
    ensures 0 <= a * 4 + b / 16 < 256 && 0 <= b % 16 * 16 + c / 4 < 256
    ensures (a * 4 + b / 16) / 4 == a
    ensures (a * 4 + b / 16) % 4 * 16 + (b % 16 * 16 + c / 4) / 16 == b
    ensures (b % 16 * 16 + c / 4) % 16 * 4 + 0 / 64 == c
  {
  }

  lemma OneByte(a: sextet, b: sextet)
    requires b % 16 == 0
    ensures 0 <= a * 4 + b / 16 < 256
    ensures (a * 4 + b / 16) / 4 == a
    ensures (a * 4 + b / 16) % 4 * 16 + 0 / 16 == b
  {
  }

  /** The quantum encoding a group decodes back to that group; a short group
      only as the final quantum. */
  lemma DecodeEncodeGroup(g: seq<byte>, last: bool)
    requires 1 <= |g| <= 3
    requires |g| < 3 ==> last
    ensures DecodeGroup(EncodeGroup(g), last) == Some(g)
  {
    if |g| == 3 {
      DecodeEncodeThree(g, last);
    } else if |g| == 2 {
      DecodeEncodeTwo(g);
    } else {
      DecodeEncodeOne(g);
    }
  }

  lemma DecodeEncodeThree(g: seq<byte>, last: bool)
    requires |g| == 3
    ensures DecodeGroup(EncodeGroup(g), last) == Some(g)
  {
    var a, b, c, d := g[0] / 4, g[0] % 4 * 16 + g[1] / 16, g[1] % 16 * 4 + g[2] / 64, g[2] % 64;
    EncodedValues(g);
    DecodeFull(EncodeGroup(g), last, a, b, c, d);
    ThreeOfValues(g);
  }

  lemma ThreeOfValues(g: seq<byte>)
    requires |g| == 3
    ensures ThreeOf(g[0] / 4, g[0] % 4 * 16 + g[1] / 16, g[1] % 16 * 4 + g[2] / 64, g[2] % 64) == g
  {
    Bytes(g[0], g[1], g[2]);
  }

  lemma DecodeEncodeTwo(g: seq<byte>)
    requires |g| == 2
    ensures DecodeGroup(EncodeGroup(g), true) == Some(g)
  {
    var a, b, c := g[0] / 4, g[0] % 4 * 16 + g[1] / 16, g[1] % 16 * 4 + 0 / 64;
    EncodedValues(g);
    Bytes(g[0], g[1], 0);
    DecodeOnePad(EncodeGroup(g), a, b, c);
    TwoOfValues(g);
  }

  lemma TwoOfValues(g: seq<byte>)
    requires |g| == 2
    ensures TwoOf(g[0] / 4, g[0] % 4 * 16 + g[1] / 16, g[1] % 16 * 4 + 0 / 64) == g
  {
    Bytes(g[0], g[1], 0);
  }

  lemma DecodeEncodeOne(g: seq<byte>)
    requires |g| == 1
    ensures DecodeGroup(EncodeGroup(g), true) == Some(g)
  {
    var a, b := g[0] / 4, g[0] % 4 * 16 + 0 / 16;
    EncodedValues(g);
    Bytes(g[0], 0, 0);
    DecodeTwoPads(EncodeGroup(g), a, b);
    OneOfValues(g);
  }

  lemma OneOfValues(g: seq<byte>)
    requires |g| == 1
    ensures OneOf(g[0] / 4, g[0] % 4 * 16 + 0 / 16) == g
  {
    Bytes(g[0], 0, 0);
  }

  /** The values of the characters of an encoded group, and its padding. */
  lemma EncodedValues(g: seq<byte>)
    requires 1 <= |g| <= 3
    ensures var x1, x2 := if |g| > 1 then g[1] else 0, if |g| > 2 then g[2] else 0;
      var q := EncodeGroup(g);
      && IndexOf(q[0]) == Some(g[0] / 4)
      && IndexOf(q[1]) == Some(g[0] % 4 * 16 + x1 / 16)
      && (|g| > 1 ==> IndexOf(q[2]) == Some(x1 % 16 * 4 + x2 / 64))
      && (|g| > 2 ==> IndexOf(q[3]) == Some(x2 % 64))
      && (|g| <= 1 ==> q[2] == Pad)
      && (|g| <= 2 ==> q[3] == Pad)
  {
    var x1, x2 := if |g| > 1 then g[1] else 0, if |g| > 2 then g[2] else 0;
    IndexOfCharOf(g[0] / 4);
    IndexOfCharOf(g[0] % 4 * 16 + x1 / 16);
    IndexOfCharOf(x1 % 16 * 4 + x2 / 64);
    IndexOfCharOf(x2 % 64);
  }

  // Decoding a quantum from the values of its characters.

  lemma DecodeFull(q: string, last: bool, a: sextet, b: sextet, c: sextet, d: sextet)
    requires |q| == 4
    requires IndexOf(q[0]) == Some(a) && IndexOf(q[1]) == Some(b)
    requires IndexOf(q[2]) == Some(c) && IndexOf(q[3]) == Some(d)
    ensures DecodeGroup(q, last) == Some(ThreeOf(a, b, c, d))
  {
  }

  lemma DecodeOnePad(q: string, a: sextet, b: sextet, c: sextet)
    requires |q| == 4 && q[3] == Pad && c % 4 == 0
    requires IndexOf(q[0]) == Some(a) && IndexOf(q[1]) == Some(b) && IndexOf(q[2]) == Some(c)
    ensures DecodeGroup(q, true) == Some(TwoOf(a, b, c))
  {
    assert IndexOf(Pad) == None;
  }

  lemma DecodeTwoPads(q: string, a: sextet, b: sextet)
    requires |q| == 4 && q[2] == Pad && q[3] == Pad && b % 16 == 0
    requires IndexOf(q[0]) == Some(a) && IndexOf(q[1]) == Some(b)
    ensures DecodeGroup(q, true) == Some(OneOf(a, b))
  {
    assert IndexOf(Pad) == None;
  }

  lemma Bytes(x0: byte, x1: byte, x2: byte)
    ensures x0 / 4 * 4 + (x0 % 4 * 16 + x1 / 16) / 16 == x0
    ensures (x0 % 4 * 16 + x1 / 16) % 16 * 16 + (x1 % 16 * 4 + x2 / 64) / 4 == x1
    ensures (x1 % 16 * 4 + x2 / 64) % 4 * 64 + x2 % 64 == x2
    ensures x2 == 0 ==> (x1 % 16 * 4 + x2 / 64) % 4 == 0
    ensures x1 == 0 && x2 == 0 ==> (x0 % 4 * 16 + x1 / 16) % 16 == 0
  {
  }

  /** Round trip: decoding an encoding gives back the bytes. */
  lemma {:induction false} DecodeEncode(b: seq<byte>)
    ensures Decode(Encode(b)) == Some(b)
    decreases |b|
  {
    if |b| == 0 {
    } else if |b| <= 3 {
      DecodeEncodeLast(b);
    } else {
      DecodeEncode(b[3..]);
      DecodeEncodeMore(b);
    }
  }

  lemma DecodeEncodeLast(b: seq<byte>)
    requires 1 <= |b| <= 3
    ensures Decode(Encode(b)) == Some(b)
  {
    assert Encode(b) == EncodeGroup(b);
    DecodeEncodeGroup(b, true);
  }

  lemma DecodeEncodeMore(b: seq<byte>)
    requires |b| > 3
    requires Decode(Encode(b[3..])) == Some(b[3..])
    ensures Decode(Encode(b)) == Some(b)
  {
    EncodeStep(b);
    GroupCount(|b|);
    DecodeEncodeGroup(b[..3], false);
    DecodeStep(EncodeGroup(b[..3]), Encode(b[3..]), b[..3], b[3..]);
    SplitAtThree(b);
  }

  lemma SplitAtThree(b: seq<byte>)
    requires |b| > 3
    ensures b[..3] + b[3..] == b
  {
  }

  lemma EncodeStep(b: seq<byte>)
    requires |b| > 3
    ensures Encode(b) == EncodeGroup(b[..3]) + Encode(b[3..])
  {
  }

  /** Decoding a full first quantum followed by more input. */
  lemma DecodeStep(head: string, tail: string, g: seq<byte>, rest: seq<byte>)
    requires |head| == 4 && |tail| > 0
    requires DecodeGroup(head, false) == Some(g)
    requires Decode(tail) == Some(rest)
    ensures Decode(head + tail) == Some(g + rest)
  {
    var s := head + tail;
    assert s[..4] == head && s[4..] == tail;
  }

  /** Decoding is exactly the inverse of encoding. */
  lemma DecodeIffEncode(s: string, b: seq<byte>)
    ensures Decode(s) == Some(b) <==> s == Encode(b)
  {
    EncodeDecode(s);
    if s == Encode(b) {
      DecodeEncode(b);
    }
  }
}
