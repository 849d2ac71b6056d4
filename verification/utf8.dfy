/** UTF-8 as used by `Encoding.UTF8.GetBytes`, `GetByteCount` and `GetString`. */
module Utf8 {

  type byte = x: int | 0 <= x < 256

  /** The Unicode scalar values a Dafny `char` can hold. */
  predicate IsScalar(n: int) {
    (0 <= n < 0xD800) || (0xE000 <= n < 0x110000)
  }

  /** A continuation byte `10xxxxxx`. */
  predicate IsContinuation(b: byte) {
    0x80 <= b < 0xC0
  }

  /** The one- to four-byte encoding of a single scalar value. */
  function EncodeChar(c: char): (bs: seq<byte>)
    ensures 1 <= |bs| <= 4
    ensures (|bs| == 1) <==> c as int < 0x80
    ensures |bs| == 1 ==> bs[0] == c as int
    ensures |bs| > 1 ==> bs[0] >= 0xC2
    ensures forall i | 1 <= i < |bs| :: IsContinuation(bs[i])
  {
    var n := c as int;
    if n < 0x80 then [n]
    else if n < 0x800 then [0xC0 + n / 64, 0x80 + n % 64]
    else if n < 0x10000 then [0xE0 + n / 4096, 0x80 + (n / 64) % 64, 0x80 + n % 64]
    else [0xF0 + n / 262144, 0x80 + (n / 4096) % 64, 0x80 + (n / 64) % 64, 0x80 + n % 64]
  }

  /** `Encoding.UTF8.GetBytes` of a string of scalar values. */
  function Encode(s: string): (bs: seq<byte>)
    ensures |bs| >= |s|
    decreases |s|
  {
    if |s| == 0 then [] else EncodeChar(s[0]) + Encode(s[1..])
  }

  /** The scalar value carried by a lead byte's payload and the payloads of the continuation bytes after it. */
  function Value2(b0: int, b1: int): int { (b0 - 0xC0) * 64 + (b1 - 0x80) }
  function Value3(b0: int, b1: int, b2: int): int { (b0 - 0xE0) * 4096 + (b1 - 0x80) * 64 + (b2 - 0x80) }
  function Value4(b0: int, b1: int, b2: int, b3: int): int {
    (b0 - 0xF0) * 262144 + (b1 - 0x80) * 4096 + (b2 - 0x80) * 64 + (b3 - 0x80)
  }

  /** Decodes the scalar value at the front of `bs`, returning it and the number of bytes it used; a
      byte that does not start a well-formed sequence decodes to U+FFFD and uses one byte. */
  function DecodeOne(bs: seq<byte>): (r: (char, nat))
    requires |bs| > 0
    ensures 1 <= r.1 <= |bs| && r.1 <= 4
    ensures bs[0] < 0x80 ==> r == (bs[0] as char, 1)
    ensures bs[0] >= 0x80 ==> r.0 as int >= 0x80
  {
    var b0: int := bs[0];
    if b0 < 0x80 then (b0 as char, 1)
    else if 0xC2 <= b0 < 0xE0 && |bs| >= 2 && IsContinuation(bs[1]) then
      (Value2(b0, bs[1]) as char, 2)
    else if 0xE0 <= b0 < 0xF0 && |bs| >= 3 && IsContinuation(bs[1]) && IsContinuation(bs[2])
         && IsScalar(Value3(b0, bs[1], bs[2])) && Value3(b0, bs[1], bs[2]) >= 0x800 then
      (Value3(b0, bs[1], bs[2]) as char, 3)
    else if 0xF0 <= b0 < 0xF5 && |bs| >= 4
         && IsContinuation(bs[1]) && IsContinuation(bs[2]) && IsContinuation(bs[3])
         && IsScalar(Value4(b0, bs[1], bs[2], bs[3])) && Value4(b0, bs[1], bs[2], bs[3]) >= 0x10000 then
      (Value4(b0, bs[1], bs[2], bs[3]) as char, 4)
    else (0xFFFD as char, 1)
  }

  /** `Encoding.UTF8.GetString`. */
  function Decode(bs: seq<byte>): (s: string)
    ensures |s| <= |bs|
    decreases |bs|
  {
    if |bs| == 0 then [] else [DecodeOne(bs).0] + Decode(bs[DecodeOne(bs).1..])
  }

  lemma Split2(n: int)
    requires 0x80 <= n < 0x800
    ensures 0xC2 <= 0xC0 + n / 64 < 0xE0
    ensures Value2(0xC0 + n / 64, 0x80 + n % 64) == n
  {
  }

  lemma Split3(n: int)
    requires 0x800 <= n < 0x10000
    ensures Value3(0xE0 + n / 4096, 0x80 + (n / 64) % 64, 0x80 + n % 64) == n
  {
    var q := n / 64;
    assert q / 64 == n / 4096;
    assert (q / 64) * 64 + q % 64 == q;
    assert q * 64 + n % 64 == n;
  }

  lemma Split4(n: int)
    requires 0x10000 <= n < 0x110000
    ensures 0xF0 <= 0xF0 + n / 262144 < 0xF5
    ensures Value4(0xF0 + n / 262144, 0x80 + (n / 4096) % 64, 0x80 + (n / 64) % 64, 0x80 + n % 64) == n
  {
    var q := n / 64;
    var p := q / 64;
    assert p == n / 4096;
    assert p / 64 == n / 262144;
    assert (p / 64) * 64 + p % 64 == p;
    assert p * 64 + q % 64 == q;
    assert q * 64 + n % 64 == n;
  }

  lemma DecodeOneEncodeChar(c: char, rest: seq<byte>)
    ensures DecodeOne(EncodeChar(c) + rest) == (c, |EncodeChar(c)|)
  {
    var n := c as int;
    if 0x80 <= n < 0x800 {
      Split2(n);
    } else if 0x800 <= n < 0x10000 {
      Split3(n);
    } else if 0x10000 <= n {
      Split4(n);
    }
  }

  /** Decoding an encoded string followed by arbitrary bytes gives the string back, followed by the
      decoding of those bytes: the decoder never merges a character's bytes with what follows. */
  lemma {:induction false} DecodeEncodeAppend(s: string, rest: seq<byte>)
    ensures Decode(Encode(s) + rest) == s + Decode(rest)
    decreases |s|
  {
    if |s| > 0 {
      var e := EncodeChar(s[0]);
      assert Encode(s) + rest == e + (Encode(s[1..]) + rest);
      DecodeOneEncodeChar(s[0], Encode(s[1..]) + rest);
      assert (e + (Encode(s[1..]) + rest))[|e|..] == Encode(s[1..]) + rest;
      DecodeEncodeAppend(s[1..], rest);
      assert s == [s[0]] + s[1..];
    } else {
      assert Encode(s) + rest == rest;
    }
  }

  /** Round trip: `GetString(GetBytes(s)) == s`. */
  lemma DecodeEncode(s: string)
    ensures Decode(Encode(s)) == s
  {
    DecodeEncodeAppend(s, []);
    assert Encode(s) + [] == Encode(s);
  }

  /** Encoding distributes over concatenation. */
  lemma {:induction false} EncodeAppend(a: string, b: string)
    ensures Encode(a + b) == Encode(a) + Encode(b)
    decreases |a|
  {
    if |a| > 0 {
      assert (a + b)[1..] == a[1..] + b;
      EncodeAppend(a[1..], b);
    } else {
      assert a + b == b;
    }
  }

  /** Line breaks survive decoding unchanged: the decoded text starts with CR or LF exactly when the
      bytes start with 0x0D or 0x0A. */
  lemma DecodeStartsWithBreak(bs: seq<byte>)
    requires |bs| > 0
    ensures |Decode(bs)| > 0
    ensures Decode(bs)[0] == '\r' <==> bs[0] == 0x0D
    ensures Decode(bs)[0] == '\n' <==> bs[0] == 0x0A
  {
  }

  /** On ASCII text the encoding is the identity on code points. */
  lemma {:induction false} EncodeAscii(s: string)
    requires forall i | 0 <= i < |s| :: s[i] as int < 0x80
    ensures |Encode(s)| == |s|
    ensures forall i | 0 <= i < |s| :: Encode(s)[i] == s[i] as int
    decreases |s|
  {
    if |s| > 0 {
      EncodeAscii(s[1..]);
    }
  }
}
