/** `new TextEncoder().encode(s)`: the UTF-8 bytes of a string. Characters
    here are Unicode scalar values, so no lone surrogate needs replacing. */
module Utf8 {
  import opened Wrappers

  type byte = b: int | 0 <= b < 256

  /** The one to four bytes UTF-8 writes for a scalar value. */
  function EncodeChar(c: char): (bs: seq<byte>)
    ensures 1 <= |bs| <= 4
    ensures |bs| == 1 <==> c as int < 0x80
  {
    var n := c as int;
    if n < 0x80 then [n]
    else if n < 0x800 then [0xC0 + n / 0x40, 0x80 + n % 0x40]
    else if n < 0x10000 then [0xE0 + n / 0x1000, 0x80 + (n / 0x40) % 0x40, 0x80 + n % 0x40]
    else [0xF0 + n / 0x40000, 0x80 + (n / 0x1000) % 0x40, 0x80 + (n / 0x40) % 0x40, 0x80 + n % 0x40]
  }

  function Encode(s: string): (bs: seq<byte>)
    ensures |s| <= |bs| <= 4 * |s|
  {
    if |s| == 0 then [] else EncodeChar(s[0]) + Encode(s[1..])
  }

  predicate IsContinuation(b: byte) {
    0x80 <= b < 0xC0
  }

  predicate IsScalar(n: int) {
    (0 <= n < 0xD800) || (0xE000 <= n < 0x11_0000)
  }

  /** Reads one character from the front of `bs`, with the number of bytes it took. */
  function DecodeChar(bs: seq<byte>): (r: Option<(char, nat)>)
    ensures r.Some? ==> 1 <= r.value.1 <= |bs|
  {
    if |bs| == 0 then None
    else if bs[0] < 0x80 then Some((bs[0] as char, 1))
    else if 0xC0 <= bs[0] < 0xE0 && 2 <= |bs| && IsContinuation(bs[1]) then
      var n := (bs[0] as int - 0xC0) * 0x40 + (bs[1] as int - 0x80);
      if 0x80 <= n then Some((n as char, 2)) else None
    else if 0xE0 <= bs[0] < 0xF0 && 3 <= |bs| && IsContinuation(bs[1]) && IsContinuation(bs[2]) then
      var n := (bs[0] as int - 0xE0) * 0x1000 + (bs[1] as int - 0x80) * 0x40 + (bs[2] as int - 0x80);
      if 0x800 <= n && IsScalar(n) then Some((n as char, 3)) else None
    else if 0xF0 <= bs[0] < 0xF8 && 4 <= |bs| && IsContinuation(bs[1]) && IsContinuation(bs[2])
            && IsContinuation(bs[3]) then
      var n := (bs[0] as int - 0xF0) * 0x40000 + (bs[1] as int - 0x80) * 0x1000 + (bs[2] as int - 0x80) * 0x40 + (bs[3] as int - 0x80);
      if 0x10000 <= n && IsScalar(n) then Some((n as char, 4)) else None
    else None
  }

  function Decode(bs: seq<byte>): (r: Option<string>)
    decreases |bs|
  {
    if |bs| == 0 then Some("")
    else match DecodeChar(bs)
      case None => None
      case Some((c, k)) =>
        match Decode(bs[k..])
        case None => None
        case Some(rest) => Some([c] + rest)
  }

  lemma DecodeEncodeChar(c: char, rest: seq<byte>)
    ensures DecodeChar(EncodeChar(c) + rest) == Some((c, |EncodeChar(c)|))
  {
    var n := c as int;
    if n < 0x80 {
    } else if n < 0x800 {
      DecodeTwo(c, rest);
    } else if n < 0x10000 {
      DecodeThree(c, rest);
    } else {
      DecodeFour(c, rest);
    }
  }

  /** `n` is its six-bit groups: `n / 64` and the low six bits. */
  lemma SixBits(n: nat)
    ensures n == (n / 0x40) * 0x40 + n % 0x40 && 0 <= n % 0x40 < 0x40
    ensures (n / 0x40) / 0x40 == n / 0x1000 && (n / 0x1000) / 0x40 == n / 0x40000
  {
  }

  lemma DecodeTwo(c: char, rest: seq<byte>)
    requires 0x80 <= c as int < 0x800
    ensures DecodeChar(EncodeChar(c) + rest) == Some((c, 2))
  {
    var n := c as int;
    var bs := EncodeChar(c) + rest;
    SixBits(n);
    assert bs[0] == 0xC0 + n / 0x40 && bs[1] == 0x80 + n % 0x40;
    assert (bs[0] as int - 0xC0) * 0x40 + (bs[1] as int - 0x80) == n;
  }

  lemma DecodeThree(c: char, rest: seq<byte>)
    requires 0x800 <= c as int < 0x10000
    ensures DecodeChar(EncodeChar(c) + rest) == Some((c, 3))
  {
    var n := c as int;
    var bs := EncodeChar(c) + rest;
    SixBits(n);
    SixBits(n / 0x40);
    assert bs[0] == 0xE0 + n / 0x1000 && bs[1] == 0x80 + (n / 0x40) % 0x40 && bs[2] == 0x80 + n % 0x40;
    assert (bs[0] as int - 0xE0) * 0x1000 + (bs[1] as int - 0x80) * 0x40 + (bs[2] as int - 0x80) == n;
  }

  lemma DecodeFour(c: char, rest: seq<byte>)
    requires 0x10000 <= c as int
    ensures DecodeChar(EncodeChar(c) + rest) == Some((c, 4))
  {
    var n := c as int;
    var bs := EncodeChar(c) + rest;
    SixBits(n);
    SixBits(n / 0x40);
    SixBits(n / 0x1000);
    assert bs[0] == 0xF0 + n / 0x40000 && bs[1] == 0x80 + (n / 0x1000) % 0x40;
    assert bs[2] == 0x80 + (n / 0x40) % 0x40 && bs[3] == 0x80 + n % 0x40;
    assert (bs[0] as int - 0xF0) * 0x40000 + (bs[1] as int - 0x80) * 0x1000
         + (bs[2] as int - 0x80) * 0x40 + (bs[3] as int - 0x80) == n;
  }

  /** Decoding the encoding gives the string back, so different strings
      have different encodings. */
  lemma {:induction false} DecodeEncode(s: string)
    ensures Decode(Encode(s)) == Some(s)
    decreases |s|
  {
    if |s| > 0 {
      var e := EncodeChar(s[0]);
      DecodeEncodeChar(s[0], Encode(s[1..]));
      assert (e + Encode(s[1..]))[|e|..] == Encode(s[1..]);
      DecodeEncode(s[1..]);
      assert s == [s[0]] + s[1..];
    }
  }

  lemma EncodeInjective(s: string, t: string)
    requires Encode(s) == Encode(t)
    ensures s == t
  {
    DecodeEncode(s);
    DecodeEncode(t);
  }

  /** ASCII text encodes one byte per character, each its character code. */
  lemma {:induction false} EncodeAscii(s: string)
    requires forall i | 0 <= i < |s| :: s[i] as int < 0x80
    ensures |Encode(s)| == |s|
    ensures forall i | 0 <= i < |s| :: Encode(s)[i] == s[i] as int
    decreases |s|
  {
    if |s| > 0 {
      EncodeAscii(s[1..]);
    }
  }
}
