/** Strict UTF-8, as `str.encode()` and `bytes.decode()` use by default. */
module Utf8 {
  import opened Wrappers

  predicate IsContinuation(x: byte) {
    0x80 <= x < 0xC0
  }

  /** The one to four bytes of one scalar value, shortest form. */
  function EncodeChar(c: char): (b: seq<byte>)
    ensures 1 <= |b| <= 4
    ensures (|b| == 1) == (c as int < 0x80)
  {
    var n := c as int;
    if n < 0x80 then [n]
    else if n < 0x800 then [0xC0 + n / 64, 0x80 + n % 64]
    else if n < 0x10000 then [0xE0 + n / 4096, 0x80 + n / 64 % 64, 0x80 + n % 64]
    else [0xF0 + n / 0x40000, 0x80 + n / 4096 % 64, 0x80 + n / 64 % 64, 0x80 + n % 64]
  }

  function Encode(s: string): (b: seq<byte>)
    ensures |b| >= |s|
    decreases |s|
  {
    if s == [] then [] else EncodeChar(s[0]) + Encode(s[1..])
  }

  /** Reads the scalar value at the head of `b` and how many bytes it takes.
      Overlong forms, surrogates and values past U+10FFFF are refused. */
  function DecodeFirst(b: seq<byte>): (r: Option<(char, nat)>)
    requires |b| > 0
    ensures r.Some? ==> 1 <= r.value.1 <= |b|
  {
    var b0: int := b[0];
    if b0 < 0x80 then Some((b0 as char, 1))
    else if 0xC2 <= b0 < 0xE0 then
      if |b| >= 2 && IsContinuation(b[1]) then
        Some((Join2(b0 - 0xC0, b[1] - 0x80) as char, 2))
      else None
    else if 0xE0 <= b0 < 0xF0 then
      if |b| >= 3 && IsContinuation(b[1]) && IsContinuation(b[2]) then
        var n := Join3(b0 - 0xE0, b[1] - 0x80, b[2] - 0x80);
        if 0x800 <= n && !(0xD800 <= n < 0xE000) then Some((n as char, 3)) else None
      else None
    else if 0xF0 <= b0 < 0xF5 then
      if |b| >= 4 && IsContinuation(b[1]) && IsContinuation(b[2]) && IsContinuation(b[3]) then
        var n := Join4(b0 - 0xF0, b[1] - 0x80, b[2] - 0x80, b[3] - 0x80);
        if 0x10000 <= n <= 0x10FFFF then Some((n as char, 4)) else None
      else None
    else None
  }

  /** The code point held by a lead byte's payload and its continuation payloads. */
  function Join2(x0: int, x1: int): (n: int)
    requires 0 <= x0 < 32 && 0 <= x1 < 64
    ensures 0 <= n < 0x800
  {
    x0 * 64 + x1
  }

  function Join3(x0: int, x1: int, x2: int): (n: int)
    requires 0 <= x0 < 16 && 0 <= x1 < 64 && 0 <= x2 < 64
    ensures 0 <= n < 0x10000
  {
    x0 * 4096 + x1 * 64 + x2
  }

  function Join4(x0: int, x1: int, x2: int, x3: int): (n: int)
    requires 0 <= x0 < 5 && 0 <= x1 < 64 && 0 <= x2 < 64 && 0 <= x3 < 64
    ensures 0 <= n < 0x140000
  {
    x0 * 0x40000 + x1 * 4096 + x2 * 64 + x3
  }

  function Decode(b: seq<byte>): (r: Option<string>)
    ensures r.Some? ==> |r.value| <= |b|
    decreases |b|
  {
    if b == [] then Some([])
    else match DecodeFirst(b)
      case None => None
      case Some((c, n)) =>
        match Decode(b[n..])
        case None => None
        case Some(rest) => Some([c] + rest)
  }

  /** The head of an encoded character reads back as that character, whatever follows. */
  lemma DecodeFirstEncodeChar(c: char, rest: seq<byte>)
    ensures DecodeFirst(EncodeChar(c) + rest) == Some((c, |EncodeChar(c)|))
  {
    var n := c as int;
    if n < 0x80 {
    } else if n < 0x800 {
      DecodeTwoBytes(c, rest);
    } else if n < 0x10000 {
      DecodeThreeBytes(c, rest);
    } else {
      DecodeFourBytes(c, rest);
    }
  }

  lemma DecodeTwoBytes(c: char, rest: seq<byte>)
    requires 0x80 <= c as int < 0x800
    ensures DecodeFirst(EncodeChar(c) + rest) == Some((c, 2))
  {
    var n := c as int;
    var b := EncodeChar(c) + rest;
    assert b[0] == 0xC0 + n / 64 && b[1] == 0x80 + n % 64;
    assert 2 <= n / 64 < 32;
    assert Join2(n / 64, n % 64) == n;
  }

  lemma DecodeThreeBytes(c: char, rest: seq<byte>)
    requires 0x800 <= c as int < 0x10000
    ensures DecodeFirst(EncodeChar(c) + rest) == Some((c, 3))
  {
    var n := c as int;
    var x0, x1, x2 := n / 4096, n / 64 % 64, n % 64;
    ThreeBytesArith(n);
    assert EncodeChar(c) == [0xE0 + x0, 0x80 + x1, 0x80 + x2];
    var b := EncodeChar(c) + rest;
    assert b[0] == 0xE0 + x0 && b[1] == 0x80 + x1 && b[2] == 0x80 + x2;
  }

  lemma ThreeBytesArith(n: int)
    requires 0x800 <= n < 0x10000
    ensures n / 4096 < 16 && Join3(n / 4096, n / 64 % 64, n % 64) == n
  {
    assert n == (n / 4096) * 4096 + (n % 4096) && n % 4096 == (n / 64 % 64) * 64 + n % 64;
  }

  lemma DecodeFourBytes(c: char, rest: seq<byte>)
    requires 0x10000 <= c as int
    ensures DecodeFirst(EncodeChar(c) + rest) == Some((c, 4))
  {
    var n := c as int;
    assert n <= 0x10FFFF;
    var x0, x1, x2, x3 := n / 0x40000, n / 4096 % 64, n / 64 % 64, n % 64;
    FourBytesArith(n);
    assert EncodeChar(c) == [0xF0 + x0, 0x80 + x1, 0x80 + x2, 0x80 + x3];
    var b := EncodeChar(c) + rest;
    assert b[0] == 0xF0 + x0 && b[1] == 0x80 + x1;
    assert b[2] == 0x80 + x2 && b[3] == 0x80 + x3;
  }

  lemma FourBytesArith(n: int)
    requires 0x10000 <= n <= 0x10FFFF
    ensures n / 0x40000 < 5 && Join4(n / 0x40000, n / 4096 % 64, n / 64 % 64, n % 64) == n
  {
    assert n == (n / 0x40000) * 0x40000 + n % 0x40000;
    assert n % 0x40000 == (n / 4096 % 64) * 4096 + n % 4096;
    assert n % 4096 == (n / 64 % 64) * 64 + n % 64;
  }

  /** `text.encode().decode() == text`: decoding undoes encoding for every string. */
  lemma {:induction false} DecodeEncode(s: string)
    ensures Decode(Encode(s)) == Some(s)
    decreases |s|
  {
    if s != [] {
      var head := EncodeChar(s[0]);
      DecodeFirstEncodeChar(s[0], Encode(s[1..]));
      DecodeEncode(s[1..]);
      assert (head + Encode(s[1..]))[|head|..] == Encode(s[1..]);
      assert s == [s[0]] + s[1..];
    }
  }

  /** On ASCII text the encoding is the code points themselves. */
  lemma {:induction false} EncodeAscii(s: string)
    requires forall i :: 0 <= i < |s| ==> s[i] as int < 0x80
    ensures Encode(s) == seq(|s|, i requires 0 <= i < |s| => s[i] as int)
    decreases |s|
  {
    if s != [] {
      EncodeAscii(s[1..]);
    }
  }
}
