/** Base64 with the URL and filename safe alphabet and `=` padding, as in
    section 5 of RFC 4648 (what `base64.urlsafe_b64encode` produces). */
module Base64Url {
  import opened Wrappers

  type sextet = x: int | 0 <= x < 64

  /** The 64 data symbols of the alphabet. */
  predicate IsSymbol(c: char) {
    'A' <= c <= 'Z' || 'a' <= c <= 'z' || '0' <= c <= '9' || c == '-' || c == '_'
  }

  /** Every character an encoder may emit: a data symbol or the pad. */
  predicate IsEncodedChar(c: char) {
    IsSymbol(c) || c == '='
  }

  function Symbol(v: sextet): (c: char)
    ensures IsSymbol(c) && Value(c) == v
  {
    if v < 26 then ('A' as int + v) as char
    else if v < 52 then ('a' as int + (v - 26)) as char
    else if v < 62 then ('0' as int + (v - 52)) as char
    else if v == 62 then '-'
    else '_'
  }

  function Value(c: char): (v: sextet)
    requires IsSymbol(c)
  {
    if 'A' <= c <= 'Z' then c as int - 'A' as int
    else if 'a' <= c <= 'z' then c as int - 'a' as int + 26
    else if '0' <= c <= '9' then c as int - '0' as int + 52
    else if c == '-' then 62
    else 63
  }

  /** Three bytes become four symbols, most significant bits first. */
  function EncodeGroup(b0: byte, b1: byte, b2: byte): seq<char> {
    [Symbol(b0 / 4), Symbol(b0 % 4 * 16 + b1 / 16), Symbol(b1 % 16 * 4 + b2 / 64), Symbol(b2 % 64)]
  }

  /** `base64.urlsafe_b64encode`: a trailing group of one or two bytes is padded with `=`. */
  function Encode(b: seq<byte>): (s: seq<char>)
    ensures |s| == 4 * ((|b| + 2) / 3)
    ensures forall i :: 0 <= i < |s| ==> IsEncodedChar(s[i])
    ensures forall i :: 0 <= i < |s| - 2 ==> IsSymbol(s[i])
    decreases |b|
  {
    if |b| == 0 then []
    else if |b| == 1 then [Symbol(b[0] / 4), Symbol(b[0] % 4 * 16), '=', '=']
    else if |b| == 2 then [Symbol(b[0] / 4), Symbol(b[0] % 4 * 16 + b[1] / 16), Symbol(b[1] % 16 * 4), '=']
    else
      GroupCount(|b|);
      EncodeGroup(b[0], b[1], b[2]) + Encode(b[3..])
  }

  lemma GroupCount(n: nat)
    requires n >= 3
    ensures (n + 2) / 3 == (n - 3 + 2) / 3 + 1
  {
  }

  /** Four symbol values become three bytes; a padded last group keeps only
      the first one or two of them. */
  function Triple(v0: sextet, v1: sextet, v2: sextet, v3: sextet): (r: seq<byte>)
    ensures |r| == 3
  {
    [v0 * 4 + v1 / 16, v1 % 16 * 16 + v2 / 4, v2 % 4 * 64 + v3]
  }

  /** `base64.urlsafe_b64decode` on well-formed input: whole groups of four,
      padding only in the last group. Anything else is refused. */
  function Decode(s: seq<char>): (r: Option<seq<byte>>)
    ensures r.Some? ==> |s| % 4 == 0 && |r.value| <= |s| / 4 * 3
    decreases |s|
  {
    if |s| == 0 then Some([])
    else if |s| < 4 then None
    else if !IsSymbol(s[0]) || !IsSymbol(s[1]) then None
    else if |s| == 4 && s[2] == '=' && s[3] == '=' then
      Some(Triple(Value(s[0]), Value(s[1]), 0, 0)[..1])
    else if !IsSymbol(s[2]) then None
    else if |s| == 4 && s[3] == '=' then
      Some(Triple(Value(s[0]), Value(s[1]), Value(s[2]), 0)[..2])
    else if !IsSymbol(s[3]) then None
    else
      match Decode(s[4..])
      case None => None
      case Some(rest) => Some(Triple(Value(s[0]), Value(s[1]), Value(s[2]), Value(s[3])) + rest)
  }

  /** Decoding undoes encoding, for every byte sequence. */
  lemma {:induction false} DecodeEncode(b: seq<byte>)
    ensures Decode(Encode(b)) == Some(b)
    decreases |b|
  {
    if |b| == 1 {
      DecodeLastOne(b[0]);
      assert b == [b[0]];
    } else if |b| == 2 {
      DecodeLastTwo(b[0], b[1]);
      assert b == [b[0], b[1]];
    } else if |b| > 2 {
      DecodeEncode(b[3..]);
      DecodeEncodeGroup(b);
    }
  }

  /** One full group in front of a sequence that round-trips. */
  lemma DecodeEncodeGroup(b: seq<byte>)
    requires |b| > 2 && Decode(Encode(b[3..])) == Some(b[3..])
    ensures Decode(Encode(b)) == Some(b)
  {
    var rest := Encode(b[3..]);
    SplitGroup(b);
    DecodeFullGroup(b[0], b[1], b[2], rest);
    assert Encode(b) == EncodeGroup(b[0], b[1], b[2]) + rest;
  }

  lemma SplitGroup(b: seq<byte>)
    requires |b| > 2
    ensures b == [b[0], b[1], b[2]] + b[3..]
  {
  }

  lemma DecodeLastOne(b0: byte)
    ensures Decode([Symbol(b0 / 4), Symbol(b0 % 4 * 16), '=', '=']) == Some([b0])
  {
    var s := [Symbol(b0 / 4), Symbol(b0 % 4 * 16), '=', '='];
    assert Value(s[0]) == b0 / 4 && Value(s[1]) == b0 % 4 * 16;
    GroupArithmetic(b0, 0, 0);
    assert Triple(Value(s[0]), Value(s[1]), 0, 0) == [b0, 0, 0];
    assert Decode(s) == Some(Triple(Value(s[0]), Value(s[1]), 0, 0)[..1]);
    assert [b0, 0, 0][..1] == [b0];
  }

  lemma DecodeLastTwo(b0: byte, b1: byte)
    ensures Decode([Symbol(b0 / 4), Symbol(b0 % 4 * 16 + b1 / 16), Symbol(b1 % 16 * 4), '=']) == Some([b0, b1])
  {
    var s := [Symbol(b0 / 4), Symbol(b0 % 4 * 16 + b1 / 16), Symbol(b1 % 16 * 4), '='];
    assert Value(s[0]) == b0 / 4 && Value(s[1]) == b0 % 4 * 16 + b1 / 16 && Value(s[2]) == b1 % 16 * 4;
    GroupArithmetic(b0, b1, 0);
    assert Triple(Value(s[0]), Value(s[1]), Value(s[2]), 0) == [b0, b1, 0];
    assert Decode(s) == Some(Triple(Value(s[0]), Value(s[1]), Value(s[2]), 0)[..2]);
    assert [b0, b1, 0][..2] == [b0, b1];
  }

  lemma DecodeFullGroup(b0: byte, b1: byte, b2: byte, t: seq<char>)
    requires Decode(t).Some?
    ensures Decode(EncodeGroup(b0, b1, b2) + t) == Some([b0, b1, b2] + Decode(t).value)
  {
    var g := EncodeGroup(b0, b1, b2);
    var s := g + t;
    assert s[0] == g[0] && s[1] == g[1] && s[2] == g[2] && s[3] == g[3];
    assert s[4..] == t;
    assert IsSymbol(g[0]) && IsSymbol(g[1]) && IsSymbol(g[2]) && IsSymbol(g[3]);
    assert Decode(s) == Some(Triple(Value(g[0]), Value(g[1]), Value(g[2]), Value(g[3])) + Decode(t).value);
    GroupArithmetic(b0, b1, b2);
  }

  /** Regrouping the bits of three bytes into four sextets and back is the identity. */
  lemma GroupArithmetic(b0: byte, b1: byte, b2: byte)
    ensures Triple(b0 / 4, b0 % 4 * 16 + b1 / 16, b1 % 16 * 4 + b2 / 64, b2 % 64) == [b0, b1, b2]
  {
    assert (b0 % 4 * 16 + b1 / 16) / 16 == b0 % 4;
    assert (b0 % 4 * 16 + b1 / 16) % 16 == b1 / 16;
    assert (b1 % 16 * 4 + b2 / 64) / 4 == b1 % 16;
    assert (b1 % 16 * 4 + b2 / 64) % 4 == b2 / 64;
  }

  /** The characters that carry structure somewhere in the codec: quotes,
      separators, every bracket kind, the nesting marks, comments and whitespace. */
  predicate IsStructural(c: char) {
    c in {'\'', '"', ',', ':', '[', ']', '{', '}', '(', ')', '«', '»', '#', ' ', '\t', '\n', '\\'}
  }

  /** An encoded body never holds a structural character, so no later
      rewrite of the whole text can touch it. */
  lemma EncodedHasNoStructure(b: seq<byte>)
    ensures forall i :: 0 <= i < |Encode(b)| ==> !IsStructural(Encode(b)[i])
  {
    var s := Encode(b);
    forall i | 0 <= i < |s| ensures !IsStructural(s[i]) {
      assert IsEncodedChar(s[i]);
    }
  }
}
