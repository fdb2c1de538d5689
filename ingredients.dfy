/** The building blocks of the codec (pyon/__ingredients.py): the string vault,
    the escaping of restored strings, the free-key quoting rule, the keyword
    table and the index helpers used by the bracket resolver. */
module Ingredients {
  import opened Wrappers
  import Base64Url
  import Utf8

  // ---------------------------------------------------------------------------
  // `str.replace`: every occurrence, leftmost first, never overlapping.

  /** `pat` occurs in `s` starting at index `i`. */
  predicate OccursAt(s: string, pat: string, i: int) {
    0 <= i && i + |pat| <= |s| && s[i..i + |pat|] == pat
  }

  ghost predicate Occurs(s: string, pat: string) {
    exists i :: OccursAt(s, pat, i)
  }

  function ReplaceAll(s: string, pat: string, rep: string): string
    requires |pat| > 0
    decreases |s|
  {
    if |s| < |pat| then s
    else if s[..|pat|] == pat then rep + ReplaceAll(s[|pat|..], pat, rep)
    else [s[0]] + ReplaceAll(s[1..], pat, rep)
  }

  /** Text without the pattern comes back unchanged. */
  lemma {:induction false} ReplaceAllAbsent(s: string, pat: string, rep: string)
    requires |pat| > 0 && !Occurs(s, pat)
    ensures ReplaceAll(s, pat, rep) == s
    decreases |s|
  {
    if |s| >= |pat| {
      assert !OccursAt(s, pat, 0);
      forall i | OccursAt(s[1..], pat, i) ensures OccursAt(s, pat, i + 1) {
        assert s[1..][i..i + |pat|] == s[i + 1..i + 1 + |pat|];
      }
      ReplaceAllAbsent(s[1..], pat, rep);
      assert s == [s[0]] + s[1..];
    }
  }

  /** Replacing a pattern by a character the text never held, and then that
      character by the pattern, gives the text back. */
  lemma {:induction false} ReplaceAllInverse(s: string, pat: string, mark: char)
    requires |pat| > 0 && mark !in s
    ensures ReplaceAll(ReplaceAll(s, pat, [mark]), [mark], pat) == s
    decreases |s|
  {
    if |s| < |pat| {
      assert !Occurs(s, [mark]) by {
        OccursAtHead(s, [mark]);
      }
      ReplaceAllAbsent(s, [mark], pat);
    } else if s[..|pat|] == pat {
      var tail := ReplaceAll(s[|pat|..], pat, [mark]);
      ReplaceAllInverse(s[|pat|..], pat, mark);
      assert ([mark] + tail)[..1] == [mark] && ([mark] + tail)[1..] == tail;
      assert s == pat + s[|pat|..];
    } else {
      var tail := ReplaceAll(s[1..], pat, [mark]);
      ReplaceAllInverse(s[1..], pat, mark);
      assert ([s[0]] + tail)[..1] == [s[0]] && ([s[0]] + tail)[1..] == tail;
      assert s == [s[0]] + s[1..];
    }
  }

  lemma OccursAtHead(s: string, pat: string)
    requires |pat| > 0
    ensures forall i :: OccursAt(s, pat, i) ==> s[i] == pat[0]
  {
    forall i | OccursAt(s, pat, i) ensures s[i] == pat[0] {
      assert s[i..i + |pat|][0] == s[i];
    }
  }

  // ---------------------------------------------------------------------------
  // `string_escape`

  predicate IsQuote(c: char) {
    c == '\'' || c == '"'
  }

  /** Puts a backslash before every quote that is not already preceded by
      one; `afterBackslash` says whether the character before `s` is one. */
  function EscapeQuotesAfter(s: string, afterBackslash: bool): (r: string)
    ensures |r| >= |s|
    decreases |s|
  {
    if s == [] then []
    else
      (if IsQuote(s[0]) && !afterBackslash then ['\\', s[0]] else [s[0]])
      + EscapeQuotesAfter(s[1..], s[0] == '\\')
  }

  /** The first pass of `string_escape`: the negative look-behind looks at the
      original text, so a quote right after a backslash is left as it is. */
  function EscapeQuotes(s: string): string {
    EscapeQuotesAfter(s, false)
  }

  /** Removes the backslash of every backslash-quote pair, left to right. */
  function Unescape(s: string): string
    decreases |s|
  {
    if s == [] then []
    else if |s| >= 2 && s[0] == '\\' && IsQuote(s[1]) then [s[1]] + Unescape(s[2..])
    else [s[0]] + Unescape(s[1..])
  }

  /** `string_escape`: escape the quotes, then turn the two-character sequences
      backslash-n and backslash-t into a newline and a tab. */
  function StringEscape(s: string): string {
    ReplaceAll(ReplaceAll(EscapeQuotes(s), "\\n", "\n"), "\\t", "\t")
  }

  /** Every quote of the escaped text has a backslash right before it. */
  lemma {:induction false} EscapeQuotesAfterEscapesAll(s: string, afterBackslash: bool)
    ensures var r := EscapeQuotesAfter(s, afterBackslash);
      (|r| > 0 && IsQuote(r[0]) ==> afterBackslash) &&
      forall i :: 0 < i < |r| && IsQuote(r[i]) ==> r[i - 1] == '\\'
    decreases |s|
  {
    if s != [] {
      var head := if IsQuote(s[0]) && !afterBackslash then ['\\', s[0]] else [s[0]];
      var tail := EscapeQuotesAfter(s[1..], s[0] == '\\');
      EscapeQuotesAfterEscapesAll(s[1..], s[0] == '\\');
      var r := head + tail;
      forall i | 0 < i < |r| && IsQuote(r[i]) ensures r[i - 1] == '\\' {
        if i >= |head| {
          assert r[i] == tail[i - |head|];
          if i == |head| {
            assert s[0] == '\\' || |head| == 2;
          }
        }
      }
    }
  }

  lemma EscapeQuotesEscapesAll(s: string)
    ensures forall i :: 0 <= i < |EscapeQuotes(s)| && IsQuote(EscapeQuotes(s)[i]) ==>
      i > 0 && EscapeQuotes(s)[i - 1] == '\\'
  {
    EscapeQuotesAfterEscapesAll(s, false);
  }

  /** Text whose quotes all sit right after a backslash is left alone. */
  lemma {:induction false} EscapeQuotesAfterFixed(s: string, afterBackslash: bool)
    requires |s| > 0 && IsQuote(s[0]) ==> afterBackslash
    requires forall i :: 0 < i < |s| && IsQuote(s[i]) ==> s[i - 1] == '\\'
    ensures EscapeQuotesAfter(s, afterBackslash) == s
    decreases |s|
  {
    if s != [] {
      EscapeQuotesAfterFixed(s[1..], s[0] == '\\');
      assert s == [s[0]] + s[1..];
    }
  }

  /** Escaping twice is escaping once. */
  lemma EscapeQuotesIdempotent(s: string)
    ensures EscapeQuotes(EscapeQuotes(s)) == EscapeQuotes(s)
  {
    EscapeQuotesAfterEscapesAll(s, false);
    EscapeQuotesAfterFixed(EscapeQuotes(s), false);
  }

  /** Unescaping forgets exactly the backslashes escaping added: the escaped
      and the original text unescape alike. */
  lemma {:induction false} UnescapeEscapeQuotesAfter(s: string)
    ensures Unescape(EscapeQuotesAfter(s, false)) == Unescape(s)
    ensures Unescape(['\\'] + EscapeQuotesAfter(s, true)) == Unescape(['\\'] + s)
    decreases |s|
  {
    if s != [] {
      var c, t := s[0], s[1..];
      UnescapeEscapeQuotesAfter(t);
      assert s == [c] + t;
      if IsQuote(c) {
        UnescapeQuoteStep(c, t);
      } else if c == '\\' {
        UnescapeBackslashStep(t);
      } else {
        UnescapeOtherStep(c, t);
      }
    }
  }

  lemma UnescapeQuoteStep(c: char, t: string)
    requires IsQuote(c)
    requires Unescape(EscapeQuotesAfter(t, false)) == Unescape(t)
    ensures Unescape(EscapeQuotesAfter([c] + t, false)) == Unescape([c] + t)
    ensures Unescape(['\\'] + EscapeQuotesAfter([c] + t, true)) == Unescape(['\\'] + ([c] + t))
  {
    var et := EscapeQuotesAfter(t, false);
    EscapeQuotesAfterHead(c, t, false);
    EscapeQuotesAfterHead(c, t, true);
    BackslashCons(c, et);
    BackslashCons(c, t);
    UnescapeEscapedQuote(c, et);
    UnescapeEscapedQuote(c, t);
    UnescapePlainHead(c, t);
  }

  lemma EscapeQuotesAfterHead(c: char, t: string, afterBackslash: bool)
    ensures EscapeQuotesAfter([c] + t, afterBackslash)
      == (if IsQuote(c) && !afterBackslash then ['\\', c] else [c]) + EscapeQuotesAfter(t, c == '\\')
  {
    assert ([c] + t)[1..] == t;
  }

  lemma BackslashCons(c: char, x: string)
    ensures ['\\'] + ([c] + x) == ['\\', c] + x
  {
  }

  lemma UnescapeEscapedQuote(c: char, x: string)
    requires IsQuote(c)
    ensures Unescape(['\\', c] + x) == [c] + Unescape(x)
  {
    assert (['\\', c] + x)[2..] == x;
  }

  lemma UnescapePlainHead(c: char, x: string)
    requires c != '\\'
    ensures Unescape([c] + x) == [c] + Unescape(x)
  {
    assert ([c] + x)[1..] == x;
  }

  lemma UnescapeBackslashStep(t: string)
    requires Unescape(['\\'] + EscapeQuotesAfter(t, true)) == Unescape(['\\'] + t)
    ensures Unescape(EscapeQuotesAfter(['\\'] + t, false)) == Unescape(['\\'] + t)
    ensures Unescape(['\\'] + EscapeQuotesAfter(['\\'] + t, true)) == Unescape(['\\'] + (['\\'] + t))
  {
    var s := ['\\'] + t;
    var et := EscapeQuotesAfter(t, true);
    assert s[1..] == t;
    assert EscapeQuotesAfter(s, false) == ['\\'] + et;
    assert EscapeQuotesAfter(s, true) == ['\\'] + et;
    assert (['\\'] + (['\\'] + et))[1..] == ['\\'] + et;
    assert (['\\'] + s)[1..] == s;
  }

  lemma UnescapeOtherStep(c: char, t: string)
    requires !IsQuote(c) && c != '\\'
    requires Unescape(EscapeQuotesAfter(t, false)) == Unescape(t)
    ensures Unescape(EscapeQuotesAfter([c] + t, false)) == Unescape([c] + t)
    ensures Unescape(['\\'] + EscapeQuotesAfter([c] + t, true)) == Unescape(['\\'] + ([c] + t))
  {
    var s := [c] + t;
    var et := EscapeQuotesAfter(t, false);
    assert s[1..] == t;
    assert EscapeQuotesAfter(s, false) == [c] + et;
    assert EscapeQuotesAfter(s, true) == [c] + et;
    assert ([c] + et)[1..] == et;
    assert (['\\'] + ([c] + et))[1..] == [c] + et;
    assert (['\\'] + s)[1..] == s;
  }

  /** On text without backslashes, unescaping undoes escaping. */
  lemma {:induction false} UnescapeEscapeQuotes(s: string)
    requires '\\' !in s
    ensures Unescape(EscapeQuotes(s)) == s
    decreases |s|
  {
    if s != [] {
      UnescapeEscapeQuotes(s[1..]);
      var et := EscapeQuotesAfter(s[1..], false);
      if IsQuote(s[0]) {
        assert (['\\', s[0]] + et)[2..] == et;
      } else {
        assert ([s[0]] + et)[1..] == et;
      }
      assert s == [s[0]] + s[1..];
    }
  }

  /** Text with neither quotes nor backslashes comes out of `string_escape` unchanged. */
  lemma StringEscapePlain(s: string)
    requires forall i :: 0 <= i < |s| ==> !IsQuote(s[i]) && s[i] != '\\'
    ensures StringEscape(s) == s
  {
    EscapeQuotesAfterFixed(s, false);
    NoBackslashNoOccurrence(s, "\\n");
    ReplaceAllAbsent(s, "\\n", "\n");
    NoBackslashNoOccurrence(s, "\\t");
    ReplaceAllAbsent(s, "\\t", "\t");
  }

  lemma NoBackslashNoOccurrence(s: string, pat: string)
    requires |pat| > 0 && pat[0] == '\\'
    requires forall i :: 0 <= i < |s| ==> s[i] != '\\'
    ensures !Occurs(s, pat)
  {
    OccursAtHead(s, pat);
  }

  /** The newline step of `string_escape` is undone by writing every newline
      back as backslash-n, on text that had no newline of its own. */
  lemma ExpandNewlinesInverse(s: string)
    requires '\n' !in s
    ensures ReplaceAll(ReplaceAll(s, "\\n", "\n"), "\n", "\\n") == s
  {
    ReplaceAllInverse(s, "\\n", '\n');
  }

  // ---------------------------------------------------------------------------
  // `string_index_replace`

  /** Copies the text into a list, overwrites one cell and joins it again. */
  method StringIndexReplace(text: string, i: nat, rep: char) returns (r: string)
    requires i < |text|
    ensures |r| == |text| && r[i] == rep
    ensures forall k :: 0 <= k < |text| && k != i ==> r[k] == text[k]
  {
    var tmp := new char[|text|](k requires 0 <= k < |text| => text[k]);
    tmp[i] := rep;
    r := tmp[..];
  }

  // ---------------------------------------------------------------------------
  // The string vault: `url_encode`, `url_decode`, `literal_string_encode`,
  // `literal_string_decode`.

  /** `url_encode`: base64url of the UTF-8 bytes of the text. */
  function UrlEncode(text: string): (r: string)
    ensures forall i :: 0 <= i < |r| ==> Base64Url.IsEncodedChar(r[i])
  {
    Base64Url.Encode(Utf8.Encode(text))
  }

  /** `url_decode`; `None` where Python raises (bad base64 or bad UTF-8). */
  function UrlDecode(text: string): Option<string> {
    match Base64Url.Decode(text)
    case None => None
    case Some(b) => Utf8.Decode(b)
  }

  /** `url_decode(url_encode(s)) == s` for every string. */
  lemma UrlDecodeEncode(text: string)
    ensures UrlDecode(UrlEncode(text)) == Some(text)
  {
    Base64Url.DecodeEncode(Utf8.Encode(text));
    Utf8.DecodeEncode(text);
  }

  /** An encoded body holds none of the characters the later passes rewrite. */
  lemma UrlEncodeHasNoStructure(text: string)
    ensures forall i :: 0 <= i < |UrlEncode(text)| ==> !Base64Url.IsStructural(UrlEncode(text)[i])
  {
    Base64Url.EncodedHasNoStructure(Utf8.Encode(text));
  }

  /** The words the dumper writes in place of the float specials are the
      encodings of "nan" and "inf". */
  lemma SpecialFloatPlaceholders()
    ensures UrlEncode("nan") == "bmFu"
    ensures UrlEncode("inf") == "aW5m"
  {
    NanPlaceholder();
    InfPlaceholder();
  }

  lemma NanPlaceholder()
    ensures UrlEncode("nan") == "bmFu"
  {
    Utf8.EncodeAscii("nan");
    assert Utf8.Encode("nan") == [110, 97, 110];
    NanGroup();
  }

  lemma NanGroup()
    ensures Base64Url.Encode([110, 97, 110]) == "bmFu"
  {
    var g := [Base64Url.Symbol(27), Base64Url.Symbol(38), Base64Url.Symbol(5), Base64Url.Symbol(46)];
    assert Base64Url.EncodeGroup(110, 97, 110) == g;
    assert Base64Url.Encode([110, 97, 110]) == g + Base64Url.Encode([]);
    assert Base64Url.Symbol(27) == 'b' && Base64Url.Symbol(38) == 'm';
    assert Base64Url.Symbol(5) == 'F' && Base64Url.Symbol(46) == 'u';
  }

  lemma InfPlaceholder()
    ensures UrlEncode("inf") == "aW5m"
  {
    Utf8.EncodeAscii("inf");
    assert Utf8.Encode("inf") == [105, 110, 102];
    InfGroup();
  }

  lemma InfGroup()
    ensures Base64Url.Encode([105, 110, 102]) == "aW5m"
  {
    var g := [Base64Url.Symbol(26), Base64Url.Symbol(22), Base64Url.Symbol(57), Base64Url.Symbol(38)];
    assert Base64Url.EncodeGroup(105, 110, 102) == g;
    assert Base64Url.Encode([105, 110, 102]) == g + Base64Url.Encode([]);
    assert Base64Url.Symbol(26) == 'a' && Base64Url.Symbol(22) == 'W';
    assert Base64Url.Symbol(57) == '5' && Base64Url.Symbol(38) == 'm';
  }

  /** The quote that opened a string literal. */
  datatype Quote = Single | Double | TripleSingle | TripleDouble {
    function Text(): string {
      match this
      case Single => "'"
      case Double => "\""
      case TripleSingle => "'''"
      case TripleDouble => "\"\"\""
    }
  }

  /** `literal_string_encode`: whatever the quote was, the placeholder is
      single-quoted and its body is the encoded content. */
  function LiteralStringEncode(quote: Quote, content: string): string {
    "'" + UrlEncode(content) + "'"
  }

  /** A placeholder is framed by single quotes, holds no structural
      character between them, and its body decodes to the content. */
  lemma LiteralStringEncodeShape(quote: Quote, content: string)
    ensures var r := LiteralStringEncode(quote, content);
      |r| >= 2 && r[0] == '\'' && r[|r| - 1] == '\'' &&
      (forall i :: 0 < i < |r| - 1 ==> !Base64Url.IsStructural(r[i])) &&
      UrlDecode(r[1..|r| - 1]) == Some(content)
  {
    UrlEncodeHasNoStructure(content);
    UrlDecodeEncode(content);
    QuotedBodyShape(UrlEncode(content));
  }

  lemma QuotedBodyShape(body: string)
    requires forall i :: 0 <= i < |body| ==> !Base64Url.IsStructural(body[i])
    ensures var r := "'" + body + "'";
      |r| >= 2 && r[0] == '\'' && r[|r| - 1] == '\'' && r[1..|r| - 1] == body &&
      forall i :: 0 < i < |r| - 1 ==> !Base64Url.IsStructural(r[i])
  {
    var r := "'" + body + "'";
    assert r[1..|r| - 1] == body;
    forall i | 0 < i < |r| - 1 ensures !Base64Url.IsStructural(r[i]) {
      assert r[i] == body[i - 1];
    }
  }

  /** The delimiter `literal_string_decode` chooses: triple single quotes
      when the text holds a newline, otherwise the quote the placeholder was
      matched with (always `'` for a placeholder `literal_string_encode` wrote). */
  function RestoredQuote(quote: Quote, text: string): string {
    if '\n' in text then "'''" else quote.Text()
  }

  /** `literal_string_decode`: decodes the body, escapes it and re-quotes it;
      a `DecodeError` where `url_decode` raises. */
  function LiteralStringDecode(quote: Quote, body: string): (r: Result<string>)
    ensures r.Success? <==> UrlDecode(body).Some?
    ensures r.Failure? ==> r.error == DecodeError
    ensures r.Success? ==>
      var text := StringEscape(UrlDecode(body).value);
      ('\n' in text ==> r.value == "'''" + text + "'''") &&
      ('\n' !in text ==> r.value == quote.Text() + text + quote.Text())
  {
    match UrlDecode(body)
    case None => Failure(DecodeError)
    case Some(raw) =>
      var text := StringEscape(raw);
      var kind := RestoredQuote(quote, text);
      Success(kind + text + kind)
  }

  /** The vault law: restoring a protected string, which is matched with the
      single quote its placeholder carries, gives back its escaped content,
      triple-quoted exactly when it spans lines and single-quoted otherwise.
      The quote the string was first written with is not recovered. */
  lemma VaultRoundTrip(quote: Quote, content: string)
    ensures var lit := LiteralStringEncode(quote, content);
      var text := StringEscape(content);
      LiteralStringDecode(Single, lit[1..|lit| - 1])
        == Success(if '\n' in text then "'''" + text + "'''" else "'" + text + "'")
  {
    var lit := LiteralStringEncode(quote, content);
    LiteralStringEncodeShape(quote, content);
    assert UrlDecode(lit[1..|lit| - 1]) == Some(content);
  }

  /** For content without quotes and backslashes the restored literal holds
      the content itself, between `'''` when it spans lines and `'` otherwise. */
  lemma VaultRoundTripPlain(content: string)
    requires forall i :: 0 <= i < |content| ==> !IsQuote(content[i]) && content[i] != '\\'
    ensures LiteralStringDecode(Single, UrlEncode(content))
      == Success(if '\n' in content then "'''" + content + "'''" else "'" + content + "'")
  {
    UrlDecodeEncode(content);
    StringEscapePlain(content);
  }

  // ---------------------------------------------------------------------------
  // `free_key_quote`, `CSON`

  /** `free_key_quote` on the match of `(\t*)(key)` before a colon: a key that
      already parses as a hashable literal stays bare, an identifier is
      vaulted, anything else yields `None` (which `re.sub` writes as nothing).
      `isRawKey` stands for `is_raw_key`, `isIdentifier` for `str.isidentifier`. */
  function FreeKeyQuote(level: string, key: string, isRawKey: string -> bool, isIdentifier: string -> bool): (r: Option<string>)
    ensures r.Some? <==> isRawKey(key) || isIdentifier(key)
    ensures r.Some? ==> |r.value| >= |level| && r.value[..|level|] == level
    ensures isRawKey(key) ==> r == Some(level + key)
    ensures !isRawKey(key) && isIdentifier(key) ==> r == Some(level + LiteralStringEncode(Single, key))
  {
    if isRawKey(key) then Some(level + key)
    else if isIdentifier(key) then Some(level + LiteralStringEncode(Single, key))
    else None
  }

  /** A text a Python identifier can be: no quote, backslash or line break. */
  predicate IdentifierText(key: string) {
    forall i :: 0 <= i < |key| ==> !IsQuote(key[i]) && key[i] != '\\' && key[i] != '\n'
  }

  /** A vaulted free key restores to the key itself in single quotes. */
  lemma FreeKeyQuoteRestores(level: string, key: string, isRawKey: string -> bool, isIdentifier: string -> bool)
    requires !isRawKey(key) && isIdentifier(key) && IdentifierText(key)
    ensures FreeKeyQuote(level, key, isRawKey, isIdentifier) == Some(level + ("'" + UrlEncode(key) + "'"))
    ensures LiteralStringDecode(Single, UrlEncode(key)) == Success("'" + key + "'")
  {
    FreeKeyQuoteVaults(level, key, isRawKey, isIdentifier);
    KeyLiteralRestores(key);
  }

  lemma FreeKeyQuoteVaults(level: string, key: string, isRawKey: string -> bool, isIdentifier: string -> bool)
    requires !isRawKey(key) && isIdentifier(key)
    ensures FreeKeyQuote(level, key, isRawKey, isIdentifier) == Some(level + ("'" + UrlEncode(key) + "'"))
  {
    assert LiteralStringEncode(Single, key) == "'" + UrlEncode(key) + "'";
  }

  lemma KeyLiteralRestores(key: string)
    requires IdentifierText(key)
    ensures LiteralStringDecode(Single, UrlEncode(key)) == Success("'" + key + "'")
  {
    VaultRoundTripPlain(key);
    assert '\n' !in key;
  }

  /** The keyword table, in the order its entries are applied. */
  const Cson: seq<(string, string)> := [("true", "True"), ("false", "False"), ("null", "None")]

  /** Step 1.3 of `loads`: replaces each keyword of the table in turn. */
  function ReplaceKeywords(text: string, table: seq<(string, string)>): string
    requires forall k :: 0 <= k < |table| ==> |table[k].0| > 0
    decreases |table|
  {
    if table == [] then text
    else ReplaceKeywords(ReplaceAll(text, table[0].0, table[0].1), table[1..])
  }

  /** Text that mentions no keyword passes step 1.3 unchanged. */
  lemma {:induction false} ReplaceKeywordsAbsent(text: string, table: seq<(string, string)>)
    requires forall k :: 0 <= k < |table| ==> |table[k].0| > 0 && !Occurs(text, table[k].0)
    ensures ReplaceKeywords(text, table) == text
    decreases |table|
  {
    if table != [] {
      ReplaceAllAbsent(text, table[0].0, table[0].1);
      ReplaceKeywordsAbsent(text, table[1..]);
    }
  }

  /** `a` and `b` agree on every index both have. */
  predicate Agrees(a: string, b: string)
    decreases |a|
  {
    a == [] || b == [] || (a[0] == b[0] && Agrees(a[1..], b[1..]))
  }

  /** No position of `rep` can start an occurrence of `q`, whatever follows `rep`. */
  predicate NoStraddle(rep: string, q: string)
    decreases |rep|
  {
    rep == [] || (!Agrees(rep, q) && NoStraddle(rep[1..], q))
  }

  lemma {:induction false} AgreesOfOccurrence(a: string, tail: string, q: string)
    requires OccursAt(a + tail, q, 0)
    ensures Agrees(a, q)
    decreases |a|
  {
    if a != [] && q != [] {
      assert (a + tail)[0] == q[0];
      assert (a + tail)[1..] == a[1..] + tail;
      assert (a[1..] + tail)[0..|q| - 1] == (a + tail)[1..|q|];
      AgreesOfOccurrence(a[1..], tail, q[1..]);
    }
  }

  /** An occurrence of `q` cannot start inside a replacement that straddles nothing. */
  lemma {:induction false} NoStraddleAt(rep: string, tail: string, q: string)
    requires NoStraddle(rep, q)
    ensures forall i :: 0 <= i < |rep| ==> !OccursAt(rep + tail, q, i)
    decreases |rep|
  {
    if rep != [] {
      if OccursAt(rep + tail, q, 0) {
        AgreesOfOccurrence(rep, tail, q);
      }
      NoStraddleAt(rep[1..], tail, q);
      assert rep + tail == [rep[0]] + (rep[1..] + tail);
      forall i | 0 < i < |rep| ensures !OccursAt(rep + tail, q, i) {
        assert !OccursAt(rep[1..] + tail, q, i - 1);
      }
    }
  }

  /** Until the first replacement, the result copies the text. */
  lemma {:induction false} ReplaceAllHead(s: string, pat: string, rep: string, k: nat)
    requires |pat| > 0 && |rep| > 0
    requires k <= |ReplaceAll(s, pat, rep)| && rep[0] !in ReplaceAll(s, pat, rep)[..k]
    ensures k <= |s| && ReplaceAll(s, pat, rep)[..k] == s[..k]
    decreases |s|
  {
    var r := ReplaceAll(s, pat, rep);
    if |s| >= |pat| && s[..|pat|] == pat {
      // a replacement at the head: only the empty prefix avoids `rep[0]`
      assert r[0] == rep[0];
    } else if |s| >= |pat| && k > 0 {
      var r' := ReplaceAll(s[1..], pat, rep);
      assert r == [s[0]] + r';
      assert r'[..k - 1] == r[1..k];
      ReplaceAllHead(s[1..], pat, rep, k - 1);
      assert r[..k] == [s[0]] + r'[..k - 1];
      assert s[..k] == [s[0]] + s[1..][..k - 1];
    }
  }

  /** An occurrence past a prefix is an occurrence in what follows it. */
  lemma OccursAfterPrefix(a: string, b: string, q: string, i: int)
    requires OccursAt(a + b, q, i) && i >= |a|
    ensures OccursAt(b, q, i - |a|)
  {
    assert b[i - |a|..i - |a| + |q|] == (a + b)[i..i + |q|];
  }

  /** An occurrence in a suffix is an occurrence in the whole text. */
  lemma OccursInSuffix(s: string, m: nat, q: string)
    requires m <= |s| && Occurs(s[m..], q)
    ensures Occurs(s, q)
  {
    var j :| OccursAt(s[m..], q, j);
    assert s[m..][j..j + |q|] == s[j + m..j + m + |q|];
    assert OccursAt(s, q, j + m);
  }

  /** An occurrence of `q` after `str.replace(pat, rep)` was already in the text,
      and is never one of `pat`, when `rep` starts with a character `q` lacks and
      straddles nothing. */
  lemma {:induction false} ReplaceAllOccursAt(s: string, pat: string, rep: string, q: string, i: int)
    requires |pat| > 0 && |rep| > 0 && rep[0] !in q && NoStraddle(rep, q)
    requires OccursAt(ReplaceAll(s, pat, rep), q, i)
    ensures q != pat && Occurs(s, q)
    decreases |s|
  {
    if |s| < |pat| {
      assert OccursAt(s, q, i);
    } else if s[..|pat|] == pat {
      var r' := ReplaceAll(s[|pat|..], pat, rep);
      NoStraddleAt(rep, r', q);
      OccursAfterPrefix(rep, r', q, i);
      ReplaceAllOccursAt(s[|pat|..], pat, rep, q, i - |rep|);
      OccursInSuffix(s, |pat|, q);
    } else if i == 0 {
      ReplaceAllHead(s, pat, rep, |q|);
      assert OccursAt(s, q, 0);
    } else {
      var r' := ReplaceAll(s[1..], pat, rep);
      OccursAfterPrefix([s[0]], r', q, i);
      ReplaceAllOccursAt(s[1..], pat, rep, q, i - 1);
      OccursInSuffix(s, 1, q);
    }
  }

  /** None of the table's replacements can complete `true` with its neighbours. */
  lemma TrueStraddleFree()
    ensures NoStraddle("True", "true") && NoStraddle("False", "true") && NoStraddle("None", "true")
  {
    assert "True"[1..] == "rue" && "rue"[1..] == "ue" && "ue"[1..] == "e" && "e"[1..] == [];
    assert "False"[1..] == "alse" && "alse"[1..] == "lse" && "lse"[1..] == "se" && "se"[1..] == "e";
    assert "None"[1..] == "one" && "one"[1..] == "ne" && "ne"[1..] == "e";
  }

  /** Nor `false` and `null` with theirs. */
  lemma FalseNullStraddleFree()
    ensures NoStraddle("False", "false") && NoStraddle("None", "false") && NoStraddle("None", "null")
  {
    assert "False"[1..] == "alse" && "alse"[1..] == "lse" && "lse"[1..] == "se" && "se"[1..] == "e";
    assert "None"[1..] == "one" && "one"[1..] == "ne" && "ne"[1..] == "e" && "e"[1..] == [];
    assert "null"[1..] == "ull";
  }

  /** Step 1.3 with the table written out. */
  function ReplaceCson(text: string): string {
    ReplaceAll(ReplaceAll(ReplaceAll(text, "true", "True"), "false", "False"), "null", "None")
  }

  /** A `str.replace` whose replacement cannot complete `q` leaves no `q`
      behind when there was none before, or when `q` is the pattern itself. */
  lemma ReplaceAllKeepsAbsent(s: string, pat: string, rep: string, q: string)
    requires |pat| > 0 && |rep| > 0 && rep[0] !in q && NoStraddle(rep, q)
    requires q == pat || !Occurs(s, q)
    ensures !Occurs(ReplaceAll(s, pat, rep), q)
  {
    forall i | OccursAt(ReplaceAll(s, pat, rep), q, i) ensures false {
      ReplaceAllOccursAt(s, pat, rep, q, i);
    }
  }

  lemma TrueRemoved(text: string)
    ensures !Occurs(ReplaceCson(text), "true")
  {
    var t1 := ReplaceAll(text, "true", "True");
    var t2 := ReplaceAll(t1, "false", "False");
    TrueStraddleFree();
    ReplaceAllKeepsAbsent(text, "true", "True", "true");
    ReplaceAllKeepsAbsent(t1, "false", "False", "true");
    ReplaceAllKeepsAbsent(t2, "null", "None", "true");
  }

  lemma FalseNullRemoved(text: string)
    ensures !Occurs(ReplaceCson(text), "false") && !Occurs(ReplaceCson(text), "null")
  {
    var t1 := ReplaceAll(text, "true", "True");
    var t2 := ReplaceAll(t1, "false", "False");
    FalseNullStraddleFree();
    ReplaceAllKeepsAbsent(t1, "false", "False", "false");
    ReplaceAllKeepsAbsent(t2, "null", "None", "false");
    ReplaceAllKeepsAbsent(t2, "null", "None", "null");
  }

  /** After step 1.3 no keyword of the table is left: each replacement starts
      with a capital and cannot complete a keyword with its neighbours. */
  lemma ReplaceKeywordsRemoves(text: string)
    ensures forall k :: 0 <= k < |Cson| ==> !Occurs(ReplaceKeywords(text, Cson), Cson[k].0)
  {
    assert ReplaceKeywords(text, Cson) == ReplaceCson(text) by {
      assert Cson[1..][1..][1..] == [];
    }
    TrueRemoved(text);
    FalseNullRemoved(text);
  }

  // ---------------------------------------------------------------------------
  // `innermost_structure_index`

  /** `str.index` / `list.index`: the first position of `c`, `None` where Python raises. */
  function IndexOf(s: string, c: char): (r: Option<nat>)
    ensures r.Some? ==> r.value < |s| && s[r.value] == c && c !in s[..r.value]
    ensures r.None? <==> c !in s
    decreases |s|
  {
    if s == [] then None
    else if s[0] == c then Some(0)
    else match IndexOf(s[1..], c)
      case None => None
      case Some(k) => Some(k + 1)
  }

  function Reversed(s: string): (r: string)
    ensures |r| == |s|
    ensures forall k :: 0 <= k < |s| ==> r[k] == s[|s| - 1 - k]
    decreases |s|
  {
    if s == [] then [] else Reversed(s[1..]) + [s[0]]
  }

  /** `innermost_structure_index`: `(b, e)` where `e` is the first closing
      character and `b - 1` the nearest opening character before it; `None`
      where Python returns `False`. The source passes `(` and `)`. */
  function InnermostStructureIndex(text: string, open: char, close: char): (r: Option<(nat, nat)>)
    ensures r.Some? ==>
      var (b, e) := r.value;
      1 <= b <= e < |text| && text[e] == close && text[b - 1] == open &&
      close !in text[..e] && open !in text[b..e]
    ensures r.None? <==> close !in text || open !in text[..IndexOf(text, close).value]
  {
    match IndexOf(text, close)
    case None => None
    case Some(e) =>
      match IndexOf(Reversed(text[..e]), open)
      case None =>
        ReversedHasSame(text[..e], open);
        None
      case Some(k) =>
        var rev := Reversed(text[..e]);
        assert text[e - 1 - k] == open;
        forall j | e - k <= j < e ensures text[j] != open {
          assert rev[e - 1 - j] == text[j];
          assert rev[..k][e - 1 - j] == rev[e - 1 - j];
        }
        Some((e - k, e))
  }

  lemma ReversedHasSame(s: string, c: char)
    ensures c in Reversed(s) <==> c in s
  {
    var r := Reversed(s);
    if c in s {
      var k :| 0 <= k < |s| && s[k] == c;
      assert r[|s| - 1 - k] == c;
    }
  }
}
