/** The `dumps` pipeline (pyon/__procedure.py:63-101): the type guard, the
    token substitutions that turn brackets into nesting marks, and the walk
    that lays the marks out as tab indentation. */
module Dumps {
  import opened Wrappers
  import opened Ingredients
  import opened Text
  import Base64Url
  import Utf8

  // ---------------------------------------------------------------------------
  // The type guard

  /** The Python objects `dumps` may be handed, by type. Only the type of the
      argument matters to the guard; the text of a dict is produced by `repr`. */
  datatype Value =
    | NoneValue
    | BoolValue(b: bool)
    | IntValue(i: int)
    | FloatValue
    | ComplexValue
    | StrValue(s: string)
    | ListValue(items: seq<Value>)
    | TupleValue(items: seq<Value>)
    | SetValue(items: seq<Value>)
    | DictValue(entries: seq<(Value, Value)>)

  /** `type(obj).__name__` */
  function TypeName(v: Value): string {
    match v
    case NoneValue => "NoneType"
    case BoolValue(_) => "bool"
    case IntValue(_) => "int"
    case FloatValue => "float"
    case ComplexValue => "complex"
    case StrValue(_) => "str"
    case ListValue(_) => "list"
    case TupleValue(_) => "tuple"
    case SetValue(_) => "set"
    case DictValue(_) => "dict"
  }

  // ---------------------------------------------------------------------------
  // Steps 1.4 and 1.5: special floats and spaces

  /** Step 1.4: `nan` and `inf` become calls on their vaulted spellings. */
  function SpecialFloats(text: string): string {
    ReplaceAll(ReplaceAll(text, "nan", "float('bmFu')"), "inf", "float('aW5m')")
  }

  /** Text that never says `nan` or `inf` passes step 1.4 unchanged. */
  lemma SpecialFloatsAbsent(text: string)
    requires !Occurs(text, "nan") && !Occurs(text, "inf")
    ensures SpecialFloats(text) == text
  {
    ReplaceAllAbsent(text, "nan", "float('bmFu')");
    ReplaceAllAbsent(text, "inf", "float('aW5m')");
  }

  /** As written, step 1.4 also rewrites inside a placeholder: the string
      `abgjpq` is vaulted as `'YWJnanBx'`, whose body holds `nan`, and the
      rewrite leaves `'YWJfloat('` where the placeholder was. */
  lemma SpecialFloatsBreaksPlaceholder()
    ensures LiteralStringEncode(Single, "abgjpq") == "'" + "YWJ" + "nan" + "Bx" + "'"
    ensures SpecialFloats(LiteralStringEncode(Single, "abgjpq")) ==
      "'" + "YWJ" + "float('bmFu')" + "Bx" + "'"
  {
    LiteralOfAbgjpq();
    NanInsideBody();
    NoInfAfter();
  }

  lemma NanInsideBody()
    ensures ReplaceAll("'" + "YWJ" + "nan" + "Bx" + "'", "nan", "float('bmFu')") ==
      "'" + "YWJ" + "float('bmFu')" + "Bx" + "'"
  {
    var pre, post, rep := "'" + "YWJ", "Bx" + "'", "float('bmFu')";
    assert "'" + "YWJ" + "nan" + "Bx" + "'" == pre + ("nan" + post);
    assert ReplaceAll(pre + ("nan" + post), "nan", rep) == pre + (rep + post) by {
      ReplaceSkip(pre, "nan" + post, "nan", rep);
      ReplaceHit(post, "nan", rep);
      ReplaceSkip(post, [], "nan", rep);
      assert post + [] == post;
    }
    assert pre + (rep + post) == "'" + "YWJ" + rep + "Bx" + "'";
  }

  lemma NoInfAfter()
    ensures ReplaceAll("'" + "YWJ" + "float('bmFu')" + "Bx" + "'", "inf", "float('aW5m')") ==
      "'" + "YWJ" + "float('bmFu')" + "Bx" + "'"
  {
    var s := "'" + "YWJ" + "float('bmFu')" + "Bx" + "'";
    ReplaceSkip(s, [], "inf", "float('aW5m')");
    assert s + [] == s;
  }

  lemma LiteralOfAbgjpq()
    ensures LiteralStringEncode(Single, "abgjpq") == "'" + "YWJ" + "nan" + "Bx" + "'"
  {
    PlaceholderOfAbgjpq();
    Regroup();
  }

  lemma Regroup()
    ensures "YWJn" + "anBx" == "YWJ" + "nan" + "Bx"
  {
  }

  lemma PlaceholderOfAbgjpq()
    ensures UrlEncode("abgjpq") == "YWJn" + "anBx"
  {
    Utf8.EncodeAscii("abgjpq");
    assert Utf8.Encode("abgjpq") == [97, 98, 103, 106, 112, 113];
    AbgjpqGroups();
  }

  lemma AbgjpqGroups()
    ensures Base64Url.Encode([97, 98, 103, 106, 112, 113]) == "YWJn" + "anBx"
  {
    var b: seq<byte> := [97, 98, 103, 106, 112, 113];
    assert b[3..] == [106, 112, 113];
    assert Base64Url.Encode([106, 112, 113]) == Base64Url.EncodeGroup(106, 112, 113) + Base64Url.Encode([]);
    GroupYWJn();
    GroupAnBx();
  }

  lemma GroupYWJn()
    ensures Base64Url.EncodeGroup(97, 98, 103) == "YWJn"
  {
    var g := [Base64Url.Symbol(24), Base64Url.Symbol(22), Base64Url.Symbol(9), Base64Url.Symbol(39)];
    assert Base64Url.EncodeGroup(97, 98, 103) == g;
    assert Base64Url.Symbol(24) == 'Y' && Base64Url.Symbol(22) == 'W';
    assert Base64Url.Symbol(9) == 'J' && Base64Url.Symbol(39) == 'n';
  }

  lemma GroupAnBx()
    ensures Base64Url.EncodeGroup(106, 112, 113) == "anBx"
  {
    var g := [Base64Url.Symbol(26), Base64Url.Symbol(39), Base64Url.Symbol(1), Base64Url.Symbol(49)];
    assert Base64Url.EncodeGroup(106, 112, 113) == g;
    assert Base64Url.Symbol(26) == 'a' && Base64Url.Symbol(39) == 'n';
    assert Base64Url.Symbol(1) == 'B' && Base64Url.Symbol(49) == 'x';
  }

  /** Step 1.4 as evidently intended: a scan that rewrites `nan` and `inf` in
      the text between placeholders and copies each single-quoted placeholder
      as it is. `code` holds the text read since the last placeholder. */
  function SpecialFloatsOutside(text: string): string {
    OutsideQuotes(text, "")
  }

  function OutsideQuotes(text: string, code: string): string
    decreases |text|
  {
    if text == [] then SpecialFloats(code)
    else if text[0] == '\'' then SpecialFloats(code) + "'" + InsideQuotes(text[1..])
    else OutsideQuotes(text[1..], code + [text[0]])
  }

  function InsideQuotes(text: string): string
    decreases |text|
  {
    if text == [] then []
    else if text[0] == '\'' then "'" + OutsideQuotes(text[1..], "")
    else [text[0]] + InsideQuotes(text[1..])
  }

  /** Text before a placeholder is rewritten, the placeholder is kept. */
  lemma SpecialFloatsOutsideSkips(code: string, body: string, rest: string)
    requires '\'' !in code && '\'' !in body
    ensures SpecialFloatsOutside(code + "'" + body + "'" + rest) ==
      SpecialFloats(code) + "'" + body + "'" + SpecialFloatsOutside(rest)
  {
    var tail := "'" + body + "'" + rest;
    assert code + "'" + body + "'" + rest == code + tail;
    OutsideGathers("", code, tail);
    assert "" + code == code;
    assert tail[0] == '\'' && tail[1..] == body + ("'" + rest);
    InsideCopies(body, "'" + rest);
    assert ("'" + rest)[0] == '\'' && ("'" + rest)[1..] == rest;
  }

  /** Quote-free text joins the pending code. */
  lemma {:induction false} OutsideGathers(code: string, x: string, s: string)
    requires '\'' !in x
    ensures OutsideQuotes(x + s, code) == OutsideQuotes(s, code + x)
    decreases |x|
  {
    if x == [] {
      assert x + s == s && code + x == code;
    } else {
      assert (x + s)[0] == x[0] && (x + s)[1..] == x[1..] + s;
      assert '\'' !in x[1..];
      OutsideGathers(code + [x[0]], x[1..], s);
      assert code + [x[0]] + x[1..] == code + x;
    }
  }

  /** Quote-free text inside a placeholder is copied. */
  lemma {:induction false} InsideCopies(x: string, s: string)
    requires '\'' !in x
    ensures InsideQuotes(x + s) == x + InsideQuotes(s)
    decreases |x|
  {
    if x == [] {
      assert x + s == s;
    } else {
      assert (x + s)[0] == x[0] && (x + s)[1..] == x[1..] + s;
      assert '\'' !in x[1..];
      InsideCopies(x[1..], s);
      assert [x[0]] + (x[1..] + InsideQuotes(s)) == x + InsideQuotes(s);
    }
  }

  /** The property the source relies on: every placeholder comes through the
      corrected step 1.4 unchanged, whatever the string it stands for. */
  lemma PlaceholderSurvives(quote: Quote, content: string, rest: string)
    ensures SpecialFloatsOutside(LiteralStringEncode(quote, content) + rest) ==
      LiteralStringEncode(quote, content) + SpecialFloatsOutside(rest)
  {
    var body := UrlEncode(content);
    assert LiteralStringEncode(quote, content) + rest == "" + "'" + body + "'" + rest;
    assert SpecialFloatsOutside("" + "'" + body + "'" + rest) ==
      SpecialFloats("") + "'" + body + "'" + SpecialFloatsOutside(rest) by {
      BodyHasNoQuote(content);
      SpecialFloatsOutsideSkips("", body, rest);
    }
    SpecialFloatsEmpty();
    assert "" + "'" + body + "'" == LiteralStringEncode(quote, content);
  }

  lemma BodyHasNoQuote(content: string)
    ensures '\'' !in UrlEncode(content)
  {
    var body := UrlEncode(content);
    UrlEncodeHasNoStructure(content);
    forall i | 0 <= i < |body| ensures body[i] != '\'' {
      assert !Base64Url.IsStructural(body[i]);
    }
  }

  lemma SpecialFloatsEmpty()
    ensures SpecialFloats("") == ""
  {
  }

  /** Where the text holds no quote at all, the two readings agree. */
  lemma SpecialFloatsOutsideAgrees(text: string)
    requires '\'' !in text
    ensures SpecialFloatsOutside(text) == SpecialFloats(text)
  {
    OutsideGathers("", text, []);
    assert text + [] == text && "" + text == text;
  }

  /** Step 1.5: `text.replace(" ", "")`. */
  function RemoveSpaces(text: string): string {
    ReplaceAll(text, " ", "")
  }

  /** Removing spaces drops every space and keeps every other character, as
      many times as it occurred. */
  lemma {:induction false} RemoveSpacesKeeps(text: string)
    ensures ' ' !in RemoveSpaces(text)
    ensures forall c :: c != ' ' ==> multiset(RemoveSpaces(text))[c] == multiset(text)[c]
    decreases |text|
  {
    if text != [] {
      RemoveSpacesKeeps(text[1..]);
      assert text == [text[0]] + text[1..];
      if text[0] == ' ' {
        assert RemoveSpaces(text) == RemoveSpaces(text[1..]);
      } else {
        assert RemoveSpaces(text) == [text[0]] + RemoveSpaces(text[1..]);
      }
    }
  }

  // ---------------------------------------------------------------------------
  // Steps 1.6-1.8: brackets to nesting marks, empty pairs protected

  /** Step 1.6, first substitution: `[]` is parked under the word `LIST`. */
  function ParkLists(text: string): string {
    ReplaceAll(text, "[]", "LIST")
  }

  /** Step 1.6, second substitution: `{}` is parked under the word `DICT`. */
  function ParkDicts(text: string): string {
    ReplaceAll(text, "{}", "DICT")
  }

  /** Step 1.7, first substitution: each opening bracket becomes ` « `. */
  function MarkOpenings(text: string): string
    decreases |text|
  {
    if text == [] then []
    else (if text[0] == '{' || text[0] == '[' then " « " else [text[0]]) + MarkOpenings(text[1..])
  }

  /** Step 1.7, second substitution: each closing bracket becomes ` » `. */
  function MarkClosings(text: string): string
    decreases |text|
  {
    if text == [] then []
    else (if text[0] == '}' || text[0] == ']' then " » " else [text[0]]) + MarkClosings(text[1..])
  }

  function MarkBrackets(text: string): string {
    MarkClosings(MarkOpenings(text))
  }

  /** Step 1.8, first substitution: `LIST` becomes `[]` again. */
  function UnparkLists(text: string): string {
    ReplaceAll(text, "LIST", "[]")
  }

  /** Step 1.8, second substitution: `DICT` becomes `{}` again. */
  function UnparkDicts(text: string): string {
    ReplaceAll(text, "DICT", "{}")
  }

  /** Steps 1.6-1.8 in order. */
  function Tokenize(text: string): string {
    UnparkDicts(UnparkLists(MarkBrackets(ParkDicts(ParkLists(text)))))
  }

  /** The mark a single character stands for. */
  function MarkOf(c: char): string {
    if c == '[' || c == '{' then " « "
    else if c == ']' || c == '}' then " » "
    else [c]
  }

  /** What steps 1.6-1.8 are for, read left to right: an empty `[]` or `{}`
      is kept, any other bracket becomes a nesting mark between spaces, and
      every other character is kept. */
  function Marked(text: string): string
    decreases |text|
  {
    if text == [] then []
    else if |text| >= 2 && (text[..2] == "[]" || text[..2] == "{}") then text[..2] + Marked(text[2..])
    else MarkOf(text[0]) + Marked(text[1..])
  }

  /** The substitutions do what they are for, as long as the text holds no
      `LIST` and no `DICT` of its own to be mistaken for a parked pair. */
  lemma {:induction false} TokenizeMarked(text: string)
    requires !Occurs(text, "LIST") && !Occurs(text, "DICT")
    ensures Tokenize(text) == Marked(text)
    decreases |text|
  {
    if text != [] {
      if |text| >= 2 && text[..2] == "[]" {
        var rest := text[2..];
        assert text == "[]" + rest;
        AbsentFromTail(text, 2, "LIST");
        AbsentFromTail(text, 2, "DICT");
        TokenizeEmptyList(rest);
        TokenizeMarked(rest);
      } else if |text| >= 2 && text[..2] == "{}" {
        var rest := text[2..];
        assert text == "{}" + rest;
        AbsentFromTail(text, 2, "LIST");
        AbsentFromTail(text, 2, "DICT");
        TokenizeEmptyDict(rest);
        TokenizeMarked(rest);
      } else {
        var rest := text[1..];
        assert text == [text[0]] + rest;
        AbsentFromTail(text, 1, "LIST");
        AbsentFromTail(text, 1, "DICT");
        if text[0] == 'L' {
          NoPatternAfterLetter(text, "LIST");
          TokenizeLetter(text[0], rest);
        } else if text[0] == 'D' {
          NoPatternAfterLetter(text, "DICT");
          TokenizeLetter(text[0], rest);
        } else {
          TokenizeChar(text[0], rest);
        }
        TokenizeMarked(rest);
      }
    }
  }

  /** A text that starts with the pattern's first letter but holds no
      occurrence does not go on with the rest of the pattern. */
  lemma NoPatternAfterLetter(text: string, pat: string)
    requires |text| >= 1 && |pat| > 1 && text[0] == pat[0] && !Occurs(text, pat)
    ensures !OccursAt(text[1..], pat[1..], 0)
  {
    if |text| >= |pat| {
      assert !OccursAt(text, pat, 0);
      assert text[..|pat|] == [text[0]] + text[1..][..|pat| - 1];
    }
  }

  /** A text without the pattern has none in any of its tails. */
  lemma AbsentFromTail(text: string, k: nat, pat: string)
    requires k <= |text| && !Occurs(text, pat)
    ensures !Occurs(text[k..], pat)
  {
    forall i | OccursAt(text[k..], pat, i) ensures OccursAt(text, pat, i + k) {
      assert text[k..][i..i + |pat|] == text[i + k..i + k + |pat|];
    }
  }

  lemma TokenizeEmptyList(rest: string)
    ensures Tokenize("[]" + rest) == "[]" + Tokenize(rest)
  {
    var p1 := ParkLists(rest);
    var p2 := ParkDicts(p1);
    var m := MarkBrackets(p2);
    var u := UnparkLists(m);
    assert ParkLists("[]" + rest) == "LIST" + p1 by { ReplaceHit(rest, "[]", "LIST"); }
    assert ParkDicts("LIST" + p1) == "LIST" + p2 by { ReplaceSkip("LIST", p1, "{}", "DICT"); }
    assert MarkBrackets("LIST" + p2) == "LIST" + m by { MarkBracketsSkip("LIST", p2); }
    assert UnparkLists("LIST" + m) == "[]" + u by { ReplaceHit(m, "LIST", "[]"); }
    assert UnparkDicts("[]" + u) == "[]" + UnparkDicts(u) by { ReplaceSkip("[]", u, "DICT", "{}"); }
  }

  lemma TokenizeEmptyDict(rest: string)
    ensures Tokenize("{}" + rest) == "{}" + Tokenize(rest)
  {
    var p1 := ParkLists(rest);
    var p2 := ParkDicts(p1);
    var m := MarkBrackets(p2);
    var u := UnparkLists(m);
    assert ParkLists("{}" + rest) == "{}" + p1 by { ReplaceSkip("{}", rest, "[]", "LIST"); }
    assert ParkDicts("{}" + p1) == "DICT" + p2 by { ReplaceHit(p1, "{}", "DICT"); }
    assert MarkBrackets("DICT" + p2) == "DICT" + m by { MarkBracketsSkip("DICT", p2); }
    assert UnparkLists("DICT" + m) == "DICT" + u by { ReplaceSkip("DICT", m, "LIST", "[]"); }
    assert UnparkDicts("DICT" + u) == "{}" + UnparkDicts(u) by { ReplaceHit(u, "DICT", "{}"); }
  }

  /** A leading `L` or `D` that does not begin a `LIST` or `DICT` is kept. */
  lemma TokenizeLetter(c: char, rest: string)
    requires c == 'L' || c == 'D'
    requires c == 'L' ==> !OccursAt(rest, "IST", 0)
    requires c == 'D' ==> !OccursAt(rest, "ICT", 0)
    ensures Tokenize([c] + rest) == [c] + Tokenize(rest)
  {
    var p1 := ParkLists(rest);
    var p2 := ParkDicts(p1);
    var m := MarkBrackets(p2);
    var u := UnparkLists(m);
    assert ParkLists([c] + rest) == [c] + p1 by { ReplaceSkip([c], rest, "[]", "LIST"); }
    assert ParkDicts([c] + p1) == [c] + p2 by { ReplaceSkip([c], p1, "{}", "DICT"); }
    assert MarkBrackets([c] + p2) == [c] + m by { MarkBracketsSkip([c], p2); }
    if c == 'L' {
      assert !OccursAt(m, "IST", 0) by {
        if OccursAt(m, "IST", 0) { HeadBeforeUnpark(rest, "IST"); }
      }
      assert UnparkLists([c] + m) == [c] + u by { ReplaceLetter(c, m, "LIST", "[]"); }
      assert UnparkDicts([c] + u) == [c] + UnparkDicts(u) by { ReplaceSkip([c], u, "DICT", "{}"); }
    } else {
      assert UnparkLists([c] + m) == [c] + u by { ReplaceSkip([c], m, "LIST", "[]"); }
      assert !OccursAt(u, "ICT", 0) by {
        if OccursAt(u, "ICT", 0) {
          ReplaceKeepsHead(m, "LIST", "[]", "ICT");
          HeadBeforeUnpark(rest, "ICT");
        }
      }
      assert UnparkDicts([c] + u) == [c] + UnparkDicts(u) by { ReplaceLetter(c, u, "DICT", "{}"); }
    }
  }

  /** A head of letters other than `L` and `D` in the text steps 1.6-1.7
      leave behind was already the text's head. */
  lemma HeadBeforeUnpark(rest: string, w: string)
    requires w == "IST" || w == "ICT"
    requires OccursAt(MarkBrackets(ParkDicts(ParkLists(rest))), w, 0)
    ensures OccursAt(rest, w, 0)
  {
    var p1 := ParkLists(rest);
    var p2 := ParkDicts(p1);
    MarkClosingsKeepsHead(MarkOpenings(p2), w);
    MarkOpeningsKeepsHead(p2, w);
    ReplaceKeepsHead(p1, "{}", "DICT", w);
    ReplaceKeepsHead(rest, "[]", "LIST", w);
  }

  /** A replacement cannot produce a head that does not hold the first
      character of the replacement: such a head was there before. */
  lemma {:induction false} ReplaceKeepsHead(s: string, pat: string, rep: string, w: string)
    requires |pat| > 0 && |rep| > 0 && rep[0] !in w
    requires OccursAt(ReplaceAll(s, pat, rep), w, 0)
    ensures OccursAt(s, w, 0)
    decreases |w|
  {
    if w != [] && |s| >= |pat| {
      assert w[0] in w;
      var r := ReplaceAll(s[1..], pat, rep);
      assert ReplaceAll(s, pat, rep) == [s[0]] + r;
      assert r[..|w| - 1] == w[1..];
      ReplaceKeepsHead(s[1..], pat, rep, w[1..]);
      assert s[..|w|] == [s[0]] + s[1..][..|w| - 1];
    }
  }

  lemma {:induction false} MarkOpeningsKeepsHead(s: string, w: string)
    requires ' ' !in w && OccursAt(MarkOpenings(s), w, 0)
    ensures OccursAt(s, w, 0)
    decreases |w|
  {
    if w != [] {
      assert w[0] in w;
      var r := MarkOpenings(s[1..]);
      assert MarkOpenings(s) == [s[0]] + r;
      assert r[..|w| - 1] == w[1..];
      MarkOpeningsKeepsHead(s[1..], w[1..]);
      assert s[..|w|] == [s[0]] + s[1..][..|w| - 1];
    }
  }

  lemma {:induction false} MarkClosingsKeepsHead(s: string, w: string)
    requires ' ' !in w && OccursAt(MarkClosings(s), w, 0)
    ensures OccursAt(s, w, 0)
    decreases |w|
  {
    if w != [] {
      assert w[0] in w;
      var r := MarkClosings(s[1..]);
      assert MarkClosings(s) == [s[0]] + r;
      assert r[..|w| - 1] == w[1..];
      MarkClosingsKeepsHead(s[1..], w[1..]);
      assert s[..|w|] == [s[0]] + s[1..][..|w| - 1];
    }
  }

  /** The pattern's first letter followed by anything but the rest of the
      pattern is kept. */
  lemma ReplaceLetter(c: char, s: string, pat: string, rep: string)
    requires |pat| > 1 && pat[0] == c && !OccursAt(s, pat[1..], 0)
    ensures ReplaceAll([c] + s, pat, rep) == [c] + ReplaceAll(s, pat, rep)
  {
    ReplaceMiss([c] + s, pat, rep);
    assert ([c] + s)[1..] == s;
  }

  lemma TokenizeChar(c: char, rest: string)
    requires c != 'L' && c != 'D'
    requires !(c == '[' && rest != [] && rest[0] == ']')
    requires !(c == '{' && rest != [] && rest[0] == '}')
    ensures Tokenize([c] + rest) == MarkOf(c) + Tokenize(rest)
  {
    var p1 := ParkLists(rest);
    var p2 := ParkDicts(p1);
    var m := MarkBrackets(p2);
    var u := UnparkLists(m);
    assert ParkLists([c] + rest) == [c] + p1 by {
      assert |[c] + rest| >= 2 ==> ([c] + rest)[..2] == [c, rest[0]];
      ReplaceMiss([c] + rest, "[]", "LIST");
      assert ([c] + rest)[1..] == rest;
    }
    assert ParkDicts([c] + p1) == [c] + p2 by {
      ProtectedHead(rest);
      assert |[c] + p1| >= 2 ==> ([c] + p1)[..2] == [c, p1[0]];
      ReplaceMiss([c] + p1, "{}", "DICT");
      assert ([c] + p1)[1..] == p1;
    }
    assert MarkBrackets([c] + p2) == MarkOf(c) + m by {
      MarkOpeningsAppend([c], p2);
      MarkClosingsAppend(MarkOpenings([c]), MarkOpenings(p2));
      MarkChar(c);
    }
    assert UnparkLists(MarkOf(c) + m) == MarkOf(c) + u by { ReplaceSkip(MarkOf(c), m, "LIST", "[]"); }
    assert UnparkDicts(MarkOf(c) + u) == MarkOf(c) + UnparkDicts(u) by {
      ReplaceSkip(MarkOf(c), u, "DICT", "{}");
    }
  }

  /** A bracket-free head passes step 1.7 unchanged. */
  lemma MarkBracketsSkip(x: string, s: string)
    requires '[' !in x && ']' !in x && '{' !in x && '}' !in x
    ensures MarkBrackets(x + s) == x + MarkBrackets(s)
  {
    MarkOpeningsAppend(x, s);
    Unmarked(x);
    MarkClosingsAppend(x, MarkOpenings(s));
  }

  /** Text without brackets passes both substitutions of step 1.7 unchanged. */
  lemma {:induction false} Unmarked(s: string)
    requires '[' !in s && ']' !in s && '{' !in s && '}' !in s
    ensures MarkOpenings(s) == s && MarkClosings(s) == s
    decreases |s|
  {
    if s != [] {
      Unmarked(s[1..]);
      assert s == [s[0]] + s[1..];
    }
  }

  lemma MarkChar(c: char)
    ensures MarkClosings(MarkOpenings([c])) == MarkOf(c)
  {
    assert [c][1..] == [];
    if c == '[' || c == '{' {
      var o := MarkOpenings([c]);
      assert o == " « " + MarkOpenings([]);
      assert o == " « ";
      Unmarked(" « ");
      assert MarkClosings(o) == " « ";
    } else {
      assert MarkOpenings([c]) == [c];
      assert MarkClosings([c]) == MarkOf(c);
    }
  }

  /** Parking `[]` never produces a `}` that was not there. */
  lemma ProtectedHead(rest: string)
    ensures ParkLists(rest) == [] <==> rest == []
    ensures rest != [] ==> (ParkLists(rest)[0] == '}' <==> rest[0] == '}')
  {
  }

  /** A prefix that cannot start the pattern passes through. */
  lemma {:induction false} ReplaceSkip(x: string, s: string, pat: string, rep: string)
    requires |pat| > 0 && pat[0] !in x
    ensures ReplaceAll(x + s, pat, rep) == x + ReplaceAll(s, pat, rep)
    decreases |x|
  {
    if x != [] {
      ReplaceSkip(x[1..], s, pat, rep);
      assert (x + s)[0] == x[0] && (x + s)[1..] == x[1..] + s;
      assert pat[0] !in x[1..];
      ReplaceMiss(x + s, pat, rep);
      assert x == [x[0]] + x[1..];
      assert [x[0]] + (x[1..] + ReplaceAll(s, pat, rep)) == x + ReplaceAll(s, pat, rep);
    } else {
      assert x + s == s;
    }
  }

  /** An occurrence at the front is replaced. */
  lemma ReplaceHit(s: string, pat: string, rep: string)
    requires |pat| > 0
    ensures ReplaceAll(pat + s, pat, rep) == rep + ReplaceAll(s, pat, rep)
  {
    assert (pat + s)[..|pat|] == pat && (pat + s)[|pat|..] == s;
  }

  /** Without an occurrence at the front the first character is kept. */
  lemma ReplaceMiss(s: string, pat: string, rep: string)
    requires |pat| > 0 && s != []
    requires !(|s| >= |pat| && s[..|pat|] == pat)
    ensures ReplaceAll(s, pat, rep) == [s[0]] + ReplaceAll(s[1..], pat, rep)
  {
    if |s| < |pat| {
      assert s == [s[0]] + s[1..];
    }
  }

  lemma {:induction false} MarkOpeningsAppend(a: string, b: string)
    ensures MarkOpenings(a + b) == MarkOpenings(a) + MarkOpenings(b)
    decreases |a|
  {
    if a != [] {
      assert (a + b)[1..] == a[1..] + b;
      MarkOpeningsAppend(a[1..], b);
    } else {
      assert a + b == b;
    }
  }

  lemma {:induction false} MarkClosingsAppend(a: string, b: string)
    ensures MarkClosings(a + b) == MarkClosings(a) + MarkClosings(b)
    decreases |a|
  {
    if a != [] {
      assert (a + b)[1..] == a[1..] + b;
      MarkClosingsAppend(a[1..], b);
    } else {
      assert a + b == b;
    }
  }

  // ---------------------------------------------------------------------------
  // Step 2: the restructure walk

  /** The non-empty pieces, in order. */
  function NonEmptyPieces(pieces: seq<string>): (r: seq<string>)
    ensures forall k :: 0 <= k < |r| ==> r[k] != ""
    decreases |pieces|
  {
    if pieces == [] then []
    else if pieces[0] == "" then NonEmptyPieces(pieces[1..])
    else [pieces[0]] + NonEmptyPieces(pieces[1..])
  }

  /** The filter keeps exactly the non-empty pieces. */
  lemma {:induction false} NonEmptyPiecesFrom(pieces: seq<string>)
    ensures forall k :: 0 <= k < |NonEmptyPieces(pieces)| ==> NonEmptyPieces(pieces)[k] in pieces
    ensures forall k :: 0 <= k < |pieces| && pieces[k] != "" ==> pieces[k] in NonEmptyPieces(pieces)
    decreases |pieces|
  {
    if pieces != [] {
      NonEmptyPiecesFrom(pieces[1..]);
      forall k | 0 <= k < |pieces| && pieces[k] != "" ensures pieces[k] in NonEmptyPieces(pieces) {
        if k > 0 {
          assert pieces[k] == pieces[1..][k - 1];
        }
      }
    }
  }

  /** Python's `xs[1:-1]`. */
  function DropEnds<T>(xs: seq<T>): seq<T> {
    if |xs| < 2 then [] else xs[1..|xs| - 1]
  }

  /** The tokens the walk visits: the text split at spaces and commas, empty
      pieces dropped, and the first and last piece (the outer dict's own
      marks) dropped too. */
  function Items(text: string): seq<string> {
    DropEnds(NonEmptyPieces(SplitAny(text, {' ', ','})))
  }

  /** Every token the walk visits is a non-empty run of characters other than
      spaces and commas. */
  lemma ItemsClean(text: string)
    ensures forall k :: 0 <= k < |Items(text)| ==>
      Items(text)[k] != "" && ' ' !in Items(text)[k] && ',' !in Items(text)[k]
  {
    var pieces := SplitAny(text, {' ', ','});
    var kept := NonEmptyPieces(pieces);
    SplitAnyPieces(text, {' ', ','});
    NonEmptyPiecesFrom(pieces);
    forall k | 0 <= k < |Items(text)|
      ensures Items(text)[k] != "" && ' ' !in Items(text)[k] && ',' !in Items(text)[k]
    {
      var item := kept[k + 1];
      assert Items(text)[k] == item;
      assert item in pieces;
      var j :| 0 <= j < |pieces| && pieces[j] == item;
      forall i | 0 <= i < |item| ensures item[i] != ' ' && item[i] != ',' {
        assert pieces[j][i] !in {' ', ','};
      }
    }
  }

  /** `level * "\t"`: no tabs at all for a level that is not positive. */
  function Tabs(level: int): (r: string)
    ensures |r| == if level <= 0 then 0 else level
    ensures forall i :: 0 <= i < |r| ==> r[i] == '\t'
  {
    if level <= 0 then "" else Repeat('\t', level)
  }

  /** What the walk emits from `items` on, at depth `level` after the token
      `last`. */
  function RestructureFrom(items: seq<string>, level: int, last: string): seq<string>
    decreases |items|
  {
    if items == [] then []
    else
      var item := items[0];
      if item == "«" then
        (if last == "»" then [Tabs(level) + ","] else []) + RestructureFrom(items[1..], level + 1, item)
      else if item == "»" then RestructureFrom(items[1..], level - 1, item)
      else [Tabs(level) + item] + RestructureFrom(items[1..], level, item)
  }

  /** The loop of step 2. */
  method RestructureLines(items: seq<string>) returns (lines: seq<string>)
    ensures lines == RestructureFrom(items, 0, "")
  {
    lines := [];
    var level := 0;
    var last := "";
    for i := 0 to |items|
      invariant lines + RestructureFrom(items[i..], level, last) == RestructureFrom(items, 0, "")
    {
      var item := items[i];
      if item == "«" {
        if last == "»" {
          WalkComma(items, i, level, lines);
          lines := lines + [Tabs(level) + ","];
        } else {
          WalkOpen(items, i, level, last, lines);
        }
        level := level + 1;
      } else if item == "»" {
        WalkClose(items, i, level, last, lines);
        level := level - 1;
      } else {
        WalkContent(items, i, level, last, lines);
        lines := lines + [Tabs(level) + item];
      }
      last := item;
    }
    assert items[|items|..] == [];
  }

  /** The four turns of the loop, each keeping its invariant. */
  lemma WalkComma(items: seq<string>, i: nat, level: int, lines: seq<string>)
    requires i < |items| && items[i] == "«"
    requires lines + RestructureFrom(items[i..], level, "»") == RestructureFrom(items, 0, "")
    ensures (lines + [Tabs(level) + ","]) + RestructureFrom(items[i + 1..], level + 1, items[i]) ==
      RestructureFrom(items, 0, "")
  {
    RestructureUnfold(items, i, level, "»");
  }

  lemma WalkOpen(items: seq<string>, i: nat, level: int, last: string, lines: seq<string>)
    requires i < |items| && items[i] == "«" && last != "»"
    requires lines + RestructureFrom(items[i..], level, last) == RestructureFrom(items, 0, "")
    ensures lines + RestructureFrom(items[i + 1..], level + 1, items[i]) == RestructureFrom(items, 0, "")
  {
    RestructureUnfold(items, i, level, last);
    assert [] + RestructureFrom(items[i + 1..], level + 1, items[i]) ==
      RestructureFrom(items[i + 1..], level + 1, items[i]);
  }

  lemma WalkClose(items: seq<string>, i: nat, level: int, last: string, lines: seq<string>)
    requires i < |items| && items[i] == "»"
    requires lines + RestructureFrom(items[i..], level, last) == RestructureFrom(items, 0, "")
    ensures lines + RestructureFrom(items[i + 1..], level - 1, items[i]) == RestructureFrom(items, 0, "")
  {
    RestructureUnfold(items, i, level, last);
  }

  lemma WalkContent(items: seq<string>, i: nat, level: int, last: string, lines: seq<string>)
    requires i < |items| && items[i] != "«" && items[i] != "»"
    requires lines + RestructureFrom(items[i..], level, last) == RestructureFrom(items, 0, "")
    ensures (lines + [Tabs(level) + items[i]]) + RestructureFrom(items[i + 1..], level, items[i]) ==
      RestructureFrom(items, 0, "")
  {
    RestructureUnfold(items, i, level, last);
  }

  lemma RestructureUnfold(items: seq<string>, i: nat, level: int, last: string)
    requires i < |items|
    ensures RestructureFrom(items[i..], level, last) ==
      if items[i] == "«" then
        (if last == "»" then [Tabs(level) + ","] else []) + RestructureFrom(items[i + 1..], level + 1, items[i])
      else if items[i] == "»" then RestructureFrom(items[i + 1..], level - 1, items[i])
      else [Tabs(level) + items[i]] + RestructureFrom(items[i + 1..], level, items[i])
  {
    assert items[i..][0] == items[i] && items[i..][1..] == items[i + 1..];
  }

  /** How deep the tokens `xs` leave the walk: the opening marks among them
      minus the closing ones. */
  function MarkDepth(xs: seq<string>): int {
    multiset(xs)["«"] as int - multiset(xs)["»"] as int
  }

  /** What token `k` contributes, in closed form: a content token its own line
      behind as many tabs as the marks before it leave open; an opening mark
      right after a closing one a `,` line at that depth; any other mark
      nothing. */
  function LineAt(items: seq<string>, k: nat): seq<string>
    requires k < |items|
  {
    var level := MarkDepth(items[..k]);
    if items[k] == "«" then
      if Before(items, k) == "»" then [Tabs(level) + ","] else []
    else if items[k] == "»" then []
    else [Tabs(level) + items[k]]
  }

  function LinesFrom(items: seq<string>, k: nat): seq<string>
    requires k <= |items|
    decreases |items| - k
  {
    if k == |items| then [] else LineAt(items, k) + LinesFrom(items, k + 1)
  }

  /** The walk's output is the tokens' contributions, in order. */
  lemma RestructureLayout(items: seq<string>)
    ensures RestructureFrom(items, 0, "") == LinesFrom(items, 0)
  {
    RestructureClosed(items, 0);
    assert items[..0] == [] && items[0..] == items;
    assert Before(items, 0) == "";
  }

  lemma {:induction false} RestructureClosed(items: seq<string>, k: nat)
    requires k <= |items|
    ensures ClosedFrom(items, k)
    decreases |items| - k
  {
    if k < |items| {
      RestructureClosed(items, k + 1);
      ClosedStep(items, k);
    }
  }

  /** From position `k` on, the walk emits the tokens' contributions. */
  predicate ClosedFrom(items: seq<string>, k: nat)
    requires k <= |items|
  {
    RestructureFrom(items[k..], MarkDepth(items[..k]), Before(items, k)) == LinesFrom(items, k)
  }

  /** The token the walk saw last before position `k`. */
  function Before(items: seq<string>, k: nat): string
    requires k <= |items|
  {
    if k == 0 then "" else items[k - 1]
  }

  lemma ClosedStep(items: seq<string>, k: nat)
    requires k < |items|
    requires ClosedFrom(items, k + 1)
    ensures ClosedFrom(items, k)
  {
    var level := MarkDepth(items[..k]);
    var head := LineAt(items, k);
    assert RestructureFrom(items[k..], level, Before(items, k)) ==
      head + RestructureFrom(items[k + 1..], MarkDepth(items[..k + 1]), items[k]) by {
      RestructureUnfold(items, k, level, Before(items, k));
      DepthStep(items, k);
    }
    assert Before(items, k + 1) == items[k];
    assert LinesFrom(items, k) == head + LinesFrom(items, k + 1);
  }

  lemma DepthStep(items: seq<string>, k: nat)
    requires k < |items|
    ensures MarkDepth(items[..k + 1]) ==
      MarkDepth(items[..k]) + (if items[k] == "«" then 1 else if items[k] == "»" then -1 else 0)
  {
    assert items[..k + 1] == items[..k] + [items[k]];
  }

  // ---------------------------------------------------------------------------
  // The whole of `dumps` up to the restoring of strings

  /** `dumps`: anything but a dict is refused with a `TypeError` before any
      rewriting; a dict's text goes through steps 1.4-2 as written, step 1.4
      included (see `SpecialFloatsBreaksPlaceholder`). `vaulted` stands for
      `repr` followed by steps 1.2-1.3. */
  method DumpsStructure(obj: Value, vaulted: Value -> string) returns (r: Result<string>)
    ensures !obj.DictValue? ==>
      r == Failure(TypeError("PyON dump is only intended for dict, but " + TypeName(obj) + " passed."))
    ensures obj.DictValue? ==>
      r == Success(Join(RestructureFrom(Items(Tokenize(RemoveSpaces(SpecialFloats(vaulted(obj))))), 0, ""), "\n"))
  {
    if !obj.DictValue? {
      return Failure(TypeError("PyON dump is only intended for dict, but " + TypeName(obj) + " passed."));
    }
    var result := vaulted(obj);
    result := SpecialFloats(result);
    result := RemoveSpaces(result);
    result := Tokenize(result);
    var lines := RestructureLines(Items(result));
    r := Success(Join(lines, "\n"));
  }
}
