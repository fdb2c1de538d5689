/** The structural passes of `loads` (pyon/__procedure.py): indentation to
    nesting marks, then the bracket resolver. */
module Loads {
  import opened Wrappers
  import opened Ingredients
  import opened Text

  // ---------------------------------------------------------------------------
  // `loads` step 2.1: the lines of the normalised text and their indentation

  /** One match of the `indent_level` pattern: the tab count and the rest. */
  datatype Entry = Entry(level: nat, content: string)

  function LeadingTabs(line: string): (n: nat)
    ensures n <= |line| && forall i :: 0 <= i < n ==> line[i] == '\t'
    ensures n < |line| ==> line[n] != '\t'
    decreases |line|
  {
    if line != [] && line[0] == '\t' then 1 + LeadingTabs(line[1..]) else 0
  }

  function EntryOf(line: string): Entry {
    Entry(LeadingTabs(line), line[LeadingTabs(line)..])
  }

  /** `re.findall(pattern["indent_level"], text, flags=re.MULTILINE)`: one
      entry per line, the leading tabs counted and the rest kept. */
  function IndentEntries(text: string): (r: seq<Entry>)
    ensures |r| == |SplitAny(text, {'\n'})|
  {
    var lines := SplitAny(text, {'\n'});
    seq(|lines|, k requires 0 <= k < |lines| => EntryOf(lines[k]))
  }

  function EntryText(e: Entry): string {
    Repeat('\t', e.level) + e.content
  }

  function EntryTexts(es: seq<Entry>): seq<string> {
    seq(|es|, k requires 0 <= k < |es| => EntryText(es[k]))
  }

  /** The entries describe the text exactly: re-indenting each one and joining
      them with newlines rebuilds it, and no content starts with a tab. */
  lemma IndentEntriesRebuild(text: string)
    ensures forall k :: 0 <= k < |IndentEntries(text)| ==>
      var c := IndentEntries(text)[k].content; c == [] || c[0] != '\t'
    ensures Join(EntryTexts(IndentEntries(text)), "\n") == text
  {
    var lines := SplitAny(text, {'\n'});
    var es := IndentEntries(text);
    forall k | 0 <= k < |lines|
      ensures EntryText(es[k]) == lines[k]
      ensures es[k].content == [] || es[k].content[0] != '\t'
    {
      EntryOfRebuild(lines[k]);
    }
    assert EntryTexts(es) == lines;
    JoinSplit(text, '\n');
  }

  lemma EntryOfRebuild(line: string)
    ensures EntryText(EntryOf(line)) == line
    ensures var c := EntryOf(line).content; c == [] || c[0] != '\t'
  {
    var n := LeadingTabs(line);
    assert Repeat('\t', n) == line[..n];
    assert line == line[..n] + line[n..];
  }

  // ---------------------------------------------------------------------------
  // `loads` steps 2.1-2.2: the indentation structurizer

  /** `[m for m in matches if m[1]]`: the entries with some content, in order. */
  function NonEmpty(entries: seq<Entry>): (r: seq<Entry>)
    ensures |r| <= |entries|
    ensures forall k :: 0 <= k < |r| ==> r[k].content != []
    decreases |entries|
  {
    if entries == [] then []
    else (if entries[0].content != [] then [entries[0]] else []) + NonEmpty(entries[1..])
  }

  /** The filter keeps exactly the entries with content: empty lines are
      dropped and nothing else is. */
  lemma {:induction false} NonEmptyKeeps(entries: seq<Entry>, e: Entry)
    ensures e in NonEmpty(entries) <==> e in entries && e.content != []
    decreases |entries|
  {
    if entries != [] {
      NonEmptyKeeps(entries[1..], e);
      assert entries == [entries[0]] + entries[1..];
    }
  }

  /** `re.sub(pattern["comma_worth"], r"\1,", content)`: content that does not
      already end in a colon or a comma gets a trailing comma. */
  function CommaWorth(content: string): string {
    if content != [] && content[|content| - 1] != ':' && content[|content| - 1] != ',' then content + [',']
    else content
  }

  /** The comma rule adds at most a comma, leaves every non-empty line ending
      in a colon or a comma, and leaves lines already ending so alone. */
  lemma CommaWorthShape(content: string)
    ensures var r := CommaWorth(content);
      (r == content || r == content + [',']) &&
      (content != [] ==> r[|r| - 1] == ':' || r[|r| - 1] == ',') &&
      (content != [] && (content[|content| - 1] == ':' || content[|content| - 1] == ',') ==> r == content) &&
      (content == [] ==> r == [])
  {
  }

  /** The run of nesting marks for a change of depth: `«` per level deeper,
      `»` per level shallower. */
  function Marks(diff: int): (r: string)
    ensures diff >= 0 ==> r == Repeat('«', diff)
    ensures diff < 0 ==> r == Repeat('»', -diff)
  {
    if diff > 0 then Repeat('«', diff)
    else if diff < 0 then Repeat('»', -diff)
    else []
  }

  /** The line the loop appends for entry `m` when the depth so far is `level`. */
  function LineFor(m: Entry, level: nat): string {
    Marks(m.level - level) + CommaWorth(m.content)
  }

  /** What the loop appends from here on, the closing run of step 2.2 included. */
  function EmitLines(ms: seq<Entry>, level: nat): (r: seq<string>)
    ensures |r| == |ms| + 1
    decreases |ms|
  {
    if ms == [] then [Repeat('»', level)]
    else [LineFor(ms[0], level)] + EmitLines(ms[1..], ms[0].level)
  }

  /** The lines `loads` joins at the end of step 2.2. */
  function StructuredLines(ms: seq<Entry>): seq<string> {
    ["{"] + EmitLines(ms, 0) + ["}"]
  }

  /** The entries step 2.1 walks: the lines with content. */
  function Matches(text: string): seq<Entry> {
    NonEmpty(IndentEntries(text))
  }

  /** Steps 2.1-2.2 of `loads` on the normalised text: walk the non-empty lines
      keeping the current depth, and prefix each line with the marks that take
      the depth to its own. */
  method Structurize(text: string) returns (result: string)
    ensures result == Concat(StructuredLines(Matches(text)))
  {
    var matches := Matches(text);
    var resultLines := StructureLines(matches);
    result := Concat(resultLines);
  }

  /** The loop of step 2.2 over the entries of step 2.1. */
  method StructureLines(matches: seq<Entry>) returns (resultLines: seq<string>)
    ensures resultLines == StructuredLines(matches)
  {
    var level: nat := 0;
    resultLines := ["{"];
    for i := 0 to |matches|
      invariant resultLines + EmitLines(matches[i..], level) == ["{"] + EmitLines(matches, 0)
    {
      var m := matches[i];
      var thisLevel := m.level;
      var levelDiff := thisLevel - level;
      var thisLine := CommaWorth(m.content);
      if levelDiff > 0 {
        thisLine := Repeat('«', levelDiff) + thisLine;
        LineDeeper(m, level, levelDiff);
      } else if levelDiff < 0 {
        thisLine := Repeat('»', -levelDiff) + thisLine;
        LineShallower(m, level, levelDiff);
      } else {
        LineLevel(m, level);
      }
      StructureStep(matches, i, level, resultLines, thisLine);
      resultLines := resultLines + [thisLine];
      level := thisLevel;
    }
    FinishLines(matches, level, resultLines);
    resultLines := resultLines + [Repeat('»', level)];
    resultLines := resultLines + ["}"];
  }

  /** The line rule by cases, the way the loop builds it. */
  lemma LineDeeper(m: Entry, level: nat, diff: int)
    requires diff == m.level - level > 0
    ensures LineFor(m, level) == Repeat('«', diff) + CommaWorth(m.content)
  {
  }

  lemma LineShallower(m: Entry, level: nat, diff: int)
    requires diff == m.level - level < 0
    ensures LineFor(m, level) == Repeat('»', -diff) + CommaWorth(m.content)
  {
  }

  lemma LineLevel(m: Entry, level: nat)
    requires m.level == level
    ensures LineFor(m, level) == CommaWorth(m.content)
  {
    assert [] + CommaWorth(m.content) == CommaWorth(m.content);
  }

  /** One turn of the loop keeps what is emitted plus what remains equal to
      the whole. */
  lemma StructureStep(ms: seq<Entry>, i: nat, level: nat, done: seq<string>, line: string)
    requires i < |ms|
    requires done + EmitLines(ms[i..], level) == ["{"] + EmitLines(ms, 0)
    requires line == LineFor(ms[i], level)
    ensures (done + [line]) + EmitLines(ms[i + 1..], ms[i].level) == ["{"] + EmitLines(ms, 0)
  {
    EmitLinesFrom(ms, i, level);
    ShiftLine(done, line, EmitLines(ms[i + 1..], ms[i].level));
  }

  lemma FinishLines(ms: seq<Entry>, level: nat, done: seq<string>)
    requires done + EmitLines(ms[|ms|..], level) == ["{"] + EmitLines(ms, 0)
    ensures (done + [Repeat('»', level)]) + ["}"] == StructuredLines(ms)
  {
    assert ms[|ms|..] == [];
  }
  lemma ShiftLine(done: seq<string>, line: string, rest: seq<string>)
    ensures done + ([line] + rest) == (done + [line]) + rest
  {
  }

  lemma EmitLinesFrom(ms: seq<Entry>, i: nat, level: nat)
    requires i < |ms|
    ensures EmitLines(ms[i..], level) == [LineFor(ms[i], level)] + EmitLines(ms[i + 1..], ms[i].level)
  {
    assert ms[i..][1..] == ms[i + 1..];
  }

  /** The depth before entry `k`: the start depth, then each entry's own. */
  function LevelBefore(ms: seq<Entry>, start: nat, k: nat): nat
    requires k <= |ms|
  {
    if k == 0 then start else ms[k - 1].level
  }

  /** The line rule, position by position: entry `k` yields line `k`, made of
      the marks from the previous entry's depth to its own and its content
      with the comma rule applied; the last line closes every open level. */
  lemma {:induction false} EmitLinesAt(ms: seq<Entry>, start: nat, k: nat)
    requires k <= |ms|
    ensures k < |ms| ==> EmitLines(ms, start)[k] == Marks(ms[k].level - LevelBefore(ms, start, k)) + CommaWorth(ms[k].content)
    ensures k == |ms| ==> EmitLines(ms, start)[k] == Repeat('»', LevelBefore(ms, start, k))
    decreases k
  {
    if k > 0 {
      EmitLinesAt(ms[1..], ms[0].level, k - 1);
      EmitLinesShift(ms, start, k);
    } else if ms == [] {
      assert EmitLines(ms, start) == [Repeat('»', start)];
    } else {
      assert EmitLines(ms, start) == [LineFor(ms[0], start)] + EmitLines(ms[1..], ms[0].level);
    }
  }

  lemma EmitLinesShift(ms: seq<Entry>, start: nat, k: nat)
    requires 0 < k <= |ms|
    ensures EmitLines(ms, start)[k] == EmitLines(ms[1..], ms[0].level)[k - 1]
    ensures LevelBefore(ms[1..], ms[0].level, k - 1) == LevelBefore(ms, start, k)
    ensures k < |ms| ==> ms[1..][k - 1] == ms[k]
  {
    assert EmitLines(ms, start) == [LineFor(ms[0], start)] + EmitLines(ms[1..], ms[0].level);
    if k > 1 {
      assert ms[1..][k - 2] == ms[k - 1];
    }
  }

  /** How far a text nests: its `«` count minus its `»` count. */
  function Depth(s: string): int {
    multiset(s)['«'] as int - multiset(s)['»'] as int
  }

  predicate NoMarks(s: string) {
    '«' !in s && '»' !in s
  }

  lemma DepthRepeat(c: char, n: nat)
    ensures multiset(Repeat(c, n))[c] == n
    ensures forall d :: d != c ==> multiset(Repeat(c, n))[d] == 0
  {
    if n > 0 {
      assert Repeat(c, n) == Repeat(c, n - 1) + [c];
      DepthRepeat(c, n - 1);
    }
  }

  lemma DepthMarks(diff: int, j: nat)
    requires j <= |Marks(diff)|
    ensures Depth(Marks(diff)[..j]) == if diff >= 0 then j as int else -(j as int)
    ensures Depth(Marks(diff)) == diff
  {
    if diff >= 0 {
      assert Marks(diff)[..j] == Repeat('«', j);
      DepthRepeat('«', j);
      DepthRepeat('«', diff);
    } else {
      assert Marks(diff)[..j] == Repeat('»', j);
      DepthRepeat('»', j);
      DepthRepeat('»', -diff);
    }
  }

  lemma DepthNoMarks(s: string)
    requires NoMarks(s)
    ensures Depth(s) == 0
  {
  }

  /** Balance of what the loop emits: read from the start, the depth never
      drops below zero, and after the closing run it is back to zero. */
  lemma {:induction false} EmitBalance(ms: seq<Entry>, level: nat)
    requires forall k :: 0 <= k < |ms| ==> NoMarks(ms[k].content)
    ensures var t := Concat(EmitLines(ms, level));
      level + Depth(t) == 0 &&
      forall j :: 0 <= j <= |t| ==> level + Depth(t[..j]) >= 0
    decreases |ms|
  {
    if ms == [] {
      ClosingBalance(level);
    } else {
      var m := ms[0];
      EmitBalance(ms[1..], m.level);
      assert NoMarks(m.content);
      LineBalance(m, level, Concat(EmitLines(ms[1..], m.level)));
    }
  }

  lemma ClosingBalance(level: nat)
    ensures var t := Concat([Repeat('»', level)]);
      level + Depth(t) == 0 &&
      forall j :: 0 <= j <= |t| ==> level + Depth(t[..j]) >= 0
  {
    var t := Concat([Repeat('»', level)]);
    assert t == Repeat('»', level) + [];
    forall j | 0 <= j <= |t| ensures level + Depth(t[..j]) >= 0 {
      assert t[..j] == Repeat('»', j);
      DepthRepeat('»', j);
    }
    DepthRepeat('»', level);
  }

  /** One line followed by a balanced rest keeps the balance. */
  lemma LineBalance(m: Entry, level: nat, u: string)
    requires NoMarks(m.content)
    requires m.level + Depth(u) == 0
    requires forall j :: 0 <= j <= |u| ==> m.level + Depth(u[..j]) >= 0
    ensures var t := LineFor(m, level) + u;
      level + Depth(t) == 0 &&
      forall j :: 0 <= j <= |t| ==> level + Depth(t[..j]) >= 0
  {
    LineOwnBalance(m, level);
    BalanceAppend(level, LineFor(m, level), u);
  }

  /** A line takes the depth from `level` to its entry's own, never below zero. */
  lemma LineOwnBalance(m: Entry, level: nat)
    requires NoMarks(m.content)
    ensures var line := LineFor(m, level);
      level + Depth(line) == m.level &&
      forall j :: 0 <= j <= |line| ==> level + Depth(line[..j]) >= 0
  {
    var diff := m.level - level;
    var marks := Marks(diff);
    var body := CommaWorth(m.content);
    CommaWorthNoMarks(m.content);
    DepthMarks(diff, |marks|);
    DepthNoMarks(body);
    DepthAppend(marks, body);
    LinePrefixes(level, diff, body);
  }

  lemma CommaWorthNoMarks(content: string)
    requires NoMarks(content)
    ensures NoMarks(CommaWorth(content))
  {
    CommaWorthShape(content);
  }

  lemma LinePrefixes(level: nat, diff: int, body: string)
    requires NoMarks(body) && level + diff >= 0
    ensures var line := Marks(diff) + body;
      forall j :: 0 <= j <= |line| ==> level + Depth(line[..j]) >= 0
  {
    var marks := Marks(diff);
    var line := marks + body;
    forall j | 0 <= j <= |line| ensures level + Depth(line[..j]) >= 0 {
      PrefixOfAppend(marks, body, j);
      DepthMarks(diff, |marks|);
      if j <= |marks| {
        DepthMarks(diff, j);
      } else {
        PrefixNoMarks(body, j - |marks|);
        DepthAppend(marks, body[..j - |marks|]);
      }
    }
  }

  lemma PrefixOfAppend(a: string, b: string, j: nat)
    requires j <= |a| + |b|
    ensures j <= |a| ==> (a + b)[..j] == a[..j]
    ensures j > |a| ==> (a + b)[..j] == a + b[..j - |a|]
  {
  }

  lemma PrefixNoMarks(s: string, k: nat)
    requires NoMarks(s) && k <= |s|
    ensures Depth(s[..k]) == 0
  {
    assert s == s[..k] + s[k..];
    DepthAppend(s[..k], s[k..]);
    assert NoMarks(s[..k]) by {
      assert forall c :: c in s[..k] ==> c in s;
    }
  }

  /** Two pieces that each stay above the floor, the second starting where the
      first ends, stay above it together. */
  lemma BalanceAppend(level: int, a: string, u: string)
    requires forall j :: 0 <= j <= |a| ==> level + Depth(a[..j]) >= 0
    requires forall j :: 0 <= j <= |u| ==> level + Depth(a) + Depth(u[..j]) >= 0
    ensures forall j :: 0 <= j <= |a + u| ==> level + Depth((a + u)[..j]) >= 0
    ensures Depth(a + u) == Depth(a) + Depth(u)
  {
    DepthAppend(a, u);
    forall j | 0 <= j <= |a + u| ensures level + Depth((a + u)[..j]) >= 0 {
      PrefixOfAppend(a, u, j);
      if j > |a| {
        DepthAppend(a, u[..j - |a|]);
      }
    }
  }

  /** Balance and framing of the text step 2.2 produces from nesting-free
      entries: it opens with `{`, closes with `}`, and in between the nesting
      depth never goes negative and ends at zero. */
  lemma StructuredBalance(ms: seq<Entry>)
    requires forall k :: 0 <= k < |ms| ==> NoMarks(ms[k].content)
    ensures var t := Concat(StructuredLines(ms));
      |t| >= 2 && t[0] == '{' && t[|t| - 1] == '}' &&
      Depth(t) == 0 && forall j :: 0 <= j <= |t| ==> Depth(t[..j]) >= 0
  {
    EmitBalance(ms, 0);
    ConcatFramed(EmitLines(ms, 0));
    FramedBalance(Concat(EmitLines(ms, 0)));
  }

  lemma ConcatFramed(lines: seq<string>)
    ensures Concat(["{"] + lines + ["}"]) == "{" + Concat(lines) + "}"
  {
    ConcatAppend(["{"] + lines, ["}"]);
    ConcatAppend(["{"], lines);
    ConcatSingle("{");
    ConcatSingle("}");
  }

  /** Braces around a balanced text keep it balanced. */
  lemma FramedBalance(inner: string)
    requires Depth(inner) == 0
    requires forall j :: 0 <= j <= |inner| ==> Depth(inner[..j]) >= 0
    ensures var t := "{" + inner + "}";
      Depth(t) == 0 && forall j :: 0 <= j <= |t| ==> Depth(t[..j]) >= 0
  {
    var t := "{" + inner + "}";
    DepthAppend("{" + inner, "}");
    DepthAppend("{", inner);
    forall j | 0 <= j <= |t| ensures Depth(t[..j]) >= 0 {
      if j == 0 {
        assert t[..j] == [];
      } else if j <= |inner| + 1 {
        assert t[..j] == "{" + inner[..j - 1];
        DepthAppend("{", inner[..j - 1]);
      } else {
        assert t[..j] == t;
      }
    }
  }

  lemma DepthAppend(a: string, b: string)
    ensures Depth(a + b) == Depth(a) + Depth(b)
  {
    assert multiset(a + b) == multiset(a) + multiset(b);
  }

  // ---------------------------------------------------------------------------
  // `loads` step 2.3: a `)` not followed by a comma becomes `»,`

  /** `re.sub(pattern["dedent_no_comma"], "»,", text)`: the lookahead reads the
      original text, so a replaced `)` never hides the next one. */
  function DedentNoComma(s: string): string
    decreases |s|
  {
    if s == [] then []
    else if s[0] == ')' && (|s| == 1 || s[1] != ',') then "»," + DedentNoComma(s[1..])
    else [s[0]] + DedentNoComma(s[1..])
  }

  /** Text without `)` passes through unchanged. */
  lemma {:induction false} DedentNoCommaAbsent(s: string)
    requires ')' !in s
    ensures DedentNoComma(s) == s
    decreases |s|
  {
    if s != [] {
      assert ')' !in s[1..];
      DedentNoCommaAbsent(s[1..]);
      assert [s[0]] + s[1..] == s;
    }
  }

  /** The rewrite only touches `)`: its first character is kept otherwise. */
  lemma DedentNoCommaHead(s: string)
    requires s != [] && s[0] != ')'
    ensures DedentNoComma(s) != [] && DedentNoComma(s)[0] == s[0]
  {
  }

  /** Afterwards every `)` left in the text is followed by a comma. */
  lemma {:induction false} DedentNoCommaCloses(s: string)
    ensures forall i :: 0 <= i < |DedentNoComma(s)| && DedentNoComma(s)[i] == ')' ==>
      i + 1 < |DedentNoComma(s)| && DedentNoComma(s)[i + 1] == ','
    decreases |s|
  {
    if s != [] {
      DedentNoCommaCloses(s[1..]);
      var r := DedentNoComma(s);
      var u := DedentNoComma(s[1..]);
      if s[0] == ')' && (|s| == 1 || s[1] != ',') {
        assert r == "»," + u;
        forall i | 0 <= i < |r| && r[i] == ')' ensures i + 1 < |r| && r[i + 1] == ',' {
          assert i >= 2 && r[i] == u[i - 2];
        }
      } else if s[0] == ')' {
        DedentNoCommaHead(s[1..]);
        assert r == [')'] + u;
        forall i | 0 <= i < |r| && r[i] == ')' ensures i + 1 < |r| && r[i + 1] == ',' {
          if i > 0 {
            assert r[i] == u[i - 1];
          }
        }
      } else {
        assert r == [s[0]] + u;
        forall i | 0 <= i < |r| && r[i] == ')' ensures i + 1 < |r| && r[i + 1] == ',' {
          assert i > 0 && r[i] == u[i - 1];
        }
      }
    }
  }

  // ---------------------------------------------------------------------------
  // `loads` step 3: the bracket resolver

  /** The two answers of `which_structure` that `open_struct` and
      `close_struct` have an entry for. */
  datatype Kind = ListKind | DictKind

  /** What the loop gets when it classifies a slice: a kind with brackets, an
      answer with no entry in `open_struct` (`False`, or `set` for a slice
      that parses as a set), or an exception raised on the way, such as a
      `TypeError` from `ast.literal_eval` on an unhashable key or a decoding
      error while the slice's placeholders are restored. */
  datatype Answer = Classified(kind: Kind) | Unmapped | Raised(error: Error)

  function OpenOf(k: Kind): char {
    match k
    case ListKind => '['
    case DictKind => '{'
  }

  function CloseOf(k: Kind): char {
    match k
    case ListKind => ']'
    case DictKind => '}'
  }

  /** One turn of the loop: the opening character at `b - 1` and the closing
      one at `e` take the brackets of the chosen kind. */
  function ResolveStep(text: string, b: nat, e: nat, k: Kind): (r: string)
    requires 1 <= b <= e < |text|
  {
    text[b - 1 := OpenOf(k)][e := CloseOf(k)]
  }

  /** The pair is replaced and nothing else moves: a `(` and a `)` leave the
      text and a pair of one kind comes in. */
  lemma StepFacts(text: string, b: nat, e: nat, k: Kind)
    requires 1 <= b <= e < |text| && text[b - 1] == '(' && text[e] == ')'
    ensures |ResolveStep(text, b, e, k)| == |text|
    ensures ResolveStep(text, b, e, k)[b - 1] == OpenOf(k)
    ensures ResolveStep(text, b, e, k)[e] == CloseOf(k)
    ensures forall j :: 0 <= j < |text| && j != b - 1 && j != e ==> ResolveStep(text, b, e, k)[j] == text[j]
    ensures multiset(ResolveStep(text, b, e, k)) ==
      multiset(text) - multiset{'(', ')'} + multiset{OpenOf(k), CloseOf(k)}
  {
    var mid := text[b - 1 := OpenOf(k)];
    UpdateMultiset(text, b - 1, OpenOf(k));
    UpdateMultiset(mid, e, CloseOf(k));
    SwapPair(multiset(text), OpenOf(k), CloseOf(k));
  }

  lemma UpdateMultiset(s: string, i: nat, v: char)
    requires i < |s|
    ensures multiset(s[i := v]) == multiset(s) - multiset{s[i]} + multiset{v}
  {
  }

  lemma SwapPair(m: multiset<char>, o: char, c: char)
    requires m['('] >= 1 && m[')'] >= 1
    ensures m - multiset{'('} + multiset{o} - multiset{')'} + multiset{c} ==
      m - multiset{'(', ')'} + multiset{o, c}
  {
  }

  /** What the loop computes: resolve innermost pairs until none is left, or
      fail at the first slice the classifier does not answer list or dict
      for: with `KeyError` for an answer `open_struct` has no entry for, with
      the exception itself where one was raised. `which` stands for
      `which_structure` applied to the slice with its string placeholders
      restored. */
  function ResolveSpec(text: string, which: string -> Answer): Result<string>
    decreases multiset(text)[')']
  {
    match InnermostStructureIndex(text, '(', ')')
    case None => Success(text)
    case Some((b, e)) =>
      match which(text[b..e])
      case Raised(err) => Failure(err)
      case Unmapped => Failure(KeyError)
      case Classified(k) =>
        StepFacts(text, b, e, k);
        ResolveSpec(ResolveStep(text, b, e, k), which)
  }

  /** The `while` loop of step 3, rewriting one character at a time. */
  method Resolve(text: string, which: string -> Answer) returns (r: Result<string>)
    ensures r == ResolveSpec(text, which)
  {
    var result := text;
    var i := InnermostStructureIndex(result, '(', ')');
    while i.Some?
      invariant ResolveSpec(result, which) == ResolveSpec(text, which)
      invariant i == InnermostStructureIndex(result, '(', ')')
      decreases multiset(result)[')']
    {
      var (b, e) := i.value;
      match which(result[b..e]) {
        case Raised(err) =>
          ResolveFails(result, which, b, e);
          return Failure(err);
        case Unmapped =>
          ResolveFails(result, which, b, e);
          return Failure(KeyError);
        case Classified(kind) =>
          var next := ReplacePair(result, b, e, kind);
          ResolveContinues(result, which, b, e, kind);
          result := next;
      }
      i := InnermostStructureIndex(result, '(', ')');
    }
    return Success(result);
  }

  /** The two calls of `string_index_replace` in the loop body. */
  method ReplacePair(text: string, b: nat, e: nat, k: Kind) returns (next: string)
    requires 1 <= b <= e < |text|
    ensures next == ResolveStep(text, b, e, k)
  {
    var mid := StringIndexReplace(text, b - 1, OpenOf(k));
    next := StringIndexReplace(mid, e, CloseOf(k));
    ReplacedPair(text, mid, next, b, e, k);
  }

  /** Together they make one `ResolveStep`. */
  lemma ReplacedPair(text: string, mid: string, next: string, b: nat, e: nat, k: Kind)
    requires 1 <= b <= e < |text|
    requires |mid| == |text| && mid[b - 1] == OpenOf(k)
    requires forall j :: 0 <= j < |text| && j != b - 1 ==> mid[j] == text[j]
    requires |next| == |mid| && next[e] == CloseOf(k)
    requires forall j :: 0 <= j < |mid| && j != e ==> next[j] == mid[j]
    ensures next == ResolveStep(text, b, e, k)
  {
  }

  lemma ResolveFails(text: string, which: string -> Answer, b: nat, e: nat)
    requires InnermostStructureIndex(text, '(', ')') == Some((b, e))
    requires !which(text[b..e]).Classified?
    ensures ResolveSpec(text, which) ==
      Failure(if which(text[b..e]).Raised? then which(text[b..e]).error else KeyError)
  {
  }

  lemma ResolveContinues(text: string, which: string -> Answer, b: nat, e: nat, k: Kind)
    requires InnermostStructureIndex(text, '(', ')') == Some((b, e))
    requires which(text[b..e]) == Classified(k)
    ensures multiset(ResolveStep(text, b, e, k))[')'] < multiset(text)[')']
    ensures ResolveSpec(text, which) == ResolveSpec(ResolveStep(text, b, e, k), which)
  {
    StepFacts(text, b, e, k);
  }

  /** Character `c` counted in `s`. */
  function Count(s: string, c: char): nat {
    multiset(s)[c]
  }

  /** Where each character of the resolved text comes from: itself, or a `(`
      turned into an opening bracket, or a `)` turned into a closing one. */
  predicate ResolvedFrom(out: string, text: string) {
    |out| == |text| &&
    forall j :: 0 <= j < |text| ==>
      out[j] == text[j] ||
      (text[j] == '(' && (out[j] == '[' || out[j] == '{')) ||
      (text[j] == ')' && (out[j] == ']' || out[j] == '}'))
  }

  /** The resolver's balance: it removes as many `(` as `)`, and adds as many
      `[` as `]` and as many `{` as `}`, one of the four for each pair removed. */
  predicate PairedCounts(out: string, text: string) {
    Count(text, '(') - Count(out, '(') == Count(text, ')') - Count(out, ')') &&
    Count(out, '[') - Count(text, '[') == Count(out, ']') - Count(text, ']') &&
    Count(out, '{') - Count(text, '{') == Count(out, '}') - Count(text, '}') &&
    Count(out, '[') - Count(text, '[') + Count(out, '{') - Count(text, '{') ==
      Count(text, '(') - Count(out, '(')
  }

  /** A successful run leaves no `(` before the first `)` and changes only
      parentheses into brackets, with balanced counts. */
  lemma {:induction false} ResolveOutcome(text: string, which: string -> Answer)
    ensures ResolveSpec(text, which).Success? ==>
      var out := ResolveSpec(text, which).value;
      InnermostStructureIndex(out, '(', ')').None? &&
      ResolvedFrom(out, text) && PairedCounts(out, text)
    decreases multiset(text)[')']
  {
    match InnermostStructureIndex(text, '(', ')')
    case None =>
    case Some((b, e)) =>
      match which(text[b..e])
      case Raised(_) =>
      case Unmapped =>
      case Classified(k) =>
        ResolveContinues(text, which, b, e, k);
        ResolveOutcome(ResolveStep(text, b, e, k), which);
        OutcomeStep(text, b, e, k, ResolveSpec(text, which));
  }

  /** A failed run is a `KeyError`, for an answer `open_struct` has no entry
      for, or an exception the classifier raised. */
  lemma {:induction false} ResolveErrors(text: string, which: string -> Answer)
    ensures ResolveSpec(text, which).Failure? ==>
      var err := ResolveSpec(text, which).error;
      err == KeyError || exists slice :: which(slice) == Raised(err)
    decreases multiset(text)[')']
  {
    match InnermostStructureIndex(text, '(', ')')
    case None =>
    case Some((b, e)) =>
      match which(text[b..e])
      case Raised(err) =>
        assert which(text[b..e]) == Raised(err);
      case Unmapped =>
      case Classified(k) =>
        ResolveContinues(text, which, b, e, k);
        ResolveErrors(ResolveStep(text, b, e, k), which);
  }

  /** One turn keeps the outcome's relation to the text it started from. */
  lemma OutcomeStep(text: string, b: nat, e: nat, k: Kind, r: Result<string>)
    requires 1 <= b <= e < |text| && text[b - 1] == '(' && text[e] == ')'
    requires r.Success? ==>
      ResolvedFrom(r.value, ResolveStep(text, b, e, k)) && PairedCounts(r.value, ResolveStep(text, b, e, k))
    ensures r.Success? ==> ResolvedFrom(r.value, text) && PairedCounts(r.value, text)
  {
    if r.Success? {
      var next := ResolveStep(text, b, e, k);
      StepFacts(text, b, e, k);
      StepResolvedFrom(r.value, next, text, b, e, k);
      StepPairedCounts(r.value, next, text, b, e, k);
    }
  }

  lemma StepResolvedFrom(out: string, next: string, text: string, b: nat, e: nat, k: Kind)
    requires 1 <= b <= e < |text| && text[b - 1] == '(' && text[e] == ')'
    requires next == ResolveStep(text, b, e, k)
    requires |next| == |text| && next[b - 1] == OpenOf(k) && next[e] == CloseOf(k)
    requires forall j :: 0 <= j < |text| && j != b - 1 && j != e ==> next[j] == text[j]
    requires ResolvedFrom(out, next)
    ensures ResolvedFrom(out, text)
  {
    forall j | 0 <= j < |text|
      ensures out[j] == text[j] ||
        (text[j] == '(' && (out[j] == '[' || out[j] == '{')) ||
        (text[j] == ')' && (out[j] == ']' || out[j] == '}'))
    {
      if j == b - 1 || j == e {
        assert out[j] == next[j];
      }
    }
  }

  lemma StepPairedCounts(out: string, next: string, text: string, b: nat, e: nat, k: Kind)
    requires multiset(next) == multiset(text) - multiset{'(', ')'} + multiset{OpenOf(k), CloseOf(k)}
    requires Count(text, '(') >= 1 && Count(text, ')') >= 1
    requires PairedCounts(out, next)
    ensures PairedCounts(out, text)
  {
    assert Count(next, '(') == Count(text, '(') - 1;
    assert Count(next, ')') == Count(text, ')') - 1;
    if k == ListKind {
      assert Count(next, '[') == Count(text, '[') + 1 && Count(next, ']') == Count(text, ']') + 1;
      assert Count(next, '{') == Count(text, '{') && Count(next, '}') == Count(text, '}');
    } else {
      assert Count(next, '{') == Count(text, '{') + 1 && Count(next, '}') == Count(text, '}') + 1;
      assert Count(next, '[') == Count(text, '[') && Count(next, ']') == Count(text, ']');
    }
  }

  /** Without a `)` the resolver has nothing to do and cannot fail. */
  lemma ResolveNoClose(text: string, which: string -> Answer)
    requires ')' !in text
    ensures ResolveSpec(text, which) == Success(text)
  {
  }

  /** Steps 2.1-3 of `loads` from the normalised text. */
  method LoadsStructure(text: string, which: string -> Answer) returns (r: Result<string>)
    ensures r == ResolveSpec(DedentNoComma(Concat(StructuredLines(Matches(text)))), which)
  {
    var result := Structurize(text);
    result := DedentNoComma(result);
    r := Resolve(result, which);
  }
}
