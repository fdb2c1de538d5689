/** Python's sequence and string built-ins the codec relies on: repetition,
    `"".join`, `sep.join` and splitting at separator characters. */
module Text {
  /** `c * n`: `n` copies of the character `c`. */
  function Repeat(c: char, n: nat): (r: string)
    ensures |r| == n
    ensures forall i :: 0 <= i < |r| ==> r[i] == c
  {
    seq(n, _ => c)
  }

  /** `"".join(parts)` */
  function Concat(parts: seq<string>): string
    decreases |parts|
  {
    if parts == [] then [] else parts[0] + Concat(parts[1..])
  }

  lemma {:induction false} ConcatAppend(a: seq<string>, b: seq<string>)
    ensures Concat(a + b) == Concat(a) + Concat(b)
    decreases |a|
  {
    if a == [] {
      assert a + b == b;
    } else {
      assert (a + b)[1..] == a[1..] + b;
      ConcatAppend(a[1..], b);
    }
  }

  lemma ConcatSingle(s: string)
    ensures Concat([s]) == s
  {
    assert [s][1..] == [];
  }

  /** `sep.join(parts)` */
  function Join(parts: seq<string>, sep: string): string
    decreases |parts|
  {
    if parts == [] then []
    else if |parts| == 1 then parts[0]
    else parts[0] + sep + Join(parts[1..], sep)
  }

  /** Splitting at every separator character, as `str.split` and `re.split`
      with a one-character pattern do: empty pieces are kept. */
  function SplitAny(text: string, seps: set<char>): (r: seq<string>)
    ensures |r| >= 1
    decreases |text|
  {
    if text == [] then [""]
    else
      var rest := SplitAny(text[1..], seps);
      if text[0] in seps then [""] + rest
      else [[text[0]] + rest[0]] + rest[1..]
  }

  /** No piece holds a separator. */
  lemma {:induction false} SplitAnyPieces(text: string, seps: set<char>)
    ensures forall k, i :: 0 <= k < |SplitAny(text, seps)| && 0 <= i < |SplitAny(text, seps)[k]| ==>
      SplitAny(text, seps)[k][i] !in seps
    decreases |text|
  {
    if text != [] {
      SplitAnyPieces(text[1..], seps);
    }
  }

  /** Joining the pieces with the one separator gives the text back. */
  lemma {:induction false} JoinSplit(text: string, sep: char)
    ensures Join(SplitAny(text, {sep}), [sep]) == text
    decreases |text|
  {
    if text != [] {
      var rest := SplitAny(text[1..], {sep});
      JoinSplit(text[1..], sep);
      if text[0] == sep {
        assert ([""] + rest)[1..] == rest;
      } else {
        JoinHead(rest, [sep], [text[0]]);
      }
      assert text == [text[0]] + text[1..];
    }
  }

  lemma JoinHead(parts: seq<string>, sep: string, pre: string)
    requires |parts| >= 1
    ensures Join([pre + parts[0]] + parts[1..], sep) == pre + Join(parts, sep)
  {
    if |parts| > 1 {
      assert ([pre + parts[0]] + parts[1..])[1..] == parts[1..];
    }
  }
}
