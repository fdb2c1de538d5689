# PyON codec core, modelled in Dafny

PyON is a notation for Python dictionaries. It is indentation-based and
CSON-like: keys may be left unquoted and nesting is written with tabs.
`loads` turns PyON text into a Python literal and evaluates it. `dumps`
prints a dict and turns it back into tab-indented PyON.

Both directions rewrite text in stages. First every string literal goes into
a "vault": its body is replaced by its base64url encoding between single
quotes, so the later rewrites cannot touch it. The vault is opened again at
the end.

This project models the parts of that pipeline with real algorithmic content
and proves their properties:

- **`base64url.dfy`, module `Base64Url`.** The base64url alphabet with `=`
  padding (section 5 of RFC 4648) over bytes: encoding and a strict decoder.
  Proved: the round trip, and that the encoded alphabet has no structural
  character.
- **`utf8.dfy`, module `Utf8`.** `str.encode()` and the strict
  `bytes.decode()` for UTF-8 on scalar values. Proved: the round trip.
- **`text.dfy`, module `Text`.** The Python built-ins the pipeline leans on:
  `"".join`, `sep.join`, splitting at any separator, and `c * n`.
- **`ingredients.dfy`, module `Ingredients`.** The helpers of
  `pyon/__ingredients.py`:
  - `str.replace`, as a leftmost non-overlapping replace-all
  - `string_escape`
  - `string_index_replace`, as a method over an array
  - `url_encode` / `url_decode`
  - `literal_string_encode` / `literal_string_decode`
  - `free_key_quote`
  - the `CSON` keyword table
  - `innermost_structure_index`
- **`loads.dfy`, module `Loads`.** `loads` steps 2.1–3 of
  `pyon/__procedure.py`:
  - the indentation structurizer loop
  - the `dedent_no_comma` rewrite
  - the bracket resolver loop
  - their composition `LoadsStructure`
- **`dumps.dfy`, module `Dumps`.** `dumps` from its type guard to step 2:
  - the type guard
  - the `nan`/`inf` substitution as written, and a corrected variant (see Findings)
  - space removal
  - bracket tokenisation
  - the restructure loop that emits tab-indented lines
  - their composition `DumpsStructure`

Python's regular expressions are not modelled in general. Each pattern the
core uses is modelled as the specific scanner it amounts to:

- `indent_level` splits the text into lines and counts the leading tabs.
- `comma_worth` appends a comma when the content does not already end in `:` or `,`.
- `dedent_no_comma` rewrites a `)` not followed by `,`; the lookahead reads the original text.
- `re.split(" |,")` splits at either character.

Four things the code does are modelled as written, even where they look
unintended:

- The structurizer emits `«` and `»`.
- `innermost_structure_index` and the resolver loop look for `(` and `)`.
  `InnermostStructureIndex` therefore takes the open and close characters as
  parameters, and `Resolve` passes `(` and `)` as the source does.
- A classifier answer that has no entry in `open_struct` ends the loop with a
  `KeyError`. That covers `False` and `set`. An exception raised while the
  slice is classified ends it with that exception: a `TypeError` from
  `ast.literal_eval` on an unhashable key, or a decoding error while the
  slice's placeholders are restored.
- `free_key_quote` returns `None` for a malformed key; this is `Option.None`.

The oracles the source gets from the Python runtime are function parameters:

- `which`: `which_structure`, applied after the slice's string placeholders
  are restored. It answers a kind, an answer with no bracket entry, or the
  exception raised.
- `isRawKey`: `is_raw_key`.
- `isIdentifier`: `str.isidentifier`.
- `vaulted`: `repr` followed by `dumps` steps 1.2–1.3.

## Model

| member | source | states |
|---|---|---|
| Base64Url.Encode | pyon/__ingredients.py:35-36 | the encoding of n bytes has 4·⌈n/3⌉ characters, all from `A–Z a–z 0–9 - _ =`, with `=` only in the last two places |
| Base64Url.Decode | pyon/__ingredients.py:38-39 | a successful decode consumed whole groups of four and yields at most three bytes per group |
| Base64Url.DecodeEncode | pyon/__ingredients.py:35-39 | decoding the base64url encoding of any byte sequence gives that sequence back |
| Base64Url.EncodedHasNoStructure | pyon/__ingredients.py:35-36 | no encoded character is a quote, comma, colon, bracket, parenthesis, `«`, `»`, `#`, space, tab, newline or backslash |
| Utf8.DecodeEncode | pyon/__ingredients.py:35-39 | `text.encode().decode()` gives the text back for every string of scalar values |
| Utf8.Encode | pyon/__ingredients.py:36 | `str.encode()` in UTF-8 never yields fewer bytes than the text has characters |
| Utf8.Decode | pyon/__ingredients.py:39 | `bytes.decode()` in UTF-8 is absent on malformed input, and a successful decode never yields more characters than there were bytes |
| Utf8.EncodeAscii | pyon/__ingredients.py:35-36 | an ASCII string encodes to the sequence of its character codes |
| Text.JoinSplit | pyon/__procedure.py:34 | joining the pieces of a split with the separator rebuilds the text |
| Text.SplitAnyPieces | pyon/__procedure.py:89 | no piece of a split holds a separator character |
| Text.Repeat | pyon/__procedure.py:40-42 | `c * n` is `n` characters long and each of them is `c` |
| Text.ConcatAppend | pyon/__procedure.py:48 | `"".join` of two line lists in sequence is the concatenation of their joins |
| Ingredients.ReplaceAllAbsent | pyon/__procedure.py:22 | `str.replace` of a pattern that does not occur leaves the text unchanged |
| Ingredients.ReplaceAll | pyon/__procedure.py:22 | `str.replace`: occurrences are replaced from left to right, never overlapping; text shorter than the pattern is kept |
| Ingredients.ReplaceKeywords | pyon/__procedure.py:21-22 | step 1.3 of `loads`: each entry of the `CSON` table is replaced in turn, in table order |
| Ingredients.ReplaceAllInverse | pyon/__ingredients.py:27 | replacing a pattern by a fresh character and back restores the text |
| Ingredients.EscapeQuotesEscapesAll | pyon/__ingredients.py:23-27 | after the quote-escaping substitution, every quote is preceded by a backslash |
| Ingredients.EscapeQuotesIdempotent | pyon/__ingredients.py:23-27 | escaping quotes a second time changes nothing |
| Ingredients.UnescapeEscapeQuotes | pyon/__ingredients.py:23-27 | for text without backslashes, dropping the added backslashes undoes the quote escaping |
| Ingredients.StringEscape | pyon/__ingredients.py:23-27 | `string_escape`: quotes not already escaped get a backslash, then `\n` and `\t` become a newline and a tab, in that order |
| Ingredients.StringEscapePlain | pyon/__ingredients.py:23-27 | `string_escape` returns text without quotes and backslashes unchanged |
| Ingredients.ExpandNewlinesInverse | pyon/__ingredients.py:27 | for text without newlines, the `\n` expansion is undone by the reverse replacement |
| Ingredients.StringIndexReplace | pyon/__ingredients.py:29-33 | the copy has the same length, holds `rep` at position `i` and is unchanged everywhere else |
| Ingredients.UrlEncode | pyon/__ingredients.py:35-36 | `url_encode` emits only base64url alphabet characters and `=` |
| Ingredients.UrlDecode | pyon/__ingredients.py:38-39 | `url_decode`: base64url decoding then UTF-8 decoding, absent where either would raise |
| Ingredients.UrlDecodeEncode | pyon/__ingredients.py:35-39 | `url_decode(url_encode(s)) == s` for every string |
| Ingredients.UrlEncodeHasNoStructure | pyon/__ingredients.py:35-36 | a vaulted string body has no structural character of the codec |
| Ingredients.SpecialFloatPlaceholders | pyon/__procedure.py:74-75 | the `nan` and `inf` placeholders `bmFu` and `aW5m` are the base64url encodings of those words |
| Ingredients.LiteralStringEncode | pyon/__ingredients.py:41-45 | `literal_string_encode`: the matched quote is dropped and the placeholder is `'` + url_encode(content) + `'` |
| Ingredients.LiteralStringEncodeShape | pyon/__ingredients.py:41-45 | whatever the quote kind, the vault literal is framed by single quotes, has no structural character between them, and its body decodes to the content |
| Ingredients.LiteralStringDecode | pyon/__ingredients.py:47-57 | decoding succeeds exactly when the body is valid base64url of UTF-8, and fails with a decoding error otherwise; the escaped text is wrapped in `'''` when it holds a newline and otherwise in the quote the placeholder was matched with |
| Ingredients.VaultRoundTrip | pyon/__ingredients.py:41-57 | opening the placeholder of any string gives its escaped text in `'''` when it holds a newline and in `'` otherwise; the quote the string was written with is not recovered, because `literal_string_encode` always writes `'` |
| Ingredients.VaultRoundTripPlain | pyon/__ingredients.py:41-57 | a string without quotes or backslashes comes back verbatim, in `'''` when it spans lines and in `'` otherwise |
| Ingredients.FreeKeyQuote | pyon/__ingredients.py:67-74 | a raw key gives the indentation followed by the key; a non-raw identifier gives the indentation followed by its placeholder; there is a result exactly when one of the two holds |
| Ingredients.FreeKeyQuoteVaults | pyon/__ingredients.py:67-74 | a non-raw identifier key becomes the indentation followed by `'` + url_encode(key) + `'` |
| Ingredients.FreeKeyQuoteRestores | pyon/__ingredients.py:67-74 | a non-raw identifier key is vaulted, and opening that vault gives the key in single quotes |
| Ingredients.KeyLiteralRestores | pyon/__ingredients.py:47-57 | the vault of an identifier opens to the identifier in single quotes |
| Ingredients.ReplaceKeywordsAbsent | pyon/__procedure.py:21-22 | text mentioning none of the `CSON` keywords passes step 1.3 unchanged |
| Ingredients.ReplaceAllOccursAt | pyon/__procedure.py:22 | after `str.replace(pat, rep)`, where `rep` starts with a character `q` lacks and no position of `rep` can begin `q`, every occurrence of `q` was already in the text and `q` is not `pat` |
| Ingredients.ReplaceAllKeepsAbsent | pyon/__procedure.py:22 | under the same conditions, `str.replace(pat, rep)` leaves no `q` in text that had none, and no `pat` at all |
| Ingredients.ReplaceKeywordsRemoves | pyon/__procedure.py:21-22 | after step 1.3 none of `true`, `false`, `null` occurs anywhere in the text |
| Ingredients.IndexOf | pyon/__ingredients.py:100 | `str.index`: the position of the first occurrence, absent exactly when the character does not occur |
| Ingredients.InnermostStructureIndex | pyon/__ingredients.py:89-104 | `(b, e)` has `text[e]` as the first closer, `text[b-1]` as an opener, and no opener in `text[b..e)`; the result is absent exactly when there is no closer or no opener before the first one |
| Ingredients.ReversedHasSame | pyon/__ingredients.py:101 | a reversed string holds the same characters |
| Loads.IndentEntries | pyon/__procedure.py:34 | there is one entry per line of the text |
| Loads.IndentEntriesRebuild | pyon/__procedure.py:34 | the entries describe the text exactly: re-indenting and joining them rebuilds it, and no content starts with a tab |
| Loads.NonEmptyKeeps | pyon/__procedure.py:34 | an entry is walked exactly when it is an entry of the text with non-empty content |
| Loads.CommaWorthShape | pyon/__ingredients.py:9 | the comma rule adds at most a trailing comma, and adds one exactly when the content is non-empty and ends in neither `:` nor `,` |
| Loads.CommaWorth | pyon/__procedure.py:38 | the `comma_worth` substitution: a trailing comma for content ending in neither `:` nor `,` |
| Loads.Marks | pyon/__procedure.py:39-42 | a change of depth `d` is written as `d` marks `«` when deeper and `-d` marks `»` when shallower |
| Loads.EmitLinesAt | pyon/__procedure.py:35-46 | entry `k` yields exactly line `k`: the marks from the previous entry's depth to its own, then its content after the comma rule; the last line closes every open level |
| Loads.StructureLines | pyon/__procedure.py:32-47 | the loop builds `{`, one line per walked entry, the closing run of `»`, and `}` |
| Loads.Structurize | pyon/__procedure.py:32-48 | steps 2.1–2.2 produce the concatenation of the structured lines of the non-empty entries |
| Loads.EmitBalance | pyon/__procedure.py:35-46 | for entries whose content holds no `«` or `»`: from the start of the emitted text, the depth (`«` minus `»`) never drops below zero and is back to zero after the closing run |
| Loads.StructuredBalance | pyon/__procedure.py:33-48 | for entries whose content holds no `«` or `»`: the joined output starts with `{`, ends with `}`, its depth never goes negative in any prefix and ends at zero |
| Loads.DedentNoCommaCloses | pyon/__ingredients.py:11 | after step 2.3, every `)` is followed by a `,` |
| Loads.DedentNoComma | pyon/__procedure.py:50 | step 2.3: each `)` that the original text does not follow with `,` becomes `»,` |
| Loads.DedentNoCommaAbsent | pyon/__procedure.py:50 | text without `)` passes step 2.3 unchanged |
| Loads.ResolveStep | pyon/__procedure.py:56-57 | one turn of the loop: the two `string_index_replace` calls at `b-1` and `e` with the brackets of the kind |
| Loads.ResolveSpec | pyon/__procedure.py:52-57 | the loop's outcome: innermost pairs resolved until none is left; `KeyError` for an answer with no bracket entry; a raised exception passed on |
| Loads.StepFacts | pyon/__procedure.py:56-57 | one resolver step keeps the length, writes the opener and closer of one kind at `b-1` and `e`, leaves every other position alone, and swaps one `(` and one `)` for the pair |
| Loads.Resolve | pyon/__procedure.py:52-57 | the `while` loop computes the resolution of the text, or fails with `KeyError` or with the exception the classifier raised |
| Loads.ResolveOutcome | pyon/__procedure.py:52-57 | after a successful run no `(` precedes the first `)`; each character is unchanged or a parenthesis turned into a bracket; the counts balance: as many `[` as `]` and as many `{` as `}` are added, one bracket pair per pair of parentheses removed |
| Loads.ResolveErrors | pyon/__procedure.py:52-57 | a failed run is a `KeyError`, or an exception the classifier raised |
| Loads.ResolveNoClose | pyon/__procedure.py:54 | text without `)` is returned unchanged by the resolver |
| Loads.LoadsStructure | pyon/__procedure.py:32-57 | `loads` steps 2.1–3 are the resolver applied to the step 2.3 rewrite of the structured lines |
| Dumps.TypeName | pyon/__procedure.py:65 | `type(obj).__name__` for each kind of value `repr` can print |
| Dumps.SpecialFloats | pyon/__procedure.py:75 | step 1.4 as written: `nan` then `inf` replaced over the whole text |
| Dumps.SpecialFloatsAbsent | pyon/__procedure.py:75 | text that never says `nan` or `inf` passes step 1.4 unchanged |
| Dumps.SpecialFloatsBreaksPlaceholder | pyon/__procedure.py:75 | as written, step 1.4 rewrites inside the vault of the key `abgjpq` and breaks it |
| Dumps.SpecialFloatsOutside | pyon/__procedure.py:74-75 | step 1.4 corrected: the same replacements, applied only outside single-quoted placeholders |
| Dumps.SpecialFloatsOutsideSkips | pyon/__procedure.py:74-75 | the corrected step 1.4 rewrites the code before a quoted body and keeps the body as it is |
| Dumps.PlaceholderSurvives | pyon/__procedure.py:74-75 | every vault literal comes through the corrected step 1.4 unchanged, whatever string it stands for |
| Dumps.SpecialFloatsOutsideAgrees | pyon/__procedure.py:75 | on text without quotes the corrected step 1.4 is the original one |
| Dumps.RemoveSpaces | pyon/__procedure.py:77 | step 1.5: every space removed |
| Dumps.RemoveSpacesKeeps | pyon/__procedure.py:77 | no space is left and every other character keeps its count |
| Dumps.Tokenize | pyon/__procedure.py:79-84 | steps 1.6–1.8 in the source's order: park `[]` and `{}` as `LIST` and `DICT`, mark the brackets, unpark |
| Dumps.TokenizeMarked | pyon/__procedure.py:79-84 | steps 1.6–1.8 keep each literal `[]` and `{}`, turn every other opening bracket into ` « ` and every other closing one into ` » `, and keep all other characters |
| Dumps.NonEmptyPieces | pyon/__procedure.py:89 | the filter keeps only non-empty pieces |
| Dumps.Items | pyon/__procedure.py:89 | the tokens walked: the text split at spaces and commas, empty pieces dropped, first and last piece dropped |
| Dumps.ItemsClean | pyon/__procedure.py:89 | every token walked is non-empty and holds no space and no comma |
| Dumps.Tabs | pyon/__procedure.py:92-97 | `level * "\t"` is `level` characters long, and empty for a level that is not positive |
| Dumps.RestructureFrom | pyon/__procedure.py:86-98 | the walk from a token on: `«` adds a level (after a `,` line when it follows `»`), `»` drops one, any other token is a line behind `level` tabs |
| Dumps.RestructureLines | pyon/__procedure.py:86-98 | the token loop emits exactly the lines of the walk specification |
| Dumps.RestructureLayout | pyon/__procedure.py:86-98 | token `k` contributes its own line behind as many tabs as the marks before it leave open (opening minus closing); a `,` line comes exactly where `«` follows `»`; marks contribute nothing else |
| Dumps.DumpsStructure | pyon/__procedure.py:63-99 | a non-dict is refused with the `TypeError` message naming its type before any rewrite; a dict's text goes through steps 1.4–1.8 and 2 as written, and the lines are joined by newlines |

## Left out

- Regular expressions in general are not modelled. Each pattern is modelled as the specific scanner it amounts to; backreferences and lookbehind are not.
- `loads` steps 1.1–1.7 are not modelled as a pass: vaulting, comments, keywords, free keys, indentation mode and spaces. Their building blocks are: `LiteralStringEncode`, `ReplaceKeywords` and `FreeKeyQuote`. `LoadsStructure` starts from the normalised text.
- `loads` step 4 is not modelled. `special_escape` and `tuned_literal_eval` are called there but are not defined in any file of the repository.
- `which_structure` and `is_raw_key` are oracles. They depend on `ast.literal_eval` and `hash` on live Python objects. Which slices make `which_structure` raise, and with which exception, is the oracle's to say.
- `str.isidentifier` is an oracle too. `IdentifierText` only asks that an identifier holds no quote, backslash or newline.
- `dumps` steps 1.1–1.3 are the `vaulted` parameter: `repr` of a live object, string vaulting and complex de-parenthesising.
- `dumps` step 3 is not modelled: opening the vaults of the finished text. The single-vault law it relies on is `VaultRoundTrip`.
- `load` and `dump` are not modelled; they are file I/O wrappers.
- Base64Url.Decode: strict. Python's `urlsafe_b64decode` also accepts some malformed input, for example characters outside the alphabet, which it drops. Bodies the codec encoded itself decode the same either way. A body that step 1.4 of `dumps` has rewritten (see Findings) is not such a body, and there the two decoders can differ.
- `Utf8.Decode` is strict, as Python's `bytes.decode()` is: it refuses overlong forms, encoded surrogates and code points above U+10FFFF.
- Utf8.Encode: a Python `str` can hold a lone surrogate, on which `str.encode()` raises. The model's strings of scalar values cannot hold one, so that error is not modelled.
- NaN, infinity and complex-number semantics are not modelled. Step 1.4 is modelled on text only.
- Dumps.TokenizeMarked: proved for text that holds no `LIST` and no `DICT` of its own. A placeholder body can hold either word, since base64url uses upper-case letters. Steps 1.6–1.8 as written would then turn that word into an empty bracket pair inside the body. No such body is exhibited here.
- Ingredients.FreeKeyQuote: `None` stands for the match being deleted; the `re.sub` around it is not modelled.
- The benchmark script, the test runner and `setup.py` are not part of this model. They are timing, printing and packaging code.

## Findings

| source | as written | input that shows it | evidently intended | confidence | as-written member | corrected member |
|---|---|---|---|---|---|---|
| pyon/__procedure.py:75 | `replace("nan", "float('bmFu')")` runs over the whole text, vaulted string bodies included | `dumps({'abgjpq': 1})`: the key is vaulted as `'YWJnanBx'`, whose body holds `nan`, and becomes `'YWJfloat('bmFu')Bx'` | rewrite `nan`/`inf` only outside the quoted placeholders, so every vault survives | not executed | Dumps.SpecialFloatsBreaksPlaceholder | Dumps.PlaceholderSurvives |
