# TextHelper string helpers and bracket templates, in Dafny

A model of the string core of the Unity library `TextHelper`: the static class `Strings` and the iterator `Regexes.Split2`.

The centre of the model is `Strings.FormatParams`, the bracket-placeholder engine. A text such as `Score: [score:Abs:N2]` is cut at its bracket matches. Each match `[key:f1:f2]` is replaced by the caller's resolution of `key`, passed through the named formats `f1`, then `f2`. Finally, escaped brackets `\[` and `\]` are turned back into `[` and `]`.

Beside the engine, the model covers the helpers of the same class:

- `StringIndexOf` and `Is`;
- `IDfy`;
- `SplitTrim`, `SplitAt` and `Split`;
- `NormalizeWhiteSpace`;
- `LetterCase`;
- `Enum<T>`.

Modules:

- `TextOps`: the .NET string operations the helpers call. These are ASCII white space and case, `Trim`, `IndexOf`, `Split` over a list of separators, `Join`, `Concat` and `Replace`. Each is stated as a function, and lemmas connect them: split/join round trips and replace-as-split-and-join.
- `Enums`: the enums `ExtendedFormat` and `LetterCase` as datatypes, with their member names.
- `Regexes`: `Split2` as a loop over a list of matches. It is specified by `Segments` and followed by lemmas about the segments.
- `Brackets`: the `BRACKETS` pattern as a hand-written scanner.
  - A match starts at a `[` not preceded by a backslash.
  - It ends at the first later bracket not preceded by a backslash, which must be a `]`.
  - The search is leftmost first and resumes after each match.
  - A completeness lemma says the scanner finds a match at every position where one starts.
- `Strings`: the helpers, with `StringIndexOf` and `NormalizeWhiteSpace` as loops.
- `Templates`: `ExtendedFormat`, the per-match `Select` (an array whose first cell is overwritten in a loop) and `FormatParams`.

The platform's float handling is a parameter, `NumberHost`. It covers `float.TryParse`, `ToString`, `Mathf.Abs`, the two subtractions and `string.Format`, and leaves them uninterpreted. The caller's `Func<string, string> predicate` is the function parameter `resolve`; `predicate` is a keyword in Dafny.

Two points where the model follows the code rather than its documentation or what a reader might expect:

- **The `switch` in `ExtendedFormat` names two arms the enum lacks** (`Strings.cs:187` and `Strings.cs:193`).
  - The arms are `PercentCompliment` (1 − x) and `PercentMinusOne` (x − 1). `ExtendedFormat.cs` declares `OneMinus` and `MinusOne` instead, documented as 1.0 − x and x − 1.0.
  - The model maps the arms to those two members.
  - `Stat`, `StatPercent` and `Negate` have no arm. So, like `Unknown` and any name that is not a member, they take the generic `string.Format` arm, even though their documentation describes signed output.
- **`NormalizeWhiteSpace` is not idempotent.** It joins a line that follows a run of blank lines without a space. So `"A\n\nB"` becomes `"A\nB"`, which becomes `"A B"`. The model states what one call does and claims nothing about repeating it.

## Model

| member | source | states |
|---|---|---|
| `Regexes.Split2` | Regexes.cs:12-42 | yields exactly the segments `Segments` describes: for each match, the non-empty gap before it, then the match; then the non-empty rest of the text; with no matches, nothing for an empty text and the whole text as one literal otherwise |
| `Regexes.ValidFromBounds` | Regexes.cs:16-33 | every match the loop visits lies inside the text and starts at or after the cursor, and each starts at or after the end of the one before, so the cursor never moves back and stays within the text |
| `Regexes.ValidFromOrdered` | Regexes.cs:16-33 | conversely, matches inside the text, in order and not overlapping, are a list the loop accepts |
| `Regexes.SegmentsCoverText` | Regexes.cs:16-41 | concatenating the values of the segments in order gives back the text |
| `Regexes.GapsNotEmpty` | Regexes.cs:20-41 | no segment that is not a match is empty |
| `Regexes.MatchSegmentsInOrder` | Regexes.cs:18-31 | each match yields exactly one match segment, holding the matched text, in the order of the matches |
| `Regexes.GapsNeverAdjacent` | Regexes.cs:18-41 | two segments that are not matches never follow each other |
| `Brackets.MatchLength` | Strings.cs:14-15 | a match starts at `s` and ends at `e` exactly when `[` at `s` and `]` at `e` are not escaped and no unescaped bracket lies between; such a match is unique and at least two characters long |
| `Brackets.SpanEndsAtNextOpenBracket` | Strings.cs:14-15 | a match ends at the first unescaped bracket after its `[` |
| `Brackets.NoMatchInside` | Strings.cs:14-15 | no match starts strictly inside a match or at its `]` |
| `Brackets.ScanFrom` | Strings.cs:14-15 | every match found starts at a position where a match starts, has that match's length, and starts after the end of the match before it |
| `Brackets.Matches` | Strings.cs:14-15 | the matches of a text form a valid input for `Split2`: in the text, in order, not overlapping |
| `Brackets.ScanFromComplete` | Strings.cs:14-15 | a search from a position finds a match at exactly those later positions where one starts |
| `Brackets.MatchesComplete` | Strings.cs:14-15 | the matches of a text start at exactly the positions where a match starts |
| `Brackets.MatchText` | Strings.cs:14-15 | the text of a match is at least two long, starts with `[`, ends with an unescaped `]`, and every bracket in between is preceded by a backslash |
| `Strings.Is` | Strings.cs:36-40 | two strings are equal under the comparison exactly when they have the same length and agree character by character, ignoring ASCII case under `OrdinalIgnoreCase` |
| `Strings.IsAny` | Strings.cs:42-46 | true exactly when some element equals the string under the comparison |
| `Strings.StringIndexOf` | Strings.cs:17-34 | with a matching element, the index of the first one; with none, the default |
| `Strings.IDfy` | Strings.cs:53-62 | each character of the result is the character of the trimmed input at the same place, with a dot replaced by `_` and then upper-cased; so the result is empty exactly for a blank input and has no dot, no lower-case letter and no white space at either end |
| `Strings.IDfyFixedPoints` | Strings.cs:53-62 | `IDfy` leaves a string unchanged exactly when it already has that shape |
| `Strings.IDfyIdempotent` | Strings.cs:53-62 | applying `IDfy` twice is applying it once |
| `Strings.RemoveBlank` | Strings.cs:79-80 | the kept pieces are none of them blank, and all are pieces of the input |
| `Strings.RemoveBlankIsFilter` | Strings.cs:79-80 | the filter keeps a piece exactly when it is not blank, and filters a concatenation part by part, so every non-blank piece survives, in order |
| `Strings.RemoveBlankAfterRemoveEmpty` | Strings.cs:74-80 | dropping the empty entries before the blank ones changes nothing |
| `Strings.TrimAll` | Strings.cs:82 | one result per piece, each the trimmed piece |
| `Strings.TrimAllTrimmed` | Strings.cs:82 | every trimmed piece is its own trim, and is empty exactly when the piece was blank |
| `Strings.KeptPieces` | Strings.cs:74-80 | with `RemoveEmptyEntries` the kept pieces are exactly the non-blank pieces of the split, in order; with `None` every piece is kept |
| `Strings.SplitTrim` | Strings.cs:68-83 | a blank text gives nothing; with `None` the i-th result is the trim of the i-th piece of the split; with `RemoveEmptyEntries` the results are the trims of the non-blank pieces, in order, and none is empty |
| `Strings.SplitTrimPieces` | Strings.cs:68-83 | for a non-empty separator the pieces that are trimmed join back, with the separator, into the text |
| `Strings.SplitTrimWithoutSeparator` | Strings.cs:68-83 | a non-blank text without the separator gives the single trimmed text |
| `Strings.SplitAt` | Strings.cs:89-101 | always two parts; without the separator, the text and ""; otherwise part0 + separator + part1 is the text and part0 holds no earlier occurrence |
| `Strings.SplitAtUnique` | Strings.cs:89-101 | conversely, any cut around the first occurrence is the one `SplitAt` returns |
| `Strings.EffectiveSeparators` | Strings.cs:460-463 | the separators given are used as they are when there are any; with none, the separators are the white-space characters, each one alone |
| `Strings.Split` | Strings.cs:452-474 | one result per non-empty piece, in order, each trimmed and upper-cased when asked; every result is its own trim, and holds no lower-case letter when upper-casing |
| `Strings.SplitIntoWords` | Strings.cs:452-474 | with no separators, every result is a non-empty word without white space |
| `Strings.LetterCase` | Strings.cs:476-486 | same length, equal ignoring case, no lower-case letter for `Uppercase`, no upper-case letter for `Lowercase`, unchanged for `Ignore` |
| `Strings.LetterCaseFixed` | Strings.cs:476-486 | a text already in the asked-for case is unchanged |
| `Strings.LetterCaseIdempotent` | Strings.cs:476-486 | converting twice is converting once |
| `Strings.Enum` | Strings.cs:254-260 | a member whose name equals the text ignoring case is found; with none, the default |
| `Strings.EnumOfName` | Strings.cs:254-260 | with names distinct ignoring case, any casing of a member's name gives back that member |
| `Strings.ExtendedFormatNamesDistinct` | ExtendedFormat.cs:3-33 | no two `ExtendedFormat` names are equal ignoring case |
| `Strings.LetterCaseNamesDistinct` | LetterCase.cs:3-17 | no two `LetterCase` names are equal ignoring case |
| `Strings.CollapseShape` | Strings.cs:150-166 | the collapsed line has no two white-space characters in a row, keeps the first character, and keeps the last unless that is white space |
| `Strings.CollapseFixed` | Strings.cs:150-166 | a line without two white-space characters in a row is left as it is |
| `Strings.CollapseKeepsVisible` | Strings.cs:150-166 | collapsing removes white space only: the other characters stay, in order |
| `Strings.AppendCollapsed` | Strings.cs:150-166 | the inner loop appends the line with every run of white space cut to its first character |
| `Strings.NormalizeWhiteSpace` | Strings.cs:122-173 | returns the layout of the trimmed text's lines that `Normalized` describes |
| `Strings.NormalizedShape` | Strings.cs:122-173 | a blank text gives one line break; any other gives a non-empty text with no white space at either end and no two white-space characters in a row |
| `Strings.LayoutAdjacentLines` | Strings.cs:148-169 | two non-blank lines in a row are joined by exactly one space |
| `Strings.LayoutBlankRun` | Strings.cs:136-153 | a run of blank lines between two non-blank lines gives exactly one line break, not followed by a space |
| `Strings.NormalizedSingleLine` | Strings.cs:122-173 | a non-blank text without a line feed comes back trimmed, with every run of white space cut to its first character |
| `TextOps.Trim` | Strings.cs:124 | no longer than the input, empty exactly when the input is blank, and otherwise without white space at either end |
| `TextOps.TrimIsMiddle` | Strings.cs:124 | the trim is a slice of the input with only white space before and after it, so everything between the ends is kept as it is |
| `TextOps.TrimmedIsFixed` | Strings.cs:148 | a string without white space at either end is its own trim |
| `TextOps.IndexOf` | Strings.cs:91 | -1 exactly when the pattern does not occur; otherwise an occurrence with none before it |
| `TextOps.SplitJoin` | Strings.cs:229-232 | splitting on a character undoes joining with it pieces that do not hold it |
| `TextOps.ReplaceIsJoinOfSplit` | Strings.cs:250-251 | replacing a pattern is splitting on it and joining with the replacement |
| `TextOps.ReplaceAbsent` | Strings.cs:250-251 | replacing a pattern that does not occur leaves the text unchanged |
| `Templates.ResolveFormat` | Strings.cs:179 | the resolved member's name equals the format ignoring case, or it is `Unknown`; any member whose name equals the format is the one resolved |
| `Templates.Arithmetic` | Strings.cs:181-197 | a text that parses as the number `x` becomes the printed `op(x)`; a text that does not parse is returned unchanged |
| `Templates.ExtendedFormat` | Strings.cs:175-212 | `Abs`, `OneMinus` and `MinusOne`, in any case, apply their arithmetic arm; every other format, `Unknown` included, takes the generic `{0:format}` arm |
| `Templates.ChainSnoc` | Strings.cs:242-243 | chaining one more format applies it to the result of the formats before it |
| `Templates.Pieces` | Strings.cs:229-232 | the pieces are non-empty and hold no colon, and together they are the inner text without its colons |
| `Templates.PiecesOfJoin` | Strings.cs:229-232 | non-empty colon-free pieces joined with `:` split back into themselves |
| `Templates.PiecesOfWeave` | Strings.cs:229-232 | non-empty colon-free pieces with a run of one or more colons between each two, and any run of colons at either end, split back into exactly those pieces: the pieces are the maximal colon-free runs, in order |
| `Templates.PiecesEmpty` | Strings.cs:229-232 | the empty inner text has no piece |
| `Templates.PiecesDropColon` | Strings.cs:229-232 | a colon at the front adds no piece |
| `Templates.PiecesFirst` | Strings.cs:229-232 | a non-empty colon-free text followed by a colon or by nothing is the first piece, and the rest gives the others |
| `Templates.ParseDirective` | Strings.cs:226-235 | a match is kept verbatim exactly when it is at most two characters or its inside is colons only; otherwise its key and formats are non-empty and colon-free |
| `Templates.SubstitutePieces` | Strings.cs:226-245 | a match longer than two characters is kept when it has no pieces, and otherwise is the resolved first piece chained through the rest |
| `Templates.ApplyFormats` | Strings.cs:242-243 | the loop leaves in the first cell its old value passed through every later cell's format in order, and the later cells unchanged |
| `Templates.SelectPieces` | Strings.cs:229-245 | with no pieces, the match; otherwise the resolved first piece chained through the rest |
| `Templates.Select` | Strings.cs:221-246 | the segment as `Render` describes it: literals unchanged, matches substituted |
| `Templates.VerbatimMatch` | Strings.cs:226-235 | a match of at most two characters, or of colons only inside, appears in the output exactly as written |
| `Templates.PlaceholderRenders` | Strings.cs:229-245 | `[key:f1:...:fn]` renders as the resolved key passed through `f1` to `fn` in order; `[key]` renders as the resolved key |
| `Templates.JoinSelected` | Strings.cs:249 | the rendered segments are concatenated in order |
| `Templates.FormatParams` | Strings.cs:214-252 | returns `Formatted`: the rendered segments of the bracket matches concatenated, then `\[` and `\]` un-escaped |
| `Templates.FormattedWithoutMatches` | Strings.cs:214-252 | a text with no match is only un-escaped |
| `Templates.FormattedWithoutBrackets` | Strings.cs:214-252 | a text without `[` or `]` is returned unchanged, whatever the resolver |

## Left out

- The .NET regex engine: `BRACKETS` is replaced by the scanner in `Brackets`. `Split2` takes the list of matches and does not model the laziness of the iterator.
- Float parsing, float arithmetic, `ToString` and `string.Format` are given as uninterpreted functions of `NumberHost`. The model says which of them an arm calls, not what text they produce. Culture settings are not modelled.
- `System.Enum.TryParse` is modelled as a case-insensitive lookup of member names only. Numeric strings, comma-joined flag names and surrounding white space, which `TryParse` also accepts, are not modelled.
- Case conversion and comparison are ASCII only. `char.IsWhiteSpace` is the ASCII white-space set: space, tab, line feed, carriage return, vertical tab and form feed.
- `Environment.NewLine` is fixed to a line feed.
- `null` strings and enumerables are not modelled. `IDfy` (Strings.cs:55) and `LetterCase` (Strings.cs:479) test for `null` or empty, and `SplitTrim` (Strings.cs:73) for `null` or white space; only the non-null half of each test is modelled. `Split` (Strings.cs:457) tests only for `null` and then returns an empty array; that branch is not modelled.
- StringComparison: only `Ordinal` and `OrdinalIgnoreCase`, two of the six `System.StringComparison` values, are modelled. `CurrentCulture`, `CurrentCultureIgnoreCase`, `InvariantCulture` and `InvariantCultureIgnoreCase` rest on culture data. `Is` and `StringIndexOf` default to `OrdinalIgnoreCase` (Strings.cs:21, 39, 45).
- SplitAt: `self.IndexOf(separator)` (Strings.cs:91) compares with the current culture, while the model finds the separator with the ordinal `TextOps.IndexOf`. The two can disagree where the culture treats characters as ignorable or equivalent, for example a zero-width character between the characters of the separator. The cut is modelled at the first ordinal occurrence.
- GenericFormat: `string.Format` with the composite format `{0:format}` (Strings.cs:201-206) throws `FormatException` when `format` holds a `{` or an unpaired `}`, so `FormatParams("[n:{]", …)` throws. `formatNumber` and `formatText` are total in the model, so `ExtendedFormat`, `Chain` and `FormatParams` never fail; the exception path is not modelled.
- `Debug.LogWarning` in `IDfy` (Strings.cs:59) is a logging side effect and is not modelled.
- The Unity value parsers and printers (`Bounds`, `Color`, `Vector2`, `Vector2Int`, `Vector3`, `Vector3s`, `Vector4`, `Quaternion`, `Stringify`), `Float`, `Int`, `Bool`, `Thousands`, the one-line wrappers `TrimUpper` and `Trim`, and `Strings.Gradient.cs` are not part of this model. They rest on floats and engine types.
- `Templates.ExtendedFormat`: the `PercentCompliment` and `PercentMinusOne` arms are modelled as the members `OneMinus` and `MinusOne`, as described above. The code as written names enum members that do not exist.
