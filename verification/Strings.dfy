/** The string helpers of the static class `Strings` (Strings.cs): comparison
    and lookup, identifier normalisation, the split helpers, letter-case
    conversion, enum-name lookup and white-space normalisation. The template
    engine of the same class is in module `Templates`. */
module Strings {
  import opened TextOps
  import opened Enums

  /** The two `System.StringComparison` modes the helpers are used with. */
  datatype StringComparison = Ordinal | OrdinalIgnoreCase

  /** The two `System.StringSplitOptions` the helpers are used with. */
  datatype StringSplitOptions = None | RemoveEmptyEntries

  /** Two characters are equal under `comparison`. */
  predicate SameChar(c: char, d: char, comparison: StringComparison) {
    match comparison
    case Ordinal => c == d
    case OrdinalIgnoreCase => UpperChar(c) == UpperChar(d)
  }

  // ---------------------------------------------------------------------
  // Is, StringIndexOf

  /** `Is(string, string, comparison)`, that is `string.Equals(a, b, comparison)`. */
  function Is(a: string, b: string, comparison: StringComparison): (r: bool)
    ensures r <==> |a| == |b| && forall i :: 0 <= i < |a| ==> SameChar(a[i], b[i], comparison)
  {
    match comparison
    case Ordinal => a == b
    case OrdinalIgnoreCase =>
      assert |a| == |b| ==> (forall i :: 0 <= i < |a| ==> ToUpper(a)[i] == UpperChar(a[i]) && ToUpper(b)[i] == UpperChar(b[i]));
      EqualsIgnoreCase(a, b)
  }

  /** `Is(string, IEnumerable<string>, comparison)`: some element equals `a`. */
  function IsAny(a: string, b: seq<string>, comparison: StringComparison): (r: bool)
    ensures r <==> exists v :: v in b && Is(a, v, comparison)
  {
    if b == [] then false
    else Is(a, b[0], comparison) || IsAny(a, b[1..], comparison)
  }

  /** `StringIndexOf`: the index of the first element equal to `value`, or
      `defaultValue` when there is none. */
  method StringIndexOf(enumerable: seq<string>, value: string, defaultValue: int, comparison: StringComparison)
    returns (r: int)
    ensures IsAny(value, enumerable, comparison) ==>
      0 <= r < |enumerable| && Is(value, enumerable[r], comparison) &&
      forall j :: 0 <= j < r ==> !Is(value, enumerable[j], comparison)
    ensures !IsAny(value, enumerable, comparison) ==> r == defaultValue
  {
    var index := 0;
    while index < |enumerable|
      invariant 0 <= index <= |enumerable|
      invariant forall j :: 0 <= j < index ==> !Is(value, enumerable[j], comparison)
    {
      if Is(value, enumerable[index], comparison) {
        return index;
      }
      index := index + 1;
    }
    assert forall v :: v in enumerable ==> !Is(value, v, comparison);
    return defaultValue;
  }

  // ---------------------------------------------------------------------
  // IDfy

  /** `IDfy`: trims the white space at both ends, replaces each `.` with `_`
      and upper-cases. */
  function IDfy(id: string): (r: string)
    ensures |r| == |Trim(id)|
    ensures forall i :: 0 <= i < |r| ==> r[i] == UpperChar(if Trim(id)[i] == '.' then '_' else Trim(id)[i])
    ensures r == [] <==> IsBlank(id)
    ensures IsIdentifier(r)
  {
    if id == "" then ""
    else ToUpper(ReplaceChar(Trim(id), '.', '_'))
  }

  /** What `IDfy` returns: no dot, no lower-case letter, no white space at
      either end. */
  predicate IsIdentifier(s: string) {
    (forall i :: 0 <= i < |s| ==> s[i] != '.' && !IsLowerAscii(s[i])) &&
    (s == [] || (!IsWhiteSpace(s[0]) && !IsWhiteSpace(s[|s| - 1])))
  }

  /** The strings `IDfy` leaves alone are exactly the identifiers it makes. */
  lemma IDfyFixedPoints(s: string)
    ensures IDfy(s) == s <==> IsIdentifier(s)
  {
    if IsIdentifier(s) {
      TrimmedIsFixed(s);
      assert IDfy(s) == s;
    }
  }

  /** Applying `IDfy` twice is applying it once. */
  lemma IDfyIdempotent(id: string)
    ensures IDfy(IDfy(id)) == IDfy(id)
  {
    IDfyFixedPoints(IDfy(id));
  }

  // ---------------------------------------------------------------------
  // SplitTrim, SplitAt, Split

  /** Keeps the strings that are not white space only. */
  function RemoveBlank(ps: seq<string>): (r: seq<string>)
    ensures forall i :: 0 <= i < |r| ==> !IsBlank(r[i])
    ensures forall p :: p in r ==> p in ps
    ensures |r| <= |ps|
  {
    if ps == [] then []
    else if IsBlank(ps[0]) then RemoveBlank(ps[1..])
    else [ps[0]] + RemoveBlank(ps[1..])
  }

  /** `RemoveBlank` is a filter: a single string is dropped exactly when it
      is blank, and the result for a concatenation is the results for its
      parts, in order. */
  lemma {:induction false} RemoveBlankIsFilter(a: seq<string>, b: seq<string>, p: string)
    ensures RemoveBlank([p]) == if IsBlank(p) then [] else [p]
    ensures RemoveBlank(a + b) == RemoveBlank(a) + RemoveBlank(b)
    decreases |a|
  {
    assert [p][1..] == [];
    if a == [] {
      assert a + b == b;
    } else {
      assert (a + b)[0] == a[0] && (a + b)[1..] == a[1..] + b;
      RemoveBlankIsFilter(a[1..], b, p);
    }
  }

  /** Dropping the empty strings first changes nothing: they are blank. */
  lemma {:induction false} RemoveBlankAfterRemoveEmpty(ps: seq<string>)
    ensures RemoveBlank(RemoveEmpty(ps)) == RemoveBlank(ps)
    decreases |ps|
  {
    if ps != [] {
      RemoveBlankAfterRemoveEmpty(ps[1..]);
      if ps[0] != "" {
        assert ([ps[0]] + RemoveEmpty(ps[1..]))[0] == ps[0];
        assert ([ps[0]] + RemoveEmpty(ps[1..]))[1..] == RemoveEmpty(ps[1..]);
      }
    }
  }

  /** Trims every string. */
  function TrimAll(ps: seq<string>): (r: seq<string>)
    ensures |r| == |ps|
    ensures forall i :: 0 <= i < |r| ==> r[i] == Trim(ps[i])
  {
    seq(|ps|, i requires 0 <= i < |ps| => Trim(ps[i]))
  }

  /** The trimmed strings are their own trim, and only the blank ones are empty. */
  lemma TrimAllTrimmed(ps: seq<string>)
    ensures forall i :: 0 <= i < |ps| ==> Trim(TrimAll(ps)[i]) == TrimAll(ps)[i]
    ensures forall i :: 0 <= i < |ps| ==> (TrimAll(ps)[i] == "" <==> IsBlank(ps[i]))
  {
    forall i | 0 <= i < |ps|
      ensures Trim(TrimAll(ps)[i]) == TrimAll(ps)[i]
    {
      TrimmedIsFixed(Trim(ps[i]));
    }
  }

  /** The pieces `SplitTrim` keeps before trimming them: `Split` drops the
      empty ones, then the blank ones are filtered out. */
  function KeptPieces(split: seq<string>, options: StringSplitOptions): (r: seq<string>)
    ensures options == RemoveEmptyEntries ==> r == RemoveBlank(split)
    ensures options == None ==> r == split
  {
    RemoveBlankAfterRemoveEmpty(split);
    if options == RemoveEmptyEntries then RemoveBlank(RemoveEmpty(split)) else split
  }

  /** `SplitTrim`: splits on `separator`, then trims every piece; with
      `RemoveEmptyEntries` the pieces that are white space only are dropped. */
  function SplitTrim(text: string, separator: string, options: StringSplitOptions): (r: seq<string>)
    ensures IsBlank(text) ==> r == []
    ensures forall i :: 0 <= i < |r| ==> Trim(r[i]) == r[i]
    ensures options == RemoveEmptyEntries ==> forall i :: 0 <= i < |r| ==> r[i] != ""
    ensures options == None && !IsBlank(text) ==>
      |r| == |SplitBy(text, [separator])| &&
      forall i :: 0 <= i < |r| ==> r[i] == Trim(SplitBy(text, [separator])[i])
    ensures options == RemoveEmptyEntries && !IsBlank(text) ==>
      r == TrimAll(RemoveBlank(SplitBy(text, [separator])))
  {
    if IsBlank(text) then []
    else
      var kept := KeptPieces(SplitBy(text, [separator]), options);
      TrimAllTrimmed(kept);
      TrimAll(kept)
  }

  /** The pieces `SplitTrim` trims are the text cut at each occurrence of a
      non-empty separator: joined with it, they give back the text. */
  lemma SplitTrimPieces(text: string, separator: string, options: StringSplitOptions)
    requires |separator| > 0 && !IsBlank(text)
    ensures Join(SplitBy(text, [separator]), separator) == text
    ensures SplitTrim(text, separator, options) ==
      TrimAll(if options == None then SplitBy(text, [separator]) else RemoveBlank(SplitBy(text, [separator])))
  {
    JoinSplitFrom(text, separator, 0, 0);
    assert text[0..] == text;
  }

  /** A text in which the separator never occurs comes back as one trimmed
      piece (when it is not white space only). */
  lemma SplitTrimWithoutSeparator(text: string, separator: string, options: StringSplitOptions)
    requires !IsBlank(text)
    requires forall j :: !OccursAt(text, separator, j)
    ensures SplitTrim(text, separator, options) == [Trim(text)]
  {
    SplitByAbsent(text, separator);
    KeptWhole(text, options);
    assert TrimAll([text]) == [Trim(text)];
  }

  lemma KeptWhole(text: string, options: StringSplitOptions)
    requires !IsBlank(text)
    ensures KeptPieces([text], options) == [text]
  {
    assert [text][1..] == [];
    assert RemoveEmpty([text]) == [text] + RemoveEmpty([]);
    assert RemoveBlank([text]) == [text] + RemoveBlank([]);
  }

  /** `SplitAt`: the part before the first occurrence of `separator` and the
      part after it, or the whole text and "" when it does not occur. */
  function SplitAt(text: string, separator: string): (r: seq<string>)
    ensures |r| == 2
    ensures (forall j :: !OccursAt(text, separator, j)) ==> r == [text, ""]
    ensures (exists j :: OccursAt(text, separator, j)) ==>
      r[0] + separator + r[1] == text &&
      forall j :: 0 <= j < |r[0]| ==> !OccursAt(text, separator, j)
  {
    var index := IndexOf(text, separator);
    if index == -1 then [text, ""]
    else
      CutAround(text, index, |separator|);
      [text[..index], text[index + |separator|..]]
  }

  // A sequence identity stated apart so that the proofs calling it stay small.
  lemma CutAround(text: string, i: nat, n: nat)
    requires i + n <= |text|
    ensures text[..i] + text[i..i + n] + text[i + n..] == text
  {
  }

  /** The parts of `SplitAt` are the only cut at the separator whose first
      part does not hold an earlier occurrence. */
  lemma SplitAtUnique(text: string, separator: string, before: string, after: string)
    requires before + separator + after == text
    requires forall j :: 0 <= j < |before| ==> !OccursAt(text, separator, j)
    ensures SplitAt(text, separator) == [before, after]
  {
    var n := |before|;
    assert text[n..n + |separator|] == separator;
    assert OccursAt(text, separator, n);
    var index := IndexOf(text, separator);
    assert index != -1;
    assert n <= index <= n;
    assert text[..n] == before;
    assert text[n + |separator|..] == after;
  }

  /** The separators `Split` cuts on when it is given none: every white-space
      character. */
  const WhiteSpaceSeparators: seq<string> := [" ", "\t", "\n", "\r", "\U{B}", "\U{C}"]

  /** `string.Split(string[], …)` falls back to white space for an empty array. */
  function EffectiveSeparators(separators: seq<string>): (r: seq<string>)
    ensures separators != [] ==> r == separators
    ensures separators == [] ==> r == WhiteSpaceSeparators
    ensures separators == [] ==> forall c :: [c] in r <==> IsWhiteSpace(c)
  {
    if separators == [] then WhiteSpaceSeparators else separators
  }

  /** Trims, and upper-cases when `uppercase` holds. */
  function Clean(v: string, uppercase: bool): string {
    if uppercase then ToUpper(Trim(v)) else Trim(v)
  }

  /** `Split`: splits on `separators` (white space when there are none),
      drops the empty pieces, then trims and optionally upper-cases each. */
  function Split(text: string, uppercase: bool, separators: seq<string>): (r: seq<string>)
    ensures var pieces := RemoveEmpty(SplitBy(text, EffectiveSeparators(separators)));
      |r| == |pieces| &&
      forall i :: 0 <= i < |r| ==> r[i] == Clean(pieces[i], uppercase)
    ensures forall i :: 0 <= i < |r| ==> Trim(r[i]) == r[i]
    ensures uppercase ==> forall i, k :: 0 <= i < |r| && 0 <= k < |r[i]| ==> !IsLowerAscii(r[i][k])
  {
    var pieces := RemoveEmpty(SplitBy(text, EffectiveSeparators(separators)));
    var r := seq(|pieces|, i requires 0 <= i < |pieces| => Clean(pieces[i], uppercase));
    assert forall i :: 0 <= i < |r| ==> Trim(r[i]) == r[i] by {
      forall i | 0 <= i < |r| ensures Trim(r[i]) == r[i] {
        TrimmedIsFixed(r[i]);
      }
    }
    r
  }

  /** Without separators, `Split` yields the words of the text: non-empty
      pieces without white space. */
  lemma SplitIntoWords(text: string, uppercase: bool)
    ensures var r := Split(text, uppercase, []);
      forall i :: 0 <= i < |r| ==> IsWord(r[i])
  {
    var pieces := RemoveEmpty(SplitBy(text, WhiteSpaceSeparators));
    WhiteSpacePiecesAreWords(text);
    var r := Split(text, uppercase, []);
    forall i | 0 <= i < |r|
      ensures IsWord(r[i])
    {
      assert pieces[i] in pieces;
      CleanWord(pieces[i], uppercase);
    }
  }

  lemma WhiteSpacePiecesAreWords(text: string)
    ensures forall q :: q in RemoveEmpty(SplitBy(text, WhiteSpaceSeparators)) ==> IsWord(q)
  {
    var seps := WhiteSpaceSeparators;
    SplitFromAvoidsSeparators(text, seps, 0, 0);
    var raw := SplitBy(text, seps);
    RemoveEmptyKeeps(raw);
    forall q | q in RemoveEmpty(raw)
      ensures IsWord(q)
    {
      assert q in raw;
      forall k | 0 <= k < |q|
        ensures !IsWhiteSpace(q[k])
      {
        assert [q[k]] !in seps;
      }
    }
  }

  /** A non-empty string without white space. */
  predicate IsWord(p: string) {
    p != "" && forall k :: 0 <= k < |p| ==> !IsWhiteSpace(p[k])
  }

  lemma CleanWord(q: string, uppercase: bool)
    requires IsWord(q)
    ensures IsWord(Clean(q, uppercase))
  {
    TrimmedIsFixed(q);
  }

  // ---------------------------------------------------------------------
  // LetterCase

  /** `LetterCase`: converts `text` to the letter case asked for. */
  function LetterCase(text: string, lettercase: Enums.LetterCase): (r: string)
    ensures |r| == |text|
    ensures EqualsIgnoreCase(r, text)
    ensures lettercase == Uppercase ==> forall i :: 0 <= i < |r| ==> !IsLowerAscii(r[i])
    ensures lettercase == Lowercase ==> forall i :: 0 <= i < |r| ==> !IsUpperAscii(r[i])
    ensures lettercase == Ignore ==> r == text
  {
    if text == "" then text
    else
      match lettercase
      case Lowercase =>
        assert ToUpper(ToLower(text)) == ToUpper(text);
        ToLower(text)
      case Uppercase =>
        assert ToUpper(ToUpper(text)) == ToUpper(text);
        ToUpper(text)
      case Ignore => text
  }

  /** A text already in the asked-for letter case is left unchanged. */
  lemma LetterCaseFixed(text: string, lettercase: Enums.LetterCase)
    requires lettercase == Uppercase ==> forall i :: 0 <= i < |text| ==> !IsLowerAscii(text[i])
    requires lettercase == Lowercase ==> forall i :: 0 <= i < |text| ==> !IsUpperAscii(text[i])
    ensures LetterCase(text, lettercase) == text
  {
  }

  /** Converting twice is converting once. */
  lemma LetterCaseIdempotent(text: string, lettercase: Enums.LetterCase)
    ensures LetterCase(LetterCase(text, lettercase), lettercase) == LetterCase(text, lettercase)
  {
    LetterCaseFixed(LetterCase(text, lettercase), lettercase);
  }

  // ---------------------------------------------------------------------
  // Enum<T>

  /** `Enum<T>`: the member whose name equals `text` ignoring case, or
      `fallback` when there is none; `members` lists the members of `T` in
      declaration order and `name` gives their names. */
  function Enum<T>(text: string, members: seq<T>, name: T -> string, fallback: T): (r: T)
    ensures (exists m :: m in members && EqualsIgnoreCase(text, name(m))) ==>
      r in members && EqualsIgnoreCase(text, name(r))
    ensures (forall m :: m in members ==> !EqualsIgnoreCase(text, name(m))) ==> r == fallback
  {
    if members == [] then fallback
    else if EqualsIgnoreCase(text, name(members[0])) then members[0]
    else Enum(text, members[1..], name, fallback)
  }

  /** No two members have names that differ only in case. */
  predicate DistinctNames<T(==)>(members: seq<T>, name: T -> string) {
    forall a, b :: a in members && b in members && EqualsIgnoreCase(name(a), name(b)) ==> a == b
  }

  /** Parsing a member's name, in any letter case, gives back the member. */
  lemma EnumOfName<T>(members: seq<T>, name: T -> string, fallback: T, m: T, text: string)
    requires DistinctNames(members, name) && m in members
    requires EqualsIgnoreCase(text, name(m))
    ensures Enum(text, members, name, fallback) == m
  {
  }

  /** Strings equal ignoring case have the same length and the same first
      letter ignoring case. */
  lemma IgnoreCaseKey(x: string, y: string)
    requires EqualsIgnoreCase(x, y)
    ensures |x| == |y| && (|x| > 0 ==> UpperChar(x[0]) == UpperChar(y[0]))
  {
    if |x| > 0 {
      assert ToUpper(x)[0] == ToUpper(y)[0];
    }
  }

  lemma ExtendedFormatNamesDistinct()
    ensures DistinctNames(ExtendedFormats, ExtendedFormatName)
  {
    forall a, b | a in ExtendedFormats && b in ExtendedFormats &&
        EqualsIgnoreCase(ExtendedFormatName(a), ExtendedFormatName(b))
      ensures a == b
    {
      IgnoreCaseKey(ExtendedFormatName(a), ExtendedFormatName(b));
    }
  }

  lemma LetterCaseNamesDistinct()
    ensures DistinctNames(LetterCases, LetterCaseName)
  {
    forall a, b | a in LetterCases && b in LetterCases &&
        EqualsIgnoreCase(LetterCaseName(a), LetterCaseName(b))
      ensures a == b
    {
      IgnoreCaseKey(LetterCaseName(a), LetterCaseName(b));
    }
  }

  // ---------------------------------------------------------------------
  // NormalizeWhiteSpace

  /** `Environment.NewLine`, fixed to a line feed. */
  const NewLine: string := "\n"

  /** The line breaks `NormalizeWhiteSpace` splits on, in the order given. */
  const LineBreaks: seq<string> := ["\r\n", "\n"]

  /** The lines of the trimmed text. */
  function Lines(text: string): seq<string> {
    SplitBy(Trim(text), LineBreaks)
  }

  /** No white-space character follows another. */
  predicate NoDoubleSpace(s: string) {
    forall j, k :: 0 <= j < |s| && 0 <= k < |s| && k == j + 1 ==> !IsWhiteSpace(s[j]) || !IsWhiteSpace(s[k])
  }

  /** Every run of white space in `s` cut down to its first character. */
  function Collapse(s: string): string
    decreases |s|
  {
    if s == [] then []
    else
      var p := s[..|s| - 1];
      var c := s[|s| - 1];
      if IsWhiteSpace(c) && p != [] && IsWhiteSpace(p[|p| - 1]) then Collapse(p)
      else Collapse(p) + [c]
  }

  /** The collapsed text has no two white-space characters in a row, starts
      with the same character, and ends with the same character unless it
      ends in white space, which it then keeps. */
  lemma {:induction false} CollapseShape(s: string)
    ensures var r := Collapse(s);
      |r| <= |s| && NoDoubleSpace(r) &&
      (s != [] ==> r != [] && r[0] == s[0]) &&
      (s != [] ==> (IsWhiteSpace(r[|r| - 1]) <==> IsWhiteSpace(s[|s| - 1]))) &&
      (s != [] && !IsWhiteSpace(s[|s| - 1]) ==> r[|r| - 1] == s[|s| - 1])
    decreases |s|
  {
    if s != [] {
      var p := s[..|s| - 1];
      CollapseShape(p);
      if p != [] {
        assert p[0] == s[0];
      }
    }
  }

  lemma CollapseSnoc(s: string, c: char)
    ensures Collapse(s + [c]) ==
      Collapse(s) + (if IsWhiteSpace(c) && s != [] && IsWhiteSpace(s[|s| - 1]) then [] else [c])
  {
    assert (s + [c])[..|s|] == s;
  }

  /** A string without two white-space characters in a row is left as it is. */
  lemma {:induction false} CollapseFixed(s: string)
    requires NoDoubleSpace(s)
    ensures Collapse(s) == s
    decreases |s|
  {
    if s != [] {
      var p := s[..|s| - 1];
      CollapseFixed(p);
      assert s == p + [s[|s| - 1]];
    }
  }

  /** The characters that are not white space, in order. */
  function Visible(s: string): string
    decreases |s|
  {
    if s == [] then []
    else if IsWhiteSpace(s[|s| - 1]) then Visible(s[..|s| - 1])
    else Visible(s[..|s| - 1]) + [s[|s| - 1]]
  }

  /** Collapsing drops white space only. */
  lemma {:induction false} CollapseKeepsVisible(s: string)
    ensures Visible(Collapse(s)) == Visible(s)
    decreases |s|
  {
    if s != [] {
      var p := s[..|s| - 1];
      var c := s[|s| - 1];
      CollapseKeepsVisible(p);
      var cp := Collapse(p);
      if !(IsWhiteSpace(c) && p != [] && IsWhiteSpace(p[|p| - 1])) {
        assert (cp + [c])[..|cp|] == cp;
      }
    }
  }

  /** What line `i` adds before its text: a blank line adds a line break
      when it opens a run of blank lines; a non-blank line adds a space when
      the line before was not blank. */
  function Lead(lines: seq<string>, i: nat): string
    requires i < |lines|
  {
    if IsBlank(lines[i]) then
      (if i == 0 || !IsBlank(lines[i - 1]) then NewLine else "")
    else
      (if i > 0 && !IsBlank(lines[i - 1]) then " " else "")
  }

  /** The text line `i` adds: nothing for a blank line, otherwise its
      trimmed text with every run of white space collapsed. */
  function Body(lines: seq<string>, i: nat): string
    requires i < |lines|
  {
    if IsBlank(lines[i]) then "" else Collapse(Trim(lines[i]))
  }

  /** The output after the first `n` lines. */
  function Layout(lines: seq<string>, n: nat): string
    requires n <= |lines|
  {
    if n == 0 then "" else Layout(lines, n - 1) + Lead(lines, n - 1) + Body(lines, n - 1)
  }

  /** What `NormalizeWhiteSpace` returns. */
  function Normalized(text: string): string {
    var lines := Lines(text);
    Layout(lines, |lines|)
  }

  /** `NormalizeWhiteSpace`: trims the text, splits it into lines, and lays
      the lines out one by one, as `Layout` describes. */
  method NormalizeWhiteSpace(text: string) returns (r: string)
    ensures r == Normalized(text)
  {
    var texts := Lines(text);
    var sb := "";
    var newline := true;
    var newline_space := false;
    for i := 0 to |texts|
      invariant sb == Layout(texts, i)
      invariant newline == (i == 0 || !IsBlank(texts[i - 1]))
      invariant newline_space == (i > 0 && !IsBlank(texts[i - 1]))
    {
      ghost var prev := sb;
      ghost var lead, body := Lead(texts, i), Body(texts, i);
      if IsBlank(texts[i]) {
        assert lead == if newline then NewLine else [];
        if newline {
          sb := sb + NewLine;
          newline_space := false;
          newline := false;
        }
        assert sb == prev + lead;
        assert body == [];
      } else {
        var text0 := Trim(texts[i]);
        if newline_space {
          sb := sb + " ";
        }
        assert sb == prev + lead;
        sb := AppendCollapsed(sb, text0);
        newline := true;
        newline_space := true;
      }
      AppendStep3(prev, lead, body, sb, Layout(texts, i + 1)) by {
        LayoutStep(texts, i + 1);
      }
    }
    r := sb;
  }

  /** The inner loop of `NormalizeWhiteSpace`: appends `text0` to `sb`,
      skipping every white-space character that follows another. */
  method AppendCollapsed(sb0: string, text0: string) returns (sb: string)
    ensures sb == sb0 + Collapse(text0)
  {
    sb := sb0;
    var whitespace := true;
    for j := 0 to |text0|
      invariant sb == sb0 + Collapse(text0[..j])
      invariant whitespace == (j == 0 || !IsWhiteSpace(text0[j - 1]))
    {
      var c := text0[j];
      CollapseSnoc(text0[..j], c);
      assert text0[..j + 1] == text0[..j] + [c];
      if IsWhiteSpace(c) {
        if whitespace {
          whitespace := false;
          sb := sb + [c];
        }
      } else {
        whitespace := true;
        sb := sb + [c];
      }
    }
    assert text0[..|text0|] == text0;
  }

  // ---------------------------------------------------------------------
  // What NormalizeWhiteSpace promises

  lemma NoDoubleSpaceConcat(a: string, b: string)
    requires NoDoubleSpace(a) && NoDoubleSpace(b)
    requires a == [] || b == [] || !IsWhiteSpace(a[|a| - 1]) || !IsWhiteSpace(b[0])
    ensures NoDoubleSpace(a + b)
  {
    var ab := a + b;
    forall j, k | 0 <= j < |ab| && 0 <= k < |ab| && k == j + 1
      ensures !IsWhiteSpace(ab[j]) || !IsWhiteSpace(ab[k])
    {
      if k < |a| {
        assert ab[j] == a[j] && ab[k] == a[k];
      } else if k == |a| {
        assert ab[j] == a[|a| - 1] && ab[k] == b[0];
      } else {
        assert ab[j] == b[j - |a|] && ab[k] == b[k - |a|];
      }
    }
  }

  /** The text a non-blank line adds: not empty, no white space at either end
      and never two white-space characters in a row. */
  lemma BodyShape(lines: seq<string>, i: nat)
    requires i < |lines| && !IsBlank(lines[i])
    ensures var b := Body(lines, i);
      b != [] && !IsWhiteSpace(b[0]) && !IsWhiteSpace(b[|b| - 1]) && NoDoubleSpace(b)
  {
    CollapseShape(Trim(lines[i]));
  }

  /** A non-empty text that starts with a character that is not white
      space, never has two white-space characters in a row, and ends in a
      line break when `blank` holds and otherwise in a character that is not
      white space. */
  predicate Shaped(out: string, blank: bool) {
    out != [] && !IsWhiteSpace(out[0]) && NoDoubleSpace(out) &&
    (blank ==> out[|out| - 1] == '\n') &&
    (!blank ==> !IsWhiteSpace(out[|out| - 1]))
  }

  /** The output so far, when the first line is not blank, is shaped: it
      ends in a line break exactly when the last line laid out is blank. */
  lemma {:induction false} LayoutShape(lines: seq<string>, n: nat)
    requires 1 <= n <= |lines| && !IsBlank(lines[0])
    ensures Shaped(Layout(lines, n), IsBlank(lines[n - 1]))
    decreases n
  {
    if n > 1 {
      LayoutShape(lines, n - 1);
    }
    LayoutShapeStep(lines, n);
  }

  /** The output after line `n - 1` is shaped, given that the output before
      it was (or that it is the first line). */
  lemma LayoutShapeStep(lines: seq<string>, n: nat)
    requires 1 <= n <= |lines| && !IsBlank(lines[0])
    requires n > 1 ==> Shaped(Layout(lines, n - 1), IsBlank(lines[n - 1 - 1]))
    ensures Shaped(Layout(lines, n), IsBlank(lines[n - 1]))
  {
    LayoutStep(lines, n);
    if n == 1 {
      BodyShape(lines, 0);
      assert Layout(lines, 0) == "" && Lead(lines, 0) == "";
      assert Layout(lines, 1) == Body(lines, 0);
    } else {
      if !IsBlank(lines[n - 1]) {
        BodyShape(lines, n - 1);
      }
      ShapeStep(Layout(lines, n - 1), Lead(lines, n - 1), Body(lines, n - 1),
                IsBlank(lines[n - 2]), IsBlank(lines[n - 1]));
    }
  }

  // A sequence identity stated apart so that the proofs calling it stay small.
  lemma AppendStep3(prev: string, lead: string, body: string, out: string, next: string)
    requires out == prev + lead + body && next == prev + lead + body
    ensures out == next
  {
  }

  // One unfolding step stated apart so that the proofs calling it stay small.
  lemma LayoutStep(lines: seq<string>, n: nat)
    requires 1 <= n <= |lines|
    ensures Layout(lines, n) == Layout(lines, n - 1) + Lead(lines, n - 1) + Body(lines, n - 1)
  {
  }

  /** One step of `LayoutShape`, on the output so far, the lead and the body
      of the next line. */
  lemma ShapeStep(prev: string, lead: string, body: string, prevBlank: bool, blank: bool)
    requires Shaped(prev, prevBlank)
    requires blank ==> body == [] && lead == if prevBlank then "" else NewLine
    requires !blank ==> lead == if prevBlank then "" else " "
    requires !blank ==> body != [] && !IsWhiteSpace(body[0]) && !IsWhiteSpace(body[|body| - 1]) && NoDoubleSpace(body)
    ensures Shaped(prev + lead + body, blank)
  {
    NoDoubleSpaceConcat(prev, lead);
    NoDoubleSpaceConcat(prev + lead, body);
    assert prev + lead + body == (prev + lead) + body;
  }

  /** The first line of a text that starts with a character that is not
      white space is not blank. */
  lemma FirstLineNotBlank(t: string)
    requires t != [] && !IsWhiteSpace(t[0])
    ensures !IsBlank(SplitBy(t, LineBreaks)[0])
  {
    assert !OccursAt(t, "\r\n", 0) && !OccursAt(t, "\n", 0) by {
      assert t[0..1][0] == t[0];
      if |t| >= 2 {
        assert t[0..2][0] == t[0];
      }
    }
    SeparatorAtNone(t, 0, LineBreaks);
    assert SplitBy(t, LineBreaks) == SplitFrom(t, LineBreaks, 0, 1);
    SplitFromFirst(t, LineBreaks, 0, 1);
    var p := SplitBy(t, LineBreaks)[0];
    assert p[0] == t[0];
  }

  /** The last line of a text that ends with a character that is not white
      space is not blank. */
  lemma LastLineNotBlank(t: string)
    requires t != [] && !IsWhiteSpace(t[|t| - 1])
    ensures var lines := SplitBy(t, LineBreaks); !IsBlank(lines[|lines| - 1])
  {
    SplitFromLast(t, LineBreaks, 0, 0);
    var lines := SplitBy(t, LineBreaks);
    var l := lines[|lines| - 1];
    assert l != [];
    assert l[|l| - 1] == t[|t| - 1];
  }

  /** `NormalizeWhiteSpace` returns a single line break for a text that is
      white space only; otherwise a text with no white space at either end
      and never two white-space characters in a row. */
  lemma NormalizedShape(text: string)
    ensures IsBlank(text) ==> Normalized(text) == NewLine
    ensures !IsBlank(text) ==> var out := Normalized(text);
      out != [] && !IsWhiteSpace(out[0]) && !IsWhiteSpace(out[|out| - 1]) && NoDoubleSpace(out)
  {
    var t := Trim(text);
    var lines := Lines(text);
    if IsBlank(text) {
      assert lines == [""];
      assert Layout(lines, 1) == Layout(lines, 0) + NewLine + "";
    } else {
      FirstLineNotBlank(t);
      LastLineNotBlank(t);
      LayoutShape(lines, |lines|);
    }
  }

  /** Two non-blank lines in a row are joined by exactly one space. */
  lemma LayoutAdjacentLines(lines: seq<string>, i: nat)
    requires 0 < i < |lines|
    requires !IsBlank(lines[i - 1]) && !IsBlank(lines[i])
    ensures Layout(lines, i + 1) == Layout(lines, i) + " " + Collapse(Trim(lines[i]))
  {
  }

  /** A run of blank lines between two non-blank lines adds exactly one line
      break, and the line after it starts without a space. */
  lemma LayoutBlankRun(lines: seq<string>, i: nat, j: nat)
    requires 0 < i < j < |lines|
    requires !IsBlank(lines[i - 1]) && !IsBlank(lines[j])
    requires forall k :: i <= k < j ==> IsBlank(lines[k])
    ensures Layout(lines, j + 1) == Layout(lines, i) + NewLine + Collapse(Trim(lines[j]))
  {
    LayoutBlankLines(lines, i, j);
    LayoutAfterBlank(lines, j);
  }

  /** A non-blank line after a blank one adds its text and nothing before it. */
  lemma LayoutAfterBlank(lines: seq<string>, j: nat)
    requires 0 < j < |lines| && IsBlank(lines[j - 1]) && !IsBlank(lines[j])
    ensures Layout(lines, j + 1) == Layout(lines, j) + Collapse(Trim(lines[j]))
  {
    LayoutStep(lines, j + 1);
    AppendEmpty(Layout(lines, j), Lead(lines, j), Body(lines, j));
  }

  // A sequence identity stated apart so that the proofs calling it stay small.
  lemma AppendEmpty(a: string, e: string, b: string)
    requires e == []
    ensures a + e + b == a + b
  {
  }

  lemma {:induction false} LayoutBlankLines(lines: seq<string>, i: nat, k: nat)
    requires 0 < i < k < |lines| && !IsBlank(lines[i - 1])
    requires forall m :: i <= m < k ==> IsBlank(lines[m])
    ensures Layout(lines, k) == Layout(lines, i) + NewLine
    decreases k
  {
    if k > i + 1 {
      LayoutBlankLines(lines, i, k - 1);
    }
    LayoutBlankStep(lines, i, k);
  }

  lemma LayoutBlankStep(lines: seq<string>, i: nat, k: nat)
    requires 0 < i < k < |lines| && !IsBlank(lines[i - 1])
    requires IsBlank(lines[k - 1]) && (k > i + 1 ==> IsBlank(lines[k - 2]))
    requires k > i + 1 ==> Layout(lines, k - 1) == Layout(lines, i) + NewLine
    ensures Layout(lines, k) == Layout(lines, i) + NewLine
  {
    LayoutStep(lines, k);
    if k == i + 1 {
      assert Lead(lines, i) == NewLine && Body(lines, i) == [];
    } else {
      assert Lead(lines, k - 1) == [] && Body(lines, k - 1) == [];
    }
  }

  /** A text of one line comes back trimmed, with every run of white space
      cut down to its first character. */
  lemma NormalizedSingleLine(text: string)
    requires '\n' !in text && !IsBlank(text)
    ensures Normalized(text) == Collapse(Trim(text))
  {
    var t := Trim(text);
    TrimKeepsChars(text);
    NoLineBreakOneLine(t);
    TrimmedIsFixed(t);
    assert Layout([t], 1) == Layout([t], 0) + Lead([t], 0) + Body([t], 0);
  }

  lemma NoLineBreakOneLine(t: string)
    requires forall k :: 0 <= k < |t| ==> t[k] != '\n'
    ensures SplitBy(t, LineBreaks) == [t]
  {
    forall k | 0 <= k < |t|
      ensures SeparatorAt(t, k, LineBreaks) == 0
    {
      assert !OccursAt(t, "\n", k) by {
        assert t[k..k + 1][0] == t[k];
      }
      assert !OccursAt(t, "\r\n", k) by {
        if k + 1 < |t| {
          assert t[k..k + 2][1] == t[k + 1] != '\n';
          assert "\r\n"[1] == '\n';
        }
      }
      SeparatorAtNone(t, k, LineBreaks);
    }
    SplitFromWithoutSeparator(t, LineBreaks, 0, 0);
    assert t[0..] == t;
  }
}
