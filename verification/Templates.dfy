/** The bracket-placeholder engine of `Strings`: `FormatParams`, its local
    `Select`, and the `ExtendedFormat` transforms a placeholder may chain.

    A placeholder `[key:f1:f2]` is replaced by the caller's resolution of
    `key`, passed left to right through the format `f1`, then `f2`. Float
    parsing, float arithmetic and `string.Format` belong to the platform and
    are given as a `NumberHost`. */
module Templates {
  import opened TextOps
  import opened Enums
  import opened Regexes
  import opened Brackets
  import Strings

  /** The outcome of `float.TryParse`. */
  datatype Parsed<F> = NotANumber | Number(value: F)

  /** The platform's number handling, over its float type `F`. */
  datatype NumberHost<!F> = NumberHost(
    tryParse: string -> Parsed<F>,               // float.TryParse
    show: F -> string,                           // float.ToString()
    abs: F -> F,                                 // Mathf.Abs
    oneMinus: F -> F,                            // 1f - x
    minusOne: F -> F,                            // x - 1f
    formatNumber: (string, F) -> string,         // string.Format(format, number)
    formatText: (string, string) -> string)      // string.Format(format, text)

  // ---------------------------------------------------------------------
  // ExtendedFormat

  /** `format.Enum(ExtendedFormat.Unknown)`. */
  function ResolveFormat(format: string): (k: ExtendedFormat)
    ensures k == Unknown || EqualsIgnoreCase(format, ExtendedFormatName(k))
    ensures forall f :: EqualsIgnoreCase(format, ExtendedFormatName(f)) ==> k == f
  {
    var k := Strings.Enum(format, ExtendedFormats, ExtendedFormatName, Unknown);
    Strings.ExtendedFormatNamesDistinct();
    forall f | EqualsIgnoreCase(format, ExtendedFormatName(f))
      ensures k == f
    {
      assert f in ExtendedFormats;
      Strings.EnumOfName(ExtendedFormats, ExtendedFormatName, Unknown, f, format);
    }
    k
  }

  /** The composite format string `{0:format}`. */
  function CompositeFormat(format: string): string {
    "{0:" + format + "}"
  }

  /** The arm of `Abs`, `OneMinus` and `MinusOne`: the number transformed by
      `op` and printed, or the text unchanged when it is not a number. */
  function Arithmetic<F>(host: NumberHost<F>, text: string, op: F -> F): (r: string)
    ensures host.tryParse(text).Number? ==> r == host.show(op(host.tryParse(text).value))
    ensures host.tryParse(text).NotANumber? ==> r == text
  {
    match host.tryParse(text)
    case Number(x) => host.show(op(x))
    case NotANumber => text
  }

  /** The `default` arm: the number, or else the text, formatted by
      `string.Format` with `{0:format}`. */
  function GenericFormat<F>(host: NumberHost<F>, text: string, format: string): string {
    match host.tryParse(text)
    case Number(x) => host.formatNumber(CompositeFormat(format), x)
    case NotANumber => host.formatText(CompositeFormat(format), text)
  }

  /** `ExtendedFormat`: the format name, in any letter case, picks the arm. */
  function ExtendedFormat<F>(host: NumberHost<F>, text: string, format: string): (r: string)
    ensures EqualsIgnoreCase(format, "Abs") ==> r == Arithmetic(host, text, host.abs)
    ensures EqualsIgnoreCase(format, "OneMinus") ==> r == Arithmetic(host, text, host.oneMinus)
    ensures EqualsIgnoreCase(format, "MinusOne") ==> r == Arithmetic(host, text, host.minusOne)
    ensures (!EqualsIgnoreCase(format, "Abs") && !EqualsIgnoreCase(format, "OneMinus") &&
             !EqualsIgnoreCase(format, "MinusOne")) ==> r == GenericFormat(host, text, format)
  {
    var k := ResolveFormat(format);
    assert ExtendedFormatName(Abs) == "Abs" && ExtendedFormatName(OneMinus) == "OneMinus" &&
      ExtendedFormatName(MinusOne) == "MinusOne";
    match k
    case Abs => Arithmetic(host, text, host.abs)
    case OneMinus => Arithmetic(host, text, host.oneMinus)
    case MinusOne => Arithmetic(host, text, host.minusOne)
    case _ => GenericFormat(host, text, format)
  }

  /** The formats applied one after the other, left to right. */
  function Chain<F>(host: NumberHost<F>, value: string, formats: seq<string>): string
    decreases |formats|
  {
    if formats == [] then value
    else Chain(host, ExtendedFormat(host, value, formats[0]), formats[1..])
  }

  /** Chaining one more format applies it to the result of the others. */
  lemma {:induction false} ChainSnoc<F>(host: NumberHost<F>, value: string, formats: seq<string>, f: string)
    ensures Chain(host, value, formats + [f]) == ExtendedFormat(host, Chain(host, value, formats), f)
    decreases |formats|
  {
    if formats == [] {
      assert ([] + [f])[1..] == [];
    } else {
      assert (formats + [f])[1..] == formats[1..] + [f];
      ChainSnoc(host, ExtendedFormat(host, value, formats[0]), formats[1..], f);
    }
  }

  // ---------------------------------------------------------------------
  // The placeholder inside a match

  /** The non-empty `:`-separated pieces of `inner`. */
  function Pieces(inner: string): (ps: seq<string>)
    ensures forall i :: 0 <= i < |ps| ==> ps[i] != "" && ':' !in ps[i]
    ensures Concat(ps) == Without(inner, ':')
  {
    var split := SplitBy(inner, [":"]);
    SplitFromAvoidsSeparators(inner, [":"], 0, 0);
    ConcatSplitFrom(inner, ':', 0, 0);
    ConcatRemoveEmpty(split);
    assert inner[0..] == inner;
    var ps := RemoveEmpty(split);
    assert forall i :: 0 <= i < |ps| ==> ps[i] in split by {
      RemoveEmptyKeeps(split);
    }
    assert forall i :: 0 <= i < |ps| ==> ':' !in ps[i] by {
      forall i, k | 0 <= i < |ps| && 0 <= k < |ps[i]|
        ensures ps[i][k] != ':'
      {
        assert [ps[i][k]] !in [":"];
      }
    }
    ps
  }

  /** Joining colon-free pieces with `:` and splitting again gives them back. */
  lemma PiecesOfJoin(ps: seq<string>)
    requires |ps| >= 1
    requires forall i :: 0 <= i < |ps| ==> ps[i] != "" && ':' !in ps[i]
    ensures Pieces(Join(ps, ":")) == ps
  {
    SplitJoin(ps, ':');
    RemoveEmptyNone(ps);
  }

  /** A colon at the front of the inner text adds no piece. */
  lemma PiecesDropColon(t: string)
    ensures Pieces([':'] + t) == Pieces(t)
  {
    SplitAtFirst([], ':', t);
    assert [] + [':'] + t == [':'] + t;
    assert ([""] + SplitBy(t, [":"]))[1..] == SplitBy(t, [":"]);
  }

  /** A non-empty colon-free text followed by a colon is the first piece. */
  lemma PiecesCut(p: string, t: string)
    requires p != "" && ':' !in p
    ensures Pieces(p + [':'] + t) == [p] + Pieces(t)
  {
    SplitAtFirst(p, ':', t);
    assert ([p] + SplitBy(t, [":"]))[1..] == SplitBy(t, [":"]);
  }

  /** A non-empty colon-free text is one piece. */
  lemma PiecesWhole(p: string)
    requires p != "" && ':' !in p
    ensures Pieces(p) == [p]
  {
    PiecesOfJoin([p]);
  }

  /** A run of colons at the front of the inner text adds no piece. */
  lemma {:induction false} PiecesDropColons(g: string, t: string)
    requires Colons(g)
    ensures Pieces(g + t) == Pieces(t)
    decreases |g|
  {
    if g == [] {
      assert g + t == t;
    } else {
      assert g + t == [':'] + (g[1..] + t);
      PiecesDropColon(g[1..] + t);
      PiecesDropColons(g[1..], t);
    }
  }

  predicate Colons(g: string) {
    forall k :: 0 <= k < |g| ==> g[k] == ':'
  }

  /** `gaps[0] + ps[0] + gaps[1] + … + ps[n-1] + gaps[n]`. */
  function Weave(gaps: seq<string>, ps: seq<string>): (w: string)
    requires |gaps| == |ps| + 1
    ensures gaps[0] != "" ==> w != "" && w[0] == gaps[0][0]
    decreases |ps|
  {
    if ps == [] then gaps[0] else gaps[0] + ps[0] + Weave(gaps[1..], ps[1..])
  }

  /** The pieces are the maximal colon-free runs of the inner text, in order:
      colon-free pieces separated by runs of one or more colons, with runs of
      any length at either end, split back into exactly those pieces. */
  lemma {:induction false} PiecesOfWeave(gaps: seq<string>, ps: seq<string>)
    requires |gaps| == |ps| + 1
    requires forall i :: 0 <= i < |ps| ==> ps[i] != "" && ':' !in ps[i]
    requires forall i :: 0 <= i < |gaps| ==> Colons(gaps[i])
    requires forall i :: 0 < i < |ps| ==> gaps[i] != ""
    ensures Pieces(Weave(gaps, ps)) == ps
    decreases |ps|
  {
    if ps == [] {
      PiecesDropColons(gaps[0], "");
      assert gaps[0] + "" == gaps[0];
      PiecesEmpty();
    } else {
      var rest := Weave(gaps[1..], ps[1..]);
      assert rest == [] || rest[0] == ':' by {
        if |ps| > 1 {
          assert gaps[1..][0] == gaps[1];
        }
      }
      assert Weave(gaps, ps) == gaps[0] + (ps[0] + rest);
      PiecesDropColons(gaps[0], ps[0] + rest);
      PiecesFirst(ps[0], rest);
      PiecesOfWeave(gaps[1..], ps[1..]);
    }
  }

  lemma PiecesEmpty()
    ensures Pieces("") == []
  {
    assert SplitBy("", [":"]) == [""];
  }

  /** A non-empty colon-free text followed by a colon, or by nothing, is the
      first piece. */
  lemma PiecesFirst(p: string, rest: string)
    requires p != "" && ':' !in p
    requires rest == [] || rest[0] == ':'
    ensures Pieces(p + rest) == [p] + Pieces(rest)
  {
    if rest == [] {
      assert p + rest == p;
      PiecesWhole(p);
      PiecesEmpty();
    } else {
      assert p + rest == p + [':'] + rest[1..];
      assert rest == [':'] + rest[1..];
      PiecesCut(p, rest[1..]);
      PiecesDropColon(rest[1..]);
    }
  }

  /** How `Select` reads a match. */
  datatype Directive = Verbatim | Placeholder(key: string, formats: seq<string>)

  /** A match of at most two characters, or one whose inside is colons only,
      is kept verbatim; otherwise its first piece is the key and the others
      are the formats. */
  function ParseDirective(value: string): (d: Directive)
    ensures d.Verbatim? <==> |value| <= 2 || forall k :: 0 < k < |value| - 1 ==> value[k] == ':'
    ensures d.Placeholder? ==>
      d.key != "" && ':' !in d.key &&
      forall i :: 0 <= i < |d.formats| ==> d.formats[i] != "" && ':' !in d.formats[i]
  {
    if |value| <= 2 then Verbatim
    else
      var inner := value[1..|value| - 1];
      var ps := Pieces(inner);
      ConcatOfNonEmpty(ps);
      WithoutEmpty(inner, ':');
      assert (forall k :: 0 <= k < |inner| ==> inner[k] == ':') <==>
        (forall k :: 0 < k < |value| - 1 ==> value[k] == ':') by {
        assert forall k :: 0 < k < |value| - 1 ==> value[k] == inner[k - 1];
      }
      if ps == [] then Verbatim
      else Placeholder(ps[0], ps[1..])
  }

  /** What `Select` yields for the text of a match. */
  function Substitute<F>(host: NumberHost<F>, resolve: string -> string, value: string): string {
    match ParseDirective(value)
    case Verbatim => value
    case Placeholder(key, formats) => Chain(host, resolve(key), formats)
  }

  /** What `Select` yields for a segment. */
  function Render<F>(host: NumberHost<F>, resolve: string -> string, seg: SplitResult): string {
    if seg.IsMatch then Substitute(host, resolve, seg.Value) else seg.Value
  }

  /** A match longer than two characters is rendered from the pieces of its
      inside: kept verbatim when there are none, otherwise the resolved first
      piece chained through the others. */
  lemma SubstitutePieces<F>(host: NumberHost<F>, resolve: string -> string, value: string)
    requires |value| > 2
    ensures var ps := Pieces(value[1..|value| - 1]);
      Substitute(host, resolve, value) ==
        if ps == [] then value else Chain(host, resolve(ps[0]), ps[1..])
  {
  }

  /** The loop of `Select`: the first cell is passed through the format held
      in each later cell, in order; the later cells are left alone. */
  method ApplyFormats<F>(host: NumberHost<F>, split: array<string>)
    requires split.Length >= 1
    modifies split
    ensures split[0] == Chain(host, old(split[0]), old(split[1..]))
    ensures split[1..] == old(split[1..])
  {
    ghost var first := split[0];
    ghost var formats := split[1..];
    for i := 1 to split.Length
      invariant split[0] == Chain(host, first, formats[..i - 1])
      invariant split[1..] == formats
    {
      ChainSnoc(host, first, formats[..i - 1], formats[i - 1]);
      assert formats[..i] == formats[..i - 1] + [formats[i - 1]];
      split[0] := ExtendedFormat(host, split[0], split[i]);
    }
    assert formats[..split.Length - 1] == formats;
  }

  /** The array part of `Select`: the pieces go into an array whose first
      cell is overwritten by the resolved key and then by each format applied
      in turn; with no pieces the match is kept as it is. */
  method SelectPieces<F>(host: NumberHost<F>, resolve: string -> string, value: string, pieces: seq<string>)
    returns (s: string)
    ensures s == if pieces == [] then value else Chain(host, resolve(pieces[0]), pieces[1..])
  {
    var split := new string[|pieces|](i requires 0 <= i < |pieces| => pieces[i]);
    if split.Length == 0 {
      return value;
    }
    assert split[..] == pieces;
    split[0] := resolve(split[0]);
    if split.Length == 1 {
      return split[0];
    }
    assert split[1..] == pieces[1..];
    ApplyFormats(host, split);
    return split[0];
  }

  /** `Select`, the local function of `FormatParams`: a segment between
      matches, and a match of at most two characters, are yielded as they
      are; any other match is read as a placeholder. */
  method Select<F>(host: NumberHost<F>, resolve: string -> string, result: SplitResult) returns (s: string)
    ensures s == Render(host, resolve, result)
  {
    if !result.IsMatch {
      return result.Value;
    }
    if |result.Value| <= 2 {
      return result.Value;
    }
    SubstitutePieces(host, resolve, result.Value);
    var pieces := Pieces(result.Value[1..|result.Value| - 1]);
    s := SelectPieces(host, resolve, result.Value, pieces);
  }

  /** A match of at most two characters, or whose inside is colons only,
      is rendered exactly as written. */
  lemma VerbatimMatch<F>(host: NumberHost<F>, resolve: string -> string, value: string)
    requires |value| <= 2 || forall k :: 0 < k < |value| - 1 ==> value[k] == ':'
    ensures Substitute(host, resolve, value) == value
  {
  }

  /** A placeholder `[key:f1:...:fn]` renders as the resolved key passed
      through `f1` to `fn` in order; `[key]` renders as the resolved key. */
  lemma PlaceholderRenders<F>(host: NumberHost<F>, resolve: string -> string, key: string, formats: seq<string>)
    requires key != "" && ':' !in key
    requires forall i :: 0 <= i < |formats| ==> formats[i] != "" && ':' !in formats[i]
    ensures var value := "[" + Join([key] + formats, ":") + "]";
      Substitute(host, resolve, value) == Chain(host, resolve(key), formats)
    ensures Substitute(host, resolve, "[" + key + "]") == resolve(key)
  {
    var ps := [key] + formats;
    var inner := Join(ps, ":");
    var value := "[" + inner + "]";
    PiecesOfJoin(ps);
    assert value[1..|value| - 1] == inner;
    assert ps[1..] == formats;
    PiecesOfJoin([key]);
    assert ("[" + key + "]")[1..|key| + 1] == key;
  }

  // ---------------------------------------------------------------------
  // FormatParams

  /** The final un-escaping: `\[` becomes `[`, then `\]` becomes `]`. */
  function Unescape(s: string): string {
    Replace(Replace(s, "\\[", "["), "\\]", "]")
  }

  function RenderAll<F>(host: NumberHost<F>, resolve: string -> string, segs: seq<SplitResult>): (r: seq<string>)
    ensures |r| == |segs|
    ensures forall i :: 0 <= i < |segs| ==> r[i] == Render(host, resolve, segs[i])
  {
    seq(|segs|, i requires 0 <= i < |segs| => Render(host, resolve, segs[i]))
  }

  /** What `FormatParams` returns. */
  function Formatted<F>(host: NumberHost<F>, resolve: string -> string, text: string): string {
    var segs := Segments(text, Matches(text), 0, 0);
    Unescape(Concat(RenderAll(host, resolve, segs)))
  }

  /** `string.Join(string.Empty, split.Select(Select))`. */
  method JoinSelected<F>(host: NumberHost<F>, resolve: string -> string, split: seq<SplitResult>)
    returns (joined: string)
    ensures joined == Concat(RenderAll(host, resolve, split))
  {
    joined := "";
    for i := 0 to |split|
      invariant joined == Concat(RenderAll(host, resolve, split[..i]))
    {
      var s := Select(host, resolve, split[i]);
      assert RenderAll(host, resolve, split[..i + 1]) == RenderAll(host, resolve, split[..i]) + [s];
      ConcatAppend(RenderAll(host, resolve, split[..i]), [s]);
      joined := joined + s;
    }
    assert split[..|split|] == split;
  }

  /** `FormatParams`: cuts the text at the bracket matches, renders every
      segment with `Select`, joins the results and un-escapes. */
  method FormatParams<F>(host: NumberHost<F>, resolve: string -> string, text: string) returns (r: string)
    ensures r == Formatted(host, resolve, text)
  {
    var split := Split2(text, Matches(text));
    var joined := JoinSelected(host, resolve, split);
    r := Unescape(joined);
  }

  /** With no match, the text is only un-escaped. */
  lemma FormattedWithoutMatches<F>(host: NumberHost<F>, resolve: string -> string, text: string)
    requires Matches(text) == []
    ensures Formatted(host, resolve, text) == Unescape(text)
  {
    var segs := Segments(text, [], 0, 0);
    if text == "" {
      assert segs == [];
    } else {
      assert text[0..] == text;
      assert segs == [SplitResult(text, false)];
      assert RenderAll(host, resolve, segs) == [text];
      assert [text][1..] == [];
      assert Concat([text]) == text;
    }
  }

  /** A text without brackets comes back unchanged, whatever the resolver. */
  lemma FormattedWithoutBrackets<F>(host: NumberHost<F>, resolve: string -> string, text: string)
    requires '[' !in text && ']' !in text
    ensures Formatted(host, resolve, text) == text
  {
    var ms := Matches(text);
    MatchesComplete(text);
    forall q: nat
      ensures MatchLength(text, q) == 0
    {
      if q < |text| {
        assert text[q] != '[';
      }
    }
    assert Starts(ms) == {};
    StartsEmpty(ms);
    FormattedWithoutMatches(host, resolve, text);
    forall j
      ensures !OccursAt(text, "\\[", j) && !OccursAt(text, "\\]", j)
    {
      if 0 <= j && j + 2 <= |text| {
        assert text[j..j + 2][1] == text[j + 1];
      }
    }
    ReplaceAbsent(text, "\\[", "[");
    ReplaceAbsent(text, "\\]", "]");
  }
}
