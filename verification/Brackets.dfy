/** The `BRACKETS` pattern of `Strings` as a hand-written scanner.

    A match starts at a `[` that is not preceded by a backslash and ends at
    the first later bracket that is not preceded by a backslash, which must
    be a `]`; every `[` or `]` strictly inside is escaped by the backslash
    just before it. Matches are searched leftmost first, the search resuming
    at the end of the previous match, and the look-behind may see the
    character just before the cursor. */
module Brackets {
  import opened Regexes

  predicate IsBracket(c: char) {
    c == '[' || c == ']'
  }

  /** The character at `k` is preceded by a backslash. */
  predicate Escaped(text: string, k: nat) {
    0 < k <= |text| && text[k - 1] == '\\'
  }

  /** A bracket that is not escaped. */
  predicate IsOpenBracket(text: string, k: nat) {
    k < |text| && IsBracket(text[k]) && !Escaped(text, k)
  }

  /** `text[s..e + 1]` is a match of the pattern. */
  predicate IsBracketSpan(text: string, s: nat, e: nat) {
    s < e < |text| &&
    text[s] == '[' && !Escaped(text, s) &&
    text[e] == ']' && !Escaped(text, e) &&
    forall k :: s < k < e ==> !IsOpenBracket(text, k)
  }

  /** The first unescaped bracket at or after `k`, or -1 when there is none. */
  function NextOpenBracket(text: string, k: nat): (e: int)
    ensures e == -1 || (k <= e && IsOpenBracket(text, e))
    ensures forall j :: k <= j && (e == -1 || j < e) ==> !IsOpenBracket(text, j)
    decreases |text| - k
  {
    if k >= |text| then -1
    else if IsOpenBracket(text, k) then k
    else NextOpenBracket(text, k + 1)
  }

  /** A match starting at `s` ends at the first unescaped bracket after it. */
  lemma SpanEndsAtNextOpenBracket(text: string, s: nat)
    ensures forall e :: IsBracketSpan(text, s, e) ==> NextOpenBracket(text, s + 1) == e
  {
    forall e | IsBracketSpan(text, s, e)
      ensures NextOpenBracket(text, s + 1) == e
    {
      assert IsOpenBracket(text, e);
    }
  }

  /** The length of the match starting at `s`, or 0 when none starts there. */
  function MatchLength(text: string, s: nat): (n: nat)
    ensures forall e :: IsBracketSpan(text, s, e) <==> n > 0 && e == s + n - 1
    ensures n == 0 || (n >= 2 && s + n <= |text|)
  {
    SpanEndsAtNextOpenBracket(text, s);
    if s < |text| && text[s] == '[' && !Escaped(text, s) then
      var e := NextOpenBracket(text, s + 1);
      if e >= 0 && text[e] == ']' then
        assert IsBracketSpan(text, s, e);
        e - s + 1
      else
        0
    else
      0
  }

  /** No match starts strictly inside a match, nor at its closing bracket. */
  lemma NoMatchInside(text: string, s: nat, e: nat)
    requires IsBracketSpan(text, s, e)
    ensures forall k :: s < k <= e ==> MatchLength(text, k) == 0
  {
    forall k | s < k <= e
      ensures MatchLength(text, k) == 0
    {
      if k < e {
        assert !IsOpenBracket(text, k);
      }
    }
  }

  /** The matches found by a search starting at `pos`. */
  function ScanFrom(text: string, pos: nat): (r: seq<Match>)
    ensures forall i :: 0 <= i < |r| ==>
      pos <= r[i].Index && r[i].Length == MatchLength(text, r[i].Index) > 0
    ensures forall i :: 0 < i < |r| ==> End(r[i - 1]) <= r[i].Index
    decreases |text| - pos
  {
    if pos >= |text| then []
    else
      var n := MatchLength(text, pos);
      if n > 0 then [Match(pos, n)] + ScanFrom(text, pos + n)
      else ScanFrom(text, pos + 1)
  }

  /** The start indices of a list of matches. */
  function Starts(ms: seq<Match>): set<nat> {
    set m | m in ms :: m.Index
  }

  lemma StartsEmpty(ms: seq<Match>)
    ensures Starts(ms) == {} <==> ms == []
  {
    if ms != [] {
      assert ms[0].Index in Starts(ms);
    }
  }

  /** `BRACKETS.Matches(text)`. */
  function Matches(text: string): (r: seq<Match>)
    ensures ValidMatches(text, r)
  {
    var r := ScanFrom(text, 0);
    ValidFromOrdered(text, r, 0, 0);
    r
  }

  // One unfolding step stated apart so that the proofs calling it stay small.
  lemma StartsCons(m: Match, rest: seq<Match>)
    ensures Starts([m] + rest) == {m.Index} + Starts(rest)
  {
    assert forall x :: x in [m] + rest <==> x == m || x in rest;
  }

  /** The search from `pos` finds a match at exactly the positions from
      `pos` on where one starts. */
  lemma {:induction false} ScanFromComplete(text: string, pos: nat)
    ensures forall q :: q in Starts(ScanFrom(text, pos)) <==> pos <= q && MatchLength(text, q) > 0
    decreases |text| - pos, 1
  {
    if pos >= |text| {
      forall q | pos <= q
        ensures MatchLength(text, q) == 0
      {
      }
    } else if MatchLength(text, pos) > 0 {
      ScanFromHit(text, pos);
    } else {
      ScanFromComplete(text, pos + 1);
      forall q | pos <= q && MatchLength(text, q) > 0
        ensures pos + 1 <= q
      {
      }
    }
  }

  lemma {:induction false} ScanFromHit(text: string, pos: nat)
    requires pos < |text| && MatchLength(text, pos) > 0
    ensures forall q :: q in Starts(ScanFrom(text, pos)) <==> pos <= q && MatchLength(text, q) > 0
    decreases |text| - pos, 0
  {
    var n := MatchLength(text, pos);
    var rest := ScanFrom(text, pos + n);
    var st := Starts(ScanFrom(text, pos));
    assert st == {pos} + Starts(rest) by {
      StartsCons(Match(pos, n), rest);
    }
    assert forall q :: q in Starts(rest) <==> pos + n <= q && MatchLength(text, q) > 0 by {
      ScanFromComplete(text, pos + n);
    }
    assert forall q :: pos < q < pos + n ==> MatchLength(text, q) == 0 by {
      assert IsBracketSpan(text, pos, pos + n - 1);
      NoMatchInside(text, pos, pos + n - 1);
    }
  }

  /** Matches are found at exactly the positions where a match starts: no
      match is skipped, however the matches before it lie. */
  lemma MatchesComplete(text: string)
    ensures forall q :: q in Starts(Matches(text)) <==> MatchLength(text, q) > 0
  {
    ScanFromComplete(text, 0);
  }

  /** The text of a match: at least two characters, a `[` first and a `]`
      last that is not escaped, and every bracket in between escaped. */
  lemma MatchText(text: string, m: Match)
    requires m in Matches(text)
    ensures End(m) <= |text|
    ensures var v := text[m.Index..End(m)];
      |v| >= 2 && v[0] == '[' && v[|v| - 1] == ']' && v[|v| - 2] != '\\' &&
      forall k :: 0 < k < |v| - 1 && IsBracket(v[k]) ==> v[k - 1] == '\\'
  {
    MatchIsSpan(text, m);
    var v := text[m.Index..End(m)];
    forall k | 0 < k < |v| - 1 && IsBracket(v[k])
      ensures v[k - 1] == '\\'
    {
      assert v[k] == text[m.Index + k];
      assert !IsOpenBracket(text, m.Index + k);
    }
  }

  /** A match found in a text spans a match of the pattern. */
  lemma MatchIsSpan(text: string, m: Match)
    requires m in Matches(text)
    ensures 1 <= m.Length && IsBracketSpan(text, m.Index, End(m) - 1)
  {
    assert m.Length == MatchLength(text, m.Index) > 0;
  }
}
