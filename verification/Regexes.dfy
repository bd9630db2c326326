/** `Regexes.Split2`: cuts a text into the segments between the matches of a
    pattern and the matches themselves. The pattern engine is not modelled:
    `Split2` takes the list of matches, which the engine guarantees to be in
    order, not overlapping and within the text. */
module Regexes {

  /** A match of a pattern: where it starts and how many characters it spans. */
  datatype Match = Match(Index: nat, Length: nat)

  /** One segment yielded by `Split2`. */
  datatype SplitResult = SplitResult(Value: string, IsMatch: bool)

  function End(m: Match): nat {
    m.Index + m.Length
  }

  /** The matches from the `i`-th on lie within `text`, the first of them
      starts at or after `from`, and each starts at or after the end of the
      one before. */
  predicate ValidFrom(text: string, ms: seq<Match>, i: nat, from: nat)
    decreases |ms| - i
  {
    i >= |ms| ||
    (from <= ms[i].Index && End(ms[i]) <= |text| && ValidFrom(text, ms, i + 1, End(ms[i])))
  }

  /** All of `ms` is a list of matches as a pattern engine yields them. */
  predicate ValidMatches(text: string, ms: seq<Match>) {
    ValidFrom(text, ms, 0, 0)
  }

  lemma {:induction false} ValidFromBounds(text: string, ms: seq<Match>, i: nat, from: nat)
    requires ValidFrom(text, ms, i, from)
    ensures forall j :: i <= j < |ms| ==> from <= ms[j].Index && End(ms[j]) <= |text|
    ensures forall j :: i < j < |ms| ==> End(ms[j - 1]) <= ms[j].Index
    decreases |ms| - i
  {
    if i < |ms| {
      ValidFromBounds(text, ms, i + 1, End(ms[i]));
    }
  }

  /** The converse of `ValidFromBounds`: matches within the text, in order
      and not overlapping, are a valid list. */
  lemma {:induction false} ValidFromOrdered(text: string, ms: seq<Match>, i: nat, from: nat)
    requires i < |ms| ==> from <= ms[i].Index
    requires forall j :: i <= j < |ms| ==> End(ms[j]) <= |text|
    requires forall j :: i < j < |ms| ==> End(ms[j - 1]) <= ms[j].Index
    ensures ValidFrom(text, ms, i, from)
    decreases |ms| - i
  {
    if i < |ms| {
      ValidFromOrdered(text, ms, i + 1, End(ms[i]));
    }
  }

  /** The segments `Split2` yields from the `i`-th match on, where `from` is
      the cursor: the gap before each match when it is not empty, then the
      match; after the last match, the rest of the text when it is not empty. */
  function Segments(text: string, ms: seq<Match>, i: nat, from: nat): seq<SplitResult>
    requires from <= |text| && ValidFrom(text, ms, i, from)
    decreases |ms| - i
  {
    if i >= |ms| then
      (if from < |text| then [SplitResult(text[from..], false)] else [])
    else
      StepSegments(text, ms[i], from) + Segments(text, ms, i + 1, End(ms[i]))
  }

  /** The segments yielded for one match: the gap before it when that is not
      empty, then the match itself. */
  function StepSegments(text: string, m: Match, from: nat): seq<SplitResult>
    requires from <= m.Index && End(m) <= |text|
  {
    (if m.Index > from then [SplitResult(text[from..m.Index], false)] else [])
    + [SplitResult(text[m.Index..End(m)], true)]
  }

  /** `Regexes.Split2`, with the matches the pattern engine found. */
  method Split2(text: string, matches: seq<Match>) returns (r: seq<SplitResult>)
    requires ValidMatches(text, matches)
    ensures r == Segments(text, matches, 0, 0)
    ensures matches == [] ==> r == if text == "" then [] else [SplitResult(text, false)]
  {
    r := [];
    var index := 0;
    var i := 0;
    while i < |matches|
      invariant 0 <= i <= |matches|
      invariant 0 <= index <= |text|
      invariant ValidFrom(text, matches, i, index)
      invariant r + Segments(text, matches, i, index) == Segments(text, matches, 0, 0)
    {
      var m := matches[i];
      ghost var before := r;
      ghost var step := StepSegments(text, m, index);
      ghost var rest := Segments(text, matches, i + 1, End(m));
      assert Segments(text, matches, i, index) == step + rest;
      if m.Index > index {
        r := r + [SplitResult(text[index..m.Index], false)];
      }
      r := r + [SplitResult(text[m.Index..m.Index + m.Length], true)];
      assert r == before + step;
      AppendStep(before, step, rest, Segments(text, matches, i, index), Segments(text, matches, 0, 0));
      index := m.Index + m.Length;
      i := i + 1;
    }
    if index < |text| {
      r := r + [SplitResult(text[index..], false)];
    }
    if matches == [] {
      assert text[0..] == text;
    }
  }

  // A sequence identity stated apart so that the proofs calling it stay small.
  lemma AppendStep<T>(before: seq<T>, step: seq<T>, rest: seq<T>, mid: seq<T>, whole: seq<T>)
    requires mid == step + rest && before + mid == whole
    ensures (before + step) + rest == whole
  {
  }

  // ---------------------------------------------------------------------
  // What the segments promise

  /** The values of the segments, concatenated. */
  function Joined(segs: seq<SplitResult>): string {
    if segs == [] then "" else segs[0].Value + Joined(segs[1..])
  }

  /** The values of the match segments, in order. */
  function MatchValues(segs: seq<SplitResult>): seq<string> {
    if segs == [] then [] else MatchValue(segs[0]) + MatchValues(segs[1..])
  }

  /** The value of one segment when it is a match. */
  function MatchValue(seg: SplitResult): seq<string> {
    if seg.IsMatch then [seg.Value] else []
  }

  lemma {:induction false} JoinedAppend(a: seq<SplitResult>, b: seq<SplitResult>)
    ensures Joined(a + b) == Joined(a) + Joined(b)
    decreases |a|
  {
    if a == [] {
      assert a + b == b;
    } else {
      assert (a + b)[1..] == a[1..] + b;
      JoinedAppend(a[1..], b);
    }
  }

  lemma {:induction false} MatchValuesAppend(a: seq<SplitResult>, b: seq<SplitResult>)
    ensures MatchValues(a + b) == MatchValues(a) + MatchValues(b)
    decreases |a|
  {
    if a == [] {
      assert a + b == b;
    } else {
      var c := a + b;
      assert c[0] == a[0] && c[1..] == a[1..] + b;
      MatchValuesAppend(a[1..], b);
      AppendStep(MatchValue(a[0]), MatchValues(a[1..]), MatchValues(b),
        MatchValues(a[1..] + b), MatchValues(c));
    }
  }

  /** Concatenating the segments gives back the text from the cursor on. */
  lemma {:induction false} SegmentsCoverText(text: string, ms: seq<Match>, i: nat, from: nat)
    requires from <= |text| && ValidFrom(text, ms, i, from)
    ensures Joined(Segments(text, ms, i, from)) == text[from..]
    decreases |ms| - i
  {
    if i < |ms| {
      var m := ms[i];
      var head := StepSegments(text, m, from);
      var rest := Segments(text, ms, i + 1, End(m));
      SegmentsCoverText(text, ms, i + 1, End(m));
      JoinedAppend(head, rest);
      JoinedStep(text, m, from);
      SliceThree(text, from, m.Index, End(m));
    }
  }

  /** The segments for one match cover the text from the cursor to the match end. */
  lemma JoinedStep(text: string, m: Match, from: nat)
    requires from <= m.Index && End(m) <= |text|
    ensures Joined(StepSegments(text, m, from)) == text[from..End(m)]
  {
    var gap := if m.Index > from then [SplitResult(text[from..m.Index], false)] else [];
    var hit := [SplitResult(text[m.Index..End(m)], true)];
    JoinedAppend(gap, hit);
    assert Joined(gap) == text[from..m.Index];
    assert text[from..End(m)] == text[from..m.Index] + text[m.Index..End(m)];
  }

  // A sequence identity stated apart so that the proofs calling it stay small.
  lemma SliceThree(text: string, a: nat, b: nat, c: nat)
    requires a <= b <= c <= |text|
    ensures text[a..] == text[a..c] + text[c..]
  {
  }

  /** A segment that is not a match is never empty. */
  lemma {:induction false} GapsNotEmpty(text: string, ms: seq<Match>, i: nat, from: nat)
    requires from <= |text| && ValidFrom(text, ms, i, from)
    ensures forall seg :: seg in Segments(text, ms, i, from) && !seg.IsMatch ==> seg.Value != ""
    decreases |ms| - i
  {
    if i < |ms| {
      GapsNotEmpty(text, ms, i + 1, End(ms[i]));
    }
  }

  lemma MatchValuesStep(text: string, m: Match, from: nat)
    requires from <= m.Index && End(m) <= |text|
    ensures MatchValues(StepSegments(text, m, from)) == [text[m.Index..End(m)]]
  {
    var gap := if m.Index > from then [SplitResult(text[from..m.Index], false)] else [];
    MatchValuesAppend(gap, [SplitResult(text[m.Index..End(m)], true)]);
  }

  /** Each match from the `i`-th on gives exactly one match segment, holding
      the matched text, in the order of the matches. */
  lemma {:induction false} MatchSegmentsInOrder(text: string, ms: seq<Match>, i: nat, from: nat)
    requires i <= |ms| && from <= |text| && ValidFrom(text, ms, i, from)
    ensures var vs := MatchValues(Segments(text, ms, i, from));
      |vs| == |ms| - i &&
      forall j :: i <= j < |ms| ==> End(ms[j]) <= |text| && vs[j - i] == text[ms[j].Index..End(ms[j])]
    decreases |ms| - i
  {
    ValidFromBounds(text, ms, i, from);
    if i < |ms| {
      var m := ms[i];
      var head := StepSegments(text, m, from);
      var rest := Segments(text, ms, i + 1, End(m));
      MatchSegmentsInOrder(text, ms, i + 1, End(m));
      MatchValuesAppend(head, rest);
      MatchValuesStep(text, m, from);
      var vs := MatchValues(Segments(text, ms, i, from));
      var tail := MatchValues(rest);
      assert vs == [text[m.Index..End(m)]] + tail;
      forall j | i < j < |ms| ensures vs[j - i] == text[ms[j].Index..End(ms[j])] {
        assert vs[j - i] == tail[j - (i + 1)];
      }
    }
  }

  predicate NoAdjacentGaps(segs: seq<SplitResult>) {
    forall k :: 0 <= k < |segs| - 1 ==> segs[k].IsMatch || segs[k + 1].IsMatch
  }

  /** Two segments that are not matches never follow each other. */
  lemma {:induction false} GapsNeverAdjacent(text: string, ms: seq<Match>, i: nat, from: nat)
    requires from <= |text| && ValidFrom(text, ms, i, from)
    ensures NoAdjacentGaps(Segments(text, ms, i, from))
    decreases |ms| - i
  {
    if i < |ms| {
      var head := StepSegments(text, ms[i], from);
      var rest := Segments(text, ms, i + 1, End(ms[i]));
      GapsNeverAdjacent(text, ms, i + 1, End(ms[i]));
      var segs := head + rest;
      forall k | 0 <= k < |segs| - 1 ensures segs[k].IsMatch || segs[k + 1].IsMatch {
        if k + 1 < |head| {
          assert segs[k + 1] == head[|head| - 1];
        } else if k + 1 == |head| {
          assert segs[k] == head[|head| - 1];
        } else {
          assert segs[k] == rest[k - |head|] && segs[k + 1] == rest[k + 1 - |head|];
        }
      }
    }
  }
}
