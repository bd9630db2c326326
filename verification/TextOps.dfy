/** The .NET string primitives the helpers in Strings.cs are built on, modelled
    over `string = seq<char>`: white space, ASCII case mapping, `Trim`,
    `IndexOf`, `Split` (with several separators, the first one listed winning
    at a position), `string.Join`, `string.Concat` and `Replace`. */
module TextOps {

  // ---------------------------------------------------------------------
  // Characters

  /** `char.IsWhiteSpace`, restricted to the ASCII white-space characters. */
  predicate IsWhiteSpace(c: char) {
    c == ' ' || c == '\t' || c == '\n' || c == '\r' || c == '\U{B}' || c == '\U{C}'
  }

  /** `string.IsNullOrWhiteSpace` on a string that is not null. */
  predicate IsBlank(s: string) {
    forall i :: 0 <= i < |s| ==> IsWhiteSpace(s[i])
  }

  predicate IsLowerAscii(c: char) { 'a' <= c <= 'z' }

  predicate IsUpperAscii(c: char) { 'A' <= c <= 'Z' }

  function UpperChar(c: char): (u: char)
    ensures !IsLowerAscii(u)
    ensures IsWhiteSpace(u) <==> IsWhiteSpace(c)
    ensures !IsLowerAscii(c) ==> u == c
  {
    if IsLowerAscii(c) then (c as int - 32) as char else c
  }

  function LowerChar(c: char): (l: char)
    ensures !IsUpperAscii(l)
    ensures UpperChar(l) == UpperChar(c)
    ensures !IsUpperAscii(c) ==> l == c
  {
    if IsUpperAscii(c) then (c as int + 32) as char else c
  }

  /** `ToUpper` with ASCII case mapping. */
  function ToUpper(s: string): (r: string)
    ensures |r| == |s|
    ensures forall i :: 0 <= i < |s| ==> r[i] == UpperChar(s[i])
  {
    seq(|s|, i requires 0 <= i < |s| => UpperChar(s[i]))
  }

  /** `ToLower` with ASCII case mapping. */
  function ToLower(s: string): (r: string)
    ensures |r| == |s|
    ensures forall i :: 0 <= i < |s| ==> r[i] == LowerChar(s[i])
  {
    seq(|s|, i requires 0 <= i < |s| => LowerChar(s[i]))
  }

  /** Ordinal comparison ignoring (ASCII) case. */
  predicate EqualsIgnoreCase(a: string, b: string) {
    ToUpper(a) == ToUpper(b)
  }

  /** `Replace(char, char)`. */
  function ReplaceChar(s: string, from: char, to: char): (r: string)
    ensures |r| == |s|
    ensures forall i :: 0 <= i < |s| ==> r[i] == if s[i] == from then to else s[i]
  {
    seq(|s|, i requires 0 <= i < |s| => if s[i] == from then to else s[i])
  }

  // ---------------------------------------------------------------------
  // Trim

  /** `Trim`: drops the white space at both ends and keeps everything between
      (`TrimIsMiddle`). */
  function Trim(s: string): (r: string)
    ensures |r| <= |s|
    ensures r == [] <==> IsBlank(s)
    ensures r != [] ==> !IsWhiteSpace(r[0]) && !IsWhiteSpace(r[|r| - 1])
    decreases |s|
  {
    if s == [] then []
    else if IsWhiteSpace(s[0]) then
      assert IsBlank(s) <==> IsBlank(s[1..]) by {
        assert forall i :: 1 <= i < |s| ==> s[i] == s[1..][i - 1];
      }
      Trim(s[1..])
    else if IsWhiteSpace(s[|s| - 1]) then
      assert !IsBlank(s) && !IsBlank(s[..|s| - 1]) by {
        assert s[..|s| - 1][0] == s[0];
      }
      Trim(s[..|s| - 1])
    else s
  }

  /** The trim is a slice of the string with only white space before and
      after it: nothing between the ends is dropped or changed. */
  lemma {:induction false} TrimIsMiddle(s: string)
    ensures MiddleOf(Trim(s), s)
    decreases |s|
  {
    if s == [] || (!IsWhiteSpace(s[0]) && !IsWhiteSpace(s[|s| - 1])) {
      MiddleOfSelf(s);
    } else if IsWhiteSpace(s[0]) {
      TrimIsMiddle(s[1..]);
      MiddleOfTail(Trim(s[1..]), s);
    } else {
      TrimIsMiddle(s[..|s| - 1]);
      MiddleOfInit(Trim(s[..|s| - 1]), s);
    }
  }

  /** `r` is `s` with some white space dropped at each end, and nothing else. */
  predicate MiddleOf(r: string, s: string) {
    exists i, j :: 0 <= i <= j <= |s| && r == s[i..j] && IsBlank(s[..i]) && IsBlank(s[j..])
  }

  lemma MiddleOfSelf(s: string)
    ensures MiddleOf(s, s)
  {
    MiddleAt(s, s, 0, |s|);
  }

  // A sequence identity stated apart so that the proofs calling it stay small.
  lemma MiddleAt(r: string, s: string, i: nat, j: nat)
    requires i <= j <= |s| && r == s[i..j] && IsBlank(s[..i]) && IsBlank(s[j..])
    ensures MiddleOf(r, s)
  {
  }

  // A sequence identity stated apart so that the proofs calling it stay small.
  lemma BlankAppend(a: string, b: string)
    requires IsBlank(a) && IsBlank(b)
    ensures IsBlank(a + b)
  {
  }

  lemma MiddleOfTail(r: string, s: string)
    requires s != [] && IsWhiteSpace(s[0]) && MiddleOf(r, s[1..])
    ensures MiddleOf(r, s)
  {
    var i, j :| 0 <= i <= j <= |s[1..]| && r == s[1..][i..j] && IsBlank(s[1..][..i]) && IsBlank(s[1..][j..]);
    assert r == s[i + 1..j + 1] by {
      assert s[1..][i..j] == s[i + 1..j + 1];
    }
    assert IsBlank(s[..i + 1]) by {
      assert s[..i + 1] == [s[0]] + s[1..][..i];
      BlankAppend([s[0]], s[1..][..i]);
    }
    assert IsBlank(s[j + 1..]) by {
      assert s[j + 1..] == s[1..][j..];
    }
    MiddleAt(r, s, i + 1, j + 1);
  }

  lemma MiddleOfInit(r: string, s: string)
    requires s != [] && IsWhiteSpace(s[|s| - 1]) && MiddleOf(r, s[..|s| - 1])
    ensures MiddleOf(r, s)
  {
    var i, j :| 0 <= i <= j <= |s[..|s| - 1]| && r == s[..|s| - 1][i..j] &&
      IsBlank(s[..|s| - 1][..i]) && IsBlank(s[..|s| - 1][j..]);
    assert r == s[i..j] by {
      assert s[..|s| - 1][i..j] == s[i..j];
    }
    assert IsBlank(s[..i]) by {
      assert s[..i] == s[..|s| - 1][..i];
    }
    assert IsBlank(s[j..]) by {
      assert s[j..] == s[..|s| - 1][j..] + [s[|s| - 1]];
      BlankAppend(s[..|s| - 1][j..], [s[|s| - 1]]);
    }
    MiddleAt(r, s, i, j);
  }

  /** Trimming keeps characters of the string only. */
  lemma {:induction false} TrimKeepsChars(s: string)
    ensures forall k :: 0 <= k < |Trim(s)| ==> Trim(s)[k] in s
    decreases |s|
  {
    if s != [] && IsWhiteSpace(s[0]) {
      TrimKeepsChars(s[1..]);
      forall k | 0 <= k < |Trim(s)| ensures Trim(s)[k] in s {
        assert Trim(s)[k] in s[1..];
      }
    } else if s != [] && IsWhiteSpace(s[|s| - 1]) {
      TrimKeepsChars(s[..|s| - 1]);
      forall k | 0 <= k < |Trim(s)| ensures Trim(s)[k] in s {
        assert Trim(s)[k] in s[..|s| - 1];
      }
    }
  }

  /** A string without white space at either end is its own trim. */
  lemma TrimmedIsFixed(s: string)
    requires s == [] || (!IsWhiteSpace(s[0]) && !IsWhiteSpace(s[|s| - 1]))
    ensures Trim(s) == s
  {
  }

  // ---------------------------------------------------------------------
  // Occurrences

  predicate OccursAt(s: string, pat: string, i: int) {
    0 <= i && i + |pat| <= |s| && s[i..i + |pat|] == pat
  }

  function IndexOfFrom(s: string, pat: string, k: nat): (r: int)
    ensures r == -1 || (k <= r && OccursAt(s, pat, r))
    ensures forall j :: k <= j && (r == -1 || j < r) ==> !OccursAt(s, pat, j)
    decreases |s| - k
  {
    if k + |pat| > |s| then -1
    else if s[k..k + |pat|] == pat then k
    else IndexOfFrom(s, pat, k + 1)
  }

  /** Ordinal `IndexOf(string)`: the first position where `pat` occurs, or -1. */
  function IndexOf(s: string, pat: string): (r: int)
    ensures r == -1 <==> forall j :: !OccursAt(s, pat, j)
    ensures r != -1 ==> OccursAt(s, pat, r) && forall j :: 0 <= j < r ==> !OccursAt(s, pat, j)
  {
    IndexOfFrom(s, pat, 0)
  }

  // ---------------------------------------------------------------------
  // Split, Join, Concat

  /** The length of the first non-empty separator of `seps` that occurs at
      `pos`, or 0 when none does (empty separators never split). */
  function SeparatorAt(s: string, pos: nat, seps: seq<string>): (n: nat)
    ensures n > 0 ==> pos + n <= |s|
  {
    if seps == [] then 0
    else if |seps[0]| > 0 && OccursAt(s, seps[0], pos) then |seps[0]|
    else SeparatorAt(s, pos, seps[1..])
  }

  /** A separator found at `pos` is one of `seps`; when none is found, no
      non-empty separator occurs there. */
  lemma {:induction false} SeparatorAtFacts(s: string, pos: nat, seps: seq<string>)
    ensures var n := SeparatorAt(s, pos, seps);
      (n > 0 ==> s[pos..pos + n] in seps) &&
      (n == 0 ==> forall sep :: sep in seps && sep != "" ==> !OccursAt(s, sep, pos))
    decreases |seps|
  {
    if seps != [] && !(|seps[0]| > 0 && OccursAt(s, seps[0], pos)) {
      SeparatorAtFacts(s, pos, seps[1..]);
      assert forall sep :: sep in seps ==> sep == seps[0] || sep in seps[1..];
    }
  }

  /** No separator is found where none of the non-empty ones occurs. */
  lemma {:induction false} SeparatorAtNone(s: string, pos: nat, seps: seq<string>)
    requires forall i :: 0 <= i < |seps| ==> seps[i] == "" || !OccursAt(s, seps[i], pos)
    ensures SeparatorAt(s, pos, seps) == 0
    decreases |seps|
  {
    if seps != [] {
      SeparatorAtNone(s, pos, seps[1..]);
    }
  }

  /** With one separator, it is found exactly where it occurs. */
  lemma SeparatorAtSingle(s: string, pos: nat, sep: string)
    ensures SeparatorAt(s, pos, [sep]) == if |sep| > 0 && OccursAt(s, sep, pos) then |sep| else 0
  {
    assert [sep][1..] == [];
  }

  /** The pieces of `s[start..]`, where the current piece began at `start`
      and the scan has reached `pos`. */
  function SplitFrom(s: string, seps: seq<string>, start: nat, pos: nat): (r: seq<string>)
    requires start <= pos <= |s|
    ensures |r| >= 1
    decreases |s| - pos
  {
    if pos == |s| then [s[start..]]
    else
      var n := SeparatorAt(s, pos, seps);
      if n == 0 then SplitFrom(s, seps, start, pos + 1)
      else [s[start..pos]] + SplitFrom(s, seps, pos + n, pos + n)
  }

  /** `string.Split(string[], StringSplitOptions.None)` for a non-empty array
      of separators: left to right, at each position the first listed
      separator that occurs there cuts. */
  function SplitBy(s: string, seps: seq<string>): seq<string> {
    SplitFrom(s, seps, 0, 0)
  }

  /** Drops the empty strings (`StringSplitOptions.RemoveEmptyEntries`). */
  function RemoveEmpty(ps: seq<string>): (r: seq<string>)
    ensures forall i :: 0 <= i < |r| ==> r[i] != ""
    ensures |r| <= |ps|
  {
    if ps == [] then []
    else if ps[0] == "" then RemoveEmpty(ps[1..])
    else [ps[0]] + RemoveEmpty(ps[1..])
  }

  /** Dropping the empty pieces keeps only pieces that were there ... */
  lemma {:induction false} RemoveEmptyKeeps(ps: seq<string>)
    ensures forall p :: p in RemoveEmpty(ps) ==> p in ps
  {
    if ps != [] {
      RemoveEmptyKeeps(ps[1..]);
    }
  }

  /** ... and drops nothing when no piece is empty. */
  lemma {:induction false} RemoveEmptyNone(ps: seq<string>)
    requires forall i :: 0 <= i < |ps| ==> ps[i] != ""
    ensures RemoveEmpty(ps) == ps
  {
    if ps != [] {
      RemoveEmptyNone(ps[1..]);
    }
  }

  /** `string.Join(sep, ps)`. */
  function Join(ps: seq<string>, sep: string): string {
    if |ps| == 0 then ""
    else if |ps| == 1 then ps[0]
    else ps[0] + sep + Join(ps[1..], sep)
  }

  /** `string.Concat(ps)`, that is `string.Join(string.Empty, ps)`. */
  function Concat(ps: seq<string>): string {
    if ps == [] then "" else ps[0] + Concat(ps[1..])
  }

  lemma {:induction false} ConcatAppend(a: seq<string>, b: seq<string>)
    ensures Concat(a + b) == Concat(a) + Concat(b)
    decreases |a|
  {
    if a == [] {
      assert a + b == b;
    } else {
      assert (a + b)[1..] == a[1..] + b;
      ConcatAppend(a[1..], b);
    }
  }

  lemma {:induction false} ConcatRemoveEmpty(ps: seq<string>)
    ensures Concat(RemoveEmpty(ps)) == Concat(ps)
  {
    if ps != [] {
      ConcatRemoveEmpty(ps[1..]);
    }
  }

  /** `s` with every `c` removed. */
  function Without(s: string, c: char): string {
    if s == [] then [] else (if s[0] == c then [] else [s[0]]) + Without(s[1..], c)
  }

  lemma {:induction false} WithoutEmpty(s: string, c: char)
    ensures Without(s, c) == [] <==> forall k :: 0 <= k < |s| ==> s[k] == c
  {
    if s != [] {
      WithoutEmpty(s[1..], c);
      assert forall k :: 1 <= k < |s| ==> s[k] == s[1..][k - 1];
    }
  }

  /** The pieces of a split on one character, concatenated, are the text
      without that character. */
  lemma {:induction false} ConcatSplitFrom(s: string, c: char, start: nat, pos: nat)
    requires start <= pos <= |s|
    requires forall k :: start <= k < pos ==> s[k] != c
    ensures Concat(SplitFrom(s, [[c]], start, pos)) == s[start..pos] + Without(s[pos..], c)
    decreases |s| - pos, 1
  {
    if pos == |s| {
      assert SplitFrom(s, [[c]], start, pos) == [s[start..]];
      assert s[pos..] == [];
    } else if s[pos] != c {
      ConcatSplitKeep(s, c, start, pos);
    } else {
      ConcatSplitCut(s, c, start, pos);
    }
  }

  lemma {:induction false} ConcatSplitKeep(s: string, c: char, start: nat, pos: nat)
    requires start <= pos < |s| && s[pos] != c
    requires forall k :: start <= k < pos ==> s[k] != c
    ensures Concat(SplitFrom(s, [[c]], start, pos)) == s[start..pos] + Without(s[pos..], c)
    decreases |s| - pos, 0
  {
    assert s[pos..pos + 1] == [s[pos]];
    SeparatorAtSingle(s, pos, [c]);
    assert SeparatorAt(s, pos, [[c]]) == 0;
    ConcatSplitFrom(s, c, start, pos + 1);
    assert s[pos..][1..] == s[pos + 1..];
    assert s[start..pos + 1] == s[start..pos] + [s[pos]];
  }

  lemma {:induction false} ConcatSplitCut(s: string, c: char, start: nat, pos: nat)
    requires start <= pos < |s| && s[pos] == c
    requires forall k :: start <= k < pos ==> s[k] != c
    ensures Concat(SplitFrom(s, [[c]], start, pos)) == s[start..pos] + Without(s[pos..], c)
    decreases |s| - pos, 0
  {
    assert s[pos..pos + 1] == [c];
    SeparatorAtSingle(s, pos, [c]);
    assert SeparatorAt(s, pos, [[c]]) == 1;
    var rest := SplitFrom(s, [[c]], pos + 1, pos + 1);
    assert SplitFrom(s, [[c]], start, pos) == [s[start..pos]] + rest;
    ConcatSplitFrom(s, c, pos + 1, pos + 1);
    assert s[pos..][1..] == s[pos + 1..];
    assert Concat([s[start..pos]] + rest) == s[start..pos] + Concat(rest);
  }

  /** A list of non-empty strings concatenates to "" only when it is empty. */
  lemma ConcatOfNonEmpty(ps: seq<string>)
    requires forall i :: 0 <= i < |ps| ==> ps[i] != ""
    ensures Concat(ps) == "" <==> ps == []
  {
    if ps != [] {
      assert |Concat(ps)| >= |ps[0]|;
    }
  }

  lemma JoinCons(p: string, rest: seq<string>, sep: string)
    requires |rest| >= 1
    ensures Join([p] + rest, sep) == p + sep + Join(rest, sep)
  {
    assert ([p] + rest)[1..] == rest;
  }

  /** Splitting on one non-empty separator and joining the pieces with it
      gives back the text. */
  lemma {:induction false} JoinSplitFrom(s: string, sep: string, start: nat, pos: nat)
    requires |sep| > 0 && start <= pos <= |s|
    ensures Join(SplitFrom(s, [sep], start, pos), sep) == s[start..]
    decreases |s| - pos
  {
    if pos < |s| {
      var n := SeparatorAt(s, pos, [sep]);
      SeparatorAtSingle(s, pos, sep);
      if n == 0 {
        JoinSplitFrom(s, sep, start, pos + 1);
      } else {
        var rest := SplitFrom(s, [sep], pos + n, pos + n);
        var ps := [s[start..pos]] + rest;
        assert SplitFrom(s, [sep], start, pos) == ps;
        JoinSplitFrom(s, sep, pos + n, pos + n);
        JoinCons(s[start..pos], rest, sep);
        assert s[pos..pos + n] == sep;
        assert s[start..] == s[start..pos] + s[pos..pos + n] + s[pos + n..];
      }
    }
  }

  /** One step of the scan: a separator at `pos` ends the current piece. */
  lemma SplitFromCut(s: string, seps: seq<string>, start: nat, pos: nat)
    requires start <= pos < |s| && SeparatorAt(s, pos, seps) > 0
    ensures var n := SeparatorAt(s, pos, seps);
      pos + n <= |s| &&
      SplitFrom(s, seps, start, pos) == [s[start..pos]] + SplitFrom(s, seps, pos + n, pos + n)
  {
  }

  /** Positions where no separator occurs only move the scan forward. */
  lemma {:induction false} SplitFromSkip(s: string, seps: seq<string>, start: nat, pos: nat, q: nat)
    requires start <= pos <= q <= |s|
    requires forall k :: pos <= k < q ==> SeparatorAt(s, k, seps) == 0
    ensures SplitFrom(s, seps, start, pos) == SplitFrom(s, seps, start, q)
    decreases q - pos
  {
    if pos < q {
      SplitFromSkip(s, seps, start, pos + 1, q);
    }
  }

  /** Whether a separator occurs at a position does not depend on the text
      before the position. */
  lemma {:induction false} SeparatorAtShift(s: string, seps: seq<string>, base: nat, pos: nat)
    requires base <= pos <= |s|
    ensures SeparatorAt(s, pos, seps) == SeparatorAt(s[base..], pos - base, seps)
    decreases |seps|
  {
    if seps != [] {
      var sep := seps[0];
      if pos + |sep| <= |s| {
        assert s[pos..pos + |sep|] == s[base..][pos - base..pos - base + |sep|];
      }
      SeparatorAtShift(s, seps[1..], base, pos);
    }
  }

  /** Splitting does not depend on the text before the current piece. */
  lemma {:induction false} SplitFromShift(s: string, seps: seq<string>, base: nat, start: nat, pos: nat)
    requires base <= start <= pos <= |s|
    ensures SplitFrom(s, seps, start, pos) == SplitFrom(s[base..], seps, start - base, pos - base)
    decreases |s| - pos, 1
  {
    if pos == |s| {
      assert s[start..] == s[base..][start - base..];
    } else {
      SeparatorAtShift(s, seps, base, pos);
      if SeparatorAt(s, pos, seps) == 0 {
        SplitFromShift(s, seps, base, start, pos + 1);
      } else {
        SplitFromShiftCut(s, seps, base, start, pos);
      }
    }
  }

  lemma {:induction false} SplitFromShiftCut(s: string, seps: seq<string>, base: nat, start: nat, pos: nat)
    requires base <= start <= pos < |s|
    requires SeparatorAt(s, pos, seps) > 0
    requires SeparatorAt(s, pos, seps) == SeparatorAt(s[base..], pos - base, seps)
    ensures SplitFrom(s, seps, start, pos) == SplitFrom(s[base..], seps, start - base, pos - base)
    decreases |s| - pos, 0
  {
    SplitFromCut(s, seps, start, pos);
    SplitFromCut(s[base..], seps, start - base, pos - base);
    SplitFromShift(s, seps, base, pos + SeparatorAt(s, pos, seps), pos + SeparatorAt(s, pos, seps));
    SliceShift(s, base, start, pos);
    ConsAgree(SplitFrom(s, seps, start, pos), SplitFrom(s[base..], seps, start - base, pos - base),
      s[start..pos], s[base..][start - base..pos - base],
      SplitFrom(s, seps, pos + SeparatorAt(s, pos, seps), pos + SeparatorAt(s, pos, seps)),
      SplitFrom(s[base..], seps, pos + SeparatorAt(s, pos, seps) - base, pos + SeparatorAt(s, pos, seps) - base));
  }

  // A sequence identity stated apart so that the proofs calling it stay small.
  lemma SliceShift(s: string, base: nat, i: nat, j: nat)
    requires base <= i <= j <= |s|
    ensures s[i..j] == s[base..][i - base..j - base]
  {
  }

  // A sequence identity stated apart so that the proofs calling it stay small.
  lemma ConsAgree<T>(x: seq<T>, y: seq<T>, hx: T, hy: T, rx: seq<T>, ry: seq<T>)
    requires x == [hx] + rx && y == [hy] + ry && hx == hy && rx == ry
    ensures x == y
  {
  }

  /** A text cut at its first `c` splits into the part before and the
      pieces of the part after. */
  lemma SplitAtFirst(p: string, c: char, t: string)
    requires c !in p
    ensures SplitBy(p + [c] + t, [[c]]) == [p] + SplitBy(t, [[c]])
  {
    var s := p + [c] + t;
    forall k | 0 <= k < |p|
      ensures SeparatorAt(s, k, [[c]]) == 0
    {
      SeparatorAtSingle(s, k, [c]);
      assert s[k..k + 1][0] == p[k];
    }
    SplitFromSkip(s, [[c]], 0, 0, |p|);
    assert s[|p|..|p| + 1] == [c];
    SeparatorAtSingle(s, |p|, [c]);
    assert SeparatorAt(s, |p|, [[c]]) == 1;
    SplitFromShift(s, [[c]], |p| + 1, |p| + 1, |p| + 1);
    assert s[|p| + 1..] == t;
    assert s[0..|p|] == p;
  }

  /** Splitting on `c` undoes joining with `c` pieces that do not hold it. */
  lemma {:induction false} SplitJoin(ps: seq<string>, c: char)
    requires |ps| >= 1
    requires forall i :: 0 <= i < |ps| ==> c !in ps[i]
    ensures SplitBy(Join(ps, [c]), [[c]]) == ps
    decreases |ps|
  {
    if |ps| == 1 {
      var s := ps[0];
      forall k | 0 <= k < |s|
        ensures SeparatorAt(s, k, [[c]]) == 0
      {
        SeparatorAtSingle(s, k, [c]);
        assert s[k..k + 1][0] == s[k];
      }
      SplitFromWithoutSeparator(s, [[c]], 0, 0);
      assert s[0..] == s;
    } else {
      SplitJoin(ps[1..], c);
      SplitAtFirst(ps[0], c, Join(ps[1..], [c]));
      assert [ps[0]] + ps[1..] == ps;
    }
  }

  /** No character of `p` is, as a string of its own, one of `seps`. */
  predicate Avoids(p: string, seps: seq<string>) {
    forall k :: 0 <= k < |p| ==> [p[k]] !in seps
  }

  lemma AvoidsSlice(s: string, seps: seq<string>, start: nat, end: nat)
    requires start <= end <= |s|
    requires forall k :: start <= k < end ==> [s[k]] !in seps
    ensures Avoids(s[start..end], seps)
  {
    forall k | 0 <= k < end - start
      ensures [s[start..end][k]] !in seps
    {
      assert s[start..end][k] == s[start + k];
    }
  }

  /** Every piece of a split on separators of one character avoids those
      characters. */
  lemma {:induction false} SplitFromAvoidsSeparators(s: string, seps: seq<string>, start: nat, pos: nat)
    requires start <= pos <= |s|
    requires forall sep :: sep in seps ==> |sep| == 1
    requires forall k :: start <= k < pos ==> [s[k]] !in seps
    ensures forall p :: p in SplitFrom(s, seps, start, pos) ==> Avoids(p, seps)
    decreases |s| - pos, 1
  {
    if pos == |s| {
      AvoidsSlice(s, seps, start, pos);
      assert s[start..] == s[start..pos];
    } else if SeparatorAt(s, pos, seps) == 0 {
      assert [s[pos]] !in seps by {
        SeparatorAtFacts(s, pos, seps);
        assert OccursAt(s, [s[pos]], pos);
      }
      SplitFromAvoidsSeparators(s, seps, start, pos + 1);
    } else {
      SplitFromAvoidsCut(s, seps, start, pos);
    }
  }

  lemma {:induction false} SplitFromAvoidsCut(s: string, seps: seq<string>, start: nat, pos: nat)
    requires start <= pos < |s| && SeparatorAt(s, pos, seps) > 0
    requires forall sep :: sep in seps ==> |sep| == 1
    requires forall k :: start <= k < pos ==> [s[k]] !in seps
    ensures forall p :: p in SplitFrom(s, seps, start, pos) ==> Avoids(p, seps)
    decreases |s| - pos, 0
  {
    var n := SeparatorAt(s, pos, seps);
    var rest := SplitFrom(s, seps, pos + n, pos + n);
    assert SplitFrom(s, seps, start, pos) == [s[start..pos]] + rest by {
      SplitFromCut(s, seps, start, pos);
    }
    assert Avoids(s[start..pos], seps) by {
      AvoidsSlice(s, seps, start, pos);
    }
    assert forall p :: p in rest ==> Avoids(p, seps) by {
      SplitFromAvoidsSeparators(s, seps, pos + n, pos + n);
    }
  }

  /** When no separator occurs in `s`, splitting it leaves it whole. */
  lemma {:induction false} SplitFromWithoutSeparator(s: string, seps: seq<string>, start: nat, pos: nat)
    requires start <= pos <= |s|
    requires forall k :: pos <= k < |s| ==> SeparatorAt(s, k, seps) == 0
    ensures SplitFrom(s, seps, start, pos) == [s[start..]]
    decreases |s| - pos
  {
    if pos < |s| {
      SplitFromWithoutSeparator(s, seps, start, pos + 1);
    }
  }

  /** A separator that never occurs leaves the text whole. */
  lemma SplitByAbsent(s: string, sep: string)
    requires forall j :: !OccursAt(s, sep, j)
    ensures SplitBy(s, [sep]) == [s]
  {
    forall k | 0 <= k < |s|
      ensures SeparatorAt(s, k, [sep]) == 0
    {
      SeparatorAtSingle(s, k, sep);
    }
    SplitFromWithoutSeparator(s, [sep], 0, 0);
    assert s[0..] == s;
  }

  /** The first piece is a prefix reaching at least to where the scan stands. */
  lemma {:induction false} SplitFromFirst(s: string, seps: seq<string>, start: nat, pos: nat)
    requires start <= pos <= |s|
    ensures var p := SplitFrom(s, seps, start, pos)[0];
      pos - start <= |p| <= |s| - start && p == s[start..start + |p|]
    decreases |s| - pos
  {
    if pos < |s| && SeparatorAt(s, pos, seps) == 0 {
      SplitFromFirst(s, seps, start, pos + 1);
    }
  }

  /** The last piece is a suffix; unless it is all of `s[start..]`, the
      character before it ends a separator, so it is white space when every
      separator is. */
  lemma {:induction false} SplitFromLast(s: string, seps: seq<string>, start: nat, pos: nat)
    requires start <= pos <= |s|
    requires forall sep :: sep in seps ==> IsBlank(sep)
    ensures var r := SplitFrom(s, seps, start, pos);
      var l := r[|r| - 1];
      |l| <= |s| - start && l == s[|s| - |l|..] &&
      (|l| == |s| - start || IsWhiteSpace(s[|s| - |l| - 1]))
    decreases |s| - pos, 1
  {
    if pos < |s| {
      if SeparatorAt(s, pos, seps) == 0 {
        SplitFromLast(s, seps, start, pos + 1);
      } else {
        SplitFromLastCut(s, seps, start, pos);
      }
    }
  }

  lemma {:induction false} SplitFromLastCut(s: string, seps: seq<string>, start: nat, pos: nat)
    requires start <= pos < |s| && SeparatorAt(s, pos, seps) > 0
    requires forall sep :: sep in seps ==> IsBlank(sep)
    ensures var r := SplitFrom(s, seps, start, pos);
      var l := r[|r| - 1];
      |l| <= |s| - start && l == s[|s| - |l|..] &&
      (|l| == |s| - start || IsWhiteSpace(s[|s| - |l| - 1]))
    decreases |s| - pos, 0
  {
    var n := SeparatorAt(s, pos, seps);
    SplitFromCut(s, seps, start, pos);
    SplitFromLast(s, seps, pos + n, pos + n);
    var rest := SplitFrom(s, seps, pos + n, pos + n);
    var l := rest[|rest| - 1];
    assert SplitFrom(s, seps, start, pos)[|SplitFrom(s, seps, start, pos)| - 1] == l;
    if |l| == |s| - (pos + n) {
      var sep := s[pos..pos + n];
      SeparatorAtFacts(s, pos, seps);
      assert sep in seps;
      assert IsWhiteSpace(sep[n - 1]);
      assert s[|s| - |l| - 1] == sep[n - 1];
    }
  }

  // ---------------------------------------------------------------------
  // Replace

  /** Ordinal `Replace(string, string)`: left to right, occurrences that do
      not overlap. */
  function Replace(s: string, pat: string, rep: string): string
    requires |pat| > 0
  {
    ReplaceFrom(s, pat, rep, 0)
  }

  /** `Replace` applied to `s[k..]`. */
  function ReplaceFrom(s: string, pat: string, rep: string, k: nat): string
    requires |pat| > 0 && k <= |s|
    decreases |s| - k
  {
    if k + |pat| > |s| then s[k..]
    else if OccursAt(s, pat, k) then rep + ReplaceFrom(s, pat, rep, k + |pat|)
    else [s[k]] + ReplaceFrom(s, pat, rep, k + 1)
  }

  /** Replacing is splitting on the pattern and joining with the replacement. */
  lemma {:induction false} ReplaceIsJoinOfSplitFrom(s: string, pat: string, rep: string, start: nat, pos: nat)
    requires |pat| > 0 && start <= pos <= |s|
    ensures Join(SplitFrom(s, [pat], start, pos), rep) == s[start..pos] + ReplaceFrom(s, pat, rep, pos)
    decreases |s| - pos, 1
  {
    if pos == |s| {
      assert s[pos..] == [];
    } else if OccursAt(s, pat, pos) {
      ReplaceIsJoinCut(s, pat, rep, start, pos);
    } else {
      ReplaceIsJoinNoCut(s, pat, rep, start, pos);
    }
  }

  lemma {:induction false} ReplaceIsJoinNoCut(s: string, pat: string, rep: string, start: nat, pos: nat)
    requires |pat| > 0 && start <= pos < |s| && !OccursAt(s, pat, pos)
    ensures Join(SplitFrom(s, [pat], start, pos), rep) == s[start..pos] + ReplaceFrom(s, pat, rep, pos)
    decreases |s| - pos, 0
  {
    var r := ReplaceFrom(s, pat, rep, pos);
    var tail := ReplaceFrom(s, pat, rep, pos + 1);
    assert Join(SplitFrom(s, [pat], start, pos), rep) == s[start..pos + 1] + tail by {
      SeparatorAtSingle(s, pos, pat);
      ReplaceIsJoinOfSplitFrom(s, pat, rep, start, pos + 1);
    }
    assert r == [s[pos]] + tail by {
      ReplaceKeeps(s, pat, rep, pos);
    }
    assert s[start..pos + 1] == s[start..pos] + [s[pos]];
  }

  /** A position where the pattern does not occur is copied. */
  lemma ReplaceKeeps(s: string, pat: string, rep: string, k: nat)
    requires |pat| > 0 && k < |s| && !OccursAt(s, pat, k)
    ensures ReplaceFrom(s, pat, rep, k) == [s[k]] + ReplaceFrom(s, pat, rep, k + 1)
  {
    if k + |pat| > |s| {
      assert s[k..] == [s[k]] + s[k + 1..];
    }
  }

  lemma {:induction false} ReplaceIsJoinCut(s: string, pat: string, rep: string, start: nat, pos: nat)
    requires |pat| > 0 && start <= pos < |s| && OccursAt(s, pat, pos)
    ensures Join(SplitFrom(s, [pat], start, pos), rep) == s[start..pos] + ReplaceFrom(s, pat, rep, pos)
    decreases |s| - pos, 0
  {
    SeparatorAtSingle(s, pos, pat);
    SplitFromCut(s, [pat], start, pos);
    ReplaceIsJoinFresh(s, pat, rep, pos + |pat|);
    ReplaceSubstitutes(s, pat, rep, pos);
    CutJoin(SplitFrom(s, [pat], start, pos), s[start..pos], SplitFrom(s, [pat], pos + |pat|, pos + |pat|),
      rep, ReplaceFrom(s, pat, rep, pos + |pat|), ReplaceFrom(s, pat, rep, pos));
  }

  /** A cut at the front: the head piece, the pattern's replacement, then
      whatever the rest of the pieces join to. */
  lemma CutJoin(pieces: seq<string>, head: string, rest: seq<string>, rep: string, tail: string, replaced: string)
    requires pieces == [head] + rest && |rest| >= 1
    requires Join(rest, rep) == tail && replaced == rep + tail
    ensures Join(pieces, rep) == head + replaced
  {
    JoinCons(head, rest, rep);
  }

  // One unfolding step stated apart so that the proofs calling it stay small.
  lemma ReplaceSubstitutes(s: string, pat: string, rep: string, k: nat)
    requires |pat| > 0 && k < |s| && OccursAt(s, pat, k)
    ensures ReplaceFrom(s, pat, rep, k) == rep + ReplaceFrom(s, pat, rep, k + |pat|)
  {
  }

  lemma {:induction false} ReplaceIsJoinFresh(s: string, pat: string, rep: string, k: nat)
    requires |pat| > 0 && k <= |s|
    ensures Join(SplitFrom(s, [pat], k, k), rep) == ReplaceFrom(s, pat, rep, k)
    decreases |s| - k, 2
  {
    ReplaceIsJoinOfSplitFrom(s, pat, rep, k, k);
    assert s[k..k] == [];
  }

  lemma ReplaceIsJoinOfSplit(s: string, pat: string, rep: string)
    requires |pat| > 0
    ensures Replace(s, pat, rep) == Join(SplitBy(s, [pat]), rep)
  {
    ReplaceIsJoinOfSplitFrom(s, pat, rep, 0, 0);
    assert s[0..0] == [];
  }

  /** A pattern that does not occur leaves the text unchanged. */
  lemma ReplaceAbsent(s: string, pat: string, rep: string)
    requires |pat| > 0
    requires forall j :: !OccursAt(s, pat, j)
    ensures Replace(s, pat, rep) == s
  {
    ReplaceAbsentFrom(s, pat, rep, 0);
    assert s[0..] == s;
  }

  lemma {:induction false} ReplaceAbsentFrom(s: string, pat: string, rep: string, k: nat)
    requires |pat| > 0 && k <= |s|
    requires forall j :: k <= j ==> !OccursAt(s, pat, j)
    ensures ReplaceFrom(s, pat, rep, k) == s[k..]
    decreases |s| - k
  {
    if k + |pat| <= |s| {
      assert !OccursAt(s, pat, k);
      ReplaceAbsentFrom(s, pat, rep, k + 1);
      assert s[k..] == [s[k]] + s[k + 1..];
    }
  }
}
