/**
 * `line_has_bad_flag` (hack/verify-flags-underscore.py): one `re.search` of
 * the joined flag pattern over a line, then a test for `_` in the text it
 * matched. The search follows Python's backtracking semantics for an
 * alternation of fixed-length branches: the leftmost start position wins,
 * and at that position the first branch in list order that matches wins.
 */
module Matching {
  import opened Wrappers
  import opened Text
  import opened Pattern

  predicate AtomMatches(a: Atom, c: char) {
    match a
    case Lit(x) => c == x
    case DashOrUnderscore => IsDash(c)
  }

  /** Branch `alt` matches `line` starting at position `i`. */
  predicate AltMatchesAt(alt: Alternative, line: string, i: nat) {
    i + |alt| <= |line| && forall k :: 0 <= k < |alt| ==> AtomMatches(alt[k], line[i + k])
  }

  /** The span of `m.group(0)`. */
  datatype Match = Match(start: nat, end: nat)

  /** No branch of `re` matches at any start position below `bound`. */
  ghost predicate NoMatchBefore(re: Regex, line: string, bound: nat) {
    forall i, j :: 0 <= i < bound && 0 <= j < |re| ==> !AltMatchesAt(re[j], line, i)
  }

  /** `m` is the match `re.search` returns: leftmost start, then first branch. */
  ghost predicate IsLeftmostFirst(re: Regex, line: string, m: Match) {
    m.start <= m.end <= |line| &&
    NoMatchBefore(re, line, m.start) &&
    exists j :: 0 <= j < |re| && AltMatchesAt(re[j], line, m.start) && m.end == m.start + |re[j]| &&
      forall j' :: 0 <= j' < j ==> !AltMatchesAt(re[j'], line, m.start)
  }

  /** The first branch, from `j` on, that matches at `i`. */
  function FirstBranchAt(re: Regex, line: string, i: nat, j: nat): (r: Option<nat>)
    decreases |re| - j
    ensures r.Some? ==> j <= r.value < |re| && AltMatchesAt(re[r.value], line, i)
    ensures r.Some? ==> forall j' :: j <= j' < r.value ==> !AltMatchesAt(re[j'], line, i)
    ensures r.None? ==> forall j' :: j <= j' < |re| ==> !AltMatchesAt(re[j'], line, i)
  {
    if j >= |re| then None
    else if AltMatchesAt(re[j], line, i) then Some(j)
    else FirstBranchAt(re, line, i, j + 1)
  }

  /** `re.search` from start position `i` on. */
  function SearchFrom(re: Regex, line: string, i: nat): (m: Option<Match>)
    requires i <= |line| + 1
    requires NoMatchBefore(re, line, i)
    decreases |line| + 1 - i
    ensures m.Some? ==> i <= m.value.start && IsLeftmostFirst(re, line, m.value)
    ensures m.None? ==> NoMatchBefore(re, line, |line| + 1)
  {
    if i > |line| then None
    else
      match FirstBranchAt(re, line, i, 0)
      case Some(j) => Some(Match(i, i + |re[j]|))
      case None => SearchFrom(re, line, i + 1)
  }

  /** `flagre.search(line)`. */
  function Search(re: Regex, line: string): (m: Option<Match>)
    ensures m.Some? ==> IsLeftmostFirst(re, line, m.value)
    ensures m.None? ==> NoMatchBefore(re, line, |line| + 1)
  {
    SearchFrom(re, line, 0)
  }

  /** `line_has_bad_flag(line, flagre)`. */
  function LineHasBadFlag(line: string, re: Regex): (bad: bool)
    ensures bad ==> exists k :: 0 <= k < |line| && line[k] == '_'
    ensures bad ==> !NoMatchBefore(re, line, |line| + 1)
  {
    match Search(re, line)
    case None => false
    case Some(m) => '_' in line[m.start..m.end]
  }

  /** At most one match satisfies the leftmost-first rule, so `Search` is determined by it. */
  lemma LeftmostFirstUnique(re: Regex, line: string, m1: Match, m2: Match)
    requires IsLeftmostFirst(re, line, m1) && IsLeftmostFirst(re, line, m2)
    ensures m1 == m2
  {
    var j1 :| 0 <= j1 < |re| && AltMatchesAt(re[j1], line, m1.start) && m1.end == m1.start + |re[j1]| &&
      forall j' :: 0 <= j' < j1 ==> !AltMatchesAt(re[j'], line, m1.start);
    var j2 :| 0 <= j2 < |re| && AltMatchesAt(re[j2], line, m2.start) && m2.end == m2.start + |re[j2]| &&
      forall j' :: 0 <= j' < j2 ==> !AltMatchesAt(re[j'], line, m2.start);
    assert m1.start == m2.start;
    assert j1 == j2;
  }

  /** Two characters are equal, or both are `-` or `_`. */
  predicate SameModuloDash(c: char, d: char) { c == d || (IsDash(c) && IsDash(d)) }

  /** `flag` is spelled at position `i` of `line`, `-` and `_` counting as the same character. */
  predicate OccursAt(flag: string, line: string, i: nat) {
    i + |flag| <= |line| && forall k :: 0 <= k < |flag| ==> SameModuloDash(line[i + k], flag[k])
  }

  /** A flag's branch matches a segment of the line exactly when the segment spells the flag, `-` and `_` aside. */
  lemma FlagPatternMatches(flag: string, line: string, i: nat)
    ensures AltMatchesAt(FlagPattern(flag), line, i) <==> OccursAt(flag, line, i)
  {
    var p := FlagPattern(flag);
    forall k | 0 <= k < |flag| && i + k < |line|
      ensures AtomMatches(p[k], line[i + k]) <==> SameModuloDash(line[i + k], flag[k])
    {
      assert p[k] == AtomOf(flag[k]);
    }
  }

  /** `flag` with every `-` or `_` written as `sep`. */
  function Spelled(flag: string, sep: char): (s: string)
    requires IsDash(sep)
    ensures |s| == |flag|
    ensures forall k :: 0 <= k < |flag| ==> s[k] == if IsDash(flag[k]) then sep else flag[k]
  {
    seq(|flag|, k requires 0 <= k < |flag| => if IsDash(flag[k]) then sep else flag[k])
  }

  /** Both the all-dash and the all-underscore spelling of a flag match its branch, wherever they occur. */
  lemma BothSpellingsMatch(flag: string, before: string, after: string)
    ensures AltMatchesAt(FlagPattern(flag), before + Spelled(flag, '-') + after, |before|)
    ensures AltMatchesAt(FlagPattern(flag), before + Spelled(flag, '_') + after, |before|)
  {
    SpellingMatches(flag, '-', before, after);
    SpellingMatches(flag, '_', before, after);
  }

  lemma SpellingMatches(flag: string, sep: char, before: string, after: string)
    requires IsDash(sep)
    ensures AltMatchesAt(FlagPattern(flag), before + Spelled(flag, sep) + after, |before|)
  {
    var line := before + Spelled(flag, sep) + after;
    assert forall k :: 0 <= k < |flag| ==> line[|before| + k] == Spelled(flag, sep)[k];
    FlagPatternMatches(flag, line, |before|);
  }

  /**
   * Only the leftmost match is examined: if the first flag occurrence in the
   * line (and the first flag in list order at that position) has no `_`, the
   * line is not bad, whatever occurs after it.
   */
  lemma EarliestMatchDecides(flags: seq<string>, line: string, i: nat, j: nat)
    requires 0 <= j < |flags|
    requires AltMatchesAt(FlagPattern(flags[j]), line, i)
    requires NoMatchBefore(Alternatives(flags), line, i)
    requires forall j' :: 0 <= j' < j ==> !AltMatchesAt(FlagPattern(flags[j']), line, i)
    ensures LineHasBadFlag(line, Alternatives(flags)) <==> '_' in line[i..i + |flags[j]|]
  {
    var re := Alternatives(flags);
    var m := Match(i, i + |flags[j]|);
    assert re[j] == FlagPattern(flags[j]);
    assert forall j' :: 0 <= j' < j ==> !AltMatchesAt(re[j'], line, i) by {
      forall j' | 0 <= j' < j ensures re[j'] == FlagPattern(flags[j']) { }
    }
    assert IsLeftmostFirst(re, line, m);
    var found := Search(re, line);
    assert !NoMatchBefore(re, line, |line| + 1) by {
      assert i < |line| + 1 && AltMatchesAt(re[j], line, i);
    }
    LeftmostFirstUnique(re, line, found.value, m);
  }

  /** When the first flag matches at the start of the line, that occurrence alone decides. */
  lemma FirstFlagAtStartDecides(flags: seq<string>, line: string)
    requires flags != [] && AltMatchesAt(FlagPattern(flags[0]), line, 0)
    ensures LineHasBadFlag(line, Alternatives(flags)) <==> '_' in line[0..|flags[0]|]
  {
    EarliestMatchDecides(flags, line, 0, 0);
  }

  /** A line with no occurrence of any flag, in either spelling, is never bad. */
  lemma NoFlagOccurrenceNotBad(flags: seq<string>, line: string)
    requires forall f, i :: f in flags ==> !OccursAt(f, line, i)
    ensures !LineHasBadFlag(line, Alternatives(flags))
  {
    if flags == [] {
      EmptyFlagListNeverBad(line);
    } else {
      var re := Alternatives(flags);
      forall i, j | 0 <= i < |line| + 1 && 0 <= j < |re| ensures !AltMatchesAt(re[j], line, i) {
        FlagPatternMatches(flags[j], line, i);
      }
    }
  }

  /** With no flags the pattern is empty: it matches the empty text at 0, so no line is bad. */
  lemma EmptyFlagListNeverBad(line: string)
    ensures !LineHasBadFlag(line, Alternatives([]))
  {
    var re := Alternatives([]);
    assert AltMatchesAt(re[0], line, 0);
    LeftmostFirstUnique(re, line, Search(re, line).value, Match(0, 0));
  }

  /** A line that starts with the underscore spelling of the first flag is bad. */
  lemma UnderscoreSpellingFirstIsBad(flags: seq<string>, after: string)
    requires flags != [] && HasDash(flags[0])
    ensures LineHasBadFlag(Spelled(flags[0], '_') + after, Alternatives(flags))
  {
    var line := Spelled(flags[0], '_') + after;
    SpellingMatches(flags[0], '_', "", after);
    assert "" + Spelled(flags[0], '_') + after == line;
    UnderscoreSpellingHasUnderscore(flags[0], line);
    FirstFlagAtStartDecides(flags, line);
  }

  /** The underscore spelling of a flag with a `-` or `_` holds a `_`. */
  lemma UnderscoreSpellingHasUnderscore(flag: string, line: string)
    requires HasDash(flag) && StartsWith(line, Spelled(flag, '_'))
    ensures '_' in line[0..|flag|]
  {
    var k :| 0 <= k < |flag| && IsDash(flag[k]);
    assert line[0..|flag|][k] == Spelled(flag, '_')[k];
  }

  /**
   * The order of the flag list decides the outcome when one flag is a prefix
   * of another: `my` listed before `my-flag` hides `my_flag`.
   */
  lemma FlagOrderDecides(line: string, shortFirst: seq<string>, longFirst: seq<string>)
    requires line == "my_flag" && shortFirst == ["my", "my-flag"] && longFirst == ["my-flag", "my"]
    ensures !LineHasBadFlag(line, Alternatives(shortFirst))
    ensures LineHasBadFlag(line, Alternatives(longFirst))
  {
    ExampleShortFirst(line, shortFirst);
    ExampleLongFirst(line, longFirst);
    FirstFlagAtStartDecides(shortFirst, line);
    FirstFlagAtStartDecides(longFirst, line);
  }

  /** In `my_flag`, the flag `my` matches at the start, and its occurrence has no `_`. */
  lemma ExampleShortFirst(line: string, flags: seq<string>)
    requires line == "my_flag" && flags == ["my", "my-flag"]
    ensures AltMatchesAt(FlagPattern(flags[0]), line, 0) && '_' !in line[0..|flags[0]|]
  {
    assert OccursAt(flags[0], line, 0);
    FlagPatternMatches(flags[0], line, 0);
    assert line[0..2] == "my";
  }

  /** In `my_flag`, the flag `my-flag` matches at the start, and its occurrence has a `_`. */
  lemma ExampleLongFirst(line: string, flags: seq<string>)
    requires line == "my_flag" && flags == ["my-flag", "my"]
    ensures AltMatchesAt(FlagPattern(flags[0]), line, 0) && '_' in line[0..|flags[0]|]
  {
    assert OccursAt(flags[0], line, 0);
    FlagPatternMatches(flags[0], line, 0);
    assert line[0..7][2] == '_';
  }

  /** The first occurrence in the line of `LaterUnderscoreIgnored`. */
  lemma ExampleFirstOccurrence(line: string, flags: seq<string>)
    requires line == "my-flag other_flag" && flags == ["other-flag", "my-flag"]
    ensures AltMatchesAt(FlagPattern(flags[1]), line, 0) && '_' !in line[0..7]
  {
    assert OccursAt(flags[1], line, 0);
    FlagPatternMatches(flags[1], line, 0);
    assert forall k :: 0 <= k < 7 ==> line[0..7][k] != '_';
  }

  /** The other flag does not occur at the start of that line. */
  lemma ExampleNoOtherAtStart(line: string, flags: seq<string>)
    requires line == "my-flag other_flag" && flags == ["other-flag", "my-flag"]
    ensures !AltMatchesAt(FlagPattern(flags[0]), line, 0)
  {
    FlagPatternMatches(flags[0], line, 0);
    assert !SameModuloDash(line[0], flags[0][0]);
  }

  /** `other_flag`, an underscore spelling of a known flag, follows in that line. */
  lemma ExampleLaterOccurrence(line: string, flags: seq<string>)
    requires line == "my-flag other_flag" && flags == ["other-flag", "my-flag"]
    ensures OccursAt(flags[0], line, 8) && line[13] == '_'
  {
  }

  /**
   * A dash-spelled first occurrence keeps the line clean even though the
   * underscore spelling `other_flag` of a known flag follows it.
   */
  lemma LaterUnderscoreIgnored(line: string, flags: seq<string>)
    requires line == "my-flag other_flag" && flags == ["other-flag", "my-flag"]
    ensures OccursAt(flags[0], line, 8) && line[13] == '_'
    ensures !LineHasBadFlag(line, Alternatives(flags))
  {
    ExampleFirstOccurrence(line, flags);
    ExampleNoOtherAtStart(line, flags);
    ExampleLaterOccurrence(line, flags);
    EarliestMatchDecides(flags, line, 0, 1);
  }
}
