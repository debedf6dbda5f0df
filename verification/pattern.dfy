/**
 * `flags_to_re` (hack/verify-flags-underscore.py): every flag name becomes a
 * regular expression in which each `-` or `_` is the class `[-_]`, and the
 * per-flag expressions are joined with `|`. `Compile` reads back the part of
 * Python's regular-expression syntax this produces: literal characters, the
 * class `[-_]` and top-level alternation.
 */
module Pattern {
  import opened Wrappers
  import opened Text

  /** One position of a compiled flag pattern. */
  datatype Atom = Lit(c: char) | DashOrUnderscore

  /** A fixed-length branch of the alternation. */
  type Alternative = seq<Atom>

  /** A compiled pattern: its branches in the order they are tried. */
  type Regex = seq<Alternative>

  /** Characters with a meaning of their own in Python's regular-expression syntax. */
  predicate IsMeta(c: char) { c in ".^$*+?{}[]\\|()" }

  /** A flag name `flags_to_re` can use unescaped. */
  predicate NoMeta(s: string) { forall i :: 0 <= i < |s| ==> !IsMeta(s[i]) }

  const DashClass: string := "[-_]"

  /** The text one character of a flag name becomes under `dashRE.sub('[-_]', ...)`. */
  function CharText(c: char): string { if IsDash(c) then DashClass else [c] }

  /** `dashRE.sub('[-_]', flag)`. */
  function FlagRegexText(flag: string): string
  {
    if flag == [] then [] else CharText(flag[0]) + FlagRegexText(flag[1..])
  }

  /** The atom one character of a flag name becomes. */
  function AtomOf(c: char): Atom { if IsDash(c) then DashOrUnderscore else Lit(c) }

  /** The branch a flag name denotes: `[-_]` where the name has `-` or `_`, the character itself elsewhere. */
  function FlagPattern(flag: string): (p: Alternative)
    ensures |p| == |flag|
    ensures forall k :: 0 <= k < |flag| ==> p[k] == AtomOf(flag[k])
  {
    if flag == [] then [] else [AtomOf(flag[0])] + FlagPattern(flag[1..])
  }

  /** One branch per flag, in list order. */
  function Patterns(flags: seq<string>): (ps: seq<Alternative>)
    ensures |ps| == |flags|
    ensures forall i :: 0 <= i < |flags| ==> ps[i] == FlagPattern(flags[i])
  {
    if flags == [] then [] else [FlagPattern(flags[0])] + Patterns(flags[1..])
  }

  /** The branches of the joined pattern; `"|".join([])` is the empty pattern, one empty branch. */
  function Alternatives(flags: seq<string>): (re: Regex)
  {
    if flags == [] then [[]] else Patterns(flags)
  }

  /** One pattern text per flag, in list order. */
  function RegexTexts(flags: seq<string>): (ts: seq<string>)
    ensures |ts| == |flags|
    ensures forall i :: 0 <= i < |flags| ==> ts[i] == FlagRegexText(flags[i])
  {
    if flags == [] then [] else [FlagRegexText(flags[0])] + RegexTexts(flags[1..])
  }

  /** The pattern text `flags_to_re` hands to `re.compile`. */
  function FlagsRegexText(flags: seq<string>): string
  {
    JoinWith(RegexTexts(flags), "|")
  }

  /** Puts a whole branch prefix `p` in front of the first branch. */
  function Prepend(p: Alternative, r: Option<Regex>): (e: Option<Regex>)
    requires r.Some? ==> |r.value| >= 1
  {
    match r
    case None => None
    case Some(alts) => Some([p + alts[0]] + alts[1..])
  }

  /**
   * `re.compile` on the syntax `flags_to_re` produces; `None` for any other
   * metacharacter, whose meaning this model does not give.
   */
  function Compile(text: string): (r: Option<Regex>)
    ensures r.Some? ==> |r.value| >= 1
    decreases |text|
  {
    if text == [] then Some([[]])
    else if text[0] == '|' then
      (match Compile(text[1..])
       case None => None
       case Some(alts) => Some([[]] + alts))
    else if StartsWith(text, DashClass) then Prepend([DashOrUnderscore], Compile(text[|DashClass|..]))
    else if IsMeta(text[0]) then None
    else Prepend([Lit(text[0])], Compile(text[1..]))
  }

  lemma PrependTwice(a: Alternative, p: Alternative, r: Option<Regex>)
    requires r.Some? ==> |r.value| >= 1
    ensures Prepend(a, Prepend(p, r)) == Prepend(a + p, r)
  {
    if r.Some? {
      assert a + (p + r.value[0]) == (a + p) + r.value[0];
    }
  }

  lemma PrependNothing(r: Option<Regex>)
    requires r.Some? ==> |r.value| >= 1
    ensures Prepend([], r) == r
  {
    if r.Some? {
      assert [] + r.value[0] == r.value[0];
      assert [r.value[0]] + r.value[1..] == r.value;
    }
  }

  /** The text of one character of a flag name compiles to that character's atom. */
  lemma CompileFlagChar(c: char, tail: string)
    requires !IsMeta(c)
    ensures Compile(CharText(c) + tail) == Prepend([AtomOf(c)], Compile(tail))
  {
    var text := CharText(c) + tail;
    if IsDash(c) {
      assert text[0] == '[' && StartsWith(text, DashClass);
      assert text[|DashClass|..] == tail;
    } else {
      assert text[0] == c && text[1..] == tail;
      assert !StartsWith(text, DashClass);
    }
  }

  /** The text of one flag compiles to that flag's branch, in front of whatever follows it. */
  lemma {:induction false} CompileFlagText(flag: string, rest: string)
    requires NoMeta(flag)
    ensures Compile(FlagRegexText(flag) + rest) == Prepend(FlagPattern(flag), Compile(rest))
    decreases |flag|
  {
    if flag == [] {
      assert FlagRegexText(flag) + rest == rest;
      PrependNothing(Compile(rest));
    } else {
      var tail := FlagRegexText(flag[1..]) + rest;
      assert FlagRegexText(flag) + rest == CharText(flag[0]) + tail;
      assert NoMeta(flag[1..]);
      CompileFlagText(flag[1..], rest);
      CompileFlagChar(flag[0], tail);
      PrependTwice([AtomOf(flag[0])], FlagPattern(flag[1..]), Compile(rest));
    }
  }

  /** The step of `"|".join` for a list of two or more flags. */
  lemma JoinStep(flags: seq<string>)
    requires |flags| > 1
    ensures FlagsRegexText(flags) == FlagRegexText(flags[0]) + ("|" + FlagsRegexText(flags[1..]))
    ensures Alternatives(flags) == [FlagPattern(flags[0])] + Alternatives(flags[1..])
  {
    assert RegexTexts(flags)[1..] == RegexTexts(flags[1..]);
  }

  /** The pattern text `flags_to_re` builds compiles to one branch per flag, in list order. */
  lemma {:induction false} CompileFlagsText(flags: seq<string>)
    requires forall i :: 0 <= i < |flags| ==> NoMeta(flags[i])
    ensures Compile(FlagsRegexText(flags)) == Some(Alternatives(flags))
    decreases |flags|
  {
    if |flags| == 1 {
      CompileFlagText(flags[0], "");
      assert FlagsRegexText(flags) == FlagRegexText(flags[0]) + "";
      assert FlagPattern(flags[0]) + [] == FlagPattern(flags[0]);
    } else if |flags| > 1 {
      var restText := FlagsRegexText(flags[1..]);
      JoinStep(flags);
      CompileFlagsText(flags[1..]);
      CompileFlagText(flags[0], "|" + restText);
      assert ("|" + restText)[1..] == restText;
      assert FlagPattern(flags[0]) + [] == FlagPattern(flags[0]);
    }
  }

  /** `flags_to_re`: one pattern text per flag, joined with `|`, then compiled. */
  method FlagsToRe(flags: seq<string>) returns (flagRE: Regex)
    requires forall i :: 0 <= i < |flags| ==> NoMeta(flags[i])
    ensures |flagRE| == if flags == [] then 1 else |flags|
    ensures forall i :: 0 <= i < |flags| ==> flagRE[i] == FlagPattern(flags[i])
    ensures flags == [] ==> flagRE == [[]]
  {
    var flagREs: seq<string> := [];
    for i := 0 to |flags|
      invariant |flagREs| == i
      invariant forall k :: 0 <= k < i ==> flagREs[k] == FlagRegexText(flags[k])
    {
      var newre := FlagRegexText(flags[i]);
      flagREs := flagREs + [newre];
    }
    assert flagREs == RegexTexts(flags);
    var text := JoinWith(flagREs, "|");
    CompileFlagsText(flags);
    var compiled := Compile(text);
    flagRE := compiled.value;
  }
}
