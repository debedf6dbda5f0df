/**
 * String and sequence helpers standing in for the Python string operations
 * the checker uses (`in`, `endswith`, `startswith`, `str.join`).
 */
module Text {
  /** One of the two characters that the class `[-_]` matches. */
  predicate IsDash(c: char) { c == '-' || c == '_' }

  /** `dashRE.search(s)` finds something: `s` holds a `-` or a `_`. */
  predicate HasDash(s: string) { exists i :: 0 <= i < |s| && IsDash(s[i]) }

  predicate StartsWith(s: string, prefix: string) {
    |prefix| <= |s| && s[..|prefix|] == prefix
  }

  predicate EndsWith(s: string, suffix: string) {
    |suffix| <= |s| && s[|s| - |suffix|..] == suffix
  }

  /** Python's `sub in s` on two strings: `sub` occurs somewhere in `s`. */
  predicate Contains(s: string, sub: string) {
    exists i :: 0 <= i <= |s| - |sub| && StartsWith(s[i..], sub)
  }

  /** Python's `sep.join(parts)`. */
  function JoinWith(parts: seq<string>, sep: string): string
  {
    if |parts| == 0 then ""
    else if |parts| == 1 then parts[0]
    else parts[0] + sep + JoinWith(parts[1..], sep)
  }

  function Last<T>(s: seq<T>): T requires s != [] { s[|s| - 1] }

  function Init<T>(s: seq<T>): seq<T> requires s != [] { s[..|s| - 1] }

  /** A non-empty sequence holds its first element. */
  lemma FirstIsMember<T>(s: seq<T>)
    requires s != []
    ensures s[0] in s
  {
  }

  /** A non-empty sequence is its front followed by its last element. */
  lemma InitLast<T>(s: seq<T>)
    requires s != []
    ensures s == Init(s) + [Last(s)]
  {
  }

  /** `a` is `b` with some elements removed, the rest kept in order. */
  ghost predicate IsSubsequence<T>(a: seq<T>, b: seq<T>)
    decreases |b|
  {
    a == [] ||
    (b != [] &&
     ((Last(a) == Last(b) && IsSubsequence(Init(a), Init(b))) || IsSubsequence(a, Init(b))))
  }

  lemma {:induction false} SubsequenceRefl<T>(s: seq<T>)
    ensures IsSubsequence(s, s)
    decreases |s|
  {
    if s != [] { SubsequenceRefl(Init(s)); }
  }

  lemma {:induction false} SubsequenceExtend<T>(a: seq<T>, b: seq<T>, c: seq<T>)
    requires IsSubsequence(a, b)
    ensures IsSubsequence(a, b + c)
    decreases |c|
  {
    if c == [] {
      assert b + c == b;
    } else if a != [] {
      SubsequenceExtend(a, b, Init(c));
      assert Init(b + c) == b + Init(c);
    }
  }

  /** Subsequences of two parts concatenate to a subsequence of the whole. */
  lemma {:induction false} SubsequenceConcat<T>(a1: seq<T>, b1: seq<T>, a2: seq<T>, b2: seq<T>)
    requires IsSubsequence(a1, b1) && IsSubsequence(a2, b2)
    ensures IsSubsequence(a1 + a2, b1 + b2)
    decreases |b2|
  {
    if a2 == [] {
      assert a1 + a2 == a1;
      SubsequenceExtend(a1, b1, b2);
    } else {
      assert Init(b1 + b2) == b1 + Init(b2);
      if Last(a2) == Last(b2) && IsSubsequence(Init(a2), Init(b2)) {
        SubsequenceConcat(a1, b1, Init(a2), Init(b2));
        assert Init(a1 + a2) == a1 + Init(a2);
      } else {
        SubsequenceConcat(a1, b1, a2, Init(b2));
      }
    }
  }
}
