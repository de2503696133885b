/** The handful of Kotlin/JVM string primitives that `String.kt` builds on:
    `startsWith`, `indexOf(String, Int)`, `contains` and `substringAfter`.
    Strings are plain `seq<char>`; no case folding or normalisation happens
    anywhere in the code being modelled, so none is modelled here. */
module Text {

  /** `t.startsWith(prefix)`: the first `|prefix|` characters of `t` are `prefix`. */
  predicate StartsWith(t: string, prefix: string) {
    |prefix| <= |t| && t[..|prefix|] == prefix
  }

  /** `p` occurs in `s` starting at index `i` (the empty string occurs at every
      index `0..|s|`, including `|s|` itself). */
  predicate MatchAt(s: string, i: nat, p: string) {
    i + |p| <= |s| && s[i..i + |p|] == p
  }

  /** `suffix` is a (not necessarily proper) suffix of `s`. */
  predicate IsSuffix(suffix: string, s: string) {
    |suffix| <= |s| && s[|s| - |suffix|..] == suffix
  }

  function Min(a: nat, b: nat): nat {
    if a <= b then a else b
  }

  /** Java's `String.indexOf(str, fromIndex)`, which Kotlin's `indexOf` and
      `replace` call: the least index at or after `fromIndex` where `p` occurs,
      or -1. A `fromIndex` past the end is treated as `|s|`, so an empty `p`
      is then found at `|s|`. */
  function IndexOf(s: string, p: string, from: nat): (r: int)
    decreases if from <= |s| then |s| - from else |s| + 1
    ensures r == -1 || (0 <= r <= |s| && MatchAt(s, r, p))
    ensures r >= 0 ==> Min(from, |s|) <= r
    ensures r >= 0 ==> forall j | Min(from, |s|) <= j < r :: !MatchAt(s, j, p)
    ensures r == -1 <==> forall j | Min(from, |s|) <= j <= |s| :: !MatchAt(s, j, p)
  {
    if from > |s| then IndexOf(s, p, |s|)
    else if MatchAt(s, from, p) then from
    else if from == |s| then -1
    else IndexOf(s, p, from + 1)
  }

  /** `s.contains(p)`, which Kotlin defines as `indexOf(p) >= 0`. */
  predicate Contains(s: string, p: string) {
    IndexOf(s, p, 0) >= 0
  }

  lemma ContainsIff(s: string, p: string)
    ensures Contains(s, p) <==> exists j :: 0 <= j <= |s| && MatchAt(s, j, p)
  {
    if !Contains(s, p) {
      assert forall j | 0 <= j <= |s| :: !MatchAt(s, j, p);
    } else {
      var i := IndexOf(s, p, 0);
      assert MatchAt(s, i, p);
    }
  }

  /** Kotlin's `s.substringAfter(delimiter)` with its default
      `missingDelimiterValue = s`: the text after the first occurrence of
      `delimiter`, or all of `s` when there is none. The match index is
      recoverable as `|s| - |r| - |delimiter|`, which the contract uses to say
      that it is the FIRST occurrence and that nothing is lost around it. */
  function SubstringAfter(s: string, delimiter: string): (r: string)
    ensures IsSuffix(r, s)
    ensures !Contains(s, delimiter) ==> r == s
    ensures Contains(s, delimiter) ==>
      && |r| + |delimiter| <= |s|
      && MatchAt(s, |s| - |r| - |delimiter|, delimiter)
      && s == s[..|s| - |r| - |delimiter|] + delimiter + r
      && forall j | 0 <= j < |s| - |r| - |delimiter| :: !MatchAt(s, j, delimiter)
  {
    var i := IndexOf(s, delimiter, 0);
    if i == -1 then s
    else
      assert s == s[..i] + s[i..i + |delimiter|] + s[i + |delimiter|..];
      s[i + |delimiter|..]
  }

  /** A string without the first character of `p` cannot contain `p`. */
  lemma AbsentWithoutFirstChar(s: string, p: string)
    requires |p| > 0
    requires forall j | 0 <= j < |s| :: s[j] != p[0]
    ensures !Contains(s, p)
  {
    forall j | 0 <= j <= |s|
      ensures !MatchAt(s, j, p)
    {
      if j < |s| && j + |p| <= |s| {
        assert s[j..j + |p|][0] == s[j];
      }
    }
  }

  /** Locating the first occurrence of `delimiter` pins down what
      `substringAfter` returns. */
  lemma SubstringAfterFirst(s: string, delimiter: string, i: nat)
    requires MatchAt(s, i, delimiter)
    requires forall j | 0 <= j < i :: !MatchAt(s, j, delimiter)
    ensures SubstringAfter(s, delimiter) == s[i + |delimiter|..]
  {
    assert IndexOf(s, delimiter, 0) == i;
  }
}
