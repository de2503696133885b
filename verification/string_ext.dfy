/** The two pure extension functions of `String.kt`: `String.replace(pairs)`
    and `String.simplifiedUrl()`. */
module StringExt {
  import opened Text
  import opened Substitution

  // ---------------------------------------------------------------------------
  // String.replace(pairs: Map<String, String>)
  // ---------------------------------------------------------------------------

  /** `s.replace(pairs)`: each pair's literal replace-all is applied to the
      running result, in the map's iteration order (here: sequence order), so
      later pairs see the output of earlier ones. */
  function Replace(s: string, pairs: seq<(string, string)>): string
    decreases |pairs|
  {
    if |pairs| == 0 then s
    else Replace(ReplaceAll(s, pairs[0].0, pairs[0].1), pairs[1..])
  }

  /** The source's loop: start from `s` and apply each pair's literal
      replace-all to the running result, in order, each step running the
      stdlib's scan. It computes the fold. */
  method ReplacePairs(s: string, pairs: seq<(string, string)>) returns (result: string)
    ensures result == Replace(s, pairs)
  {
    result := s;
    for k := 0 to |pairs|
      invariant Replace(s, pairs) == Replace(result, pairs[k..])
    {
      var (l, r) := pairs[k];
      assert pairs[k..][1..] == pairs[k + 1..];
      result := ReplaceScan(result, l, r);
    }
  }

  /** Fold laws: no pairs is the identity, a pair list splits anywhere into
      "first this part, then that part". */
  lemma {:induction false} ReplaceSplit(s: string, first: seq<(string, string)>, rest: seq<(string, string)>)
    ensures Replace(s, []) == s
    ensures Replace(s, first + rest) == Replace(Replace(s, first), rest)
    decreases |first|
  {
    if |first| == 0 {
      assert first + rest == rest;
    } else {
      assert (first + rest)[1..] == first[1..] + rest;
      ReplaceSplit(ReplaceAll(s, first[0].0, first[0].1), first[1..], rest);
    }
  }

  /** Keys none of which occurs in `s` leave it unchanged. The fold still
      runs pair by pair, but each step returns its input. (An empty key
      occurs everywhere, so the hypothesis excludes it.) */
  lemma {:induction false} ReplaceAbsentKeys(s: string, pairs: seq<(string, string)>)
    requires forall k | 0 <= k < |pairs| :: !Contains(s, pairs[k].0)
    ensures Replace(s, pairs) == s
    decreases |pairs|
  {
    if |pairs| > 0 {
      ReplaceAllUnchangedIff(s, pairs[0].0, pairs[0].1);
      assert forall k | 0 <= k < |pairs[1..]| :: pairs[1..][k] == pairs[k + 1];
      ReplaceAbsentKeys(s, pairs[1..]);
    }
  }

  /** Pairs that map every key to itself leave the input unchanged. */
  lemma {:induction false} ReplaceIdentityPairs(s: string, pairs: seq<(string, string)>)
    requires forall k | 0 <= k < |pairs| :: pairs[k].0 == pairs[k].1
    ensures Replace(s, pairs) == s
    decreases |pairs|
  {
    if |pairs| > 0 {
      ReplaceAllSelf(s, pairs[0].0);
      assert forall k | 0 <= k < |pairs[1..]| :: pairs[1..][k] == pairs[k + 1];
      ReplaceIdentityPairs(s, pairs[1..]);
    }
  }

  /** Pair order is observable: `a -> b` then `b -> c` turns "ab" into "cc"
      (the second pass also rewrites the `b` the first pass produced); the
      other order gives "bc", which is also what a simultaneous substitution
      would give. */
  lemma ReplaceIsSequential()
    ensures Replace("ab", [("a", "b"), ("b", "c")]) == "cc"
    ensures Replace("ab", [("b", "c"), ("a", "b")]) == "bc"
  {
    assert MatchAt("ab", 0, "a") && !MatchAt("ab", 1, "a") && !MatchAt("ab", 2, "a");
    assert ReplaceAll("ab", "a", "b") == "bb";
    assert MatchAt("bb", 0, "b") && MatchAt("bb", 1, "b") && !MatchAt("bb", 2, "b");
    assert ReplaceAll("bb", "b", "c") == "cc";
    assert !MatchAt("ab", 0, "b") && MatchAt("ab", 1, "b") && !MatchAt("ab", 2, "b");
    assert ReplaceAll("ab", "b", "c") == "ac";
    assert MatchAt("ac", 0, "a") && !MatchAt("ac", 1, "a") && !MatchAt("ac", 2, "a");
    assert ReplaceAll("ac", "a", "b") == "bc";
  }

  // ---------------------------------------------------------------------------
  // String.simplifiedUrl()
  // ---------------------------------------------------------------------------

  const SchemeSeparator: string := "://"

  /** The prefixes `simplifiedUrl` peels, in the order it tries them. */
  const CommonPrefixes: seq<string> := ["www.", "m.", "mobile."]

  /** The `for (prefix in ...)` loop: remove the first prefix in list order
      that `t` starts with, or return `t` when none does. */
  function RemoveFirstPrefix(t: string, prefixes: seq<string>): (r: string)
    decreases |prefixes|
    ensures IsSuffix(r, t)
    ensures (forall k | 0 <= k < |prefixes| :: !StartsWith(t, prefixes[k])) ==> r == t
    ensures forall k | 0 <= k < |prefixes| ::
      StartsWith(t, prefixes[k]) && (forall j | 0 <= j < k :: !StartsWith(t, prefixes[j]))
      ==> prefixes[k] + r == t
  {
    if |prefixes| == 0 then t
    else if StartsWith(t, prefixes[0]) then
      assert t == prefixes[0] + t[|prefixes[0]|..];
      t[|prefixes[0]|..]
    else
      var r := RemoveFirstPrefix(t, prefixes[1..]);
      assert forall k | 1 <= k < |prefixes| :: prefixes[k] == prefixes[1..][k - 1];
      r
  }

  /** `s.simplifiedUrl()`: drop everything up to the first "://", then peel
      one common prefix. The result is always a suffix of the input and of
      the text after the scheme separator. */
  function SimplifiedUrl(s: string): (r: string)
    ensures IsSuffix(r, SubstringAfter(s, SchemeSeparator))
    ensures IsSuffix(r, s)
  {
    var afterScheme := SubstringAfter(s, SchemeSeparator);
    var r := RemoveFirstPrefix(afterScheme, CommonPrefixes);
    SuffixTransitive(r, afterScheme, s);
    r
  }

  lemma SuffixTransitive(a: string, b: string, c: string)
    requires IsSuffix(a, b) && IsSuffix(b, c)
    ensures IsSuffix(a, c)
  {
    assert c[|c| - |a|..] == c[|c| - |b|..][|b| - |a|..];
  }

  /** No string starts with two of the common prefixes: they differ at
      index 0 ('w' against 'm') or at index 1 ('.' against 'o'). So at most
      one of them can match, and the order they are tried in never matters. */
  lemma CommonPrefixesExclusive(t: string)
    ensures !(StartsWith(t, "www.") && StartsWith(t, "m."))
    ensures !(StartsWith(t, "www.") && StartsWith(t, "mobile."))
    ensures !(StartsWith(t, "m.") && StartsWith(t, "mobile."))
  {
    assert StartsWith(t, "www.") ==> t[0] == t[..4][0] == 'w';
    assert StartsWith(t, "m.") ==> t[0] == t[..2][0] == 'm' && t[1] == t[..2][1] == '.';
    assert StartsWith(t, "mobile.") ==> t[0] == t[..7][0] == 'm' && t[1] == t[..7][1] == 'o';
  }

  /** What `simplifiedUrl` does to the text after the scheme separator:
      the one common prefix it starts with is removed and everything after
      it (rest of the host, path, query, fragment) is kept; with no such
      prefix the text is returned as is. */
  lemma SimplifiedUrlPeelsOnePrefix(s: string)
    ensures var afterScheme := SubstringAfter(s, SchemeSeparator);
            var r := SimplifiedUrl(s);
      && (StartsWith(afterScheme, "www.") ==> "www." + r == afterScheme)
      && (StartsWith(afterScheme, "m.") ==> "m." + r == afterScheme)
      && (StartsWith(afterScheme, "mobile.") ==> "mobile." + r == afterScheme)
      && (!StartsWith(afterScheme, "www.") && !StartsWith(afterScheme, "m.") && !StartsWith(afterScheme, "mobile.")
          ==> r == afterScheme)
  {
    var afterScheme := SubstringAfter(s, SchemeSeparator);
    CommonPrefixesExclusive(afterScheme);
    assert CommonPrefixes[0] == "www." && CommonPrefixes[1] == "m." && CommonPrefixes[2] == "mobile.";
  }

  /** A scheme without ':' followed by "://" is dropped whole: the prefix
      peel then sees exactly the text after the separator. */
  lemma SimplifiedUrlAfterScheme(scheme: string, rest: string)
    requires forall j | 0 <= j < |scheme| :: scheme[j] != ':'
    ensures SimplifiedUrl(scheme + SchemeSeparator + rest) == RemoveFirstPrefix(rest, CommonPrefixes)
  {
    var s := scheme + SchemeSeparator + rest;
    var i := |scheme|;
    assert s[i..i + 3] == SchemeSeparator;
    forall j | 0 <= j < i
      ensures !MatchAt(s, j, SchemeSeparator)
    {
      assert s[j] == scheme[j];
      if j + 3 <= |s| {
        assert s[j..j + 3][0] == s[j];
      }
    }
    SubstringAfterFirst(s, SchemeSeparator, i);
    assert s[i + 3..] == rest;
  }

  /** Each common prefix, in front of anything, is peeled off whole. */
  lemma RemoveCommonPrefix(p: string, rest: string)
    requires p in CommonPrefixes
    ensures RemoveFirstPrefix(p + rest, CommonPrefixes) == rest
  {
    var t := p + rest;
    assert StartsWith(t, p) by { assert t[..|p|] == p; }
    CommonPrefixesExclusive(t);
    var k :| 0 <= k < |CommonPrefixes| && CommonPrefixes[k] == p;
    assert forall j | 0 <= j < k :: !StartsWith(t, CommonPrefixes[j]);
    var r := RemoveFirstPrefix(t, CommonPrefixes);
    assert p + r == p + rest;
    assert r == (p + r)[|p|..] == (p + rest)[|p|..] == rest;
  }

  /** A string that starts with a letter other than 'w' and 'm' has no
      common prefix. */
  lemma NoCommonPrefix(t: string)
    requires |t| > 0 && t[0] != 'w' && t[0] != 'm'
    ensures RemoveFirstPrefix(t, CommonPrefixes) == t
  {
    if |t| >= 2 {
      assert t[..2][0] == t[0];
    }
    if |t| >= 4 {
      assert t[..4][0] == t[0];
    }
    if |t| >= 7 {
      assert t[..7][0] == t[0];
    }
  }

  /** `simplifiedUrl` is not idempotent: each call peels at most one common
      prefix and one scheme separator, so a doubled prefix or a second "://"
      survives the first call and is removed by the next. */
  lemma SimplifiedUrlNotIdempotent(host: string, a: string, b: string)
    requires |host| > 0 && host[0] != 'w' && host[0] != 'm'
    requires forall j | 0 <= j < |host| :: host[j] != ':'
    requires forall j | 0 <= j < |a| :: a[j] != ':'
    requires |b| > 0 && b[0] != 'w' && b[0] != 'm'
    requires forall j | 0 <= j < |b| :: b[j] != ':'
    ensures SimplifiedUrl("www." + ("www." + host)) == "www." + host
    ensures SimplifiedUrl("www." + host) == host
    ensures SimplifiedUrl(a + SchemeSeparator + (b + SchemeSeparator + host)) == b + SchemeSeparator + host
    ensures SimplifiedUrl(b + SchemeSeparator + host) == host
  {
    var once := "www." + host;
    assert forall j | 0 <= j < |once| :: once[j] != ':' by {
      forall j | 0 <= j < |once| ensures once[j] != ':' {
        if j >= 4 { assert once[j] == host[j - 4]; }
      }
    }
    var twice := "www." + once;
    assert forall j | 0 <= j < |twice| :: twice[j] != ':' by {
      forall j | 0 <= j < |twice| ensures twice[j] != ':' {
        if j >= 4 { assert twice[j] == once[j - 4]; }
      }
    }
    AbsentWithoutFirstChar(twice, SchemeSeparator);
    RemoveCommonPrefix("www.", once);
    AbsentWithoutFirstChar(once, SchemeSeparator);
    RemoveCommonPrefix("www.", host);
    var inner := b + SchemeSeparator + host;
    SimplifiedUrlAfterScheme(a, inner);
    NoCommonPrefix(inner);
    SimplifiedUrlAfterScheme(b, host);
    NoCommonPrefix(host);
  }

  /** Worked examples with an "https" scheme: the scheme always goes, then
      "www.", "m." or "mobile." if present; the rest of the URL is untouched. */
  lemma SimplifiedUrlHttpsExamples(rest: string)
    ensures SimplifiedUrl("https" + SchemeSeparator + ("www." + rest)) == rest
    ensures SimplifiedUrl("https" + SchemeSeparator + ("m." + rest)) == rest
    ensures SimplifiedUrl("https" + SchemeSeparator + ("mobile." + rest)) == rest
    ensures !StartsWith(rest, "www.") && !StartsWith(rest, "m.") && !StartsWith(rest, "mobile.") ==>
      SimplifiedUrl("https" + SchemeSeparator + rest) == rest
  {
    var scheme := "https";
    assert forall j | 0 <= j < |scheme| :: scheme[j] != ':';
    assert SimplifiedUrl(scheme + SchemeSeparator + ("www." + rest)) == rest by {
      SimplifiedUrlAfterScheme(scheme, "www." + rest);
      RemoveCommonPrefix("www.", rest);
    }
    assert SimplifiedUrl(scheme + SchemeSeparator + ("m." + rest)) == rest by {
      SimplifiedUrlAfterScheme(scheme, "m." + rest);
      RemoveCommonPrefix("m.", rest);
    }
    assert SimplifiedUrl(scheme + SchemeSeparator + ("mobile." + rest)) == rest by {
      SimplifiedUrlAfterScheme(scheme, "mobile." + rest);
      RemoveCommonPrefix("mobile.", rest);
    }
    if !StartsWith(rest, "www.") && !StartsWith(rest, "m.") && !StartsWith(rest, "mobile.") {
      SimplifiedUrlAfterScheme(scheme, rest);
      assert CommonPrefixes[0] == "www." && CommonPrefixes[1] == "m." && CommonPrefixes[2] == "mobile.";
    }
  }
}
