# Fenix `String.kt` extensions in Dafny

This project models the two pure string extensions in Fenix's
`app/src/main/java/org/mozilla/fenix/ext/String.kt`. It also models the
Kotlin/JVM string primitives they rest on.

- `String.replace(pairs: Map<String, String>)` folds Kotlin's literal
  `String.replace(oldValue, newValue)` over the map. Each pair is applied to
  the result of the previous ones.
- `String.simplifiedUrl()` drops everything up to the first `"://"` and then
  peels the first of `"www."`, `"m."`, `"mobile."` that the rest starts with.

The files and modules are:

- `text.dfy`, module `Text`. It holds `startsWith`, Java's
  `indexOf(str, fromIndex)`, `contains` and `substringAfter`, with contracts
  that pin each one down. This includes the first-occurrence property and the
  missing-delimiter default.
- `replace_all.dfy`, module `Substitution`. It holds Kotlin's
  `String.replace(oldValue, newValue)`:
  - `ReplaceAll` is a character-by-character reference definition.
  - `ReplaceScan` and `ScanLoop` follow the standard library's own
    `indexOf` loop and are proved to compute `ReplaceAll`. After each
    occurrence the loop searches again the length of `oldValue` further on
    (at least one character), stops at the end of the string, and otherwise
    repeats while the search finds an index above zero.
  - Lemmas cover the length formula, when the text is left unchanged,
    replacing a value by itself, and that the replaced positions are exactly
    the ones the `indexOf` loop visits.
  - An empty `oldValue` inserts `newValue` at each of the `|s| + 1`
    boundaries between characters. One Dafny `char` stands for one Java
    `char`, a UTF-16 code unit (see "Left out").
- `string_ext.dfy`, module `StringExt`. It holds `Replace` (the fold) and
  `ReplacePairs` (the source's loop), and `SimplifiedUrl` with
  `RemoveFirstPrefix`. It also has their laws and worked examples.

Two consequences of the code are worth stating plainly:

- Pair order matters. `a -> b` then `b -> c` turns `"ab"` into `"cc"`,
  because the second pair also rewrites the `b` the first pair produced; the
  reverse order gives `"bc"` (`StringExt.ReplaceIsSequential`).
- `simplifiedUrl` is not idempotent. One call removes one scheme separator
  and one common prefix, so `"www.www.x"` and `"a://b://x"` change again on
  a second call (`StringExt.SimplifiedUrlNotIdempotent`).

`substringAfter("://")` looks for the first `"://"` anywhere in the string.
`SimplifiedUrlAfterScheme` therefore applies to any text before it that has
no `':'`, and that text need not be a real scheme. A scheme-less string such
as `"example.com/?u=http://x"` comes out as `"x"`.

## Model

| member | source | states |
|---|---|---|
| StringExt.Replace | app/src/main/java/org/mozilla/fenix/ext/String.kt:18-22 | Reference definition, no contract: the left fold of literal replace-all over the pairs; `ReplacePairs`, `ReplaceSplit`, `ReplaceAbsentKeys` and `ReplaceIdentityPairs` state its properties |
| Substitution.ReplaceAll | app/src/main/java/org/mozilla/fenix/ext/String.kt:20 | Reference definition, no contract: `s.replace(oldValue, newValue)` as the scan from index 0; the `Substitution` lemmas and `ReplaceScan` state its properties |
| Substitution.ReplaceFrom | app/src/main/java/org/mozilla/fenix/ext/String.kt:20 | Reference definition, no contract: the replacement output from index `k` on, one occurrence or one copied character at a time |
| StringExt.ReplacePairs | app/src/main/java/org/mozilla/fenix/ext/String.kt:18-22 | The source's loop, each step running the stdlib scan, returns the left fold of literal replace-all over the pairs in iteration order |
| StringExt.ReplaceSplit | app/src/main/java/org/mozilla/fenix/ext/String.kt:18-21 | With no pairs the input comes back unchanged; applying `first + rest` is applying `first`, then `rest` to its result |
| StringExt.ReplaceAbsentKeys | app/src/main/java/org/mozilla/fenix/ext/String.kt:18-22 | When no key occurs in the input, the result is the input |
| StringExt.ReplaceIdentityPairs | app/src/main/java/org/mozilla/fenix/ext/String.kt:18-22 | When every pair maps its key to itself, the result is the input |
| StringExt.ReplaceIsSequential | app/src/main/java/org/mozilla/fenix/ext/String.kt:19-20 | Later pairs rewrite text that earlier pairs produced: `a->b, b->c` turns "ab" into "cc", while the reverse order gives "bc" |
| Substitution.ReplaceScan | app/src/main/java/org/mozilla/fenix/ext/String.kt:20 | The stdlib's `indexOf`-driven replace returns exactly the reference left-to-right, non-overlapping replacement, including the no-occurrence shortcut and an empty `oldValue` |
| Substitution.ScanLoop | app/src/main/java/org/mozilla/fenix/ext/String.kt:20 | From any consistent state of the stdlib's do-while loop (builder, copy start, current occurrence), running the loop to completion yields the reference replacement |
| Substitution.ScanStep | app/src/main/java/org/mozilla/fenix/ext/String.kt:20 | One turn of the loop keeps the state consistent: the next `indexOf` finds a strictly later occurrence, or stopping leaves only the rest of the string to copy |
| Substitution.ScanStart | app/src/main/java/org/mozilla/fenix/ext/String.kt:20 | The first `indexOf` hit gives a consistent starting state with nothing emitted yet |
| Substitution.ReplaceAllLength | app/src/main/java/org/mozilla/fenix/ext/String.kt:20 | The result's length is the input's plus the number of replaced occurrences times the length difference; an empty key is replaced `|s| + 1` times |
| Substitution.LengthFrom | app/src/main/java/org/mozilla/fenix/ext/String.kt:20 | The length formula holds for the scan resumed at any index |
| Substitution.ReplaceAllUnchangedIff | app/src/main/java/org/mozilla/fenix/ext/String.kt:20 | Replacing leaves the text unchanged exactly when the key does not occur or is replaced by itself, in both directions |
| Substitution.ReplaceAllAbsent | app/src/main/java/org/mozilla/fenix/ext/String.kt:20 | A non-empty key that does not occur leaves the text unchanged |
| Substitution.ReplaceAllSelf | app/src/main/java/org/mozilla/fenix/ext/String.kt:20 | Replacing a value by itself changes nothing |
| Substitution.ReplacedOccurrenceDiffers | app/src/main/java/org/mozilla/fenix/ext/String.kt:20 | With a same-length but different value, the first occurrence is overwritten in place, so the result differs from the input |
| Substitution.MatchPositions | app/src/main/java/org/mozilla/fenix/ext/String.kt:20 | Reference definition, no contract: the indexes of the occurrences the scan replaces, leftmost first, each next one searched from one step past the previous; `MatchPositionsSound`, `FirstMatchPosition`, `MatchPositionsNext` and `MatchPositionsLast` state its properties |
| Substitution.MatchPositionsSound | app/src/main/java/org/mozilla/fenix/ext/String.kt:20 | The positions the scan replaces are real occurrences at or after the start, increasing, and at least one search step apart, so they never overlap |
| Substitution.FirstMatchPosition | app/src/main/java/org/mozilla/fenix/ext/String.kt:20 | The first replaced position is `indexOf`'s answer, and the scan replaces nothing exactly when `indexOf` returns -1 |
| Substitution.MatchPositionsNext | app/src/main/java/org/mozilla/fenix/ext/String.kt:20 | Each replaced position after the first is `indexOf`'s answer when searching one step past the previous one, so no occurrence the scan could take is skipped (`Greedy` chains each position to the next) |
| Substitution.GreedyAt | app/src/main/java/org/mozilla/fenix/ext/String.kt:20 | In a greedy position list, the position at any index `a + 1` is `indexOf`'s answer when searching one step past the position at `a` |
| Substitution.MatchPositionsLast | app/src/main/java/org/mozilla/fenix/ext/String.kt:20 | After the last replaced position, searching one step further runs past the end or finds nothing, so the scan stops only when nothing is left |
| Substitution.EmptyMatchesEverywhere | app/src/main/java/org/mozilla/fenix/ext/String.kt:20 | An empty key is found at every index from the start point to the end inclusive |
| Substitution.CopyUntilMatch | app/src/main/java/org/mozilla/fenix/ext/String.kt:20 | Text free of a non-empty key is copied verbatim up to the next occurrence |
| Text.StartsWith | app/src/main/java/org/mozilla/fenix/ext/String.kt:64 | Reference definition, no contract: `startsWith(prefix)` holds when the first `|prefix|` characters of the text are `prefix`; `RemoveFirstPrefix` and `SimplifiedUrlPeelsOnePrefix` are stated in terms of it |
| Text.IndexOf | app/src/main/java/org/mozilla/fenix/ext/String.kt:62 | Java `indexOf(str, from)` returns the least index at or after the clamped `from` where the key occurs, or -1 exactly when there is none |
| Text.SubstringAfter | app/src/main/java/org/mozilla/fenix/ext/String.kt:62 | `substringAfter` returns the whole input when the delimiter is missing; otherwise it returns what follows the first occurrence, and input = before + delimiter + result |
| Text.SubstringAfterFirst | app/src/main/java/org/mozilla/fenix/ext/String.kt:62 | If the delimiter occurs at `i` and nowhere before, `substringAfter` returns exactly the text after that occurrence |
| StringExt.RemoveFirstPrefix | app/src/main/java/org/mozilla/fenix/ext/String.kt:63-68 | The prefix loop removes the first listed prefix the text starts with, or returns the text unchanged when none matches; the result is always a suffix of the text |
| StringExt.SimplifiedUrl | app/src/main/java/org/mozilla/fenix/ext/String.kt:61-69 | The result is a suffix of the text after the first "://" and hence of the input: only leading characters are ever removed |
| StringExt.SimplifiedUrlPeelsOnePrefix | app/src/main/java/org/mozilla/fenix/ext/String.kt:61-68 | After the scheme, exactly the one common prefix present is removed, or the text is kept whole when none is present |
| StringExt.CommonPrefixesExclusive | app/src/main/java/org/mozilla/fenix/ext/String.kt:63 | No string starts with two of "www.", "m.", "mobile.", so the order in which the loop tries them does not matter |
| StringExt.SimplifiedUrlAfterScheme | app/src/main/java/org/mozilla/fenix/ext/String.kt:62-68 | For a leading part without ':' followed by "://", the result is the prefix peel applied to exactly what follows the separator |
| StringExt.RemoveCommonPrefix | app/src/main/java/org/mozilla/fenix/ext/String.kt:63-66 | Each common prefix placed in front of anything is peeled off whole |
| StringExt.NoCommonPrefix | app/src/main/java/org/mozilla/fenix/ext/String.kt:63-68 | Text starting with a letter other than 'w' or 'm' is returned unchanged by the prefix loop |
| StringExt.SimplifiedUrlNotIdempotent | app/src/main/java/org/mozilla/fenix/ext/String.kt:61-69 | A doubled "www." or a second "://" survives one call and is removed by the next, so the function is not idempotent |
| StringExt.SimplifiedUrlHttpsExamples | app/src/main/java/org/mozilla/fenix/ext/String.kt:61-69 | "https://" followed by "www.", "m." or "mobile." and any rest yields that rest; when the rest starts with none of the three prefixes (for example "wiki.org" or "mail.example"), only "https://" is dropped |

## Left out

- `String.tryGetHostFromUrl` (`String.kt:28-32`) is left out because it
  delegates to `java.net.URL`'s parser and its `MalformedURLException`. That
  code is not part of this model.
- Both `String.urlToTrimmedHost` overloads (`String.kt:37-52`) are left out.
  They go through Android's `toUri`, the `hostWithoutCommonPrefixes`
  extension, the public suffix list (an asynchronous lookup awaited with
  `runBlocking`) and the app `Context`. None of these is part of this model.
- The `Map` passed to `replace(pairs)` is a sequence of pairs, taken in the
  map's iteration order. A sequence can repeat a key, which a map cannot, so
  the model covers strictly more inputs.
- Kotlin's `replace` has an `ignoreCase` parameter. Only its default,
  `false`, is modelled, because that is the only value the source uses.
- `Text.IndexOf` takes a non-negative `fromIndex`. Java clamps a negative one
  to 0, but no call site here can pass one.
- Older Kotlin versions implement `replace` as `split(oldValue)` followed by
  `joinToString(newValue)`. `Substitution.ReplaceScan` follows the current
  `indexOf` loop. Both give the result that `Substitution.ReplaceAll`
  defines, so the choice does not affect any stated property.
- `Substitution.ScanLoop` writes the stdlib's do-while loop as a
  tail-recursive method, one call per loop turn. Its decreasing measure is the
  distance from the current occurrence to the end of the string.
- One Dafny `char` stands for one Java `char`, a UTF-16 code unit. Dafny's
  `char` is a Unicode scalar value, so a character outside the Basic
  Multilingual Plane is one element here but two code units in Java. With
  an empty `oldValue`, Kotlin also inserts `newValue` between the two halves
  of a surrogate pair, and the model does not. Lone surrogates, which Java
  strings can hold, have no Dafny `char` at all.
- Substitution.ReplaceAllLength: the length formula is over unbounded
  integers. Java string lengths are bounded by `Int`, and the stdlib throws
  `OutOfMemoryError` when the result's length would overflow it; that error
  path is not modelled.
