/** Kotlin's literal `String.replace(oldValue, newValue)`, the step that
    `String.replace(pairs)` applies once per pair. It scans left to right,
    replaces every non-overlapping occurrence, never rescans the text it has
    inserted and keeps everything between occurrences. For an empty `oldValue`
    it inserts `newValue` at every one of the `|s| + 1` boundaries. */
module Substitution {
  import opened Text

  /** Reference definition: the output the scan produces from index `k` of
      `s` on, one character (or one occurrence) at a time. */
  function ReplaceFrom(s: string, oldValue: string, newValue: string, k: nat): string
    requires k <= |s|
    decreases |s| - k
  {
    if |oldValue| == 0 then
      if k == |s| then newValue else newValue + [s[k]] + ReplaceFrom(s, oldValue, newValue, k + 1)
    else if MatchAt(s, k, oldValue) then newValue + ReplaceFrom(s, oldValue, newValue, k + |oldValue|)
    else if k == |s| then []
    else [s[k]] + ReplaceFrom(s, oldValue, newValue, k + 1)
  }

  /** `s.replace(oldValue, newValue)`. */
  function ReplaceAll(s: string, oldValue: string, newValue: string): string {
    ReplaceFrom(s, oldValue, newValue, 0)
  }

  /** How far the stdlib's scan moves past an occurrence before searching
      again: the length of `oldValue`, but at least one. */
  function Step(oldValue: string): nat {
    if |oldValue| > 0 then |oldValue| else 1
  }

  /** The positions, from `from` on, at which the scan finds the occurrences
      it replaces: the leftmost occurrence, then the leftmost one at least
      `Step(oldValue)` further on, and so on. */
  function MatchPositions(s: string, oldValue: string, from: nat): seq<nat>
    decreases |s| + 1 - from
  {
    if from > |s| then []
    else if MatchAt(s, from, oldValue) then [from] + MatchPositions(s, oldValue, from + Step(oldValue))
    else MatchPositions(s, oldValue, from + 1)
  }

  /** The positions are occurrences of `oldValue` at or after `from`, in
      increasing order and at least `Step(oldValue)` apart, so the
      occurrences the scan replaces never overlap. */
  lemma {:induction false} MatchPositionsSound(s: string, oldValue: string, from: nat)
    ensures forall k | 0 <= k < |MatchPositions(s, oldValue, from)| ::
      from <= MatchPositions(s, oldValue, from)[k] && MatchAt(s, MatchPositions(s, oldValue, from)[k], oldValue)
    ensures forall a, b | 0 <= a < b < |MatchPositions(s, oldValue, from)| ::
      MatchPositions(s, oldValue, from)[a] + Step(oldValue) <= MatchPositions(s, oldValue, from)[b]
    decreases |s| + 1 - from
  {
    if from <= |s| {
      if MatchAt(s, from, oldValue) {
        var next := from + Step(oldValue);
        MatchPositionsSound(s, oldValue, next);
        var rest := MatchPositions(s, oldValue, next);
        var ps := [from] + rest;
        assert MatchPositions(s, oldValue, from) == ps;
        forall k | 0 <= k < |ps|
          ensures from <= ps[k] && MatchAt(s, ps[k], oldValue)
        {
          if k > 0 {
            assert ps[k] == rest[k - 1];
          }
        }
        forall a, b | 0 <= a < b < |ps|
          ensures ps[a] + Step(oldValue) <= ps[b]
        {
          assert ps[b] == rest[b - 1];
          if a > 0 {
            assert ps[a] == rest[a - 1];
          }
        }
      } else {
        MatchPositionsSound(s, oldValue, from + 1);
        assert MatchPositions(s, oldValue, from) == MatchPositions(s, oldValue, from + 1);
      }
    }
  }

  /** How many occurrences `s.replace(oldValue, _)` replaces. */
  function MatchCount(s: string, oldValue: string): nat {
    |MatchPositions(s, oldValue, 0)|
  }

  /** Text free of occurrences of a non-empty `oldValue` is copied verbatim. */
  lemma {:induction false} CopyUntilMatch(s: string, oldValue: string, newValue: string, i: nat, k: nat)
    requires |oldValue| > 0
    requires i <= k <= |s|
    requires forall j | i <= j < k :: !MatchAt(s, j, oldValue)
    ensures ReplaceFrom(s, oldValue, newValue, i) == s[i..k] + ReplaceFrom(s, oldValue, newValue, k)
    decreases k - i
  {
    if i < k {
      var rest := ReplaceFrom(s, oldValue, newValue, k);
      calc {
        ReplaceFrom(s, oldValue, newValue, i);
        { assert !MatchAt(s, i, oldValue); }
        [s[i]] + ReplaceFrom(s, oldValue, newValue, i + 1);
        { CopyUntilMatch(s, oldValue, newValue, i + 1, k); }
        [s[i]] + (s[i + 1..k] + rest);
        { assert s[i..k] == [s[i]] + s[i + 1..k]; }
        s[i..k] + rest;
      }
    }
  }

  /** `c * d` as repeated addition. The length bookkeeping below is stated
      with it so that each step is linear; `TimesIsProduct` converts back. */
  function Times(c: nat, d: int): int {
    if c == 0 then 0 else d + Times(c - 1, d)
  }

  lemma {:induction false} TimesIsProduct(c: nat, d: int)
    ensures Times(c, d) == c * d
  {
    if c > 0 {
      TimesIsProduct(c - 1, d);
      assert c * d == (c - 1) * d + d;
    }
  }

  /** The length formula, generalised to a scan resumed at `k`. Each way the
      scan can advance from `k` is its own lemma below. */
  lemma LengthFrom(s: string, oldValue: string, newValue: string, k: nat)
    requires k <= |s|
    ensures |ReplaceFrom(s, oldValue, newValue, k)|
         == |s| - k + Times(|MatchPositions(s, oldValue, k)|, |newValue| - |oldValue|)
    decreases |s| - k, 1
  {
    if |oldValue| == 0 {
      LengthFromEmpty(s, newValue, k);
    } else if MatchAt(s, k, oldValue) {
      LengthFromMatch(s, oldValue, newValue, k);
    } else if k < |s| {
      LengthFromCopy(s, oldValue, newValue, k);
    }
  }

  /** An empty `oldValue` emits `newValue` and one character per step, and
      counts one occurrence per step, the last one at `|s|`. */
  lemma {:induction false} LengthFromEmpty(s: string, newValue: string, k: nat)
    requires k <= |s|
    ensures |ReplaceFrom(s, [], newValue, k)|
         == |s| - k + Times(|MatchPositions(s, [], k)|, |newValue|)
    decreases |s| - k, 0
  {
    assert MatchAt(s, k, []);
    if k < |s| {
      LengthFrom(s, [], newValue, k + 1);
    }
  }

  /** A non-empty occurrence at `k` is swapped for `newValue` and counted. */
  lemma {:induction false} LengthFromMatch(s: string, oldValue: string, newValue: string, k: nat)
    requires |oldValue| > 0 && MatchAt(s, k, oldValue)
    ensures |ReplaceFrom(s, oldValue, newValue, k)|
         == |s| - k + Times(|MatchPositions(s, oldValue, k)|, |newValue| - |oldValue|)
    decreases |s| - k, 0
  {
    LengthFrom(s, oldValue, newValue, k + |oldValue|);
  }

  /** A character that starts no occurrence is copied and not counted. */
  lemma {:induction false} LengthFromCopy(s: string, oldValue: string, newValue: string, k: nat)
    requires |oldValue| > 0 && !MatchAt(s, k, oldValue) && k < |s|
    ensures |ReplaceFrom(s, oldValue, newValue, k)|
         == |s| - k + Times(|MatchPositions(s, oldValue, k)|, |newValue| - |oldValue|)
    decreases |s| - k, 0
  {
    LengthFrom(s, oldValue, newValue, k + 1);
  }

  lemma {:induction false} EmptyMatchesEverywhere(s: string, k: nat)
    requires k <= |s|
    ensures |MatchPositions(s, [], k)| == |s| - k + 1
    decreases |s| - k
  {
    assert MatchAt(s, k, []);
    if k < |s| {
      EmptyMatchesEverywhere(s, k + 1);
    }
  }

  /** `|s.replace(l, r)| == |s| + n * (|r| - |l|)` where `n` counts the
      non-overlapping left-to-right occurrences of `l` (`|s| + 1` of them
      when `l` is empty). */
  lemma ReplaceAllLength(s: string, oldValue: string, newValue: string)
    ensures |ReplaceAll(s, oldValue, newValue)| == |s| + MatchCount(s, oldValue) * (|newValue| - |oldValue|)
    ensures |oldValue| == 0 ==> MatchCount(s, oldValue) == |s| + 1
  {
    LengthFrom(s, oldValue, newValue, 0);
    TimesIsProduct(MatchCount(s, oldValue), |newValue| - |oldValue|);
    if |oldValue| == 0 {
      EmptyMatchesEverywhere(s, 0);
    }
  }

  /** A non-empty `oldValue` that does not occur leaves the string unchanged
      (the stdlib returns `s` itself on this path). */
  lemma ReplaceAllAbsent(s: string, oldValue: string, newValue: string)
    requires |oldValue| > 0 && !Contains(s, oldValue)
    ensures ReplaceAll(s, oldValue, newValue) == s
  {
    CopyUntilMatch(s, oldValue, newValue, 0, |s|);
    assert s[0..|s|] == s;
  }

  lemma {:induction false} ReplaceSelfFrom(s: string, v: string, k: nat)
    requires k <= |s|
    ensures ReplaceFrom(s, v, v, k) == s[k..]
    decreases |s| - k
  {
    if |v| == 0 {
      if k < |s| {
        ReplaceSelfFrom(s, v, k + 1);
        assert s[k..] == [s[k]] + s[k + 1..];
      }
    } else if MatchAt(s, k, v) {
      ReplaceSelfFrom(s, v, k + |v|);
      assert s[k..] == s[k..k + |v|] + s[k + |v|..];
    } else if k < |s| {
      ReplaceSelfFrom(s, v, k + 1);
      assert s[k..] == [s[k]] + s[k + 1..];
    }
  }

  /** Replacing a string by itself changes nothing. */
  lemma ReplaceAllSelf(s: string, v: string)
    ensures ReplaceAll(s, v, v) == s
  {
    ReplaceSelfFrom(s, v, 0);
  }

  /** The scan's first position is `indexOf`'s answer; it finds nothing
      exactly when `indexOf` returns -1. */
  lemma {:induction false} FirstMatchPosition(s: string, oldValue: string, from: nat)
    requires from <= |s|
    ensures var ps := MatchPositions(s, oldValue, from);
      && (IndexOf(s, oldValue, from) == -1 <==> |ps| == 0)
      && (|ps| > 0 ==> ps[0] == IndexOf(s, oldValue, from))
    decreases |s| - from
  {
    if !MatchAt(s, from, oldValue) && from < |s| {
      FirstMatchPosition(s, oldValue, from + 1);
    }
  }

  /** Each position after the first is `indexOf`'s answer when searching
      `Step(oldValue)` past the one before. */
  ghost predicate Greedy(s: string, oldValue: string, ps: seq<nat>)
    decreases |ps|
  {
    |ps| <= 1 || (ps[1] == IndexOf(s, oldValue, ps[0] + Step(oldValue)) && Greedy(s, oldValue, ps[1..]))
  }

  /** `Greedy`, read position by position. */
  lemma {:induction false} GreedyAt(s: string, oldValue: string, ps: seq<nat>, a: nat)
    requires Greedy(s, oldValue, ps) && a < |ps| - 1
    ensures ps[a + 1] == IndexOf(s, oldValue, ps[a] + Step(oldValue))
    decreases a
  {
    if a == 0 {
      // the first conjunct of `Greedy` itself
    } else {
      var tail, b := ps[1..], a - 1;
      assert Greedy(s, oldValue, tail);
      assert tail[b] == ps[a] && tail[b + 1] == ps[a + 1];
      GreedyAt(s, oldValue, tail, b);
    }
  }

  /** The scan is greedy: no occurrence it could take is skipped, since each
      position after the first is where `indexOf` next finds `oldValue`. */
  lemma MatchPositionsNext(s: string, oldValue: string, from: nat)
    ensures Greedy(s, oldValue, MatchPositions(s, oldValue, from))
    decreases |s| + 1 - from, 1
  {
    if from <= |s| {
      if MatchAt(s, from, oldValue) {
        MatchPositionsNextAt(s, oldValue, from);
      } else {
        MatchPositionsNext(s, oldValue, from + 1);
      }
    }
  }

  /** `MatchPositionsNext` when an occurrence starts at `from`. */
  lemma {:induction false} MatchPositionsNextAt(s: string, oldValue: string, from: nat)
    requires from <= |s| && MatchAt(s, from, oldValue)
    ensures Greedy(s, oldValue, MatchPositions(s, oldValue, from))
    decreases |s| + 1 - from, 0
  {
    var next := from + Step(oldValue);
    var rest := MatchPositions(s, oldValue, next);
    assert MatchPositions(s, oldValue, from) == [from] + rest;
    MatchPositionsNext(s, oldValue, next);
    if next <= |s| {
      FirstMatchPosition(s, oldValue, next);
    }
    assert ([from] + rest)[1..] == rest;
  }

  /** The scan stops only when searching `Step(oldValue)` past its last
      position runs off the end of `s` or finds nothing. */
  lemma MatchPositionsLast(s: string, oldValue: string, from: nat)
    ensures var ps := MatchPositions(s, oldValue, from);
      |ps| > 0 ==>
        var last := ps[|ps| - 1] + Step(oldValue);
        last > |s| || IndexOf(s, oldValue, last) == -1
    decreases |s| + 1 - from, 1
  {
    if from <= |s| {
      if MatchAt(s, from, oldValue) {
        MatchPositionsLastAt(s, oldValue, from);
      } else {
        MatchPositionsLast(s, oldValue, from + 1);
      }
    }
  }

  /** `MatchPositionsLast` when an occurrence starts at `from`. */
  lemma {:induction false} MatchPositionsLastAt(s: string, oldValue: string, from: nat)
    requires from <= |s| && MatchAt(s, from, oldValue)
    ensures var ps := MatchPositions(s, oldValue, from);
      var last := ps[|ps| - 1] + Step(oldValue);
      last > |s| || IndexOf(s, oldValue, last) == -1
    decreases |s| + 1 - from, 0
  {
    var next := from + Step(oldValue);
    var rest := MatchPositions(s, oldValue, next);
    var ps := MatchPositions(s, oldValue, from);
    assert ps == [from] + rest;
    if |rest| == 0 {
      if next <= |s| {
        FirstMatchPosition(s, oldValue, next);
      }
    } else {
      MatchPositionsLast(s, oldValue, next);
      assert ps[|ps| - 1] == rest[|rest| - 1];
    }
  }

  lemma ContainsEmpty(s: string)
    ensures Contains(s, [])
  {
    assert MatchAt(s, 0, []);
  }

  lemma ProductNonZero(c: int, d: int)
    requires c >= 1 && d != 0
    ensures c * d != 0
  {
    if d > 0 {
      assert c * d >= d;
    } else {
      assert c * d <= d;
    }
  }

  /** With equal-length key and value, the first occurrence is overwritten in
      place, so a different value shows at that very position. */
  lemma ReplacedOccurrenceDiffers(s: string, oldValue: string, newValue: string, i: nat)
    requires |oldValue| > 0 && |newValue| == |oldValue| && oldValue != newValue
    requires MatchAt(s, i, oldValue)
    requires forall j | 0 <= j < i :: !MatchAt(s, j, oldValue)
    ensures ReplaceAll(s, oldValue, newValue) != s
  {
    var r := ReplaceAll(s, oldValue, newValue);
    var tail := ReplaceFrom(s, oldValue, newValue, i + |oldValue|);
    calc {
      r;
      { CopyUntilMatch(s, oldValue, newValue, 0, i); }
      s[0..i] + ReplaceFrom(s, oldValue, newValue, i);
      s[0..i] + (newValue + tail);
    }
    assert r[i..i + |newValue|] == newValue;
  }

  /** `s.replace(l, r)` is `s` again exactly when `l` does not occur or is
      replaced by itself (an empty `l` always occurs). */
  lemma ReplaceAllUnchangedIff(s: string, oldValue: string, newValue: string)
    ensures ReplaceAll(s, oldValue, newValue) == s <==> (!Contains(s, oldValue) || oldValue == newValue)
  {
    if oldValue == newValue {
      ReplaceAllSelf(s, oldValue);
    } else if |oldValue| == 0 {
      ContainsEmpty(s);
      ReplaceAllLength(s, oldValue, newValue);
      ProductNonZero(MatchCount(s, oldValue), |newValue|);
    } else if !Contains(s, oldValue) {
      ReplaceAllAbsent(s, oldValue, newValue);
    } else if |newValue| != |oldValue| {
      ReplaceAllLength(s, oldValue, newValue);
      FirstMatchPosition(s, oldValue, 0);
      ProductNonZero(MatchCount(s, oldValue), |newValue| - |oldValue|);
    } else {
      ReplacedOccurrenceDiffers(s, oldValue, newValue, IndexOf(s, oldValue, 0));
    }
  }

  /** The stdlib's scan is part-way through `s`: everything before `i` has
      been emitted as `sb`, and `occ` is the next occurrence it will replace. */
  ghost predicate Pending(s: string, oldValue: string, newValue: string, sb: string, i: nat, occ: nat) {
    && i <= occ <= |s|
    && MatchAt(s, occ, oldValue)
    && ReplaceAll(s, oldValue, newValue) == sb + s[i..occ] + ReplaceFrom(s, oldValue, newValue, occ)
  }

  /** Empty `oldValue`, not yet at the end: `newValue` and one character
      are emitted and the scan moves on by one. */
  lemma ScanAdvanceEmpty(s: string, oldValue: string, newValue: string, sb: string, i: nat, occ: nat)
    requires |oldValue| == 0 && Pending(s, oldValue, newValue, sb, i, occ) && occ < |s|
    ensures IndexOf(s, oldValue, occ + Step(oldValue)) == occ + 1
    ensures Pending(s, oldValue, newValue, sb + s[i..occ] + newValue, occ + |oldValue|, occ + 1)
  {
    assert MatchAt(s, occ + 1, oldValue);
    calc {
      ReplaceAll(s, oldValue, newValue);
      sb + s[i..occ] + ReplaceFrom(s, oldValue, newValue, occ);
      sb + s[i..occ] + (newValue + [s[occ]] + ReplaceFrom(s, oldValue, newValue, occ + 1));
      { assert s[occ..occ + 1] == [s[occ]]; }
      sb + s[i..occ] + newValue + s[occ..occ + 1] + ReplaceFrom(s, oldValue, newValue, occ + 1);
    }
  }

  /** Empty `oldValue` at the end of `s`: the last `newValue` closes the scan. */
  lemma ScanAdvanceEnd(s: string, oldValue: string, newValue: string, sb: string, i: nat)
    requires |oldValue| == 0 && Pending(s, oldValue, newValue, sb, i, |s|)
    ensures ReplaceAll(s, oldValue, newValue) == sb + s[i..|s|] + newValue + s[|s| + |oldValue|..]
  {
    assert s[|s|..] == [];
  }

  /** Non-empty `oldValue`: the occurrence at `occ` becomes `newValue`, and
      the output continues with the scan from just past it. */
  lemma EmitOccurrence(s: string, oldValue: string, newValue: string, sb: string, i: nat, occ: nat)
    requires |oldValue| > 0 && Pending(s, oldValue, newValue, sb, i, occ)
    ensures occ + |oldValue| <= |s|
    ensures ReplaceAll(s, oldValue, newValue)
         == sb + s[i..occ] + newValue + ReplaceFrom(s, oldValue, newValue, occ + |oldValue|)
  {
  }

  /** Resuming at `k`, the next occurrence found is pending with the gap
      before it still to be copied. */
  lemma ResumeAt(s: string, oldValue: string, newValue: string, sb: string, k: nat, next: nat)
    requires |oldValue| > 0 && k <= next && MatchAt(s, next, oldValue)
    requires forall j | k <= j < next :: !MatchAt(s, j, oldValue)
    requires ReplaceAll(s, oldValue, newValue) == sb + ReplaceFrom(s, oldValue, newValue, k)
    ensures Pending(s, oldValue, newValue, sb, k, next)
  {
    CopyUntilMatch(s, oldValue, newValue, k, next);
  }

  /** Resuming at `k` with no occurrence left, the rest of `s` is copied. */
  lemma FinishFrom(s: string, oldValue: string, newValue: string, sb: string, k: nat)
    requires |oldValue| > 0 && k <= |s|
    requires forall j | k <= j <= |s| :: !MatchAt(s, j, oldValue)
    requires ReplaceAll(s, oldValue, newValue) == sb + ReplaceFrom(s, oldValue, newValue, k)
    ensures ReplaceAll(s, oldValue, newValue) == sb + s[k..]
  {
    CopyUntilMatch(s, oldValue, newValue, k, |s|);
    assert s[k..|s|] == s[k..];
  }

  /** The first `indexOf` starts the scan with nothing emitted yet. */
  lemma ScanStart(s: string, oldValue: string, newValue: string)
    requires IndexOf(s, oldValue, 0) >= 0
    ensures Pending(s, oldValue, newValue, [], 0, IndexOf(s, oldValue, 0))
  {
    var occ := IndexOf(s, oldValue, 0);
    assert ReplaceAll(s, oldValue, newValue) == [] + ReplaceFrom(s, oldValue, newValue, 0);
    if |oldValue| > 0 {
      ResumeAt(s, oldValue, newValue, [], 0, occ);
    } else {
      assert MatchAt(s, 0, oldValue);
      assert s[0..0] == [];
    }
  }

  /** Non-empty `oldValue`, and `next` is the first occurrence past the one
      at `occ`: it is the next one pending, with `newValue` emitted for the
      one at `occ`. */
  lemma ScanFound(s: string, oldValue: string, newValue: string, sb: string, i: nat, occ: nat, next: nat)
    requires |oldValue| > 0 && Pending(s, oldValue, newValue, sb, i, occ)
    requires occ + |oldValue| <= next && MatchAt(s, next, oldValue)
    requires forall j | occ + |oldValue| <= j < next :: !MatchAt(s, j, oldValue)
    ensures Pending(s, oldValue, newValue, sb + s[i..occ] + newValue, occ + |oldValue|, next)
  {
    assert ReplaceAll(s, oldValue, newValue)
        == sb + s[i..occ] + newValue + ReplaceFrom(s, oldValue, newValue, occ + |oldValue|) by {
      EmitOccurrence(s, oldValue, newValue, sb, i, occ);
    }
    ResumeAt(s, oldValue, newValue, sb + s[i..occ] + newValue, occ + |oldValue|, next);
  }

  /** Non-empty `oldValue`, no occurrence after `occ`: what follows it is
      copied as it stands. */
  lemma ScanExhausted(s: string, oldValue: string, newValue: string, sb: string, i: nat, occ: nat)
    requires |oldValue| > 0 && Pending(s, oldValue, newValue, sb, i, occ)
    requires IndexOf(s, oldValue, occ + |oldValue|) < 0
    ensures ReplaceAll(s, oldValue, newValue) == sb + s[i..occ] + newValue + s[occ + |oldValue|..]
  {
    EmitOccurrence(s, oldValue, newValue, sb, i, occ);
    FinishFrom(s, oldValue, newValue, sb + s[i..occ] + newValue, occ + |oldValue|);
  }

  /** Non-empty `oldValue`: after the occurrence, the next `indexOf` either
      finds another occurrence or leaves only text to copy. */
  lemma ScanAdvanceNonEmpty(s: string, oldValue: string, newValue: string, sb: string, i: nat, occ: nat)
    requires |oldValue| > 0 && Pending(s, oldValue, newValue, sb, i, occ)
    ensures occ + |oldValue| <= |s|
    ensures var sb' := sb + s[i..occ] + newValue;
            var i' := occ + |oldValue|;
            var next := IndexOf(s, oldValue, occ + Step(oldValue));
      && (next > 0 ==> occ < next && Pending(s, oldValue, newValue, sb', i', next))
      && (next <= 0 ==> ReplaceAll(s, oldValue, newValue) == sb' + s[i'..])
  {
    assert Step(oldValue) == |oldValue|;
    var next := IndexOf(s, oldValue, occ + |oldValue|);
    if next < 0 {
      ScanExhausted(s, oldValue, newValue, sb, i, occ);
    } else {
      assert Min(occ + |oldValue|, |s|) == occ + |oldValue|;
      ScanFound(s, oldValue, newValue, sb, i, occ, next);
    }
  }

  /** One turn of the stdlib's loop, from the occurrence at `occ`: the gap
      and `newValue` are appended; then either the scan stops, with only the
      rest of `s` left to copy, or the next `indexOf` finds a later occurrence. */
  lemma ScanStep(s: string, oldValue: string, newValue: string, sb: string, i: nat, occ: nat)
    requires Pending(s, oldValue, newValue, sb, i, occ)
    ensures occ + |oldValue| <= |s|
    ensures var sb' := sb + s[i..occ] + newValue;
            var i' := occ + |oldValue|;
      && (occ >= |s| ==> ReplaceAll(s, oldValue, newValue) == sb' + s[i'..])
      && (occ < |s| ==>
            var next := IndexOf(s, oldValue, occ + Step(oldValue));
            && (next > 0 ==> occ < next && Pending(s, oldValue, newValue, sb', i', next))
            && (next <= 0 ==> ReplaceAll(s, oldValue, newValue) == sb' + s[i'..]))
  {
    if |oldValue| > 0 {
      ScanAdvanceNonEmpty(s, oldValue, newValue, sb, i, occ);
    } else if occ < |s| {
      ScanAdvanceEmpty(s, oldValue, newValue, sb, i, occ);
    } else {
      ScanAdvanceEnd(s, oldValue, newValue, sb, i);
    }
  }

  /** The stdlib's own algorithm for `String.replace(oldValue, newValue)`:
      find the first occurrence with `indexOf`; if there is none return `s`
      itself; otherwise run the scan loop from that occurrence. Its result is
      the reference `ReplaceAll`. */
  method ReplaceScan(s: string, oldValue: string, newValue: string) returns (r: string)
    ensures r == ReplaceAll(s, oldValue, newValue)
  {
    var occ := IndexOf(s, oldValue, 0);
    if occ < 0 {
      ReplaceAllAbsent(s, oldValue, newValue);
      return s;
    }
    ScanStart(s, oldValue, newValue);
    r := ScanLoop(s, oldValue, newValue, [], 0, occ);
  }

  /** The stdlib's replace loop, one turn per call, which runs at least
      once and repeats while the last search found an index above zero. Its
      state is the builder `sb`, the copy start `i` and the occurrence `occ`:
      copy the gap, append `newValue`, move past the occurrence; stop at the
      end of the string, otherwise search again `Step(oldValue)` characters
      on and stop when `indexOf` finds nothing. On stopping, the rest of `s`
      from `i` is appended to the builder. */
  method ScanLoop(s: string, oldValue: string, newValue: string, sb: string, i: nat, occ: nat) returns (r: string)
    requires Pending(s, oldValue, newValue, sb, i, occ)
    ensures r == ReplaceAll(s, oldValue, newValue)
    decreases |s| - occ
  {
    ScanStep(s, oldValue, newValue, sb, i, occ);
    var sb' := sb + s[i..occ] + newValue;
    var i' := occ + |oldValue|;
    if occ >= |s| {
      return sb' + s[i'..];
    }
    var next := IndexOf(s, oldValue, occ + Step(oldValue));
    if next <= 0 {
      return sb' + s[i'..];
    }
    r := ScanLoop(s, oldValue, newValue, sb', i', next);
  }
}
