/**
 * The greedy screenshot de-duplicator (`filterSimilarScreenshots`).
 *
 * Whether two screenshots look alike is decided by an image-comparison
 * library; here it is the parameter `similar(existing, candidate)`, called
 * with the already-kept screenshot first and the candidate second, exactly as
 * the source calls the library.
 */
module ScreenshotDedup {
  import opened Sequences

  /** Screenshots whose pixel difference, in percent, is at most this are duplicates. */
  const ScreenshotsDifferenceThreshold: real := 5.0

  /** The source's test `diffPercent <= screenshotsDifferenceThreshold`: the bound itself counts as similar. */
  predicate WithinThreshold(diffPercent: real)
  {
    diffPercent <= ScreenshotsDifferenceThreshold
  }

  /** The similarity relation a difference measure induces through the threshold. */
  function SimilarByDifference<T(!new)>(difference: (T, T) -> real): (similar: (T, T) -> bool)
    ensures forall a, b :: similar(a, b) <==> WithinThreshold(difference(a, b))
  {
    (a, b) => WithinThreshold(difference(a, b))
  }

  /** `kept.any { similar(it, candidate) }`. */
  predicate AnySimilar<T>(kept: seq<T>, candidate: T, similar: (T, T) -> bool)
  {
    exists k :: 0 <= k < |kept| && similar(kept[k], candidate)
  }

  /** No screenshot is similar to any screenshot after it. */
  predicate NoSimilarPair<T>(s: seq<T>, similar: (T, T) -> bool)
  {
    forall i, j :: 0 <= i < j < |s| ==> !similar(s[i], s[j])
  }

  /**
   * The greedy fold: screenshots are visited in order and one is appended
   * to the kept list only when no kept screenshot is similar to it.
   */
  function Deduplicate<T>(s: seq<T>, similar: (T, T) -> bool): (kept: seq<T>)
    ensures |kept| <= |s|
    decreases |s|
  {
    if |s| == 0 then []
    else
      var n := |s| - 1;
      var kept := Deduplicate(s[..n], similar);
      if AnySimilar(kept, s[n], similar) then kept else kept + [s[n]]
  }

  /** No kept screenshot is similar to a screenshot kept after it. */
  lemma {:induction false} DeduplicateNoSimilarPair<T>(s: seq<T>, similar: (T, T) -> bool)
    ensures NoSimilarPair(Deduplicate(s, similar), similar)
    decreases |s|
  {
    if |s| > 0 {
      var n := |s| - 1;
      var kept := Deduplicate(s[..n], similar);
      DeduplicateNoSimilarPair(s[..n], similar);
      if !AnySimilar(kept, s[n], similar) {
        var r := kept + [s[n]];
        forall i, j | 0 <= i < j < |r|
          ensures !similar(r[i], r[j])
        {
          if j == n {
            assert r[i] == kept[i];
          }
        }
      }
    }
  }

  /** The first screenshot is always kept, and kept first; no screenshots give none. */
  lemma {:induction false} DeduplicateKeepsFirst<T>(s: seq<T>, similar: (T, T) -> bool)
    ensures |s| == 0 ==> Deduplicate(s, similar) == []
    ensures |s| > 0 ==> |Deduplicate(s, similar)| > 0 && Deduplicate(s, similar)[0] == s[0]
    decreases |s|
  {
    if |s| > 1 {
      var n := |s| - 1;
      DeduplicateKeepsFirst(s[..n], similar);
      assert s[..n][0] == s[0];
    } else if |s| == 1 {
      assert !AnySimilar([], s[0], similar);
    }
  }

  /** Which input positions the greedy fold keeps. */
  function KeptMask<T>(s: seq<T>, similar: (T, T) -> bool): (keep: seq<bool>)
    ensures |keep| == |s|
    decreases |s|
  {
    if |s| == 0 then []
    else
      var n := |s| - 1;
      KeptMask(s[..n], similar) + [!AnySimilar(Deduplicate(s[..n], similar), s[n], similar)]
  }

  /** Kept positions hold pairwise dissimilar screenshots, the earlier one compared first. */
  ghost predicate KeptAreDissimilar<T>(s: seq<T>, keep: seq<bool>, similar: (T, T) -> bool)
    requires |keep| == |s|
  {
    forall i, j :: 0 <= i < j < |s| && keep[i] && keep[j] ==> !similar(s[i], s[j])
  }

  /** Every dropped position has a kept position before it whose screenshot is similar to it. */
  ghost predicate DroppedHaveEarlierMatch<T>(s: seq<T>, keep: seq<bool>, similar: (T, T) -> bool)
    requires |keep| == |s|
  {
    forall j :: 0 <= j < |s| && !keep[j] ==>
      exists i :: 0 <= i < j && keep[i] && similar(s[i], s[j])
  }

  /** The declarative description of the result, by input position. */
  ghost predicate IsGreedySelection<T>(s: seq<T>, keep: seq<bool>, similar: (T, T) -> bool)
  {
    && |keep| == |s|
    && KeptAreDissimilar(s, keep, similar)
    && DroppedHaveEarlierMatch(s, keep, similar)
  }

  /** Selecting the input by the kept positions gives the fold's result: it is a sub-list in original order. */
  lemma {:induction false} KeptMaskSelectsResult<T>(s: seq<T>, similar: (T, T) -> bool)
    ensures Select(s, KeptMask(s, similar)) == Deduplicate(s, similar)
    decreases |s|
  {
    if |s| > 0 {
      var n := |s| - 1;
      KeptMaskSelectsResult(s[..n], similar);
      assert KeptMask(s, similar)[..n] == KeptMask(s[..n], similar);
    }
  }

  /** The last step of `KeptMask`, spelled out. */
  lemma {:induction false} KeptMaskLast<T>(s: seq<T>, similar: (T, T) -> bool)
    requires |s| > 0
    ensures KeptMask(s, similar)[..|s| - 1] == KeptMask(s[..|s| - 1], similar)
    ensures KeptMask(s, similar)[|s| - 1] == !AnySimilar(Deduplicate(s[..|s| - 1], similar), s[|s| - 1], similar)
  {
  }

  /** The greedy fold never keeps two similar screenshots. */
  lemma {:induction false} KeptMaskKeepsDissimilar<T>(s: seq<T>, similar: (T, T) -> bool)
    ensures KeptAreDissimilar(s, KeptMask(s, similar), similar)
    decreases |s|
  {
    if |s| > 0 {
      var n := |s| - 1;
      var prefix := s[..n];
      var keep := KeptMask(s, similar);
      var kept := Deduplicate(prefix, similar);
      KeptMaskKeepsDissimilar(prefix, similar);
      KeptMaskLast(s, similar);
      KeptMaskSelectsResult(prefix, similar);
      assert Select(prefix, keep[..n]) == kept;
      forall i, j | 0 <= i < j < |s| && keep[i] && keep[j]
        ensures !similar(s[i], s[j])
      {
        if j == n {
          assert prefix[i] == s[i] && keep[..n][i];
          SelectContains(prefix, keep[..n], i);
          var k :| 0 <= k < |kept| && kept[k] == s[i];
          assert !similar(kept[k], s[n]);
        } else {
          assert keep[..n][i] && keep[..n][j] && prefix[i] == s[i] && prefix[j] == s[j];
        }
      }
    }
  }

  /** A screenshot similar to some kept one is similar to the screenshot at some kept position. */
  lemma {:induction false} KeptMatchHasPosition<T>(s: seq<T>, candidate: T, similar: (T, T) -> bool)
    requires AnySimilar(Deduplicate(s, similar), candidate, similar)
    ensures exists i :: 0 <= i < |s| && KeptMask(s, similar)[i] && similar(s[i], candidate)
  {
    var kept := Deduplicate(s, similar);
    var k :| 0 <= k < |kept| && similar(kept[k], candidate);
    KeptMaskSelectsResult(s, similar);
    SelectOrigin(s, KeptMask(s, similar), kept[k]);
  }

  /** The fold drops the last screenshot exactly because a kept one is similar to it. */
  lemma {:induction false} LastDroppedIsSimilar<T>(s: seq<T>, similar: (T, T) -> bool)
    requires |s| > 0 && !KeptMask(s, similar)[|s| - 1]
    ensures AnySimilar(Deduplicate(s[..|s| - 1], similar), s[|s| - 1], similar)
  {
    KeptMaskLast(s, similar);
  }

  /** When the greedy fold drops the last screenshot, a kept one before it is similar to it. */
  lemma {:induction false} LastDroppedHasMatch<T>(s: seq<T>, similar: (T, T) -> bool)
    requires |s| > 0 && !KeptMask(s, similar)[|s| - 1]
    ensures exists i :: 0 <= i < |s| - 1 && KeptMask(s, similar)[i] && similar(s[i], s[|s| - 1])
  {
    LastDroppedIsSimilar(s, similar);
    var n := |s| - 1;
    KeptMatchHasPosition(s[..n], s[n], similar);
    var i :| 0 <= i < n && KeptMask(s[..n], similar)[i] && similar(s[..n][i], s[n]);
    KeptMaskLast(s, similar);
    assert KeptMask(s, similar)[..n][i] == KeptMask(s, similar)[i];
    assert s[..n][i] == s[i];
  }

  /** The greedy fold drops a screenshot only because of an earlier kept one. */
  lemma {:induction false} KeptMaskDropsMatched<T>(s: seq<T>, similar: (T, T) -> bool)
    ensures DroppedHaveEarlierMatch(s, KeptMask(s, similar), similar)
    decreases |s|
  {
    if |s| > 0 {
      var n := |s| - 1;
      var prefix := s[..n];
      var keep := KeptMask(s, similar);
      var keep0 := KeptMask(prefix, similar);
      KeptMaskDropsMatched(prefix, similar);
      KeptMaskLast(s, similar);
      forall j | 0 <= j < |s| && !keep[j]
        ensures exists i :: 0 <= i < j && keep[i] && similar(s[i], s[j])
      {
        if j == n {
          LastDroppedHasMatch(s, similar);
        } else {
          assert keep[..n][j] == keep[j];
          var i :| 0 <= i < j && keep0[i] && similar(prefix[i], prefix[j]);
          assert keep[..n][i] == keep[i];
          assert prefix[i] == s[i] && prefix[j] == s[j];
        }
      }
    }
  }

  /** The greedy fold meets the declarative description. */
  lemma {:induction false} KeptMaskIsGreedySelection<T>(s: seq<T>, similar: (T, T) -> bool)
    ensures IsGreedySelection(s, KeptMask(s, similar), similar)
  {
    KeptMaskKeepsDissimilar(s, similar);
    KeptMaskDropsMatched(s, similar);
  }

  /** Two masks meeting the declarative description agree on every position before `j`. */
  lemma {:induction false} GreedySelectionsAgree<T>(s: seq<T>, keep1: seq<bool>, keep2: seq<bool>, similar: (T, T) -> bool, j: nat)
    requires IsGreedySelection(s, keep1, similar) && IsGreedySelection(s, keep2, similar)
    requires j <= |s|
    ensures forall i :: 0 <= i < j ==> keep1[i] == keep2[i]
    decreases j
  {
    if j > 0 {
      var m := j - 1;
      GreedySelectionsAgree(s, keep1, keep2, similar, m);
    }
  }

  /**
   * The declarative description determines the result: a mask meets it
   * exactly when it is the greedy fold's mask.
   */
  lemma {:induction false} GreedySelectionIsUnique<T>(s: seq<T>, keep: seq<bool>, similar: (T, T) -> bool)
    ensures IsGreedySelection(s, keep, similar) <==> keep == KeptMask(s, similar)
  {
    KeptMaskIsGreedySelection(s, similar);
    if IsGreedySelection(s, keep, similar) {
      GreedySelectionsAgree(s, keep, KeptMask(s, similar), similar, |s|);
    }
  }

  /** A list with no similar pair comes back unchanged. */
  lemma {:induction false} DeduplicateKeepsDissimilar<T>(s: seq<T>, similar: (T, T) -> bool)
    requires NoSimilarPair(s, similar)
    ensures Deduplicate(s, similar) == s
    decreases |s|
  {
    if |s| > 0 {
      var n := |s| - 1;
      assert NoSimilarPair(s[..n], similar);
      DeduplicateKeepsDissimilar(s[..n], similar);
      assert !AnySimilar(s[..n], s[n], similar);
      assert s[..n] + [s[n]] == s;
    }
  }

  /** De-duplicating a de-duplicated list changes nothing. */
  lemma {:induction false} DeduplicateIdempotent<T>(s: seq<T>, similar: (T, T) -> bool)
    ensures Deduplicate(Deduplicate(s, similar), similar) == Deduplicate(s, similar)
  {
    DeduplicateNoSimilarPair(s, similar);
    DeduplicateKeepsDissimilar(Deduplicate(s, similar), similar);
  }

  /** Two screenshots: the second survives exactly when the first is not similar to it. */
  lemma {:induction false} DeduplicatePair<T>(a: T, b: T, similar: (T, T) -> bool)
    ensures Deduplicate([a, b], similar) == if similar(a, b) then [a] else [a, b]
  {
    assert [a, b][..1] == [a];
    DeduplicateKeepsFirst([a], similar);
    assert AnySimilar([a], b, similar) == similar(a, b);
    assert [a] + [b] == [a, b];
  }

  /** A difference of exactly 5.0 percent makes the later screenshot a duplicate; 5.01 keeps both. */
  lemma {:induction false} ThresholdIsInclusive<T(!new)>(a: T, b: T, difference: (T, T) -> real)
    ensures difference(a, b) == 5.0 ==> Deduplicate([a, b], SimilarByDifference(difference)) == [a]
    ensures difference(a, b) == 5.01 ==> Deduplicate([a, b], SimilarByDifference(difference)) == [a, b]
  {
    DeduplicatePair(a, b, SimilarByDifference(difference));
  }

  /** The source's nested loops: `uniqueScreenshots.any { … }` inside a `for` over the input. */
  method FilterSimilarScreenshots<T>(screenshots: seq<T>, similar: (T, T) -> bool) returns (unique: seq<T>)
    ensures unique == Deduplicate(screenshots, similar)
  {
    unique := [];
    for n := 0 to |screenshots|
      invariant unique == Deduplicate(screenshots[..n], similar)
    {
      var screenshot := screenshots[n];
      var isSimilar := false;
      for k := 0 to |unique|
        invariant isSimilar <==> AnySimilar(unique[..k], screenshot, similar)
      {
        assert unique[..k + 1] == unique[..k] + [unique[k]];
        if similar(unique[k], screenshot) {
          isSimilar := true;
        }
      }
      assert unique[..|unique|] == unique;
      assert screenshots[..n + 1][..n] == screenshots[..n];
      if !isSimilar {
        unique := unique + [screenshot];
      }
    }
    assert screenshots[..|screenshots|] == screenshots;
  }
}
