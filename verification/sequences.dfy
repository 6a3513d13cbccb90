/**
 * Order-preserving selections. A sub-list that keeps some elements of a list
 * in their original order is described by a mask of booleans, one per
 * element; `Select` applies the mask.
 */
module Sequences {

  /** The elements of `s` whose flag in `keep` is set, in their original order. */
  function Select<T>(s: seq<T>, keep: seq<bool>): (r: seq<T>)
    requires |keep| == |s|
    ensures |r| <= |s|
    decreases |s|
  {
    if |s| == 0 then []
    else
      var n := |s| - 1;
      Select(s[..n], keep[..n]) + (if keep[n] then [s[n]] else [])
  }

  /** A non-empty list is its prefix followed by its last element. */
  lemma {:induction false} PrefixAndLast<T>(s: seq<T>)
    requires |s| > 0
    ensures s[..|s| - 1] + [s[|s| - 1]] == s
  {
  }

  /** A longer prefix is a shorter one followed by one more element. */
  lemma {:induction false} PrefixExtend<T>(s: seq<T>, i: nat)
    requires i < |s|
    ensures s[..i + 1] == s[..i] + [s[i]]
  {
  }

  /** Every kept element appears in the selection. */
  lemma {:induction false} SelectContains<T>(s: seq<T>, keep: seq<bool>, i: nat)
    requires |keep| == |s| && i < |s| && keep[i]
    ensures s[i] in Select(s, keep)
    decreases |s|
  {
    var n := |s| - 1;
    if i < n {
      SelectContains(s[..n], keep[..n], i);
    }
  }

  /** Every element of the selection is a kept element of the list. */
  lemma {:induction false} SelectOrigin<T>(s: seq<T>, keep: seq<bool>, x: T)
    requires |keep| == |s| && x in Select(s, keep)
    ensures exists i :: 0 <= i < |s| && keep[i] && s[i] == x
    decreases |s|
  {
    var n := |s| - 1;
    if x in Select(s[..n], keep[..n]) {
      SelectOrigin(s[..n], keep[..n], x);
      var i :| 0 <= i < n && keep[..n][i] && s[..n][i] == x;
      assert keep[i] && s[i] == x;
    } else {
      assert keep[n] && s[n] == x;
    }
  }

  /** One flag per element: whether it satisfies `p`. */
  function Flags<T>(s: seq<T>, p: T -> bool): (flags: seq<bool>)
    ensures |flags| == |s|
    ensures forall i :: 0 <= i < |s| ==> flags[i] == p(s[i])
  {
    seq(|s|, i requires 0 <= i < |s| => p(s[i]))
  }

  /** The elements satisfying `p`, appended one by one in a single pass. */
  function Filter<T>(s: seq<T>, p: T -> bool): seq<T>
    decreases |s|
  {
    if |s| == 0 then []
    else
      var n := |s| - 1;
      Filter(s[..n], p) + (if p(s[n]) then [s[n]] else [])
  }

  /** Filtering keeps exactly the elements satisfying `p`, in their original order. */
  lemma {:induction false} FilterIsSelection<T>(s: seq<T>, p: T -> bool)
    ensures Filter(s, p) == Select(s, Flags(s, p))
    decreases |s|
  {
    if |s| > 0 {
      var n := |s| - 1;
      assert Flags(s, p)[..n] == Flags(s[..n], p);
      FilterIsSelection(s[..n], p);
    }
  }

  /** An element is in the filtered list exactly when it is in the list and satisfies `p`. */
  lemma {:induction false} FilterMembers<T>(s: seq<T>, p: T -> bool, x: T)
    ensures x in Filter(s, p) <==> x in s && p(x)
  {
    FilterIsSelection(s, p);
    if x in Filter(s, p) {
      SelectOrigin(s, Flags(s, p), x);
    }
    if x in s && p(x) {
      var i :| 0 <= i < |s| && s[i] == x;
      SelectContains(s, Flags(s, p), i);
    }
  }

  /** When every element satisfies `p`, filtering changes nothing. */
  lemma {:induction false} FilterAll<T>(s: seq<T>, p: T -> bool)
    requires forall i :: 0 <= i < |s| ==> p(s[i])
    ensures Filter(s, p) == s
    decreases |s|
  {
    if |s| > 0 {
      var n := |s| - 1;
      FilterAll(s[..n], p);
      PrefixAndLast(s);
    }
  }
}
