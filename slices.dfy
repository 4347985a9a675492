/**
 * The slice primitives the modelled code relies on: `starts_with`,
 * `contains`, the search for the first occurrence of a pattern, and
 * `iter().filter(..).collect()`. They are generic over the element type, so
 * that the byte slices of the web server and the character strings of
 * minigrep share one definition.
 */
module Slices {
  import opened Wrappers

  /** `s.starts_with(prefix)`. */
  predicate StartsWith<T(==)>(s: seq<T>, prefix: seq<T>) {
    |prefix| <= |s| && s[..|prefix|] == prefix
  }

  /** `pat` occurs in `s` as a contiguous run starting at position `i`. */
  ghost predicate OccursAt<T>(s: seq<T>, pat: seq<T>, i: int) {
    0 <= i && i + |pat| <= |s| && s[i..i + |pat|] == pat
  }

  /** `starts_with`: the prefix is the run at position 0, so a shorter sequence never starts with it. */
  lemma StartsWithIffOccursAtStart<T>(s: seq<T>, prefix: seq<T>)
    ensures StartsWith(s, prefix) <==> OccursAt(s, prefix, 0)
    ensures |s| < |prefix| ==> !StartsWith(s, prefix)
  {
  }

  /** `s.contains(pat)`: tries every start position from the left. */
  predicate Contains<T(==)>(s: seq<T>, pat: seq<T>)
    decreases |s|
  {
    StartsWith(s, pat) || (s != [] && Contains(s[1..], pat))
  }

  /** `Contains` holds exactly when the pattern occurs somewhere. */
  lemma {:induction false} ContainsIffOccurs<T>(s: seq<T>, pat: seq<T>)
    ensures Contains(s, pat) <==> exists i :: OccursAt(s, pat, i)
    decreases |s|
  {
    if StartsWith(s, pat) {
      assert OccursAt(s, pat, 0);
    } else if s == [] {
      assert forall i :: !OccursAt(s, pat, i);
    } else {
      var t := s[1..];
      ContainsIffOccurs(t, pat);
      if Contains(t, pat) {
        var i :| OccursAt(t, pat, i);
        assert s[i + 1..i + 1 + |pat|] == t[i..i + |pat|];
        assert OccursAt(s, pat, i + 1);
      }
      forall i | OccursAt(s, pat, i) ensures Contains(t, pat) {
        assert i > 0;
        assert t[i - 1..i - 1 + |pat|] == s[i..i + |pat|];
        assert OccursAt(t, pat, i - 1);
      }
    }
  }

  /**
   * Start positions whose element differs from the pattern's first element
   * can be skipped when looking for the pattern.
   */
  lemma {:induction false} ContainsSkip<T>(s: seq<T>, pat: seq<T>, m: nat)
    requires pat != [] && m <= |s| && pat[0] !in s[..m]
    ensures Contains(s, pat) <==> Contains(s[m..], pat)
  {
    if m > 0 {
      assert s[0] in s[..m];
      assert !StartsWith(s, pat) by {
        if |pat| <= |s| {
          assert s[..|pat|][0] == s[0];
        }
      }
      assert s[1..][..m - 1] == s[1..m];
      assert forall x :: x in s[1..m] ==> x in s[..m];
      ContainsSkip(s[1..], pat, m - 1);
      assert s[1..][m - 1..] == s[m..];
    }
  }

  /** A pattern whose first element does not occur is not contained. */
  lemma NotContains<T>(s: seq<T>, pat: seq<T>)
    requires pat != [] && pat[0] !in s
    ensures !Contains(s, pat)
  {
    assert s[..|s|] == s;
    ContainsSkip(s, pat, |s|);
  }

  /**
   * The position of the first occurrence of `pat` in `s`, if any: the search
   * the request-line and response parsers use to find their delimiters.
   */
  function IndexOf<T(==)>(s: seq<T>, pat: seq<T>): (r: Option<nat>)
    ensures r.Some? ==> OccursAt(s, pat, r.value)
    ensures r.Some? ==> forall j :: 0 <= j < r.value ==> !OccursAt(s, pat, j)
    ensures r.None? ==> forall j :: !OccursAt(s, pat, j)
    decreases |s|
  {
    if StartsWith(s, pat) then
      Some(0)
    else if s == [] then
      None
    else
      match IndexOf(s[1..], pat)
      case None =>
        ShiftOccurrence(s, pat);
        None
      case Some(k) =>
        ShiftOccurrence(s, pat);
        assert s[k + 1..k + 1 + |pat|] == s[1..][k..k + |pat|];
        Some(k + 1)
  }

  /** An occurrence in `s` after its first position is an occurrence in `s[1..]`. */
  lemma ShiftOccurrence<T>(s: seq<T>, pat: seq<T>)
    requires s != [] && !(|pat| <= |s| && s[..|pat|] == pat)
    ensures forall j :: OccursAt(s, pat, j) ==> j > 0 && OccursAt(s[1..], pat, j - 1)
  {
    forall j | OccursAt(s, pat, j) ensures j > 0 && OccursAt(s[1..], pat, j - 1) {
      assert s[1..][j - 1..j - 1 + |pat|] == s[j..j + |pat|];
    }
  }

  /**
   * The first occurrence is pinned down by one occurrence and the absence of
   * the pattern's first element before it.
   */
  lemma FirstOccurrence<T>(s: seq<T>, pat: seq<T>, k: nat)
    requires pat != [] && OccursAt(s, pat, k) && pat[0] !in s[..k]
    ensures IndexOf(s, pat) == Some(k)
  {
    forall j | 0 <= j < k ensures !OccursAt(s, pat, j) {
      assert s[..k][j] == s[j];
      if j + |pat| <= |s| {
        assert s[j..j + |pat|][0] == s[j];
      }
    }
  }

  /** The first occurrence of a single element: it is there, and not before. */
  lemma FirstOfSingle<T>(s: seq<T>, x: T, i: nat)
    requires OccursAt(s, [x], i) && forall j :: 0 <= j < i ==> !OccursAt(s, [x], j)
    ensures i < |s| && s[i] == x && x !in s[..i]
  {
    assert s[i..i + 1][0] == s[i];
    forall j | 0 <= j < i ensures s[j] != x {
      assert !OccursAt(s, [x], j) && j + 1 <= |s|;
      assert s[j..j + 1] == [s[j]];
    }
    assert forall j :: 0 <= j < i ==> s[..i][j] == s[j];
  }

  /** `s.iter().filter(keep).collect()`: the elements that `keep` accepts, in order. */
  function Filter<T>(keep: T -> bool, s: seq<T>): (r: seq<T>)
    ensures |r| <= |s|
    ensures forall x :: x in r ==> x in s && keep(x)
  {
    if s == [] then [] else Pick(keep, s[0]) + Filter(keep, s[1..])
  }

  /** What `filter` makes of one element: the element if `keep` accepts it, nothing otherwise. */
  function Pick<T>(keep: T -> bool, x: T): (r: seq<T>)
    ensures r == [] || r == [x]
    ensures r == [x] <==> keep(x)
  {
    if keep(x) then [x] else []
  }

  /** The positions in `s` of the elements that `keep` accepts, in increasing order. */
  function KeptPositions<T>(keep: T -> bool, s: seq<T>): seq<nat> {
    if s == [] then []
    else (if keep(s[0]) then [0] else []) + Shifted(KeptPositions(keep, s[1..]))
  }

  /** Every position moved one place to the right. */
  function Shifted(idx: seq<nat>): (r: seq<nat>)
    ensures |r| == |idx|
    ensures forall j :: 0 <= j < |idx| ==> r[j] == idx[j] + 1
  {
    seq(|idx|, j requires 0 <= j < |idx| => idx[j] + 1)
  }

  /**
   * `r` consists of the elements of `s` at the strictly increasing positions
   * `idx`, and those are exactly the positions whose element `keep` accepts:
   * `r` holds the accepted elements of `s`, all of them, unchanged and in
   * their original order.
   */
  ghost predicate SelectedAt<T>(r: seq<T>, s: seq<T>, idx: seq<nat>, keep: T -> bool) {
    && |idx| == |r|
    && (forall j :: 0 <= j < |idx| ==> idx[j] < |s| && r[j] == s[idx[j]])
    && (forall j, k :: 0 <= j < k < |idx| ==> idx[j] < idx[k])
    && (forall i :: 0 <= i < |s| ==> (keep(s[i]) <==> i in idx))
  }

  lemma {:induction false} FilterSelects<T>(keep: T -> bool, s: seq<T>)
    ensures SelectedAt(Filter(keep, s), s, KeptPositions(keep, s), keep)
  {
    if s != [] {
      var t := s[1..];
      FilterSelects(keep, t);
      var head: seq<T> := if keep(s[0]) then [s[0]] else [];
      var headIdx: seq<nat> := if keep(s[0]) then [0] else [];
      ShiftedSelects(Filter(keep, t), s, KeptPositions(keep, t), keep);
      SelectedAtCons(head, headIdx, Filter(keep, t), s, Shifted(KeptPositions(keep, t)), keep);
    }
  }

  /** A selection from `s[1..]` is a selection from `s` of the positions after the first. */
  lemma ShiftedSelects<T>(r: seq<T>, s: seq<T>, idx: seq<nat>, keep: T -> bool)
    requires s != [] && SelectedAt(r, s[1..], idx, keep)
    ensures var sh := Shifted(idx);
      && |sh| == |r|
      && (forall j :: 0 <= j < |sh| ==> 0 < sh[j] < |s| && r[j] == s[sh[j]])
      && (forall j, k :: 0 <= j < k < |sh| ==> sh[j] < sh[k])
      && (forall i :: 0 < i < |s| ==> (keep(s[i]) <==> i in sh))
  {
    var sh := Shifted(idx);
    forall i | 0 < i < |s| ensures keep(s[i]) <==> i in sh {
      assert s[i] == s[1..][i - 1];
      if i - 1 in idx {
        var j :| 0 <= j < |idx| && idx[j] == i - 1;
        assert sh[j] == i;
      }
      if i in sh {
        var j :| 0 <= j < |sh| && sh[j] == i;
        assert idx[j] == i - 1;
      }
    }
  }

  /** Putting the decision about `s[0]` in front of a selection from the rest of `s`. */
  lemma SelectedAtCons<T>(head: seq<T>, headIdx: seq<nat>, r: seq<T>, s: seq<T>, sh: seq<nat>, keep: T -> bool)
    requires s != []
    requires head == (if keep(s[0]) then [s[0]] else []) && headIdx == (if keep(s[0]) then [0] else [])
    requires |sh| == |r|
    requires forall j :: 0 <= j < |sh| ==> 0 < sh[j] < |s| && r[j] == s[sh[j]]
    requires forall j, k :: 0 <= j < k < |sh| ==> sh[j] < sh[k]
    requires forall i :: 0 < i < |s| ==> (keep(s[i]) <==> i in sh)
    ensures SelectedAt(head + r, s, headIdx + sh, keep)
  {
    var idx := headIdx + sh;
    assert 0 !in sh;
    forall i | 0 <= i < |s| ensures keep(s[i]) <==> i in idx {
      assert i in idx <==> i in headIdx || i in sh;
    }
  }

  /** `a` can be obtained from `b` by deleting elements. */
  ghost predicate IsSubsequence<T>(a: seq<T>, b: seq<T>)
    decreases |b|
  {
    a == [] || (b != [] && ((a[0] == b[0] && IsSubsequence(a[1..], b[1..])) || IsSubsequence(a, b[1..])))
  }

  lemma {:induction false} SubsequenceNoLonger<T>(a: seq<T>, b: seq<T>)
    requires IsSubsequence(a, b)
    ensures |a| <= |b|
    ensures forall x :: x in a ==> x in b
    decreases |b|
  {
    if a != [] {
      if a[0] == b[0] && IsSubsequence(a[1..], b[1..]) {
        SubsequenceNoLonger(a[1..], b[1..]);
        assert a == [a[0]] + a[1..];
      } else {
        SubsequenceNoLonger(a, b[1..]);
      }
    }
  }

  /**
   * Filtering with a stricter test keeps a subsequence of what a looser
   * test keeps.
   */
  lemma {:induction false} FilterMonotone<T>(strict: T -> bool, loose: T -> bool, s: seq<T>)
    requires forall x :: strict(x) ==> loose(x)
    ensures IsSubsequence(Filter(strict, s), Filter(loose, s))
  {
    if s != [] {
      FilterMonotone(strict, loose, s[1..]);
      var a, b := Filter(strict, s[1..]), Filter(loose, s[1..]);
      if strict(s[0]) {
        assert Filter(strict, s) == [s[0]] + a;
        assert Filter(loose, s) == [s[0]] + b;
        assert ([s[0]] + a)[1..] == a && ([s[0]] + b)[1..] == b;
      } else if loose(s[0]) {
        assert Filter(strict, s) == a;
        assert Filter(loose, s) == [s[0]] + b;
        assert Filter(loose, s)[1..] == b;
        assert a == [] || IsSubsequence(a, Filter(loose, s)[1..]);
      } else {
        assert Filter(strict, s) == a && Filter(loose, s) == b;
      }
    }
  }

  /** A filter keeps a subsequence of its input. */
  lemma {:induction false} FilterIsSubsequence<T>(keep: T -> bool, s: seq<T>)
    ensures IsSubsequence(Filter(keep, s), s)
  {
    if s != [] {
      FilterIsSubsequence(keep, s[1..]);
      var r := Filter(keep, s);
      if keep(s[0]) {
        assert r == [s[0]] + Filter(keep, s[1..]);
        assert r[0] == s[0] && r[1..] == Filter(keep, s[1..]);
      } else {
        assert r == Filter(keep, s[1..]);
        assert r == [] || IsSubsequence(r, s[1..]);
      }
    }
  }

  /** A filter that accepts everything returns its input. */
  lemma {:induction false} FilterAll<T>(keep: T -> bool, s: seq<T>)
    requires forall x :: x in s ==> keep(x)
    ensures Filter(keep, s) == s
  {
    if s != [] {
      FilterAll(keep, s[1..]);
      assert s == [s[0]] + s[1..];
    }
  }
}
