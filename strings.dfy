/**
 * The JavaScript string primitives the mirror relies on, over `seq<char>`:
 * searching for a substring, `String.prototype.replace` with a string
 * pattern (first occurrence only) and `String.prototype.replaceAll`
 * (every occurrence, scanning left to right without overlap).
 */
module Strings {
  import opened Wrappers

  /** `p` occurs in `s` starting at index `i`. */
  predicate OccursAt(s: string, p: string, i: nat)
  {
    i + |p| <= |s| && s[i..i + |p|] == p
  }

  /** `p` occurs somewhere in `s`. */
  ghost predicate Occurs(s: string, p: string)
  {
    exists i: nat :: OccursAt(s, p, i)
  }

  /** No occurrence of `p` in `s` starts before index `n`. */
  ghost predicate NoOccurrenceBefore(s: string, p: string, n: nat)
  {
    forall j: nat :: j < n ==> !OccursAt(s, p, j)
  }

  /** `i` is the leftmost occurrence of `p` in `s`. */
  ghost predicate IsFirstOccurrence(s: string, p: string, i: nat)
  {
    OccursAt(s, p, i) && NoOccurrenceBefore(s, p, i)
  }

  /** The leftmost occurrence of `p` in `s` at or after `from`. */
  function IndexOfFrom(s: string, p: string, from: nat): (r: Option<nat>)
    ensures r.Some? ==> from <= r.value && OccursAt(s, p, r.value)
    ensures r.Some? ==> forall j: nat :: from <= j < r.value ==> !OccursAt(s, p, j)
    ensures r.None? ==> forall j: nat :: from <= j ==> !OccursAt(s, p, j)
    decreases |s| - from
  {
    if from + |p| > |s| then None
    else if s[from..from + |p|] == p then Some(from)
    else IndexOfFrom(s, p, from + 1)
  }

  /** `s.indexOf(p)`, with `None` for -1. */
  function IndexOf(s: string, p: string): (r: Option<nat>)
    ensures r.Some? ==> IsFirstOccurrence(s, p, r.value)
    ensures r.None? <==> !Occurs(s, p)
  {
    IndexOfFrom(s, p, 0)
  }

  /**
   * `s.replace(p, rep)` with a string pattern: the leftmost occurrence of
   * `p` is replaced by `rep`, and `s` is unchanged when `p` does not occur.
   * (For an empty `p` the leftmost occurrence is at 0, as in JavaScript.)
   */
  function ReplaceFirst(s: string, p: string, rep: string): (r: string)
    ensures !Occurs(s, p) ==> r == s
    ensures forall i: nat :: IsFirstOccurrence(s, p, i) ==> r == s[..i] + rep + s[i + |p|..]
  {
    match IndexOf(s, p)
    case None => s
    case Some(i) => s[..i] + rep + s[i + |p|..]
  }

  /**
   * `s.replaceAll(p, rep)` for a non-empty string pattern: scanning from
   * the left, each occurrence is replaced and the scan resumes after it.
   */
  function ReplaceAll(s: string, p: string, rep: string): (r: string)
    requires |p| > 0
    ensures |rep| <= |p| ==> |r| <= |s|
    decreases |s|
  {
    if |s| < |p| then s
    else if s[..|p|] == p then rep + ReplaceAll(s[|p|..], p, rep)
    else [s[0]] + ReplaceAll(s[1..], p, rep)
  }

  /** A string in which `p` does not occur is left unchanged by `ReplaceAll`. */
  lemma {:induction false} ReplaceAllNoOccurrence(s: string, p: string, rep: string)
    requires |p| > 0 && !Occurs(s, p)
    ensures ReplaceAll(s, p, rep) == s
    decreases |s|
  {
    if |s| >= |p| {
      assert !OccursAt(s, p, 0);
      forall i: nat | OccursAt(s[1..], p, i) ensures OccursAt(s, p, i + 1) {
        assert s[i + 1..i + 1 + |p|] == s[1..][i..i + |p|];
      }
      ReplaceAllNoOccurrence(s[1..], p, rep);
    }
  }

  /** A string that starts with the pattern has that occurrence replaced. */
  lemma ReplaceAllLeading(p: string, t: string, rep: string)
    requires |p| > 0
    ensures ReplaceAll(p + t, p, rep) == rep + ReplaceAll(t, p, rep)
  {
    assert (p + t)[..|p|] == p;
    assert (p + t)[|p|..] == t;
  }

  /**
   * `ReplaceAll` copies a prefix `a` at which no occurrence of `p` in
   * `a + t` starts, and continues on `t`.
   */
  lemma {:induction false} ReplaceAllSkip(a: string, t: string, p: string, rep: string)
    requires |p| > 0 && NoOccurrenceBefore(a + t, p, |a|)
    ensures ReplaceAll(a + t, p, rep) == a + ReplaceAll(t, p, rep)
    decreases |a|
  {
    var u := a + t;
    if a == [] {
      assert u == t;
    } else if |u| < |p| {
      assert ReplaceAll(u, p, rep) == u && ReplaceAll(t, p, rep) == t;
    } else {
      assert !OccursAt(u, p, 0) && u[0..|p|] == u[..|p|];
      assert ReplaceAll(u, p, rep) == [a[0]] + ReplaceAll(u[1..], p, rep);
      assert u[1..] == a[1..] + t;
      NoOccurrenceBeforeTail(a, t, p);
      ReplaceAllSkip(a[1..], t, p, rep);
      assert [a[0]] + a[1..] == a;
    }
  }

  /** Dropping the first character of the prefix keeps the hypothesis of `ReplaceAllSkip`. */
  lemma NoOccurrenceBeforeTail(a: string, t: string, p: string)
    requires |a| > 0 && NoOccurrenceBefore(a + t, p, |a|)
    ensures NoOccurrenceBefore(a[1..] + t, p, |a| - 1)
  {
    var u := a + t;
    forall j: nat | j < |a| - 1 ensures !OccursAt(a[1..] + t, p, j) {
      assert !OccursAt(u, p, j + 1);
      if j + |p| <= |a[1..] + t| {
        assert (a[1..] + t)[j..j + |p|] == u[j + 1..j + 1 + |p|];
      }
    }
  }

  /** When no occurrence starts before `pre` ends, `replace` rewrites the one right after it. */
  lemma ReplaceFirstAfter(pre: string, p: string, post: string, rep: string)
    requires NoOccurrenceBefore(pre + p + post, p, |pre|)
    ensures ReplaceFirst(pre + p + post, p, rep) == pre + rep + post
  {
    var s, i := pre + p + post, |pre|;
    assert s[i..i + |p|] == p;
    assert IsFirstOccurrence(s, p, i);
    assert s[..i] == pre && s[i + |p|..] == post;
  }

  /*
   * A sufficient condition that is easy to establish: no position of `a`
   * can start an occurrence of `p` because its first or second character
   * already differs.
   */

  /** Every position of `a` is blocked by one of the first two characters of `p`. */
  predicate NoMatchStartsIn(a: string, p: string)
  {
    |p| > 0 && forall j :: 0 <= j < |a| ==> StartBlocked(a, p, j)
  }

  /**
   * Position `j` of `a` differs from the first character of `p`, or the next
   * position (still inside `a`) differs from the second.
   */
  predicate StartBlocked(a: string, p: string, j: nat)
    requires j < |a| && |p| > 0
  {
    a[j] != p[0] || (j + 1 < |a| && 1 < |p| && a[j + 1] != p[1])
  }

  /** The two-character test rules out every occurrence starting inside `a`, whatever follows it. */
  lemma BlockedNoOccurrence(a: string, t: string, p: string)
    requires NoMatchStartsIn(a, p)
    ensures NoOccurrenceBefore(a + t, p, |a|)
  {
    var s := a + t;
    forall j: nat | j < |a| ensures !OccursAt(s, p, j) {
      assert StartBlocked(a, p, j);
      if j + |p| <= |s| {
        assert s[j..j + |p|][0] == a[j];
        if j + 1 < |a| && 1 < |p| {
          assert s[j..j + |p|][1] == a[j + 1];
        }
      }
    }
  }

  /** A pattern whose first character is missing from `a` cannot start inside `a`. */
  lemma LeadAbsentBlocked(a: string, p: string)
    requires |p| > 0 && p[0] !in a
    ensures NoMatchStartsIn(a, p)
  {
    forall j | 0 <= j < |a| ensures StartBlocked(a, p, j) {
      assert a[j] in a;
    }
  }
}
