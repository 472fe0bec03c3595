/** `Array.prototype.filter` and `Array.prototype.some` over sequences, with
    the facts every list filter of the client inherits from them: the result
    is an order-preserving subsequence, it keeps exactly the matching
    elements with their multiplicities, and filtering is idempotent and
    monotone in the predicate. */
module Seqs {

  /** `s.filter(p)`. */
  function Filter<T>(s: seq<T>, p: T -> bool): seq<T> {
    if |s| == 0 then []
    else if p(s[|s| - 1]) then Filter(s[..|s| - 1], p) + [s[|s| - 1]]
    else Filter(s[..|s| - 1], p)
  }

  /** `a` can be obtained from `b` by deleting elements: `a` keeps `b`'s order. */
  predicate IsSubsequence<T(==)>(a: seq<T>, b: seq<T>)
    decreases |b|
  {
    if |a| == 0 then true
    else if |b| == 0 then false
    else if a[|a| - 1] == b[|b| - 1] then IsSubsequence(a[..|a| - 1], b[..|b| - 1])
    else IsSubsequence(a, b[..|b| - 1])
  }

  /** `s.some(p)`. */
  predicate AnyMatch<T>(s: seq<T>, p: T -> bool) {
    if |s| == 0 then false else p(s[|s| - 1]) || AnyMatch(s[..|s| - 1], p)
  }

  /** `some` holds exactly when some element satisfies the predicate. */
  lemma {:induction false} AnyMatchIff<T>(s: seq<T>, p: T -> bool)
    ensures AnyMatch(s, p) <==> exists i :: 0 <= i < |s| && p(s[i])
  {
    if |s| > 0 {
      AnyMatchIff(s[..|s| - 1], p);
      if AnyMatch(s[..|s| - 1], p) {
        var i :| 0 <= i < |s| - 1 && p(s[..|s| - 1][i]);
        assert p(s[i]);
      }
      if !p(s[|s| - 1]) && !AnyMatch(s[..|s| - 1], p) {
        forall i | 0 <= i < |s|
          ensures !p(s[i])
        {
          if i < |s| - 1 {
            assert s[..|s| - 1][i] == s[i];
          }
        }
      }
    }
  }

  /** Every element the filter returns satisfies the predicate, and the
      result is never longer than the input. */
  lemma {:induction false} FilterSound<T>(s: seq<T>, p: T -> bool)
    ensures |Filter(s, p)| <= |s|
    ensures forall x :: x in Filter(s, p) ==> p(x)
  {
    if |s| > 0 {
      FilterSound(s[..|s| - 1], p);
    }
  }

  /** Membership: an element is in the result iff it is in the input and
      satisfies the predicate. */
  lemma {:induction false} FilterMembers<T>(s: seq<T>, p: T -> bool, x: T)
    ensures x in Filter(s, p) <==> x in s && p(x)
  {
    if |s| > 0 {
      FilterMembers(s[..|s| - 1], p, x);
      assert s == s[..|s| - 1] + [s[|s| - 1]];
    }
  }

  /** Counting version: the filter keeps every occurrence of a matching
      element and drops every occurrence of a non-matching one. */
  lemma {:induction false} FilterCount<T>(s: seq<T>, p: T -> bool, x: T)
    ensures multiset(Filter(s, p))[x] == if p(x) then multiset(s)[x] else 0
  {
    if |s| > 0 {
      FilterCount(s[..|s| - 1], p, x);
      assert s == s[..|s| - 1] + [s[|s| - 1]];
    }
  }

  /** The filter result is a subsequence of its input. */
  lemma {:induction false} FilterSubsequence<T>(s: seq<T>, p: T -> bool)
    ensures IsSubsequence(Filter(s, p), s)
  {
    if |s| > 0 {
      var init := s[..|s| - 1];
      FilterSubsequence(init, p);
      if p(s[|s| - 1]) {
        assert Filter(s, p)[..|Filter(s, p)| - 1] == Filter(init, p);
      } else {
        SubsequenceAppend(Filter(init, p), init, s[|s| - 1]);
      }
    }
  }

  /** A subsequence of `b` stays one when `b` grows at the end. */
  lemma {:induction false} SubsequenceAppend<T>(a: seq<T>, b: seq<T>, y: T)
    requires IsSubsequence(a, b)
    ensures IsSubsequence(a, b + [y])
    decreases |b|, 1
  {
    assert (b + [y])[..|b|] == b;
    if |a| > 0 && a[|a| - 1] == y {
      SubsequenceDropLast(a, b);
    }
  }

  /** Dropping the last element of a subsequence keeps it a subsequence. */
  lemma {:induction false} SubsequenceDropLast<T>(a: seq<T>, b: seq<T>)
    requires |a| > 0 && IsSubsequence(a, b)
    ensures IsSubsequence(a[..|a| - 1], b)
    decreases |b|, 0
  {
    var b', last := b[..|b| - 1], b[|b| - 1];
    assert b' + [last] == b;
    if a[|a| - 1] == last {
      SubsequenceAppend(a[..|a| - 1], b', last);
    } else {
      SubsequenceDropLast(a, b');
      SubsequenceAppend(a[..|a| - 1], b', last);
    }
  }

  /** When every element matches, the filter returns its input unchanged. */
  lemma {:induction false} FilterAll<T>(s: seq<T>, p: T -> bool)
    requires forall i :: 0 <= i < |s| ==> p(s[i])
    ensures Filter(s, p) == s
  {
    if |s| > 0 {
      FilterAll(s[..|s| - 1], p);
      assert s[..|s| - 1] + [s[|s| - 1]] == s;
    }
  }

  /** When no element matches, the filter returns the empty sequence. */
  lemma {:induction false} FilterNone<T>(s: seq<T>, p: T -> bool)
    requires forall i :: 0 <= i < |s| ==> !p(s[i])
    ensures Filter(s, p) == []
  {
    if |s| > 0 {
      FilterNone(s[..|s| - 1], p);
    }
  }

  /** Filtering twice with the same predicate is filtering once. */
  lemma {:induction false} FilterIdempotent<T>(s: seq<T>, p: T -> bool)
    ensures Filter(Filter(s, p), p) == Filter(s, p)
  {
    FilterSound(s, p);
    var r := Filter(s, p);
    assert forall i :: 0 <= i < |r| ==> r[i] in r;
    FilterAll(r, p);
  }

  /** A stronger predicate selects a subsequence of what a weaker one selects. */
  lemma {:induction false} FilterMonotone<T>(s: seq<T>, p: T -> bool, q: T -> bool)
    requires forall x :: q(x) ==> p(x)
    ensures IsSubsequence(Filter(s, q), Filter(s, p))
  {
    if |s| > 0 {
      var init, last := s[..|s| - 1], s[|s| - 1];
      FilterMonotone(init, p, q);
      if q(last) {
        assert Filter(s, q)[..|Filter(s, q)| - 1] == Filter(init, q);
        assert Filter(s, p)[..|Filter(s, p)| - 1] == Filter(init, p);
      } else if p(last) {
        SubsequenceAppend(Filter(init, q), Filter(init, p), last);
      }
    }
  }

  /** Appending the next element of `g` to a prefix of `g` gives the next prefix. */
  lemma PrefixStep<T>(g: seq<T>, prefix: seq<T>, x: T)
    requires |prefix| < |g| && prefix == g[..|prefix|] && x == g[|prefix|]
    ensures prefix + [x] == g[..|prefix| + 1]
  {
  }
}
