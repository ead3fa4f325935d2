/** Generic sequence helpers: leading runs, order-preserving filters,
    subsequences and flattening. */
module Seqs {

  /** Length of the longest prefix of `s` whose elements all satisfy `p`:
      what a greedy `p+` consumes. */
  function Span<T>(s: seq<T>, p: T -> bool): (n: nat)
    ensures n <= |s|
    ensures forall i | 0 <= i < n :: p(s[i])
    ensures n == |s| || !p(s[n])
  {
    if |s| == 0 || !p(s[0]) then 0 else 1 + Span(s[1..], p)
  }

  /** `a` can be obtained from `b` by deleting elements. */
  predicate IsSubsequence<T(==)>(a: seq<T>, b: seq<T>)
    decreases |b|
  {
    |a| == 0 || (|b| > 0 && ((a[0] == b[0] && IsSubsequence(a[1..], b[1..])) || IsSubsequence(a, b[1..])))
  }

  /** The elements of `s` that satisfy `p`, in their original order. */
  function Filter<T(==, !new)>(s: seq<T>, p: T -> bool): (r: seq<T>)
    ensures forall i | 0 <= i < |r| :: p(r[i])
    ensures IsSubsequence(r, s)
  {
    if |s| == 0 then []
    else
      assert s == [s[0]] + s[1..];
      if p(s[0]) then [s[0]] + Filter(s[1..], p) else Filter(s[1..], p)
  }

  /** Slices of a prefix are slices of the whole. */
  lemma SliceOfPrefix<T>(s: seq<T>, n: nat, k: nat)
    requires n <= k <= |s|
    ensures s[..k][..n] == s[..n]
    ensures s[..k][n..] == s[n..][..k - n]
  {
  }

  /** Cutting a sequence no shorter than its leading run keeps the run. */
  lemma {:induction false} SpanOfPrefix<T>(s: seq<T>, p: T -> bool, k: nat)
    requires Span(s, p) <= k <= |s|
    ensures Span(s[..k], p) == Span(s, p)
    decreases k
  {
    if Span(s, p) > 0 {
      assert s[..k][1..] == s[1..][..k - 1];
      SpanOfPrefix(s[1..], p, k - 1);
    } else if k > 0 {
      assert s[..k][0] == s[0];
    }
  }

  /** A leading run that stops inside `a` is not affected by what follows. */
  lemma {:induction false} SpanAppend<T>(a: seq<T>, b: seq<T>, p: T -> bool)
    requires Span(a, p) < |a|
    ensures Span(a + b, p) == Span(a, p)
    decreases |a|
  {
    assert (a + b)[0] == a[0];
    if p(a[0]) {
      assert (a + b)[1..] == a[1..] + b;
      SpanAppend(a[1..], b, p);
    }
  }

  /** A run of `k` satisfying elements at the front is part of the
      leading run. */
  lemma {:induction false} SpanAtLeast<T>(s: seq<T>, p: T -> bool, k: nat)
    requires k <= |s| && forall i | 0 <= i < k :: p(s[i])
    ensures Span(s, p) >= k
    decreases k
  {
    if k > 0 {
      assert p(s[0]);
      forall i | 0 <= i < k - 1 ensures p(s[1..][i]) {
        assert s[1..][i] == s[i + 1];
      }
      SpanAtLeast(s[1..], p, k - 1);
    }
  }

  /** A subsequence has no element its super-sequence lacks. */
  lemma {:induction false} SubsequenceMembers<T>(a: seq<T>, b: seq<T>, x: T)
    requires IsSubsequence(a, b) && x in a
    ensures x in b
    decreases |b|
  {
    if a[0] == b[0] && IsSubsequence(a[1..], b[1..]) {
      if x != a[0] {
        assert a == [a[0]] + a[1..];
        SubsequenceMembers(a[1..], b[1..], x);
      }
    } else {
      SubsequenceMembers(a, b[1..], x);
    }
  }

  /** An element is kept exactly when it occurs in the input and satisfies
      the predicate. */
  lemma {:induction false} FilterMembers<T(!new)>(s: seq<T>, p: T -> bool, x: T)
    ensures x in Filter(s, p) <==> x in s && p(x)
    decreases |s|
  {
    if |s| > 0 {
      assert s == [s[0]] + s[1..];
      FilterMembers(s[1..], p, x);
    }
  }

  /** `Filter` keeps every occurrence of a satisfying element and no other:
      with `IsSubsequence` this pins the result down exactly. */
  lemma {:induction false} FilterCounts<T(!new)>(s: seq<T>, p: T -> bool, x: T)
    ensures multiset(Filter(s, p))[x] == if p(x) then multiset(s)[x] else 0
    decreases |s|
  {
    if |s| > 0 {
      assert s == [s[0]] + s[1..];
      FilterCounts(s[1..], p, x);
    }
  }

  /** Regrouping a concatenation, for proofs whose context is too large
      for the solver to find it unaided. */
  lemma AppendAssoc<T>(a: seq<T>, b: seq<T>, c: seq<T>)
    ensures a + (b + c) == a + b + c
  {
  }

  /** A sequence is what precedes position `i`, the `k` elements from
      there, and what follows them. */
  lemma SliceAround<T>(s: seq<T>, i: nat, k: nat)
    requires i + k <= |s|
    ensures s == s[..i] + s[i..][..k] + s[i + k..]
  {
    assert s[i..][..k] == s[i..i + k];
    assert s == s[..i] + s[i..i + k] + s[i + k..];
  }

  /** Taking the head off a sequence shifts every slice by one. */
  lemma ConsSlices<T>(s: seq<T>, i: nat)
    requires 0 < i <= |s|
    ensures [s[0]] + s[1..][..i - 1] == s[..i]
    ensures s[1..][i - 1..] == s[i..]
  {
  }

  /** The concatenation of a sequence of sequences. */
  function Concat<T>(ss: seq<seq<T>>): seq<T> {
    if |ss| == 0 then [] else ss[0] + Concat(ss[1..])
  }

  lemma {:induction false} SubsequenceReflexive<T>(s: seq<T>)
    ensures IsSubsequence(s, s)
    decreases |s|
  {
    if |s| > 0 {
      SubsequenceReflexive(s[1..]);
    }
  }

  lemma {:induction false} SubsequenceOfSuffix<T>(a: seq<T>, b: seq<T>, n: nat)
    requires n <= |b|
    requires IsSubsequence(a, b[n..])
    ensures IsSubsequence(a, b)
    decreases n
  {
    if n > 0 {
      assert b[1..][n - 1..] == b[n..];
      SubsequenceOfSuffix(a, b[1..], n - 1);
    }
  }

  lemma {:induction false} FilterAppend<T(!new)>(a: seq<T>, b: seq<T>, p: T -> bool)
    ensures Filter(a + b, p) == Filter(a, p) + Filter(b, p)
    decreases |a|
  {
    if |a| == 0 {
      assert a + b == b;
    } else {
      assert (a + b)[0] == a[0];
      assert (a + b)[1..] == a[1..] + b;
      FilterAppend(a[1..], b, p);
      if p(a[0]) {
        calc {
          Filter(a + b, p);
          [a[0]] + Filter(a[1..] + b, p);
          [a[0]] + (Filter(a[1..], p) + Filter(b, p));
          ([a[0]] + Filter(a[1..], p)) + Filter(b, p);
        }
      }
    }
  }

  lemma {:induction false} FilterKeepsAll<T(!new)>(s: seq<T>, p: T -> bool)
    requires forall i | 0 <= i < |s| :: p(s[i])
    ensures Filter(s, p) == s
    decreases |s|
  {
    if |s| > 0 {
      FilterKeepsAll(s[1..], p);
    }
  }

  lemma {:induction false} FilterDropsAll<T(!new)>(s: seq<T>, p: T -> bool)
    requires forall i | 0 <= i < |s| :: !p(s[i])
    ensures Filter(s, p) == []
    decreases |s|
  {
    if |s| > 0 {
      FilterDropsAll(s[1..], p);
    }
  }

  /** Every element of a member of `ss` is an element of `Concat(ss)`. */
  lemma {:induction false} InConcat<T>(ss: seq<seq<T>>, i: nat, j: nat)
    requires i < |ss| && j < |ss[i]|
    ensures ss[i][j] in Concat(ss)
    decreases i
  {
    if i > 0 {
      InConcat(ss[1..], i - 1, j);
    }
  }
}
