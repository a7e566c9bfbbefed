/** Order-preserving filtering of sequences, the shape of every
    "loop over the input and push the entries that pass" in the updater. */
module Seqs {

  /** The elements of `s` that satisfy `p`, in their original order. Built by
      appending at the end, as a loop that pushes onto an array does. */
  function Filter<T>(s: seq<T>, p: T -> bool): (r: seq<T>)
    ensures |r| <= |s|
    ensures forall i :: 0 <= i < |r| ==> p(r[i])
    decreases |s|
  {
    if |s| == 0 then []
    else Filter(s[..|s| - 1], p) + (if p(s[|s| - 1]) then [s[|s| - 1]] else [])
  }

  /** Filtering distributes over concatenation. Together with the one-element
      cases this pins `Filter` down: it keeps exactly the passing elements and
      keeps them in order. */
  lemma {:induction false} FilterAppend<T>(a: seq<T>, b: seq<T>, p: T -> bool)
    ensures Filter(a + b, p) == Filter(a, p) + Filter(b, p)
    decreases |b|
  {
    if |b| == 0 {
      assert a + b == a;
    } else {
      var b' := b[..|b| - 1];
      assert (a + b)[..|a + b| - 1] == a + b';
      FilterAppend(a, b', p);
    }
  }

  /** An element occurs in the filtered sequence exactly when it occurs in
      the input and passes. */
  lemma {:induction false} FilterMembers<T>(s: seq<T>, p: T -> bool)
    ensures forall x :: x in Filter(s, p) <==> x in s && p(x)
    decreases |s|
  {
    if |s| > 0 {
      var s' := s[..|s| - 1];
      FilterMembers(s', p);
      assert s == s' + [s[|s| - 1]];
    }
  }

  /** Every passing occurrence is kept: each passing value occurs as often
      in the result as in the input, and a failing value not at all. */
  lemma {:induction false} FilterCount<T>(s: seq<T>, p: T -> bool, x: T)
    ensures multiset(Filter(s, p))[x] == if p(x) then multiset(s)[x] else 0
    decreases |s|
  {
    if |s| > 0 {
      var s' := s[..|s| - 1];
      FilterCount(s', p, x);
      assert s == s' + [s[|s| - 1]];
    }
  }

  /** The first element of the filtered sequence is the element at the
      smallest index of `s` that passes. */
  lemma {:induction false} FilterHead<T>(s: seq<T>, p: T -> bool, j: int)
    requires 0 <= j < |s| && p(s[j])
    requires forall i :: 0 <= i < j ==> !p(s[i])
    ensures |Filter(s, p)| > 0 && Filter(s, p)[0] == s[j]
  {
    assert s == s[..j] + s[j..];
    FilterAppend(s[..j], s[j..], p);
    FilterNone(s[..j], p);
    assert s[j..] == [s[j]] + s[j + 1..];
    FilterAppend([s[j]], s[j + 1..], p);
    assert Filter([s[j]], p) == [s[j]] by {
      assert [s[j]][..0] == [];
    }
  }

  /** Nothing passes, so nothing is kept. */
  lemma {:induction false} FilterNone<T>(s: seq<T>, p: T -> bool)
    requires forall i :: 0 <= i < |s| ==> !p(s[i])
    ensures Filter(s, p) == []
    decreases |s|
  {
    if |s| > 0 {
      FilterNone(s[..|s| - 1], p);
    }
  }

  /** The filtered sequence is empty exactly when no element passes. */
  lemma {:induction false} FilterEmpty<T>(s: seq<T>, p: T -> bool)
    ensures Filter(s, p) == [] <==> forall i :: 0 <= i < |s| ==> !p(s[i])
    decreases |s|
  {
    if |s| > 0 {
      FilterEmpty(s[..|s| - 1], p);
    }
  }
}
