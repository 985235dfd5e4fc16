/**
 Order-preserving selection from a sequence. Both the listing filter
 (`published_date__lte`) and the cascade on author deletion keep some rows of
 a table and drop the others without reordering what is kept; this module
 defines that operation once, together with an independent characterisation
 of its result.
 */
module Seqs {

  /** `r` can be obtained from `s` by deleting elements (order is kept). */
  predicate IsSubsequence<T(==)>(r: seq<T>, s: seq<T>)
    decreases |s|
  {
    if |r| == 0 then true
    else if |s| == 0 then false
    else if r[0] == s[0] then IsSubsequence(r[1..], s[1..])
    else IsSubsequence(r, s[1..])
  }

  /**
   Keeps exactly the elements of `s` that satisfy `keep`, in their order in
   `s`, each as often as `s` holds it.
   */
  function Filter<T(==,!new)>(s: seq<T>, keep: T -> bool): (r: seq<T>)
    ensures |r| <= |s|
    ensures forall i :: 0 <= i < |r| ==> keep(r[i])
    ensures forall x :: x in r <==> x in s && keep(x)
    ensures forall x :: multiset(r)[x] == if keep(x) then multiset(s)[x] else 0
    ensures IsSubsequence(r, s)
  {
    if |s| == 0 then []
    else
      assert s == [s[0]] + s[1..];
      if keep(s[0]) then [s[0]] + Filter(s[1..], keep)
      else Filter(s[1..], keep)
  }

  /** One step of `Filter`: the head is kept or dropped, the rest is filtered. */
  lemma FilterCons<T(!new)>(x: T, s: seq<T>, keep: T -> bool)
    ensures Filter([x] + s, keep) == if keep(x) then [x] + Filter(s, keep) else Filter(s, keep)
  {
    assert ([x] + s)[1..] == s;
  }

  /** A subsequence holds no element more often than the sequence it comes from. */
  lemma {:induction false} SubsequenceMultiset<T>(r: seq<T>, s: seq<T>)
    requires IsSubsequence(r, s)
    ensures multiset(r) <= multiset(s)
    decreases |s|
  {
    if |r| == 0 {
    } else {
      assert s == [s[0]] + s[1..];
      if r[0] == s[0] {
        assert r == [r[0]] + r[1..];
        SubsequenceMultiset(r[1..], s[1..]);
      } else {
        SubsequenceMultiset(r, s[1..]);
      }
    }
  }

  /**
   The contract of `Filter` determines its result: a subsequence of `s` that
   holds every kept element as often as `s` does, and nothing else, is
   `Filter(s, keep)`.
   */
  lemma {:induction false} FilterUnique<T(!new)>(s: seq<T>, keep: T -> bool, r: seq<T>)
    requires IsSubsequence(r, s)
    requires forall x :: multiset(r)[x] == if keep(x) then multiset(s)[x] else 0
    ensures r == Filter(s, keep)
    decreases |s|
  {
    if |s| == 0 {
    } else {
      var s0, tail := s[0], s[1..];
      assert s == [s0] + tail;
      if |r| > 0 && r[0] == s0 {
        assert r == [s0] + r[1..];
        assert keep(s0) by {
          assert multiset(r)[s0] > 0;
        }
        FilterUnique(tail, keep, r[1..]);
      } else {
        if |r| > 0 {
          assert IsSubsequence(r, tail);
        }
        SubsequenceMultiset(r, tail);
        FilterUnique(tail, keep, r);
      }
    }
  }

  /** Filtering by a stronger condition after a weaker one is filtering by the stronger one. */
  lemma {:induction false} FilterOfFilter<T(!new)>(s: seq<T>, strong: T -> bool, weak: T -> bool)
    requires forall x :: strong(x) ==> weak(x)
    ensures Filter(Filter(s, weak), strong) == Filter(s, strong)
    decreases |s|
  {
    if |s| > 0 {
      FilterOfFilter(s[1..], strong, weak);
    }
  }

  /** Two filters applied one after the other can be applied in either order. */
  lemma {:induction false} FilterCommutes<T(!new)>(s: seq<T>, f: T -> bool, g: T -> bool)
    ensures Filter(Filter(s, f), g) == Filter(Filter(s, g), f)
    decreases |s|
  {
    if |s| > 0 {
      FilterCommutes(s[1..], f, g);
    }
  }

  /** Removing the element at position `k` removes one occurrence of it from the multiset. */
  lemma MultisetRemoveAt<T>(s: seq<T>, k: nat)
    requires k < |s|
    ensures multiset(s[..k] + s[k + 1..]) == multiset(s) - multiset{s[k]}
    ensures multiset(s) == multiset(s[..k] + s[k + 1..]) + multiset{s[k]}
    ensures s == s[..k] + [s[k]] + s[k + 1..]
  {
    assert s == s[..k] + [s[k]] + s[k + 1..];
  }

  /**
   Taking the first element off `a` and an equal element off `b` keeps two
   sequences with the same elements having the same elements.
   */
  lemma MultisetRemoveMatching<T>(a: seq<T>, b: seq<T>, k: nat)
    requires multiset(a) == multiset(b)
    requires 0 < |a| && k < |b| && b[k] == a[0]
    ensures multiset(a[1..]) == multiset(b[..k] + b[k + 1..])
  {
    MultisetRemoveAt(b, k);
    MultisetRemoveAt(a, 0);
    assert a[..0] + a[1..] == a[1..];
  }

  /** An element between two sequences adds one occurrence to their joint multiset. */
  lemma MultisetMiddle<T>(x: seq<T>, e: T, y: seq<T>)
    ensures multiset(x + ([e] + y)) == multiset(x + y) + multiset{e}
  {
  }
}
