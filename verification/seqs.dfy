/** Sequence helpers: order-preserving filtering and the subsequence relation. */
module Seqs {

  /** `a` can be obtained from `b` by deleting elements, keeping the order of the rest. */
  predicate SubSeq<T(==)>(a: seq<T>, b: seq<T>)
    decreases |b|
  {
    || |a| == 0
    || (&& |b| > 0
        && ((a[0] == b[0] && SubSeq(a[1..], b[1..])) || SubSeq(a, b[1..])))
  }

  /** The elements of `s` that satisfy `keep`, in their original order
      (JavaScript's `Array.prototype.filter`). */
  function Filter<T(==,!new)>(s: seq<T>, keep: T -> bool): (r: seq<T>)
    ensures SubSeq(r, s)
    ensures forall x :: multiset(r)[x] == if keep(x) then multiset(s)[x] else 0
    ensures forall x :: x in r <==> x in s && keep(x)
    ensures |r| <= |s|
  {
    if |s| == 0 then []
    else
      var rest := Filter(s[1..], keep);
      assert s == [s[0]] + s[1..];
      if keep(s[0]) then
        assert ([s[0]] + rest)[1..] == rest;
        [s[0]] + rest
      else rest
  }

  lemma {:induction false} FilterAppend<T(!new)>(a: seq<T>, b: seq<T>, keep: T -> bool)
    ensures Filter(a + b, keep) == Filter(a, keep) + Filter(b, keep)
    decreases |a|
  {
    if |a| > 0 {
      assert (a + b)[1..] == a[1..] + b;
      FilterAppend(a[1..], b, keep);
    } else {
      assert a + b == b;
    }
  }

  /** Filtering a sequence all of whose elements pass leaves it unchanged. */
  lemma {:induction false} FilterKeepsAll<T(!new)>(s: seq<T>, keep: T -> bool)
    requires forall i | 0 <= i < |s| :: keep(s[i])
    ensures Filter(s, keep) == s
    decreases |s|
  {
    if |s| > 0 {
      FilterKeepsAll(s[1..], keep);
    }
  }

  /** Filtering twice with the same test is filtering once. */
  lemma FilterIdempotent<T(!new)>(s: seq<T>, keep: T -> bool)
    ensures Filter(Filter(s, keep), keep) == Filter(s, keep)
  {
    var r := Filter(s, keep);
    forall i | 0 <= i < |r| ensures keep(r[i]) {
      assert r[i] in r;
    }
    FilterKeepsAll(r, keep);
  }

  /** Every element of a subsequence occurs in the full sequence. */
  lemma {:induction false} SubSeqMembers<T>(a: seq<T>, b: seq<T>)
    requires SubSeq(a, b)
    ensures forall x :: x in a ==> x in b
    decreases |b|
  {
    if |a| == 0 {
    } else if a[0] == b[0] && SubSeq(a[1..], b[1..]) {
      SubSeqMembers(a[1..], b[1..]);
      assert a == [a[0]] + a[1..];
      assert b == [b[0]] + b[1..];
    } else {
      SubSeqMembers(a, b[1..]);
      assert b == [b[0]] + b[1..];
    }
  }

  lemma {:induction false} SubSeqRefl<T>(s: seq<T>)
    ensures SubSeq(s, s)
    decreases |s|
  {
    if |s| > 0 {
      SubSeqRefl(s[1..]);
    }
  }

  /** Dropping a prefix yields a subsequence. */
  lemma {:induction false} SuffixIsSubSeq<T>(s: seq<T>, k: nat)
    requires k <= |s|
    ensures SubSeq(s[k..], s)
    decreases k
  {
    if k == 0 {
      SubSeqRefl(s);
    } else {
      SuffixIsSubSeq(s[1..], k - 1);
      assert s[1..][k - 1..] == s[k..];
    }
  }

  /** Dropping a suffix yields a subsequence. */
  lemma {:induction false} PrefixIsSubSeq<T>(s: seq<T>, k: nat)
    requires k <= |s|
    ensures SubSeq(s[..k], s)
    decreases k
  {
    if k > 0 {
      PrefixIsSubSeq(s[1..], k - 1);
      assert s[..k][1..] == s[1..][..k - 1];
    }
  }

  /** Keeping the first element and a suffix starting at `k >= 1` yields a subsequence. */
  lemma HeadAndSuffixIsSubSeq<T>(s: seq<T>, k: nat)
    requires 1 <= k <= |s|
    ensures SubSeq([s[0]] + s[k..], s)
  {
    SuffixIsSubSeq(s[1..], k - 1);
    assert s[1..][k - 1..] == s[k..];
    assert ([s[0]] + s[k..])[1..] == s[k..];
  }
}
