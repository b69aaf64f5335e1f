/** Small building blocks shared by the rest of the model: an optional value
    (the source's `null`/`undefined`), the order-preserving `Array.prototype.filter`
    and the notion of a subsequence used to state what a filter keeps. */
module Util {

  datatype Option<T> = None | Some(value: T)

  /** `xs.filter(keep)`: the elements of `s` on which `keep` holds, in their order. */
  function Filter<T>(s: seq<T>, keep: T -> bool): (r: seq<T>)
    ensures |r| <= |s|
    ensures forall i :: 0 <= i < |r| ==> r[i] in s && keep(r[i])
  {
    if s == [] then []
    else if keep(s[0]) then [s[0]] + Filter(s[1..], keep)
    else Filter(s[1..], keep)
  }

  /** `a` is obtained from `b` by deleting elements, keeping the order of the rest. */
  predicate IsSubsequence<T(==)>(a: seq<T>, b: seq<T>)
    decreases |b|
  {
    a == [] || (b != [] && ((a[0] == b[0] && IsSubsequence(a[1..], b[1..])) || IsSubsequence(a, b[1..])))
  }

  /** What a filter keeps is exactly the input elements on which the test holds. */
  lemma {:induction false} FilterMembership<T>(s: seq<T>, keep: T -> bool, x: T)
    ensures x in Filter(s, keep) <==> x in s && keep(x)
  {
    if s != [] {
      FilterMembership(s[1..], keep, x);
      assert s == [s[0]] + s[1..];
    }
  }

  /** A filter only deletes: its result is a subsequence of its input. */
  lemma {:induction false} FilterIsSubsequence<T>(s: seq<T>, keep: T -> bool)
    ensures IsSubsequence(Filter(s, keep), s)
  {
    if s != [] {
      FilterIsSubsequence(s[1..], keep);
    }
  }

  /** A filter keeps every copy of a kept element and drops every copy of the others. */
  lemma {:induction false} FilterMultiplicity<T>(s: seq<T>, keep: T -> bool, x: T)
    ensures multiset(Filter(s, keep))[x] == if keep(x) then multiset(s)[x] else 0
  {
    if s != [] {
      FilterMultiplicity(s[1..], keep, x);
      assert s == [s[0]] + s[1..];
    }
  }

  /** When every element passes, the filter returns its input unchanged. */
  lemma {:induction false} FilterKeepsAll<T>(s: seq<T>, keep: T -> bool)
    requires forall i :: 0 <= i < |s| ==> keep(s[i])
    ensures Filter(s, keep) == s
  {
    if s != [] {
      FilterKeepsAll(s[1..], keep);
      assert s == [s[0]] + s[1..];
    }
  }

  /** Filtering twice by the same test is filtering once. */
  lemma FilterIdempotent<T>(s: seq<T>, keep: T -> bool)
    ensures Filter(Filter(s, keep), keep) == Filter(s, keep)
  {
    FilterKeepsAll(Filter(s, keep), keep);
  }

  /** `xs.some(test)`: whether any element passes the test. */
  function Any<T>(s: seq<T>, test: T -> bool): (r: bool)
    ensures r ==> s != []
  {
    s != [] && (test(s[0]) || Any(s[1..], test))
  }

  /** `some` is the existential over the elements. */
  lemma {:induction false} AnyIff<T>(s: seq<T>, test: T -> bool)
    ensures Any(s, test) <==> exists i :: 0 <= i < |s| && test(s[i])
  {
    if s != [] {
      AnyIff(s[1..], test);
      if exists i :: 0 <= i < |s| && test(s[i]) {
        var i :| 0 <= i < |s| && test(s[i]);
        if i > 0 {
          assert test(s[1..][i - 1]);
        }
      }
    }
  }

  /** ASCII case folding of one character: `A`-`Z` become `a`-`z`, all else stays. */
  function LowerAscii(c: char): char {
    if 'A' <= c <= 'Z' then (c as int + 32) as char else c
  }
}
