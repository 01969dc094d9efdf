/** Sequence vocabulary shared by the front-end and back-end models:
    an optional value (JavaScript's `null`), filtering as `Array.filter` and
    list comprehensions with an `if` do it, `zip`, and flattening.
    Filter, Count and IsSubseq recurse on the LAST element, so that a list
    built by appending in a loop matches them step by step. */
module Seqs {

  datatype Option<T> = None | Some(value: T)

  function Min(a: int, b: int): int { if a <= b then a else b }

  /** The elements of `s` that satisfy `p`, in their original order. */
  function Filter<T>(s: seq<T>, p: T -> bool): seq<T>
  {
    if s == [] then []
    else Filter(s[..|s| - 1], p) + (if p(s[|s| - 1]) then [s[|s| - 1]] else [])
  }

  /** The number of elements of `s` that satisfy `p`. */
  function Count<T>(s: seq<T>, p: T -> bool): nat
  {
    if s == [] then 0
    else Count(s[..|s| - 1], p) + (if p(s[|s| - 1]) then 1 else 0)
  }

  /** `a` is obtained from `b` by deleting some elements, keeping the order. */
  predicate IsSubseq<T(==)>(a: seq<T>, b: seq<T>)
  {
    a == [] ||
    (b != [] &&
     ((a[|a| - 1] == b[|b| - 1] && IsSubseq(a[..|a| - 1], b[..|b| - 1])) ||
      IsSubseq(a, b[..|b| - 1])))
  }

  /** Filtering keeps exactly the elements that satisfy `p`: every kept
      element satisfies it, the kept elements are a subsequence of the
      input, and there are as many of them as the input has satisfying
      elements (which, with the other two, leaves no choice). */
  lemma FilterIsExact<T>(s: seq<T>, p: T -> bool)
    ensures forall k :: 0 <= k < |Filter(s, p)| ==> p(Filter(s, p)[k])
    ensures IsSubseq(Filter(s, p), s)
    ensures |Filter(s, p)| == Count(s, p)
  {
    FilterSatisfies(s, p);
    FilterIsSubseq(s, p);
    FilterCount(s, p);
  }

  lemma {:induction false} FilterSatisfies<T>(s: seq<T>, p: T -> bool)
    ensures forall k :: 0 <= k < |Filter(s, p)| ==> p(Filter(s, p)[k])
  {
    if s != [] {
      var front, x := s[..|s| - 1], s[|s| - 1];
      FilterSatisfies(front, p);
      var f := Filter(front, p);
      if p(x) {
        assert Filter(s, p) == f + [x];
      } else {
        assert Filter(s, p) == f;
      }
    }
  }

  lemma {:induction false} FilterIsSubseq<T>(s: seq<T>, p: T -> bool)
    ensures IsSubseq(Filter(s, p), s)
  {
    if s != [] {
      var front, x := s[..|s| - 1], s[|s| - 1];
      FilterIsSubseq(front, p);
      var f := Filter(front, p);
      if p(x) {
        assert Filter(s, p) == f + [x];
        assert (f + [x])[..|f|] == f;
      } else {
        assert Filter(s, p) == f;
      }
    }
  }

  lemma {:induction false} FilterCount<T>(s: seq<T>, p: T -> bool)
    ensures |Filter(s, p)| == Count(s, p)
  {
    if s != [] {
      FilterCount(s[..|s| - 1], p);
    }
  }

  /** Filtering a list whose elements all satisfy `p` changes nothing. */
  lemma {:induction false} FilterKeepsAll<T>(s: seq<T>, p: T -> bool)
    requires forall k :: 0 <= k < |s| ==> p(s[k])
    ensures Filter(s, p) == s
  {
    if s != [] {
      FilterKeepsAll(s[..|s| - 1], p);
    }
  }

  /** Filtering an appended list: what a loop over the list does each step. */
  lemma FilterSnoc<T>(s: seq<T>, x: T, p: T -> bool)
    ensures Filter(s + [x], p) == Filter(s, p) + (if p(x) then [x] else [])
  {
    assert (s + [x])[..|s|] == s;
  }

  /** Every kept element comes from the input. */
  lemma {:induction false} FilterMember<T>(s: seq<T>, p: T -> bool, k: nat)
    requires k < |Filter(s, p)|
    ensures exists m :: 0 <= m < |s| && s[m] == Filter(s, p)[k]
  {
    var front := s[..|s| - 1];
    if k < |Filter(front, p)| {
      FilterMember(front, p, k);
      var m :| 0 <= m < |front| && front[m] == Filter(front, p)[k];
      assert s[m] == Filter(s, p)[k];
    } else {
      assert s[|s| - 1] == Filter(s, p)[k];
    }
  }

  /** Every element that satisfies `p` is kept. */
  lemma {:induction false} FilterKeepsSatisfying<T>(s: seq<T>, p: T -> bool, m: nat)
    requires m < |s| && p(s[m])
    ensures s[m] in Filter(s, p)
  {
    var front := s[..|s| - 1];
    if m < |front| {
      FilterKeepsSatisfying(front, p, m);
      assert front[m] == s[m];
    }
  }

  /** Python's `zip`: pairs up positions, stopping at the shorter list. */
  function Zip<A, B>(a: seq<A>, b: seq<B>): (r: seq<(A, B)>)
    ensures |r| == Min(|a|, |b|)
  {
    seq(Min(|a|, |b|), k requires 0 <= k < Min(|a|, |b|) => (a[k], b[k]))
  }

  function Firsts<A, B>(s: seq<(A, B)>): (r: seq<A>)
    ensures |r| == |s|
  {
    seq(|s|, k requires 0 <= k < |s| => s[k].0)
  }

  function Seconds<A, B>(s: seq<(A, B)>): (r: seq<B>)
    ensures |r| == |s|
  {
    seq(|s|, k requires 0 <= k < |s| => s[k].1)
  }

  /** Splitting a list of pairs into two lists and zipping them again gives
      it back: the two halves stay aligned position by position. */
  lemma UnzipZip<A, B>(s: seq<(A, B)>)
    ensures Zip(Firsts(s), Seconds(s)) == s
  {
  }

  /** Appending a pair appends its halves. */
  lemma UnzipSnoc<A, B>(s: seq<(A, B)>, p: (A, B))
    ensures Firsts(s + [p]) == Firsts(s) + [p.0]
    ensures Seconds(s + [p]) == Seconds(s) + [p.1]
  {
  }

  /** `[item for sublist in xss for item in sublist]`. */
  function Flatten<T>(xss: seq<seq<T>>): seq<T>
  {
    if xss == [] then [] else Flatten(xss[..|xss| - 1]) + xss[|xss| - 1]
  }

  /** Total number of items over all sublists. */
  function TotalLength<T>(xss: seq<seq<T>>): nat
  {
    if xss == [] then 0 else TotalLength(xss[..|xss| - 1]) + |xss[|xss| - 1]|
  }

  lemma {:induction false} FlattenLength<T>(xss: seq<seq<T>>)
    ensures |Flatten(xss)| == TotalLength(xss)
  {
    if xss != [] {
      FlattenLength(xss[..|xss| - 1]);
    }
  }

  /** Flattening distributes over concatenation. */
  lemma {:induction false} FlattenAppend<T>(xss: seq<seq<T>>, yss: seq<seq<T>>)
    ensures Flatten(xss + yss) == Flatten(xss) + Flatten(yss)
    decreases |yss|
  {
    if yss != [] {
      var front := yss[..|yss| - 1];
      assert (xss + yss)[..|xss + yss| - 1] == xss + front;
      assert (xss + yss)[|xss + yss| - 1] == yss[|yss| - 1];
      FlattenAppend(xss, front);
    } else {
      assert xss + yss == xss;
    }
  }
}
