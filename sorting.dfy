/** Ordering of listings. The file tree, the decision-wheel statistics and
    the attendance table are each sorted with a comparator by a stable
    library sort (Rust `sort_by`, JavaScript `Array.prototype.sort`). The
    model sorts by stable insertion and proves that the result is ordered,
    is a permutation of the input, and starts with the first minimal
    element of the input. */
module Sorting {

  /** `leq` is a total preorder: any two elements compare, transitively. */
  ghost predicate TotalPreorder<T(!new)>(leq: (T, T) -> bool) {
    && (forall a, b :: leq(a, b) || leq(b, a))
    && (forall a, b, c :: leq(a, b) && leq(b, c) ==> leq(a, c))
  }

  predicate SortedBy<T>(s: seq<T>, leq: (T, T) -> bool) {
    forall i, j :: 0 <= i < j < |s| ==> leq(s[i], s[j])
  }

  /** Inserts `x` after every element that is not greater than it. */
  function InsertBy<T>(x: T, s: seq<T>, leq: (T, T) -> bool): seq<T> {
    if s == [] then [x]
    else if leq(s[0], x) then [s[0]] + InsertBy(x, s[1..], leq)
    else [x] + s
  }

  /** Stable insertion sort: sorts the prefix, then inserts the last
      element behind its equals. */
  function SortBy<T>(s: seq<T>, leq: (T, T) -> bool): seq<T> {
    if s == [] then []
    else InsertBy(s[|s| - 1], SortBy(s[..|s| - 1], leq), leq)
  }

  lemma {:induction false} InsertByPermutation<T>(x: T, s: seq<T>, leq: (T, T) -> bool)
    ensures multiset(InsertBy(x, s, leq)) == multiset(s) + multiset{x}
    ensures |InsertBy(x, s, leq)| == |s| + 1
  {
    if s != [] && leq(s[0], x) {
      InsertByPermutation(x, s[1..], leq);
      assert s == [s[0]] + s[1..];
    }
  }

  /** The sorted result is a permutation of the input. */
  lemma {:induction false} SortByPermutation<T>(s: seq<T>, leq: (T, T) -> bool)
    ensures multiset(SortBy(s, leq)) == multiset(s)
    ensures |SortBy(s, leq)| == |s|
  {
    if s != [] {
      SortByPermutation(s[..|s| - 1], leq);
      InsertByPermutation(s[|s| - 1], SortBy(s[..|s| - 1], leq), leq);
      assert s == s[..|s| - 1] + [s[|s| - 1]];
    }
  }

  lemma SortByMembers<T>(s: seq<T>, leq: (T, T) -> bool)
    ensures forall x :: x in SortBy(s, leq) <==> x in s
  {
    var r := SortBy(s, leq);
    SortByPermutation(s, leq);
    forall x ensures x in r <==> x in s {
      assert x in r <==> x in multiset(r);
      assert x in s <==> x in multiset(s);
    }
  }

  /** Every element of `t` is at least `lo`, when `t` is `s` with `x`
      inserted and `lo` is below `x` and below every element of `s`. */
  lemma InsertByAbove<T>(lo: T, x: T, s: seq<T>, leq: (T, T) -> bool)
    requires leq(lo, x) && forall k :: 0 <= k < |s| ==> leq(lo, s[k])
    ensures forall y :: y in InsertBy(x, s, leq) ==> leq(lo, y)
  {
    var t := InsertBy(x, s, leq);
    InsertByPermutation(x, s, leq);
    forall y | y in t ensures leq(lo, y) {
      assert y in multiset(t);
      if y != x {
        assert y in multiset(s);
        var j :| 0 <= j < |s| && s[j] == y;
      }
    }
  }

  /** A sorted sequence stays sorted with an element below all of it in
      front. */
  lemma ConsSorted<T>(lo: T, t: seq<T>, leq: (T, T) -> bool)
    requires SortedBy(t, leq) && forall y :: y in t ==> leq(lo, y)
    ensures SortedBy([lo] + t, leq)
  {
    var r := [lo] + t;
    forall i, j | 0 <= i < j < |r| ensures leq(r[i], r[j]) {
      if i == 0 {
        assert r[j] == t[j - 1] && t[j - 1] in t;
      } else {
        assert r[i] == t[i - 1] && r[j] == t[j - 1];
      }
    }
  }

  lemma {:induction false} InsertBySorted<T(!new)>(x: T, s: seq<T>, leq: (T, T) -> bool)
    requires TotalPreorder(leq)
    requires SortedBy(s, leq)
    ensures SortedBy(InsertBy(x, s, leq), leq)
  {
    if s != [] {
      if leq(s[0], x) {
        InsertBySorted(x, s[1..], leq);
        forall k | 0 <= k < |s[1..]| ensures leq(s[0], s[1..][k]) {
          assert s[1..][k] == s[k + 1];
        }
        InsertByAbove(s[0], x, s[1..], leq);
        ConsSorted(s[0], InsertBy(x, s[1..], leq), leq);
      } else {
        assert leq(x, s[0]);
        forall y | y in s ensures leq(x, y) {
          var j :| 0 <= j < |s| && s[j] == y;
          if j > 0 {
            assert leq(s[0], s[j]);
          }
        }
        ConsSorted(x, s, leq);
      }
    }
  }

  /** The sorted result is in order. */
  lemma {:induction false} SortBySorted<T(!new)>(s: seq<T>, leq: (T, T) -> bool)
    requires TotalPreorder(leq)
    ensures SortedBy(SortBy(s, leq), leq)
  {
    if s != [] {
      SortBySorted(s[..|s| - 1], leq);
      InsertBySorted(s[|s| - 1], SortBy(s[..|s| - 1], leq), leq);
      SortByPermutation(s[..|s| - 1], leq);
    }
  }

  /** `s[m]` is a minimum of `s` and no earlier element is as small. */
  ghost predicate FirstMinimum<T>(s: seq<T>, m: nat, leq: (T, T) -> bool) {
    && m < |s|
    && (forall i :: 0 <= i < |s| ==> leq(s[m], s[i]))
    && (forall i :: 0 <= i < m ==> !leq(s[i], s[m]))
  }

  /** The head of an insertion: `x` goes first only if the old head is
      strictly greater. */
  lemma InsertByHead<T>(x: T, t: seq<T>, leq: (T, T) -> bool)
    ensures InsertBy(x, t, leq)[0] == if t != [] && leq(t[0], x) then t[0] else x
  {
  }

  /** Appending an element that is not smaller keeps the first minimum. */
  lemma FirstMinimumKept<T(!new)>(p: seq<T>, x: T, m: nat, leq: (T, T) -> bool)
    requires TotalPreorder(leq)
    requires FirstMinimum(p, m, leq) && leq(p[m], x)
    ensures FirstMinimum(p + [x], m, leq)
  {
    var s := p + [x];
    forall i | 0 <= i < |s| ensures leq(s[m], s[i]) {
      if i < |p| {
        assert s[i] == p[i];
      }
    }
  }

  /** Appending an element strictly below the minimum makes it the first
      minimum. */
  lemma FirstMinimumNew<T(!new)>(p: seq<T>, x: T, m: nat, leq: (T, T) -> bool)
    requires TotalPreorder(leq)
    requires FirstMinimum(p, m, leq) && !leq(p[m], x)
    ensures FirstMinimum(p + [x], |p|, leq)
  {
    var s := p + [x];
    forall i | 0 <= i < |s| ensures leq(s[|p|], s[i]) {
      if i < |p| {
        assert s[i] == p[i] && leq(p[m], p[i]);
      }
    }
    forall i | 0 <= i < |p| ensures !leq(s[i], s[|p|]) {
      assert s[i] == p[i] && leq(p[m], p[i]);
    }
  }

  /** Stability at the head: the first element of the sorted result is the
      earliest of the input's minimal elements. */
  lemma {:induction false} SortByHead<T(!new)>(s: seq<T>, leq: (T, T) -> bool)
    requires TotalPreorder(leq)
    requires s != []
    ensures exists m: nat :: FirstMinimum(s, m, leq) && SortBy(s, leq)[0] == s[m]
  {
    var p := s[..|s| - 1];
    var x := s[|s| - 1];
    assert s == p + [x];
    SortByPermutation(s, leq);
    if p == [] {
      assert FirstMinimum(s, 0, leq);
    } else {
      SortByHead(p, leq);
      var m: nat :| FirstMinimum(p, m, leq) && SortBy(p, leq)[0] == p[m];
      var t := SortBy(p, leq);
      SortByPermutation(p, leq);
      InsertByHead(x, t, leq);
      if leq(t[0], x) {
        FirstMinimumKept(p, x, m, leq);
        assert SortBy(s, leq)[0] == s[m];
      } else {
        FirstMinimumNew(p, x, m, leq);
        assert SortBy(s, leq)[0] == s[|p|];
      }
    }
  }

  // ---------------------------------------------------------------------
  // Lexicographic order of strings
  // ---------------------------------------------------------------------

  /** Code-point lexicographic order: Rust's `String` comparison (UTF-8
      byte order coincides with code-point order) and JavaScript's default
      string comparison on the Basic Multilingual Plane. */
  predicate LexLeq(a: string, b: string)
    decreases |a|
  {
    if a == [] then true
    else if b == [] then false
    else if a[0] != b[0] then a[0] < b[0]
    else LexLeq(a[1..], b[1..])
  }

  lemma {:induction false} LexTotal(a: string, b: string)
    ensures LexLeq(a, b) || LexLeq(b, a)
    decreases |a|
  {
    if a != [] && b != [] && a[0] == b[0] {
      LexTotal(a[1..], b[1..]);
    }
  }

  lemma {:induction false} LexTransitive(a: string, b: string, c: string)
    requires LexLeq(a, b) && LexLeq(b, c)
    ensures LexLeq(a, c)
    decreases |a|
  {
    if a != [] && b != [] && c != [] && a[0] == b[0] && b[0] == c[0] {
      LexTransitive(a[1..], b[1..], c[1..]);
    }
  }

  lemma {:induction false} LexAntisymmetric(a: string, b: string)
    requires LexLeq(a, b) && LexLeq(b, a)
    ensures a == b
    decreases |a|
  {
    if a != [] && b != [] {
      LexAntisymmetric(a[1..], b[1..]);
      assert a == [a[0]] + a[1..] && b == [b[0]] + b[1..];
    }
  }
}
