/**
 Order-preserving sequence operations the page builds on: `Array.prototype.filter`,
 subsequences, and first-occurrence order.
 */
module Seqs {

  /** The elements of `s` that satisfy `p`, in their original order. */
  function Filter<T>(s: seq<T>, p: T -> bool): (r: seq<T>)
    ensures |r| <= |s|
    ensures forall i :: 0 <= i < |r| ==> p(r[i])
    decreases |s|
  {
    if |s| == 0 then []
    else (if p(s[0]) then [s[0]] else []) + Filter(s[1..], p)
  }

  /** `idx` lists, in increasing order, positions of `b` that hold the elements of `a`. */
  predicate SubseqAt<T(==)>(a: seq<T>, b: seq<T>, idx: seq<nat>) {
    && |idx| == |a|
    && (forall i :: 0 <= i < |idx| ==> idx[i] < |b| && a[i] == b[idx[i]])
    && (forall i, j :: 0 <= i < j < |idx| ==> idx[i] < idx[j])
  }

  /** `a` is obtained from `b` by deleting elements (an order-preserving subset). */
  ghost predicate IsSubseq<T>(a: seq<T>, b: seq<T>) {
    exists idx :: SubseqAt(a, b, idx)
  }

  /** The positions of `s` that `Filter` keeps. */
  function FilterIndices<T(==)>(s: seq<T>, p: T -> bool): (idx: seq<nat>)
    ensures SubseqAt(Filter(s, p), s, idx)
    decreases |s|
  {
    if |s| == 0 then []
    else
      var rest := FilterIndices(s[1..], p);
      var shifted := Shift(s, Filter(s[1..], p), rest);
      assert Filter(s, p) == (if p(s[0]) then [s[0]] else []) + Filter(s[1..], p);
      if p(s[0]) then
        ConsSubseq(s, Filter(s[1..], p), shifted);
        [0] + shifted
      else shifted
  }

  /** The first element of `s` can be kept in front of a subsequence that avoids it. */
  lemma ConsSubseq<T>(s: seq<T>, a: seq<T>, idx: seq<nat>)
    requires |s| > 0 && SubseqAt(a, s, idx)
    requires forall i :: 0 <= i < |idx| ==> idx[i] > 0
    ensures SubseqAt([s[0]] + a, s, [0] + idx)
  {
    var a', idx' := [s[0]] + a, [0] + idx;
    forall i | 0 <= i < |idx'| ensures idx'[i] < |s| && a'[i] == s[idx'[i]] {
      if i > 0 { assert a'[i] == a[i - 1] && idx'[i] == idx[i - 1]; }
    }
    forall i, j | 0 <= i < j < |idx'| ensures idx'[i] < idx'[j] {
      if i > 0 { assert idx'[i] == idx[i - 1] && idx'[j] == idx[j - 1]; }
      else { assert idx'[j] == idx[j - 1]; }
    }
  }

  /** Positions in `s[1..]` moved to positions in `s`. */
  function Shift<T(==)>(s: seq<T>, a: seq<T>, idx: seq<nat>): (r: seq<nat>)
    requires |s| > 0 && SubseqAt(a, s[1..], idx)
    ensures SubseqAt(a, s, r)
    ensures forall i :: 0 <= i < |r| ==> r[i] > 0
  {
    var r := seq(|idx|, i requires 0 <= i < |idx| => idx[i] + 1);
    assert forall i :: 0 <= i < |r| ==> s[r[i]] == s[1..][idx[i]];
    r
  }

  /** Filtering keeps exactly the satisfying elements, each as often as it occurs. */
  lemma {:induction false} FilterCount<T>(s: seq<T>, p: T -> bool, x: T)
    ensures p(x) ==> multiset(Filter(s, p))[x] == multiset(s)[x]
    ensures !p(x) ==> multiset(Filter(s, p))[x] == 0
    decreases |s|
  {
    if |s| > 0 {
      FilterCount(s[1..], p, x);
      assert s == [s[0]] + s[1..];
    }
  }

  /** Membership after filtering. */
  lemma FilterMember<T>(s: seq<T>, p: T -> bool, x: T)
    ensures x in Filter(s, p) <==> x in s && p(x)
  {
    FilterCount(s, p, x);
    assert x in Filter(s, p) <==> multiset(Filter(s, p))[x] > 0;
    assert x in s <==> multiset(s)[x] > 0;
  }

  /** Filtering is an order-preserving subset. */
  lemma FilterSubseq<T>(s: seq<T>, p: T -> bool)
    ensures IsSubseq(Filter(s, p), s)
  {
    var idx := FilterIndices(s, p);
  }

  /** Two filters in a row are one filter by the conjunction. */
  lemma {:induction false} FilterFilter<T>(s: seq<T>, p: T -> bool, q: T -> bool, pq: T -> bool)
    requires forall x :: pq(x) == (p(x) && q(x))
    ensures Filter(Filter(s, p), q) == Filter(s, pq)
    decreases |s|
  {
    if |s| > 0 {
      FilterFilter(s[1..], p, q, pq);
      var head := if p(s[0]) then [s[0]] else [];
      FilterAppend(head, Filter(s[1..], p), q);
    }
  }

  /** Filtering distributes over concatenation. */
  lemma {:induction false} FilterAppend<T>(a: seq<T>, b: seq<T>, p: T -> bool)
    ensures Filter(a + b, p) == Filter(a, p) + Filter(b, p)
    decreases |a|
  {
    if |a| > 0 {
      assert (a + b)[0] == a[0];
      assert (a + b)[1..] == a[1..] + b;
      FilterAppend(a[1..], b, p);
      var head := if p(a[0]) then [a[0]] else [];
      calc {
        Filter(a + b, p);
        head + Filter(a[1..] + b, p);
        head + (Filter(a[1..], p) + Filter(b, p));
        (head + Filter(a[1..], p)) + Filter(b, p);
        Filter(a, p) + Filter(b, p);
      }
    } else {
      assert a + b == b;
    }
  }

  /** Filters by predicates that agree everywhere are equal. */
  lemma {:induction false} FilterExt<T>(s: seq<T>, p: T -> bool, q: T -> bool)
    requires forall x :: p(x) == q(x)
    ensures Filter(s, p) == Filter(s, q)
    decreases |s|
  {
    if |s| > 0 {
      FilterExt(s[1..], p, q);
    }
  }

  /** A filter that keeps everything is the identity. */
  lemma {:induction false} FilterAll<T>(s: seq<T>, p: T -> bool)
    requires forall i :: 0 <= i < |s| ==> p(s[i])
    ensures Filter(s, p) == s
    decreases |s|
  {
    if |s| > 0 {
      FilterAll(s[1..], p);
    }
  }

  /** Filtering twice by the same predicate changes nothing more. */
  lemma FilterIdempotent<T>(s: seq<T>, p: T -> bool)
    ensures Filter(Filter(s, p), p) == Filter(s, p)
  {
    FilterAll(Filter(s, p), p);
  }

  /** `Array.prototype.map`: `g` applied to every element, in order. */
  function Map<T, U>(s: seq<T>, g: T -> U): (r: seq<U>)
    ensures |r| == |s|
    ensures forall i :: 0 <= i < |s| ==> r[i] == g(s[i])
  {
    seq(|s|, i requires 0 <= i < |s| => g(s[i]))
  }

  /** The images of the elements that pass a filter are exactly the images of
      the satisfying elements. */
  lemma MapFilterMember<T, U>(s: seq<T>, p: T -> bool, g: T -> U, y: U)
    ensures y in Map(Filter(s, p), g) <==> exists x :: x in s && p(x) && g(x) == y
  {
    var f := Filter(s, p);
    var m := Map(f, g);
    if y in m {
      var i :| 0 <= i < |m| && m[i] == y;
      FilterMember(s, p, f[i]);
    }
    if exists x :: x in s && p(x) && g(x) == y {
      var x :| x in s && p(x) && g(x) == y;
      FilterMember(s, p, x);
      var i :| 0 <= i < |f| && f[i] == x;
      assert m[i] == y;
    }
  }

  /** The first element kept by a filter is the first satisfying element. */
  lemma {:induction false} FilterHead<T>(s: seq<T>, p: T -> bool)
    requires |Filter(s, p)| > 0
    ensures exists k :: 0 <= k < |s| && Filter(s, p)[0] == s[k] && p(s[k])
                        && forall j :: 0 <= j < k ==> !p(s[j])
    decreases |s|
  {
    if !p(s[0]) {
      FilterHead(s[1..], p);
      var k :| 0 <= k < |s[1..]| && Filter(s[1..], p)[0] == s[1..][k] && p(s[1..][k])
               && forall j :: 0 <= j < k ==> !p(s[1..][j]);
      assert forall j :: 1 <= j < k + 1 ==> s[j] == s[1..][j - 1];
      assert s[k + 1] == s[1..][k];
    } else {
      assert Filter(s, p)[0] == s[0];
    }
  }

  /** A non-empty sequence contains its first element. */
  lemma HeadMember<T>(s: seq<T>)
    ensures |s| > 0 ==> s[0] in s
  {
  }

  /** No element occurs twice. */
  predicate NoDup<T(==)>(s: seq<T>) {
    forall i, j :: 0 <= i < j < |s| ==> s[i] != s[j]
  }

  /** Position of the first occurrence of `x` in `s`. */
  function IndexOf<T(==)>(s: seq<T>, x: T): (i: nat)
    requires x in s
    ensures i < |s| && s[i] == x && x !in s[..i]
  {
    if s[0] == x then 0
    else
      var i := IndexOf(s[1..], x) + 1;
      assert s[..i] == [s[0]] + s[1..][..i - 1];
      i
  }

  /** Every element of `r` occurs in `s`, and `r` lists them in the order of
      their first occurrence in `s` (so without repetition). */
  predicate FirstOccurrenceOrder<T(==)>(s: seq<T>, r: seq<T>) {
    && (forall i :: 0 <= i < |r| ==> r[i] in s)
    && (forall i, j :: 0 <= i < j < |r| ==> IndexOf(s, r[i]) < IndexOf(s, r[j]))
  }

  /** Appending to `s` leaves first occurrences of its elements unchanged. */
  lemma IndexOfAppend<T>(s: seq<T>, t: seq<T>, x: T)
    requires x in s
    ensures IndexOf(s + t, x) == IndexOf(s, x)
  {
    var i := IndexOf(s, x);
    var j := IndexOf(s + t, x);
    assert (s + t)[i] == x;
    assert forall k :: 0 <= k < i ==> s[..i][k] == s[k];
    assert forall k :: 0 <= k < j ==> (s + t)[..j][k] == (s + t)[k];
    if j < i { assert false; }
    if i < j { assert false; }
  }

  /** First-occurrence order determines a sequence from its set of elements. */
  lemma {:induction false} FirstOccurrenceOrderUnique<T>(s: seq<T>, a: seq<T>, b: seq<T>)
    requires FirstOccurrenceOrder(s, a) && FirstOccurrenceOrder(s, b)
    requires forall x :: x in a <==> x in b
    ensures a == b
    decreases |a|
  {
    if |a| == 0 {
      HeadMember(b);
      if |b| > 0 { assert false; }
    } else {
      assert a[0] in b;
      assert b[0] in a;
      var ka :| 0 <= ka < |b| && b[ka] == a[0];
      var kb :| 0 <= kb < |a| && a[kb] == b[0];
      assert IndexOf(s, a[0]) == IndexOf(s, b[0]);
      assert a[0] == b[0];
      var a', b' := a[1..], b[1..];
      forall x ensures x in a' <==> x in b' {
        if x in a' {
          var i :| 0 <= i < |a'| && a'[i] == x;
          assert a[i + 1] == x;
          assert x in a;
          assert IndexOf(s, a[0]) < IndexOf(s, x);
          var m :| 0 <= m < |b| && b[m] == x;
          assert m != 0;
          assert b'[m - 1] == x;
        }
        if x in b' {
          var i :| 0 <= i < |b'| && b'[i] == x;
          assert b[i + 1] == x;
          assert x in b;
          assert IndexOf(s, b[0]) < IndexOf(s, x);
          var m :| 0 <= m < |a| && a[m] == x;
          assert m != 0;
          assert a'[m - 1] == x;
        }
      }
      FirstOccurrenceOrderUnique(s, a', b');
    }
  }
}
