/** Sequence vocabulary shared by the models: order-preserving filters, duplicate-free
    sequences, and cutting one position out. */
module Seqs {

  datatype Option<+T> = None | Some(value: T)

  function Min(a: int, b: int): int {
    if a < b then a else b
  }

  function Max(a: int, b: int): int {
    if a < b then b else a
  }

  /** All but the last element. */
  function Init<T>(s: seq<T>): seq<T>
    requires s != []
  {
    s[..|s| - 1]
  }

  function Last<T>(s: seq<T>): T
    requires s != []
  {
    s[|s| - 1]
  }

  /** The elements of `s` that satisfy `keep`, in order. */
  function Filter<T>(s: seq<T>, keep: T -> bool): (r: seq<T>)
    ensures |r| <= |s|
  {
    if s == [] then [] else (if keep(s[0]) then [s[0]] else []) + Filter(s[1..], keep)
  }

  lemma {:induction false} FilterKeeps<T(!new)>(s: seq<T>, keep: T -> bool)
    ensures forall x :: x in Filter(s, keep) <==> x in s && keep(x)
  {
    if s != [] {
      FilterKeeps(s[1..], keep);
      assert s == [s[0]] + s[1..];
    }
  }

  lemma {:induction false} FilterConcat<T>(a: seq<T>, b: seq<T>, keep: T -> bool)
    ensures Filter(a + b, keep) == Filter(a, keep) + Filter(b, keep)
  {
    if a == [] {
      assert a + b == b;
    } else {
      assert (a + b)[0] == a[0] && (a + b)[1..] == a[1..] + b;
      FilterConcat(a[1..], b, keep);
      var head, fa, fb := if keep(a[0]) then [a[0]] else [], Filter(a[1..], keep), Filter(b, keep);
      assert head + (fa + fb) == (head + fa) + fb;
    }
  }

  lemma FilterSnoc<T>(s: seq<T>, x: T, keep: T -> bool)
    ensures Filter(s + [x], keep) == Filter(s, keep) + if keep(x) then [x] else []
  {
    FilterConcat(s, [x], keep);
  }

  lemma {:induction false} FiltersCommute<T>(s: seq<T>, p: T -> bool, q: T -> bool)
    ensures Filter(Filter(s, p), q) == Filter(Filter(s, q), p)
  {
    if s == [] {
    } else {
      FiltersCommute(s[1..], p, q);
      var x, ps, qs := s[0], Filter(s[1..], p), Filter(s[1..], q);
      assert ([x] + ps)[1..] == ps && ([x] + qs)[1..] == qs;
      assert Filter([x] + ps, q) == (if q(x) then [x] else []) + Filter(ps, q);
      assert Filter([x] + qs, p) == (if p(x) then [x] else []) + Filter(qs, p);
      assert [] + ps == ps && [] + qs == qs;
    }
  }

  lemma {:induction false} FilterCount<T>(s: seq<T>, keep: T -> bool, x: T)
    ensures multiset(Filter(s, keep))[x] == if keep(x) then multiset(s)[x] else 0
  {
    if s == [] {
    } else {
      var head, tail := [s[0]], s[1..];
      FilterCount(tail, keep, x);
      assert s == head + tail && multiset(s)[x] == multiset(head)[x] + multiset(tail)[x];
      var kept := if keep(s[0]) then head else [];
      assert multiset(kept + Filter(tail, keep))[x] == multiset(kept)[x] + multiset(Filter(tail, keep))[x];
    }
  }

  lemma {:induction false} FilterAll<T>(s: seq<T>, keep: T -> bool)
    requires forall i :: 0 <= i < |s| ==> keep(s[i])
    ensures Filter(s, keep) == s
  {
    if s == [] {
    } else {
      FilterAll(s[1..], keep);
    }
  }

  lemma {:induction false} FilterNone<T>(s: seq<T>, keep: T -> bool)
    requires forall i :: 0 <= i < |s| ==> !keep(s[i])
    ensures Filter(s, keep) == []
  {
    if s == [] {
    } else {
      FilterNone(s[1..], keep);
    }
  }

  lemma FilterSplit<T>(a: seq<T>, b: seq<T>, keep: T -> bool)
    requires forall i :: 0 <= i < |a| ==> !keep(a[i])
    requires forall i :: 0 <= i < |b| ==> keep(b[i])
    ensures Filter(a + b, keep) == b && Filter(b + a, keep) == b
  {
    FilterConcat(a, b, keep);
    FilterConcat(b, a, keep);
    FilterNone(a, keep);
    FilterAll(b, keep);
  }

  lemma {:induction false} FilterDropsOne<T>(left: seq<T>, x: T, right: seq<T>, keep: T -> bool)
    requires !keep(x)
    requires forall i :: 0 <= i < |left| ==> keep(left[i])
    requires forall i :: 0 <= i < |right| ==> keep(right[i])
    ensures Filter(left + [x] + right, keep) == left + right
  {
    FilterConcat(left + [x], right, keep);
    FilterConcat(left, [x], keep);
    FilterNone([x], keep);
    FilterAll(left, keep);
    FilterAll(right, keep);
  }

  /** The sequence without position i. */
  ghost function Cut<T>(s: seq<T>, i: nat): (r: seq<T>)
    requires i < |s|
    ensures |r| == |s| - 1
    ensures forall j :: 0 <= j < |r| ==> r[j] == s[if j < i then j else j + 1]
  {
    seq(|s| - 1, j requires 0 <= j < |s| - 1 => s[if j < i then j else j + 1])
  }

  lemma CutIsConcat<T>(s: seq<T>, i: nat)
    requires i < |s|
    ensures Cut(s, i) == s[..i] + s[i + 1..]
  {
  }

  ghost predicate NoDup<T>(s: seq<T>) {
    forall i, j :: 0 <= i < j < |s| ==> s[i] != s[j]
  }

  function Elements<T>(s: seq<T>): (r: set<T>) {
    set x | x in s
  }

  lemma {:induction false} NoDupCardinality<T>(s: seq<T>)
    requires NoDup(s)
    ensures |Elements(s)| == |s|
  {
    if s == [] {
      assert Elements(s) == {};
    } else {
      NoDupCardinality(s[1..]);
      assert s == [s[0]] + s[1..];
      assert Elements(s) == {s[0]} + Elements(s[1..]);
      assert s[0] !in s[1..];
    }
  }

  lemma SubsetCardinality<T>(a: set<T>, b: set<T>)
    requires a <= b
    ensures |a| <= |b|
    ensures |a| == |b| ==> a == b
  {
    assert |b| == |a| + |b - a| by {
      assert b == a + (b - a);
    }
    if |a| == |b| {
      assert b - a == {};
    }
  }

  lemma {:induction false} FilterNoDup<T(!new)>(s: seq<T>, keep: T -> bool)
    requires NoDup(s)
    ensures NoDup(Filter(s, keep))
  {
    if s == [] {
    } else {
      FilterNoDup(s[1..], keep);
      FilterKeeps(s[1..], keep);
      assert s[0] !in s[1..];
    }
  }
}
