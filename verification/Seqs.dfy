/** Vector insert and removal, memory moves on values, and filtering, which
    projects one chronological list of operations onto a key or a transaction. */
module Seqs {

  function InsertAt<T>(s: seq<T>, p: nat, x: T): (r: seq<T>)
    requires p <= |s|
    ensures |r| == |s| + 1 && r[p] == x
    ensures forall i :: 0 <= i < p ==> r[i] == s[i]
    ensures forall i :: p < i < |r| ==> r[i] == s[i-1]
  {
    s[..p] + [x] + s[p..]
  }

  function RemoveAt<T>(s: seq<T>, p: nat): (r: seq<T>)
    requires p < |s|
    ensures |r| == |s| - 1
    ensures forall i :: 0 <= i < |r| ==> r[i] == s[if i < p then i else i + 1]
  {
    s[..p] + s[p+1..]
  }

  function Write<T>(t: seq<T>, at: nat, s: seq<T>): (u: seq<T>)
    requires at + |s| <= |t|
    ensures |u| == |t|
    ensures forall i :: 0 <= i < at || at + |s| <= i < |t| ==> u[i] == t[i]
    ensures forall i :: at <= i < at + |s| ==> u[i] == s[i - at]
  {
    t[..at] + s + t[at + |s|..]
  }

  /** memmove of n elements. */
  function Move<T>(t: seq<T>, dst: nat, src: nat, n: nat): (u: seq<T>)
    requires dst + n <= |t| && src + n <= |t|
    ensures |u| == |t|
    ensures forall i :: 0 <= i < dst || dst + n <= i < |t| ==> u[i] == t[i]
    ensures forall i :: dst <= i < dst + n ==> u[i] == t[i + (src - dst)]
  {
    Write(t, dst, t[src..src + n])
  }

  function Filter<T>(p: T -> bool, s: seq<T>): seq<T> {
    if s == [] then []
    else
      var rest := Filter(p, s[..|s|-1]);
      if p(s[|s|-1]) then rest + [s[|s|-1]] else rest
  }

  lemma {:induction false} FilterMembers<T(!new)>(p: T -> bool, s: seq<T>)
    ensures forall x :: x in Filter(p, s) <==> x in s && p(x)
  {
    if s != [] {
      FilterMembers(p, s[..|s|-1]);
      assert s == s[..|s|-1] + [s[|s|-1]];
    }
  }

  lemma {:induction false} FilterAppend<T>(p: T -> bool, a: seq<T>, b: seq<T>)
    ensures Filter(p, a + b) == Filter(p, a) + Filter(p, b)
  {
    if b == [] {
      assert a + b == a;
    } else {
      var n := |b| - 1;
      FilterAppend(p, a, b[..n]);
      assert (a + b)[..|a+b|-1] == a + b[..n];
    }
  }

  lemma {:induction false} FilterAll<T(!new)>(p: T -> bool, s: seq<T>)
    requires forall x :: x in s ==> p(x)
    ensures Filter(p, s) == s
  {
    if s != [] {
      assert s == s[..|s|-1] + [s[|s|-1]];
      FilterAll(p, s[..|s|-1]);
    }
  }

  lemma {:induction false} FilterNone<T(!new)>(p: T -> bool, s: seq<T>)
    requires forall x :: x in s ==> !p(x)
    ensures Filter(p, s) == []
  {
    if s != [] {
      assert s == s[..|s|-1] + [s[|s|-1]];
      FilterNone(p, s[..|s|-1]);
    }
  }

  /** Two predicates that agree on the elements select the same subsequence. */
  lemma {:induction false} FilterCongruent<T(!new)>(p: T -> bool, q: T -> bool, s: seq<T>)
    requires forall x :: x in s ==> p(x) == q(x)
    ensures Filter(p, s) == Filter(q, s)
  {
    if s != [] {
      assert s == s[..|s|-1] + [s[|s|-1]];
      FilterCongruent(p, q, s[..|s|-1]);
    }
  }

  lemma {:induction false} FilterSwap<T>(p: T -> bool, q: T -> bool, s: seq<T>)
    ensures Filter(p, Filter(q, s)) == Filter(q, Filter(p, s))
  {
    if s != [] {
      FilterSwap(p, q, s[..|s|-1]);
    }
  }
}
