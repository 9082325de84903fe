/** Order-preserving filtering, the model of Python list comprehensions
    with an `if` clause. */
module Seqs {

  /** The positions of the elements of `xs` that satisfy `p`. */
  function Selection<T(!new)>(xs: seq<T>, p: T -> bool): (idx: seq<nat>)
    ensures IsSelection(xs, p, idx)
  {
    if xs == [] then []
    else
      var rest := Selection(xs[1..], p);
      SelectionCons(xs, p, rest);
      if p(xs[0]) then [0] + Shift(rest) else Shift(rest)
  }

  /** `idx` lists, increasing, exactly the positions of `xs` whose element
      satisfies `p`. */
  predicate IsSelection<T(!new)>(xs: seq<T>, p: T -> bool, idx: seq<nat>) {
    && (forall k :: 0 <= k < |idx| ==> idx[k] < |xs| && p(xs[idx[k]]))
    && (forall k, l :: 0 <= k < l < |idx| ==> idx[k] < idx[l])
    && (forall i {:trigger i in idx} :: 0 <= i < |xs| && p(xs[i]) ==> i in idx)
  }

  /** The selection of `xs` from that of its tail. */
  lemma SelectionCons<T(!new)>(xs: seq<T>, p: T -> bool, rest: seq<nat>)
    requires xs != [] && IsSelection(xs[1..], p, rest)
    ensures IsSelection(xs, p, if p(xs[0]) then [0] + Shift(rest) else Shift(rest))
  {
    var shifted := Shift(rest);
    if p(xs[0]) {
      var r := [0] + shifted;
      assert forall k :: 1 <= k < |r| ==> r[k] == shifted[k - 1];
      ShiftedSelection(xs, p, rest, r, 1);
    } else {
      ShiftedSelection(xs, p, rest, shifted, 0);
    }
  }

  lemma ShiftedSelection<T(!new)>(xs: seq<T>, p: T -> bool, rest: seq<nat>, r: seq<nat>, off: nat)
    requires xs != [] && IsSelection(xs[1..], p, rest)
    requires ShiftedBy(rest, r, off) && (off == 1 <==> p(xs[0]))
    ensures IsSelection(xs, p, r)
  {
    ShiftedValid(xs, p, rest, r, off);
    ShiftedIncreasing(rest, r, off);
    ShiftedCovers(xs, p, rest, r, off);
  }

  /** `r` is `rest` moved one place on, after `off` leading zeros. */
  predicate ShiftedBy(rest: seq<nat>, r: seq<nat>, off: nat) {
    && off <= 1
    && |r| == |rest| + off
    && (off == 1 ==> r[0] == 0)
    && (forall k :: off <= k < |r| ==> r[k] == rest[k - off] + 1)
  }

  lemma ShiftedValid<T(!new)>(xs: seq<T>, p: T -> bool, rest: seq<nat>, r: seq<nat>, off: nat)
    requires xs != [] && IsSelection(xs[1..], p, rest)
    requires ShiftedBy(rest, r, off) && (off == 1 <==> p(xs[0]))
    ensures forall k :: 0 <= k < |r| ==> r[k] < |xs| && p(xs[r[k]])
  {
    forall k | 0 <= k < |r| ensures r[k] < |xs| && p(xs[r[k]]) {
      if k >= off {
        assert xs[1..][rest[k - off]] == xs[r[k]];
      }
    }
  }

  lemma ShiftedIncreasing(rest: seq<nat>, r: seq<nat>, off: nat)
    requires forall k, l :: 0 <= k < l < |rest| ==> rest[k] < rest[l]
    requires ShiftedBy(rest, r, off)
    ensures forall k, l :: 0 <= k < l < |r| ==> r[k] < r[l]
  {
    forall k, l | 0 <= k < l < |r| ensures r[k] < r[l] {
      assert r[l] == rest[l - off] + 1;
      if k >= off {
        assert r[k] == rest[k - off] + 1;
      }
    }
  }

  lemma ShiftedCovers<T(!new)>(xs: seq<T>, p: T -> bool, rest: seq<nat>, r: seq<nat>, off: nat)
    requires xs != [] && IsSelection(xs[1..], p, rest)
    requires ShiftedBy(rest, r, off) && (off == 1 <==> p(xs[0]))
    ensures forall i :: 0 <= i < |xs| && p(xs[i]) ==> i in r
  {
    forall i | 0 <= i < |xs| && p(xs[i]) ensures i in r {
      if i > 0 {
        assert xs[1..][i - 1] == xs[i];
        assert i - 1 in rest;
        var k :| 0 <= k < |rest| && rest[k] == i - 1;
        assert r[k + off] == i;
      } else {
        assert r[0] == 0;
      }
    }
  }

  /** Every position moved one place on. */
  function Shift(idx: seq<nat>): (r: seq<nat>)
    ensures |r| == |idx|
    ensures forall k :: 0 <= k < |idx| ==> r[k] == idx[k] + 1
  {
    seq(|idx|, k requires 0 <= k < |idx| => idx[k] + 1)
  }

  /** The elements of `xs` that satisfy `p`, in their original order: the
      elements at the selected positions, one for each. */
  function Filter<T(!new)>(xs: seq<T>, p: T -> bool): (r: seq<T>)
    ensures |r| <= |xs|
    ensures forall x :: x in r <==> x in xs && p(x)
    ensures forall i :: 0 <= i < |r| ==> p(r[i])
  {
    if xs == [] then [] else (if p(xs[0]) then [xs[0]] else []) + Filter(xs[1..], p)
  }

  /** Filtering keeps exactly the selected elements, in their original order
      and with their multiplicity: the `k`-th kept element is the element at
      the `k`-th passing position. */
  lemma {:induction false} FilterPicksSelection<T(!new)>(xs: seq<T>, p: T -> bool)
    ensures Picks(xs, Selection(xs, p), Filter(xs, p))
  {
    if xs != [] {
      FilterPicksSelection(xs[1..], p);
      PicksCons(xs, p, Filter(xs[1..], p), Selection(xs[1..], p));
    }
  }

  ghost predicate Picks<T>(xs: seq<T>, idx: seq<nat>, r: seq<T>) {
    |r| == |idx| && forall k :: 0 <= k < |r| ==> idx[k] < |xs| && r[k] == xs[idx[k]]
  }

  /** Picking from `xs` given what was picked from its tail. */
  lemma PicksCons<T(!new)>(xs: seq<T>, p: T -> bool, rest: seq<T>, sel: seq<nat>)
    requires xs != [] && Picks(xs[1..], sel, rest)
    ensures Picks(xs, if p(xs[0]) then [0] + Shift(sel) else Shift(sel),
                  (if p(xs[0]) then [xs[0]] else []) + rest)
  {
    forall k | 0 <= k < |sel| ensures xs[1..][sel[k]] == xs[Shift(sel)[k]] {
    }
  }

  /** Filtering commutes with concatenation: the kept elements of a prefix
      come before those of the rest. */
  lemma {:induction false} FilterAppend<T(!new)>(a: seq<T>, b: seq<T>, p: T -> bool)
    ensures Filter(a + b, p) == Filter(a, p) + Filter(b, p)
  {
    if a == [] {
      assert a + b == b;
    } else {
      assert (a + b)[1..] == a[1..] + b;
      FilterAppend(a[1..], b, p);
    }
  }

  /** Filtering a sequence extended by one element. */
  lemma FilterSnoc<T(!new)>(xs: seq<T>, x: T, p: T -> bool)
    ensures Filter(xs + [x], p) == Filter(xs, p) + (if p(x) then [x] else [])
  {
    FilterAppend(xs, [x], p);
    assert Filter([x], p) == (if p(x) then [x] else []) + Filter([x][1..], p);
  }

  /** Two successive filters keep what both tests accept. */
  lemma {:induction false} FilterFilter<T(!new)>(xs: seq<T>, p: T -> bool, q: T -> bool, both: T -> bool)
    requires forall x :: both(x) == (p(x) && q(x))
    ensures Filter(Filter(xs, p), q) == Filter(xs, both)
  {
    if xs != [] {
      FilterFilter(xs[1..], p, q, both);
      var head := if p(xs[0]) then [xs[0]] else [];
      FilterAppend(head, Filter(xs[1..], p), q);
      if p(xs[0]) {
        assert Filter(head, q) == (if q(xs[0]) then [xs[0]] else []) + Filter(head[1..], q);
      }
    }
  }

  /** Every element passes the test: filtering changes nothing. */
  lemma {:induction false} FilterAll<T(!new)>(xs: seq<T>, p: T -> bool)
    requires forall i :: 0 <= i < |xs| ==> p(xs[i])
    ensures Filter(xs, p) == xs
  {
    if xs != [] {
      FilterAll(xs[1..], p);
    }
  }
}
