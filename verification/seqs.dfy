/**
 * The loop shape shared by recipient filtering and attachment preparation:
 * walk a list, skip the elements that fail a test (`continue`), and append
 * an image of the others (`$data[] = …`).
 */
module Seqs {
  import opened Php

  /** The images of the elements `f` accepts, in input order. */
  function FilterMap<T, U>(xs: seq<T>, f: T -> Option<U>): (r: seq<U>)
    ensures |r| <= |xs|
    decreases |xs|
  {
    if |xs| == 0 then []
    else
      var init := FilterMap(xs[..|xs| - 1], f);
      match f(xs[|xs| - 1])
      case Some(u) => init + [u]
      case None => init
  }

  /** The positions of the accepted elements. They are strictly increasing,
      cover every accepted position, and the k-th output is the image of the
      element at the k-th of them: one output per accepted input, in order. */
  function Kept<T, U>(xs: seq<T>, f: T -> Option<U>): (idx: seq<nat>)
    ensures |idx| == |FilterMap(xs, f)|
    ensures forall k :: 0 <= k < |idx| ==> idx[k] < |xs| && f(xs[idx[k]]) == Some(FilterMap(xs, f)[k])
    ensures forall k, l :: 0 <= k < l < |idx| ==> idx[k] < idx[l]
    ensures forall i :: 0 <= i < |xs| && f(xs[i]).Some? ==> i in idx
    decreases |xs|
  {
    if |xs| == 0 then []
    else
      var n := |xs| - 1;
      var init := Kept(xs[..n], f);
      assert forall i :: 0 <= i < n ==> xs[..n][i] == xs[i];
      if f(xs[n]).Some? then init + [n] else init
  }

  /** Nothing comes out exactly when nothing is accepted. */
  lemma FilterMapEmpty<T, U>(xs: seq<T>, f: T -> Option<U>)
    ensures FilterMap(xs, f) == [] <==> forall i :: 0 <= i < |xs| ==> f(xs[i]).None?
  {
    var idx := Kept(xs, f);
    if FilterMap(xs, f) != [] {
      assert f(xs[idx[0]]).Some?;
    }
  }

  /** When every element is accepted, every element yields an output. */
  lemma {:induction false} FilterMapAll<T, U>(xs: seq<T>, f: T -> Option<U>)
    requires forall i :: 0 <= i < |xs| ==> f(xs[i]).Some?
    ensures |FilterMap(xs, f)| == |xs|
    decreases |xs|
  {
    if |xs| > 0 {
      var n := |xs| - 1;
      assert forall i :: 0 <= i < n ==> xs[..n][i] == xs[i];
      FilterMapAll(xs[..n], f);
      assert f(xs[n]).Some?;
    }
  }

  /** A value is an output exactly when some element is accepted with it. */
  lemma FilterMapMember<T, U>(xs: seq<T>, f: T -> Option<U>, u: U)
    ensures u in FilterMap(xs, f) <==> exists i :: 0 <= i < |xs| && f(xs[i]) == Some(u)
  {
    var r := FilterMap(xs, f);
    var idx := Kept(xs, f);
    if u in r {
      var k :| 0 <= k < |r| && r[k] == u;
      assert f(xs[idx[k]]) == Some(u);
    }
    if i :| 0 <= i < |xs| && f(xs[i]) == Some(u) {
      assert i in idx;
      var k :| 0 <= k < |idx| && idx[k] == i;
      assert r[k] == u;
    }
  }

  /** The first output is the image of the first accepted element. */
  lemma FirstKept<T, U>(xs: seq<T>, f: T -> Option<U>)
    requires |FilterMap(xs, f)| > 0
    ensures exists i :: 0 <= i < |xs| && f(xs[i]) == Some(FilterMap(xs, f)[0])
                        && forall j :: 0 <= j < i ==> f(xs[j]).None?
  {
    var idx := Kept(xs, f);
    var i := idx[0];
    forall j | 0 <= j < i
      ensures f(xs[j]).None?
    {
      // an accepted j would sit in idx before idx[0]
    }
    assert f(xs[i]) == Some(FilterMap(xs, f)[0]);
  }

  /** The images of all elements, concatenated in order: a string built by
      appending one piece per element. */
  function Concat<T, U>(xs: seq<T>, f: T -> seq<U>): seq<U>
    decreases |xs|
  {
    if |xs| == 0 then [] else Concat(xs[..|xs| - 1], f) + f(xs[|xs| - 1])
  }

  lemma {:induction false} ConcatAppend<T, U>(xs: seq<T>, ys: seq<T>, f: T -> seq<U>)
    ensures Concat(xs + ys, f) == Concat(xs, f) + Concat(ys, f)
    decreases |ys|
  {
    if |ys| == 0 {
      assert xs + ys == xs;
    } else {
      var ys' := ys[..|ys| - 1];
      assert (xs + ys)[..|xs + ys| - 1] == xs + ys';
      assert (xs + ys)[|xs + ys| - 1] == ys[|ys| - 1];
      ConcatAppend(xs, ys', f);
    }
  }

  /** The concatenation starts with the image of the first element. */
  lemma ConcatFirst<T, U>(xs: seq<T>, f: T -> seq<U>)
    requires |xs| > 0
    ensures f(xs[0]) <= Concat(xs, f)
  {
    var first, rest := [xs[0]], xs[1..];
    assert first[..0] == [];
    assert Concat(first, f) == f(xs[0]);
    assert xs == first + rest;
    ConcatAppend(first, rest, f);
    assert Concat(xs, f) == f(xs[0]) + Concat(rest, f);
  }
}
