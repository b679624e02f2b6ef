/** Small generic helpers shared by the league model: an optional value and an
    order-preserving filter, the Dafny counterpart of `Array.prototype.filter`. */
module Seqs {

  /** Present-or-absent result of a lookup (`Array.prototype.find` returning
      `undefined`, or a missing object key). */
  datatype Option<+T> = None | Some(value: T)

  /** The elements of `s` that satisfy `keep`, in their original order. */
  function Filter<T(!new)>(s: seq<T>, keep: T -> bool): (r: seq<T>)
    ensures |r| <= |s|
  {
    if |s| == 0 then []
    else
      var rest := Filter(s[1..], keep);
      if keep(s[0]) then [s[0]] + rest else rest
  }

  /** The filter keeps exactly the elements that pass, each as often as it
      occurs, and drops every other one. */
  lemma {:induction false} FilterContents<T(!new)>(s: seq<T>, keep: T -> bool)
    ensures forall x :: x in Filter(s, keep) <==> x in s && keep(x)
    ensures forall x :: multiset(Filter(s, keep))[x] == if keep(x) then multiset(s)[x] else 0
  {
    if |s| > 0 {
      FilterContents(s[1..], keep);
      assert s == [s[0]] + s[1..];
    }
  }

  /** `r` consists of the elements of `s` at the strictly increasing positions
      `idx`: `r` is `s` with some elements left out and the rest in order. */
  ghost predicate Picks<T>(r: seq<T>, s: seq<T>, idx: seq<nat>) {
    && |idx| == |r|
    && (forall k | 0 <= k < |idx| :: idx[k] < |s| && r[k] == s[idx[k]])
    && (forall k, l | 0 <= k < l < |idx| :: idx[k] < idx[l])
  }

  /** The filter keeps the surviving elements in their original order. */
  lemma {:induction false} FilterPicks<T(!new)>(s: seq<T>, keep: T -> bool)
    ensures exists idx :: Picks(Filter(s, keep), s, idx)
  {
    if |s| == 0 {
      assert Picks(Filter(s, keep), s, []);
    } else {
      var x := s[0];
      var rest := Filter(s[1..], keep);
      assert s == [x] + s[1..];
      FilterCons(x, s[1..], keep);
      FilterPicks(s[1..], keep);
      var tail :| Picks(rest, s[1..], tail);
      var shifted := PicksTail(rest, s, tail);
      if keep(x) {
        PicksCons(x, rest, s, shifted);
      }
    }
  }

  lemma PicksTail<T>(r: seq<T>, s: seq<T>, tail: seq<nat>) returns (idx: seq<nat>)
    requires |s| > 0 && Picks(r, s[1..], tail)
    ensures Picks(r, s, idx) && forall k | 0 <= k < |idx| :: idx[k] > 0
  {
    idx := seq(|tail|, k requires 0 <= k < |tail| => tail[k] + 1);
    forall k | 0 <= k < |idx| ensures idx[k] < |s| && r[k] == s[idx[k]] {
      assert s[idx[k]] == s[1..][tail[k]];
    }
  }

  lemma PicksCons<T>(x: T, r: seq<T>, s: seq<T>, idx: seq<nat>)
    requires |s| > 0 && s[0] == x && Picks(r, s, idx)
    requires forall k | 0 <= k < |idx| :: idx[k] > 0
    ensures Picks([x] + r, s, [0] + idx)
  {
    var r' := [x] + r;
    var idx' := [0] + idx;
    forall k | 0 <= k < |idx'| ensures idx'[k] < |s| && r'[k] == s[idx'[k]] {
      if k > 0 {
        assert idx'[k] == idx[k - 1] && r'[k] == r[k - 1];
      }
    }
  }

  lemma FilterCons<T(!new)>(x: T, s: seq<T>, keep: T -> bool)
    ensures Filter([x] + s, keep) == (if keep(x) then [x] else []) + Filter(s, keep)
  {
    assert ([x] + s)[1..] == s;
  }

  /** Filtering a concatenation filters each part and keeps them in order. */
  lemma {:induction false} FilterConcat<T(!new)>(a: seq<T>, b: seq<T>, keep: T -> bool)
    ensures Filter(a + b, keep) == Filter(a, keep) + Filter(b, keep)
  {
    if |a| == 0 {
      assert a + b == b;
    } else {
      var x := a[0];
      var head: seq<T> := if keep(x) then [x] else [];
      assert a == [x] + a[1..];
      assert a + b == [x] + (a[1..] + b);
      FilterCons(x, a[1..] + b, keep);
      FilterCons(x, a[1..], keep);
      FilterConcat(a[1..], b, keep);
    }
  }

  /** A filter that no element passes leaves nothing. */
  lemma {:induction false} FilterNone<T(!new)>(s: seq<T>, keep: T -> bool)
    requires forall x :: x in s ==> !keep(x)
    ensures Filter(s, keep) == []
  {
    if |s| > 0 {
      assert s[0] in s;
      assert forall x :: x in s[1..] ==> x in s;
      FilterNone(s[1..], keep);
    }
  }

  /** Filtering a second time with the same predicate removes nothing more. */
  lemma {:induction false} FilterIdempotent<T(!new)>(s: seq<T>, keep: T -> bool)
    ensures Filter(Filter(s, keep), keep) == Filter(s, keep)
  {
    if |s| > 0 {
      FilterIdempotent(s[1..], keep);
      var rest := Filter(s[1..], keep);
      if keep(s[0]) {
        assert ([s[0]] + rest)[1..] == rest;
      }
    }
  }

  /** A filter that every element passes is the identity. */
  lemma {:induction false} FilterAll<T(!new)>(s: seq<T>, keep: T -> bool)
    requires forall x :: x in s ==> keep(x)
    ensures Filter(s, keep) == s
  {
    if |s| > 0 {
      FilterAll(s[1..], keep);
      assert s == [s[0]] + s[1..];
    }
  }
}
