/** Order-preserving selection from a sequence: the shape `Array.prototype.filter`
    gives its result, stated through the positions of the kept elements. */
module Sequences {

  /** `r` is the subsequence of `ps` at the strictly increasing positions `idx`,
      and those are exactly the positions `j` with `hits[j]`. */
  predicate PickedAt<T(==)>(ps: seq<T>, hits: seq<bool>, r: seq<T>, idx: seq<nat>) {
    && |hits| == |ps|
    && |idx| == |r|
    && (forall k :: 0 <= k < |idx| ==> idx[k] < |ps| && r[k] == ps[idx[k]])
    && (forall k, l :: 0 <= k < l < |idx| ==> idx[k] < idx[l])
    && (forall j :: 0 <= j < |ps| ==> (hits[j] <==> j in idx))
  }

  /** No element occurs twice. */
  predicate Distinct<T(==)>(xs: seq<T>) {
    forall i, j :: 0 <= i < j < |xs| ==> xs[i] != xs[j]
  }

  /** Picking from a list without repeats gives a list without repeats. */
  lemma PickedDistinct<T>(ps: seq<T>, hits: seq<bool>, r: seq<T>, idx: seq<nat>)
    requires Distinct(ps) && PickedAt(ps, hits, r, idx)
    ensures Distinct(r)
  {
    forall x, y | 0 <= x < y < |r|
      ensures r[x] != r[y]
    {
      assert idx[x] < idx[y];
    }
  }

  /** Extending the list by one element picks it when it is a hit. */
  lemma PickedSnoc<T>(ps: seq<T>, hits: seq<bool>, r: seq<T>, idx: seq<nat>, x: T, m: bool, ps': seq<T>, hits': seq<bool>)
    requires PickedAt(ps, hits, r, idx) && ps' == ps + [x] && hits' == hits + [m]
    ensures PickedAt(ps', hits', if m then r + [x] else r, if m then idx + [|ps|] else idx)
  {
    var r' := if m then r + [x] else r;
    var idx' := if m then idx + [|ps|] else idx;
    assert forall k :: 0 <= k < |idx| ==> idx'[k] == idx[k] && r'[k] == r[k];
    forall k | 0 <= k < |idx'|
      ensures idx'[k] < |ps'| && r'[k] == ps'[idx'[k]]
    {
      if k < |idx| {
        assert ps'[idx[k]] == ps[idx[k]];
      }
    }
    forall j | 0 <= j < |ps'|
      ensures hits'[j] <==> j in idx'
    {
      if j < |ps| {
        assert hits'[j] == hits[j];
        assert j in idx' <==> j in idx;
      } else if !m {
        assert |ps| !in idx;
      }
    }
  }

  /** `PickedSnoc` for a picked list known only to exist. */
  lemma PickedExtend<T>(ps: seq<T>, hits: seq<bool>, r: seq<T>, x: T, m: bool, ps': seq<T>, hits': seq<bool>, r': seq<T>)
    requires exists idx: seq<nat> :: PickedAt(ps, hits, r, idx)
    requires ps' == ps + [x] && hits' == hits + [m] && r' == r + if m then [x] else []
    ensures exists idx: seq<nat> :: PickedAt(ps', hits', r', idx)
  {
    var idx: seq<nat> :| PickedAt(ps, hits, r, idx);
    PickedSnoc(ps, hits, r, idx, x, m, ps', hits');
    if !m {
      assert r' == r;
    }
    assert PickedAt(ps', hits', r', if m then idx + [|ps|] else idx);
  }

  /** `c` is the number of hits among the first `n` elements: the length of
      the in-order list of the elements picked from `xs[..n]`. */
  ghost predicate CountedAt<T(!new)>(xs: seq<T>, hits: seq<bool>, n: nat, c: nat) {
    n <= |xs| && n <= |hits| && exists picked: seq<T>, idx: seq<nat> :: PickedAt(xs[..n], hits[..n], picked, idx) && |picked| == c
  }

  /** Nothing is picked from an empty prefix. */
  lemma CountedNone<T(!new)>(xs: seq<T>, hits: seq<bool>)
    ensures CountedAt(xs, hits, 0, 0)
  {
    assert PickedAt(xs[..0], hits[..0], [], []);
  }

  /** Counting the hits of a prefix one element at a time. */
  lemma CountSnoc<T(!new)>(xs: seq<T>, hits: seq<bool>, n: nat, c: nat)
    requires 0 < n <= |xs| && |hits| == |xs| && CountedAt(xs, hits, n - 1, c)
    ensures CountedAt(xs, hits, n, c + (if hits[n - 1] then 1 else 0))
  {
    var picked: seq<T>, idx: seq<nat> :| PickedAt(xs[..n - 1], hits[..n - 1], picked, idx) && |picked| == c;
    var m := hits[n - 1];
    assert xs[..n - 1] + [xs[n - 1]] == xs[..n];
    assert hits[..n - 1] + [m] == hits[..n];
    PickedSnoc(xs[..n - 1], hits[..n - 1], picked, idx, xs[n - 1], m, xs[..n], hits[..n]);
    var picked' := if m then picked + [xs[n - 1]] else picked;
    var idx' := if m then idx + [n - 1] else idx;
    assert PickedAt(xs[..n], hits[..n], picked', idx');
    assert |picked'| == c + (if m then 1 else 0);
  }

  /** Counting the hits of a whole list from its first element on. */
  lemma CountedCons<T(!new)>(xs: seq<T>, m: bool, hits: seq<bool>, hs: seq<bool>, c: nat)
    requires |xs| > 0 && |hs| == |xs| && hs == [m] + hits && CountedAt(xs[1..], hits, |xs| - 1, c)
    ensures CountedAt(xs, hs, |xs|, c + (if m then 1 else 0))
  {
    var picked: seq<T>, idx: seq<nat> :| PickedAt(xs[1..][..|xs| - 1], hits[..|xs| - 1], picked, idx) && |picked| == c;
    assert xs[1..][..|xs| - 1] == xs[1..];
    assert hits[..|xs| - 1] == hits;
    var r := if m then [xs[0]] + picked else picked;
    ShiftPositions(xs, m, hits, picked, hs, r);
    var all :| PickedAt(xs, hs, r, all);
    assert xs[..|xs|] == xs && hs[..|xs|] == hs;
    assert PickedAt(xs[..|xs|], hs[..|xs|], r, all);
  }

  /** The picked list starts with the first hit. */
  lemma PickedHead<T>(ps: seq<T>, hits: seq<bool>, r: seq<T>, idx: seq<nat>)
    requires PickedAt(ps, hits, r, idx) && |r| > 0
    ensures idx[0] < |ps| && hits[idx[0]] && r[0] == ps[idx[0]]
    ensures forall j :: 0 <= j < idx[0] ==> !hits[j]
  {
    assert forall k :: 0 < k < |idx| ==> idx[0] < idx[k];
  }

  /** The positions of the tail, moved by one, and the head's when it is picked. */
  lemma ShiftPositions<T>(ps: seq<T>, m: bool, hits: seq<bool>, rest: seq<T>, hs: seq<bool>, r: seq<T>)
    requires |ps| > 0 && exists idx :: PickedAt(ps[1..], hits, rest, idx)
    requires hs == [m] + hits && r == if m then [ps[0]] + rest else rest
    ensures exists all :: PickedAt(ps, hs, r, all)
  {
    var idx :| PickedAt(ps[1..], hits, rest, idx);
    var sh := Shifted(idx);
    ShiftedIn(idx, sh);
    if m {
      var all := ShiftKeep(ps, hits, rest, idx, sh);
    } else {
      var all := ShiftSkip(ps, hits, rest, idx, sh);
    }
  }

  /** Every position plus one. */
  function Shifted(idx: seq<nat>): (r: seq<nat>)
    ensures |r| == |idx| && forall k :: 0 <= k < |idx| ==> r[k] == idx[k] + 1
  {
    seq(|idx|, k requires 0 <= k < |idx| => idx[k] + 1)
  }

  lemma ShiftedIn(idx: seq<nat>, sh: seq<nat>)
    requires sh == Shifted(idx)
    ensures forall j: nat :: j + 1 in sh <==> j in idx
    ensures 0 !in sh
  {
    forall j: nat
      ensures j + 1 in sh <==> j in idx
    {
      if j in idx {
        var k :| 0 <= k < |idx| && idx[k] == j;
        assert sh[k] == j + 1;
      }
    }
  }

  lemma ShiftSkip<T>(ps: seq<T>, hits: seq<bool>, rest: seq<T>, idx: seq<nat>, sh: seq<nat>) returns (all: seq<nat>)
    requires |ps| > 0 && PickedAt(ps[1..], hits, rest, idx)
    requires sh == Shifted(idx) && (forall j: nat :: j + 1 in sh <==> j in idx) && 0 !in sh
    ensures PickedAt(ps, [false] + hits, rest, all)
  {
    all := sh;
    var hs := [false] + hits;
    forall k | 0 <= k < |all|
      ensures all[k] < |ps| && rest[k] == ps[all[k]]
    {
      assert rest[k] == ps[1..][idx[k]];
    }
    forall j | 0 <= j < |ps|
      ensures hs[j] <==> j in all
    {
      if j > 0 {
        assert hs[j] == hits[j - 1];
        assert j == (j - 1) + 1;
      }
    }
  }

  lemma ShiftKeep<T>(ps: seq<T>, hits: seq<bool>, rest: seq<T>, idx: seq<nat>, sh: seq<nat>) returns (all: seq<nat>)
    requires |ps| > 0 && PickedAt(ps[1..], hits, rest, idx)
    requires sh == Shifted(idx) && (forall j: nat :: j + 1 in sh <==> j in idx) && 0 !in sh
    ensures PickedAt(ps, [true] + hits, [ps[0]] + rest, all)
  {
    all := [0] + sh;
    var hs := [true] + hits;
    var r := [ps[0]] + rest;
    forall k | 0 <= k < |all|
      ensures all[k] < |ps| && r[k] == ps[all[k]]
    {
      if k > 0 {
        assert all[k] == idx[k - 1] + 1 && r[k] == rest[k - 1];
        assert rest[k - 1] == ps[1..][idx[k - 1]];
      }
    }
    forall k, l | 0 <= k < l < |all|
      ensures all[k] < all[l]
    {
      if k > 0 {
        assert all[k] == idx[k - 1] + 1 && all[l] == idx[l - 1] + 1;
      }
    }
    forall j | 0 <= j < |ps|
      ensures hs[j] <==> j in all
    {
      if j > 0 {
        assert hs[j] == hits[j - 1];
        assert j == (j - 1) + 1;
        assert j in all <==> j in sh;
      }
    }
  }
}
