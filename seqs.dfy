/** Sequence helpers: JavaScript `Set` insertion, flattening and subsequences. */
module Seqs {

  /** No element occurs twice. */
  predicate NoDup<T(==,!new)>(s: seq<T>) {
    forall i, j :: 0 <= i < j < |s| ==> s[i] != s[j]
  }

  /**
   * Adds each element of `xs` in turn to the insertion-ordered set `acc`,
   * as a loop of `Set.prototype.add` calls does.
   */
  function AddAll<T(==,!new)>(acc: seq<T>, xs: seq<T>): (r: seq<T>)
    ensures NoDup(acc) ==> NoDup(r)
    ensures forall x :: x in r <==> x in acc || x in xs
    ensures |acc| <= |r| && r[..|acc|] == acc
    decreases |xs|
  {
    if xs == [] then acc
    else
      var acc' := if xs[0] in acc then acc else acc + [xs[0]];
      assert acc'[..|acc|] == acc;
      AddAll(acc', xs[1..])
  }

  /** `Array.from(new Set(xs))`: the distinct elements in order of first occurrence. */
  function Distinct<T(==,!new)>(xs: seq<T>): (r: seq<T>)
    ensures NoDup(r)
    ensures forall x :: x in r <==> x in xs
  {
    AddAll([], xs)
  }

  /**
   * Insertion order: adding one more element appends it at the end when it is
   * new and changes nothing when it is already present.
   */
  lemma {:induction false} AddAllSnoc<T(!new)>(acc: seq<T>, xs: seq<T>, x: T)
    ensures AddAll(acc, xs + [x]) ==
      if x in AddAll(acc, xs) then AddAll(acc, xs) else AddAll(acc, xs) + [x]
    decreases |xs|
  {
    if xs == [] {
      assert [] + [x] == [x];
      assert [x][1..] == [];
    } else {
      var acc' := if xs[0] in acc then acc else acc + [xs[0]];
      assert (xs + [x])[0] == xs[0];
      assert (xs + [x])[1..] == xs[1..] + [x];
      AddAllSnoc(acc', xs[1..], x);
    }
  }

  /** `Array.from(new Set(xs))` keeps the order of first occurrence. */
  lemma DistinctSnoc<T(!new)>(xs: seq<T>, x: T)
    ensures Distinct(xs + [x]) == if x in xs then Distinct(xs) else Distinct(xs) + [x]
  {
    AddAllSnoc([], xs, x);
  }

  /** Adding elements none of which is present, or repeated, appends them in order. */
  lemma {:induction false} AddAllNew<T(!new)>(acc: seq<T>, xs: seq<T>)
    requires NoDup(acc + xs)
    ensures AddAll(acc, xs) == acc + xs
    decreases |xs|
  {
    if xs != [] {
      assert (acc + xs)[|acc|] == xs[0];
      assert xs[0] !in acc by {
        forall i | 0 <= i < |acc| ensures acc[i] != xs[0] {
          assert (acc + xs)[i] == acc[i];
        }
      }
      assert acc + xs == (acc + [xs[0]]) + xs[1..];
      AddAllNew(acc + [xs[0]], xs[1..]);
    }
  }

  /** A list without duplicates passes through `Distinct` unchanged. */
  lemma DistinctOfNoDup<T(!new)>(xs: seq<T>)
    requires NoDup(xs)
    ensures Distinct(xs) == xs
  {
    assert [] + xs == xs;
    AddAllNew([], xs);
  }

  /** Concatenation of a sequence of sequences. */
  function Flatten<T>(ss: seq<seq<T>>): seq<T> {
    if ss == [] then [] else ss[0] + Flatten(ss[1..])
  }

  /** `a` can be obtained from `b` by deleting elements. */
  predicate IsSubsequence<T(==,!new)>(a: seq<T>, b: seq<T>)
    decreases |b|
  {
    if a == [] then true
    else if b == [] then false
    else if a[0] == b[0] then IsSubsequence(a[1..], b[1..])
    else IsSubsequence(a, b[1..])
  }
}
