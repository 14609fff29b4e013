/**
 * Removing repeats from a sequence while keeping first-seen order: what a JS object
 * used as a set of keys does, and what "push unless already present" does to an array.
 */
module Sequences {

  predicate Distinct<T(==)>(xs: seq<T>) {
    forall i, j :: 0 <= i < j < |xs| ==> xs[i] != xs[j]
  }

  /** The index of the first occurrence of `x` in `xs`. */
  function FirstIndex<T(==)>(xs: seq<T>, x: T): (r: nat)
    requires x in xs
    ensures r < |xs| && xs[r] == x && x !in xs[..r]
  {
    if xs[0] == x then 0
    else
      var r := FirstIndex(xs[1..], x);
      assert xs[..r + 1] == [xs[0]] + xs[1..][..r];
      r + 1
  }

  /**
   * `xs` with every repeat dropped, built element by element from the front as
   * "append unless already present" does.
   */
  function Dedup<T(==)>(xs: seq<T>): seq<T> {
    if xs == [] then []
    else
      var d := Dedup(xs[..|xs| - 1]);
      if xs[|xs| - 1] in d then d else d + [xs[|xs| - 1]]
  }

  /** The deduplicated sequence holds each element of `xs` exactly once, and nothing else. */
  lemma {:induction false} DedupSound<T>(xs: seq<T>)
    ensures Distinct(Dedup(xs))
    ensures forall x :: x in Dedup(xs) <==> x in xs
  {
    if xs != [] {
      var init := xs[..|xs| - 1];
      DedupSound(init);
      assert xs == init + [xs[|xs| - 1]];
    }
  }

  lemma {:induction false} FirstIndexPrefix<T>(xs: seq<T>, y: T, x: T)
    requires x in xs
    ensures x in xs + [y] && FirstIndex(xs + [y], x) == FirstIndex(xs, x)
  {
    if xs[0] != x {
      assert (xs + [y])[1..] == xs[1..] + [y];
      FirstIndexPrefix(xs[1..], y, x);
    }
  }

  /** Elements of the deduplicated sequence come in the order of their first occurrence in `xs`. */
  lemma {:induction false} DedupFirstSeenOrder<T>(xs: seq<T>)
    ensures forall x :: x in Dedup(xs) ==> x in xs
    ensures forall i, j :: 0 <= i < j < |Dedup(xs)| ==>
      FirstIndex(xs, Dedup(xs)[i]) < FirstIndex(xs, Dedup(xs)[j])
  {
    DedupSound(xs);
    if xs != [] {
      var init, last := xs[..|xs| - 1], xs[|xs| - 1];
      assert xs == init + [last];
      DedupSound(init);
      DedupFirstSeenOrder(init);
      var d := Dedup(init);
      forall i, j | 0 <= i < j < |Dedup(xs)|
        ensures FirstIndex(xs, Dedup(xs)[i]) < FirstIndex(xs, Dedup(xs)[j])
      {
        FirstIndexPrefix(init, last, Dedup(xs)[i]);
        if j < |d| {
          FirstIndexPrefix(init, last, Dedup(xs)[j]);
        } else {
          assert last !in init;
          assert FirstIndex(xs, last) == |init|;
        }
      }
    }
  }
}
