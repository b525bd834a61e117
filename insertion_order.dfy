/**
  * Collections that remember the order in which their members first
  * arrived: a JavaScript `Set` filled by `add`, and the keys of an object
  * filled by assignment, are both the distinct values of the input in
  * order of first appearance.
  */
module InsertionOrder {

  /** Whether no value occurs twice in `xs`. */
  predicate NoDuplicates<T(==)>(xs: seq<T>) {
    forall i, j :: 0 <= i < j < |xs| ==> xs[i] != xs[j]
  }

  /** The distinct values of `xs`, each where it first occurs: what adding `xs` one by one to an empty `Set` holds. */
  function Distinct<T(==)>(xs: seq<T>): (d: seq<T>)
    ensures |d| <= |xs|
    ensures |xs| == 0 ==> d == []
    ensures |xs| > 0 ==> xs[|xs| - 1] in d
  {
    if |xs| == 0 then []
    else
      var seen := Distinct(xs[..|xs| - 1]);
      if xs[|xs| - 1] in seen then seen else seen + [xs[|xs| - 1]]
  }

  /** Adding one more value: it is appended exactly when it is new. */
  lemma DistinctSnoc<T>(xs: seq<T>, x: T)
    ensures Distinct(xs + [x]) == if x in Distinct(xs) then Distinct(xs) else Distinct(xs) + [x]
  {
    assert (xs + [x])[..|xs|] == xs;
  }

  /** The distinct values are exactly the values of the input. */
  lemma {:induction false} DistinctSameElements<T>(xs: seq<T>)
    ensures forall x :: x in Distinct(xs) <==> x in xs
  {
    if |xs| > 0 {
      var init := xs[..|xs| - 1];
      DistinctSameElements(init);
      assert xs == init + [xs[|xs| - 1]];
    }
  }

  /** No value is listed twice. */
  lemma {:induction false} DistinctNoDuplicates<T>(xs: seq<T>)
    ensures NoDuplicates(Distinct(xs))
  {
    if |xs| > 0 {
      DistinctNoDuplicates(xs[..|xs| - 1]);
    }
  }

  /** The distinct values of a prefix are a prefix of the distinct values: a value's place is fixed when it first arrives. */
  lemma {:induction false} DistinctOfPrefix<T>(xs: seq<T>, k: nat)
    requires k <= |xs|
    ensures Distinct(xs[..k]) <= Distinct(xs)
  {
    if k < |xs| {
      var init := xs[..|xs| - 1];
      DistinctOfPrefix(init, k);
      assert init[..k] == xs[..k];
    } else {
      assert xs[..k] == xs;
    }
  }

  /** An input without duplicates is kept as it is; in particular taking the distinct values twice changes nothing. */
  lemma {:induction false} DistinctOfDistinct<T>(xs: seq<T>)
    requires NoDuplicates(xs)
    ensures Distinct(xs) == xs
  {
    if |xs| > 0 {
      var init := xs[..|xs| - 1];
      DistinctOfDistinct(init);
      assert xs[|xs| - 1] !in init;
    }
  }

  /** Adding the same values to a `Set` again adds nothing. */
  lemma DistinctIdempotent<T>(xs: seq<T>)
    ensures Distinct(Distinct(xs)) == Distinct(xs)
  {
    DistinctNoDuplicates(xs);
    DistinctOfDistinct(Distinct(xs));
  }
}
