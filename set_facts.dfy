/** Cardinality facts about finite sets used by the termination arguments. */
module SetFacts {

  /** A subset is no larger than its superset. */
  lemma {:induction false} SubsetCardinality<T>(a: set<T>, b: set<T>)
    requires a <= b
    ensures |a| <= |b|
    decreases |b|
  {
    if b != {} {
      var x :| x in b;
      SubsetCardinality(a - {x}, b - {x});
    }
  }

  /** Adding a new element of `u` to `m` leaves fewer elements of `u` outside it. */
  lemma GrowthShrinksRest<T>(u: set<T>, m: set<T>, added: set<T>, x: T)
    requires x in added && x in u && x !in m
    ensures |u - (m + added)| < |u - m|
  {
    assert u - (m + added) <= (u - m) - {x};
    SubsetCardinality(u - (m + added), (u - m) - {x});
  }

  /** Moving one element from what is left to what is done keeps them complementary. */
  lemma MoveOne<T>(u: set<T>, done: set<T>, rest: set<T>, x: T)
    requires rest <= u && done == u - rest && x in rest
    ensures rest - {x} <= u && done + {x} == u - (rest - {x})
  {
  }

  /** Removing an element makes a set smaller. */
  lemma RemoveShrinks<T>(s: set<T>, x: T)
    requires x in s
    ensures |s - {x}| < |s|
  {
    assert s == (s - {x}) + {x};
  }
}
