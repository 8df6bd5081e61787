/** Step 5 of `minimizar_afd`: every state gets the least state it is
    unified with, through the unmarked pairs, as its representative. */
module Merging {
  import opened StringOrder
  import opened Automaton
  import opened TableFilling
  import opened SetFacts

  /** `x` and `y` are one state or form one of the pairs left unmarked. */
  predicate Together(unmarked: set<Pair>, x: State, y: State) {
    x == y || (x, y) in unmarked || (y, x) in unmarked
  }

  /** The states of `Q` together with `x`. */
  ghost function Class(Q: set<State>, unmarked: set<Pair>, x: State): set<State> {
    set y | y in Q && Together(unmarked, x, y)
  }

  /** Being together is transitive on `Q`, so that it is an equivalence
      there: its classes are the states the merge unifies. */
  ghost predicate Transitive(Q: set<State>, unmarked: set<Pair>) {
    forall x, y, z {:trigger Together(unmarked, x, y), Together(unmarked, y, z)} ::
      x in Q && y in Q && z in Q && Together(unmarked, x, y) && Together(unmarked, y, z) ==>
      Together(unmarked, x, z)
  }

  /** One step along the transitive relation. */
  lemma Chain(Q: set<State>, unmarked: set<Pair>, x: State, y: State, z: State)
    requires Transitive(Q, unmarked) && x in Q && y in Q && z in Q
    requires Together(unmarked, x, y) && Together(unmarked, y, z)
    ensures Together(unmarked, x, z)
  {
  }

  /** `x` comes first among the states it is together with. */
  ghost predicate Least(Q: set<State>, unmarked: set<Pair>, x: State) {
    forall y {:trigger Together(unmarked, x, y)} :: y in Q && Together(unmarked, x, y) ==> LessEq(x, y)
  }

  /** The states that come first in their class: the labels the merge settles on. */
  ghost function Leaders(Q: set<State>, unmarked: set<Pair>): set<State> {
    set x | x in Q && Least(Q, unmarked, x)
  }

  /** `m` is the least state of the class of `q`. */
  ghost predicate ClassMinimum(Q: set<State>, unmarked: set<Pair>, m: State, q: State) {
    m in Q && Together(unmarked, q, m) &&
    forall y {:trigger Together(unmarked, q, y)} :: y in Q && Together(unmarked, q, y) ==> LessEq(m, y)
  }

  /** The inner `for q in afd_completo.Q` loop: every state whose label equals
      the current label of `q1` or of `q2` is relabelled with `r`, and the
      two of them are. */
  method Relabel(Q: set<State>, rep: map<State, State>, q1: State, q2: State, r: State) returns (rep': map<State, State>)
    requires Labelled(Q, rep) && q1 in Q && q2 in Q && r in Q
    ensures Labelled(Q, rep')
    ensures rep'[q1] == r && rep'[q2] == r
    ensures forall q {:trigger rep'[q]} :: q in Q ==>
      rep'[q] == rep[q] || ((rep[q] == rep[q1] || rep[q] == rep[q2]) && rep'[q] == r)
  {
    rep' := rep;
    var todo := Q;
    while todo != {}
      invariant todo <= Q && Labelled(Q, rep')
      invariant rep'[q1] == rep[q1] || rep'[q1] == r
      invariant rep'[q2] == rep[q2] || rep'[q2] == r
      invariant q1 !in todo ==> rep'[q1] == r
      invariant q2 !in todo ==> rep'[q2] == r
      invariant forall q {:trigger rep'[q]} :: q in Q ==>
        rep'[q] == rep[q] || ((rep[q] == rep[q1] || rep[q] == rep[q2]) && rep'[q] == r)
      invariant forall q {:trigger rep'[q]} :: q in todo ==> rep'[q] == rep[q]
      decreases |todo|
    {
      var q :| q in todo;
      if rep'[q] == rep'[q1] || rep'[q] == rep'[q2] {
        rep' := rep'[q := r];
      }
      todo := todo - {q};
    }
  }

  /** One relabelled state: its old label `before` was the label `a` of `q1`
      or the label `b` of `q2`, and its new one is the smaller of the two.
      When the pairs relate states transitively, the new label is still in
      the state's class, and equals the old one if that was the least of it. */
  lemma RelabelOne(Q: set<State>, U: set<Pair>, q1: State, q2: State, a: State, b: State, q: State, before: State)
    requires Transitive(Q, U)
    requires q1 in Q && q2 in Q && a in Q && b in Q && q in Q
    requires Together(U, q1, q2) && Together(U, q1, a) && Together(U, q2, b) && Together(U, q, before)
    requires before == a || before == b
    ensures Together(U, q, Min(a, b))
    ensures before in Leaders(Q, U) ==> Min(a, b) == before
  {
    var r := Min(a, b);
    Chain(Q, U, a, q1, q2);
    Chain(Q, U, a, q2, b);
    if before == a {
      Chain(Q, U, q, a, b);
    } else {
      Chain(Q, U, q, b, a);
    }
    if before in Leaders(Q, U) {
      assert Together(U, before, r);
      LessEqAntisymmetric(before, r);
    }
  }

  /** What one relabelling keeps, when the pairs relate states transitively:
      every label stays in its state's class, and a label that is already the
      least of its class is never changed. */
  lemma RelabelSettles(Q: set<State>, U: set<Pair>, rep: map<State, State>, rep': map<State, State>,
                       q1: State, q2: State, r: State)
    requires Transitive(Q, U)
    requires Labelled(Q, rep) && Labelled(Q, rep') && q1 in Q && q2 in Q && Together(U, q1, q2)
    requires forall q {:trigger rep[q]} :: q in Q ==> Together(U, q, rep[q])
    requires forall q {:trigger rep'[q]} :: q in Q ==>
      rep'[q] == rep[q] || ((rep[q] == rep[q1] || rep[q] == rep[q2]) && rep'[q] == r)
    requires r == Min(rep[q1], rep[q2])
    ensures forall q {:trigger rep'[q]} :: q in Q ==> Together(U, q, rep'[q])
    ensures forall q {:trigger rep'[q]} :: q in Q && rep[q] in Leaders(Q, U) ==> rep'[q] == rep[q]
  {
    assert rep[q1] in Q && rep[q2] in Q;
    forall q | q in Q
      ensures Together(U, q, rep'[q])
      ensures rep[q] in Leaders(Q, U) ==> rep'[q] == rep[q]
    {
      if rep'[q] != rep[q] {
        assert rep[q] in Q;
        RelabelOne(Q, U, q1, q2, rep[q1], rep[q2], q, rep[q]);
        assert rep'[q] == r;
      }
    }
  }

  /** After the pair `(q1, q2)` is visited: the least states keep their own
      label and each visited pair starting with the least state of its class
      has its second state labelled with it. */
  lemma VisitKeeps(Q: set<State>, U: set<Pair>, done: set<Pair>, rep: map<State, State>, rep': map<State, State>,
                   q1: State, q2: State)
    requires forall p :: p in U ==> p.0 in Q && p.1 in Q
    requires done <= U && (q1, q2) in U
    requires rep.Keys == Q && rep'.Keys == Q && rep'[q1] == rep'[q2]
    requires forall q {:trigger rep[q]} :: q in Leaders(Q, U) ==> rep[q] == q
    requires forall p {:trigger p in done} :: p in done && p.1 in Q && p.0 in Leaders(Q, U) ==> rep[p.1] == p.0
    requires forall q {:trigger rep'[q]} :: q in Q && rep[q] in Leaders(Q, U) ==> rep'[q] == rep[q]
    ensures forall q {:trigger rep'[q]} :: q in Leaders(Q, U) ==> rep'[q] == q
    ensures forall p {:trigger p in done + {(q1, q2)}} :: p in done + {(q1, q2)} && p.1 in Q && p.0 in Leaders(Q, U) ==> rep'[p.1] == p.0
  {
    forall q | q in Leaders(Q, U) ensures rep'[q] == q {
      assert rep[q] == q;
    }
    forall p | p in done + {(q1, q2)} && p.1 in Q && p.0 in Leaders(Q, U) ensures rep'[p.1] == p.0 {
      if p == (q1, q2) {
        assert rep'[q1] == q1;
      } else {
        assert rep[p.1] == p.0;
      }
    }
  }

  /** The unmarked pairs relate states of `Q`, smaller one first. */
  ghost predicate InOrder(Q: set<State>, U: set<Pair>) {
    forall p {:trigger p in U} :: p in U ==> p.0 in Q && p.1 in Q && Less(p.0, p.1)
  }

  /** Every state of `Q` has a label in `Q`. */
  ghost predicate Labelled(Q: set<State>, rep: map<State, State>) {
    rep.Keys == Q && rep.Values <= Q
  }

  /** What the merge keeps while it visits the unmarked pairs `done`: each
      label is in its state's class, the least states keep their own label,
      and a visited pair that starts with the least state of its class has
      its second state labelled with it. */
  ghost predicate Settled(Q: set<State>, U: set<Pair>, done: set<Pair>, rep: map<State, State>) {
    Labelled(Q, rep) &&
    (forall q {:trigger rep[q]} :: q in Q ==> Together(U, q, rep[q])) &&
    (forall q {:trigger rep[q]} :: q in Leaders(Q, U) ==> rep[q] == q) &&
    (forall p {:trigger p in done} :: p in done && p.1 in Q && p.0 in Leaders(Q, U) ==> rep[p.1] == p.0)
  }

  /** One pass of the loop over the unmarked pairs: `(q1, q2)` is visited. If
      the labels differ, both classes are relabelled with the smaller one. */
  method VisitPair(Q: set<State>, ghost U: set<Pair>, ghost done: set<Pair>, rep: map<State, State>,
                   q1: State, q2: State) returns (rep': map<State, State>)
    requires InOrder(Q, U) && done <= U && (q1, q2) in U
    requires Labelled(Q, rep)
    requires Transitive(Q, U) ==> Settled(Q, U, done, rep)
    ensures Labelled(Q, rep')
    ensures Transitive(Q, U) ==> Settled(Q, U, done + {(q1, q2)}, rep')
  {
    rep' := rep;
    assert q1 in Q && q2 in Q;
    if rep[q1] != rep[q2] {
      assert rep[q1] in Q && rep[q2] in Q;
      var r := Min(rep[q1], rep[q2]);
      rep' := Relabel(Q, rep, q1, q2, r);
      if Transitive(Q, U) {
        RelabelSettles(Q, U, rep, rep', q1, q2, r);
      }
    }
    if Transitive(Q, U) {
      VisitKeeps(Q, U, done, rep, rep', q1, q2);
    }
  }

  /** Step 5: `equivalentes`, then the loop over the unmarked pairs. When the
      unmarked pairs relate states transitively (as the marks of the table
      filling do), each state ends up labelled with the least state of its
      class, whatever the order of the iteration over sets. */
  method MergeEquivalent(Q: set<State>, pairs: set<Pair>, marked: set<Pair>) returns (rep: map<State, State>)
    requires PairsOf(pairs, Q)
    ensures Labelled(Q, rep)
    ensures Transitive(Q, pairs - marked) ==> Minimal(Q, pairs - marked, rep)
  {
    ghost var U := pairs - marked;
    ghost var done: set<Pair> := {};
    assert InOrder(Q, U);
    rep := map q | q in Q :: q;
    var rest := pairs - marked;
    while rest != {}
      invariant rest <= U && done == U - rest
      invariant Labelled(Q, rep)
      invariant Transitive(Q, U) ==> Settled(Q, U, done, rep)
      decreases |rest|
    {
      var p :| p in rest;
      rep := VisitPair(Q, U, done, rep, p.0, p.1);
      MoveOne(U, done, rest, p);
      RemoveShrinks(rest, p);
      done := done + {p};
      rest := rest - {p};
    }
    assert done == U;
    if Transitive(Q, U) {
      assert Settled(Q, U, U, rep);
      forall q | q in Q ensures ClassMinimum(Q, U, rep[q], q) {
        MergedToMinimum(Q, U, rep, q);
      }
    }
  }

  /** Once every unmarked pair has been visited, the label of `q` is the least
      state of its class. */
  lemma MergedToMinimum(Q: set<State>, U: set<Pair>, rep: map<State, State>, q: State)
    requires InOrder(Q, U) && Transitive(Q, U) && Settled(Q, U, U, rep) && q in Q
    ensures ClassMinimum(Q, U, rep[q], q)
  {
    assert q in Class(Q, U, q);
    var m := LeastElement(Class(Q, U, q));
    assert Least(Q, U, m) by {
      forall y | y in Q && Together(U, m, y) ensures LessEq(m, y) {
        Chain(Q, U, q, m, y);
        assert y in Class(Q, U, q);
      }
    }
    if m != q {
      LessAsymmetric(m, q);
      assert (m, q) in U;
    }
  }

  /** Every state is labelled with the least state of its class. */
  ghost predicate Minimal(Q: set<State>, U: set<Pair>, rep: map<State, State>) {
    Labelled(Q, rep) && forall q {:trigger rep[q]} :: q in Q ==> ClassMinimum(Q, U, rep[q], q)
  }

  /** Two states get the same label exactly when they are together: in
      particular the two states of every unmarked pair share their label. */
  lemma SameLabelIffTogether(Q: set<State>, U: set<Pair>, rep: map<State, State>, x: State, y: State)
    requires Transitive(Q, U) && Minimal(Q, U, rep) && x in Q && y in Q
    ensures rep[x] == rep[y] <==> Together(U, x, y)
  {
    assert ClassMinimum(Q, U, rep[x], x) && ClassMinimum(Q, U, rep[y], y);
    if Together(U, x, y) {
      Chain(Q, U, x, y, rep[y]);
      Chain(Q, U, y, x, rep[x]);
      LessEqAntisymmetric(rep[x], rep[y]);
    }
    if rep[x] == rep[y] {
      Chain(Q, U, x, rep[x], y);
    }
  }

  /** `equivalentes[equivalentes[q]] == equivalentes[q]`: a label labels itself. */
  lemma LabelIdempotent(Q: set<State>, U: set<Pair>, rep: map<State, State>, q: State)
    requires Transitive(Q, U) && Minimal(Q, U, rep) && q in Q
    ensures rep[q] in Q && rep[rep[q]] == rep[q]
  {
    assert ClassMinimum(Q, U, rep[q], q);
    SameLabelIffTogether(Q, U, rep, q, rep[q]);
  }
}
