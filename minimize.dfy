/** `minimizar_afd`: completion, pruning, table filling, merging and the
    quotient, run in that order on a fresh copy of the automaton. */
module Minimization {
  import opened StringOrder
  import opened Automaton
  import opened Completion
  import opened Reachability
  import opened TableFilling
  import opened Merging
  import opened Quotient

  /** What the table filling leaves for the pruned automaton `p`: the
      sorted pairs, the base marks, and the marks at the fixpoint. */
  ghost predicate Marking(p: Dfa, pairs: set<Pair>, base: set<Pair>, marked: set<Pair>) {
    PairsOf(pairs, p.Q) && PairsHaveKeys(p, pairs) &&
    (forall q :: q in base <==> q in pairs && OneFinal(p.F, q.0, q.1)) &&
    base <= marked <= pairs &&
    (forall q :: q in pairs && q !in marked ==> !LeadsToMarked(p, marked, q.0, q.1)) &&
    (SoundBase(p, pairs, base) ==> forall q :: q in marked ==> !Equivalent(p, q.0, q.1))
  }

  /** The labels merge exactly the equivalent states, and each is the least
      state of its class. */
  ghost predicate LeastLabels(p: Dfa, rep: map<State, State>) {
    Merges(p, rep) &&
    forall q, y {:trigger Equivalent(p, q, y)} :: q in p.Q && y in p.Q && Equivalent(p, q, y) ==> LessEq(rep[q], y)
  }

  /** The dead state is never the blank string. */
  lemma DeadStateNotBlank(Q: set<State>)
    ensures DeadState(Q) != ""
  {
    assert |DeadCandidate(FirstFree(Q, 0))| >= 6;
  }

  /** The search from `q0` in the completed automaton stays among its states,
      or, when `q0` is not one of them, never leaves `q0`. */
  lemma CompletedReach(d: Dfa, q: State)
    requires TargetsInStates(d) && Reachable(Completed(d), q)
    ensures d.q0 in Completed(d).Q ==> q in Completed(d).Q
    ensures d.q0 !in Completed(d).Q ==> q == d.q0
  {
    var c := Completed(d);
    CompletedShape(d);
    CompletedIsTotal(d);
    CompletedTransitions(d);
    if c.q0 in c.Q {
      ClosedContainsReachable(c, c.Q, q);
    } else {
      assert Closed(c, {c.q0}) by {
        forall x, a | x in {c.q0} && a in c.sigma
          ensures Next(c.delta, x, a).None?
        {
          assert (x, a) !in c.delta;
        }
      }
      ClosedContainsReachable(c, {c.q0}, q);
    }
  }

  /** What remains after `remover_inalcancaveis` on `completar_afd(d)`. */
  lemma PrunedFacts(d: Dfa, p: Dfa)
    requires TargetsInStates(d) && PrunedFrom(Completed(d), p)
    ensures p.sigma == d.sigma && p.q0 == d.q0 && d.q0 in p.Q && p.F <= p.Q
    ensures forall k {:trigger p.delta[k]} :: k in p.delta ==>
      k.0 in p.Q && k.1 in p.sigma && p.delta[k] in p.Q && p.delta[k] != ""
    ensures d.q0 in Completed(d).Q ==> Total(p) && p.Q <= Completed(d).Q
    ensures d.q0 !in Completed(d).Q ==> p.Q == {d.q0}
    ensures WellFormed(d) ==> Total(p) && Clean(p)
  {
    var c := Completed(d);
    var dead := DeadState(d.Q);
    CompletedShape(d);
    CompletedIsTotal(d);
    CompletedTransitions(d);
    DeadStateNotBlank(d.Q);
    ReachableStart(c);
    forall k | k in p.delta
      ensures k.0 in p.Q && k.1 in p.sigma && p.delta[k] in p.Q && p.delta[k] != ""
    {
      assert k in c.delta && p.delta[k] == c.delta[k];
      assert k.0 in c.Q && k.1 in c.sigma;
      assert c.delta[k] != "";
      assert Next(c.delta, k.0, k.1) == Some(c.delta[k]);
      ReachableStep(c, k.0, k.1);
    }
    forall q | q in p.Q
      ensures (d.q0 in c.Q ==> q in c.Q) && (d.q0 !in c.Q ==> q == d.q0)
    {
      CompletedReach(d, q);
    }
    if d.q0 in c.Q {
      PruningKeepsTotality(c, p);
    }
  }

  /** The pairs of the pruned automaton have every transition: the lookups of
      `sao_equivalentes` never fail. */
  lemma PairsKeyed(d: Dfa, p: Dfa, pairs: set<Pair>)
    requires TargetsInStates(d) && PrunedFrom(Completed(d), p) && PairsOf(pairs, p.Q)
    ensures PairsHaveKeys(p, pairs)
  {
    var c := Completed(d);
    PrunedFacts(d, p);
    CompletedTransitions(d);
    forall q | q in pairs ensures HasKeys(p, q.0) && HasKeys(p, q.1) {
      if d.q0 in c.Q {
        forall a | a in p.sigma ensures (q.0, a) in p.delta && (q.1, a) in p.delta {
          assert (q.0, a) in c.delta && (q.1, a) in c.delta;
        }
      } else {
        LessIrreflexive(d.q0);
        assert false;
      }
    }
  }

  /** At the fixpoint two states of the pruned automaton form an unmarked
      pair (or are one state) exactly when they are equivalent. */
  lemma TogetherIffEquivalent(d: Dfa, p: Dfa, pairs: set<Pair>, base: set<Pair>, marked: set<Pair>, x: State, y: State)
    requires TargetsInStates(d) && PrunedFrom(Completed(d), p) && Marking(p, pairs, base, marked)
    requires x in p.Q && y in p.Q
    ensures Together(pairs - marked, x, y) <==> Equivalent(p, x, y)
  {
    PrunedFacts(d, p);
    if x != y {
      var U := pairs - marked;
      BaseMarksDistinguishable(p, pairs, base);
      assert SoundBase(p, pairs, base);
      MarkedIffDistinguishable(p, pairs, base, marked, x, y);
      OrderedSymmetric(x, y);
      var o := Ordered(x, y);
      assert o in pairs;
      if (x, y) in U {
        assert Less(x, y);
        assert o == (x, y);
      }
      if (y, x) in U {
        assert Less(y, x);
        assert o == Ordered(y, x) == (y, x);
      }
    }
  }

  /** The unmarked pairs relate the states transitively, as the merge needs. */
  lemma UnmarkedTransitive(d: Dfa, p: Dfa, pairs: set<Pair>, base: set<Pair>, marked: set<Pair>)
    requires TargetsInStates(d) && PrunedFrom(Completed(d), p) && Marking(p, pairs, base, marked)
    ensures Transitive(p.Q, pairs - marked)
  {
    var U := pairs - marked;
    forall x, y, z | x in p.Q && y in p.Q && z in p.Q && Together(U, x, y) && Together(U, y, z)
      ensures Together(U, x, z)
    {
      TogetherIffEquivalent(d, p, pairs, base, marked, x, y);
      TogetherIffEquivalent(d, p, pairs, base, marked, y, z);
      TogetherIffEquivalent(d, p, pairs, base, marked, x, z);
      EquivalentIsEquivalence(p, x, y, z);
    }
  }

  /** The merge over the unmarked pairs labels each state with the least
      state equivalent to it. */
  lemma LabelsFromMerge(d: Dfa, p: Dfa, pairs: set<Pair>, base: set<Pair>, marked: set<Pair>, rep: map<State, State>)
    requires TargetsInStates(d) && PrunedFrom(Completed(d), p) && Marking(p, pairs, base, marked)
    requires Minimal(p.Q, pairs - marked, rep)
    ensures LeastLabels(p, rep)
  {
    var U := pairs - marked;
    UnmarkedTransitive(d, p, pairs, base, marked);
    forall q | q in p.Q ensures Equivalent(p, q, rep[q]) {
      assert ClassMinimum(p.Q, U, rep[q], q);
      TogetherIffEquivalent(d, p, pairs, base, marked, q, rep[q]);
    }
    forall x, y | x in p.Q && y in p.Q && Equivalent(p, x, y) ensures rep[x] == rep[y] && LessEq(rep[x], y) {
      TogetherIffEquivalent(d, p, pairs, base, marked, x, y);
      SameLabelIffTogether(p.Q, U, rep, x, y);
      assert ClassMinimum(p.Q, U, rep[x], x);
    }
  }

  /** The minimised automaton accepts the language of the original. */
  lemma MinimizedLanguage(d: Dfa, p: Dfa, rep: map<State, State>, m: Dfa, w: seq<Symbol>)
    requires WellFormed(d) && PrunedFrom(Completed(d), p)
    requires Merges(p, rep) && Covers(p.delta, rep) && IsQuotient(p, rep, m)
    ensures AcceptsFrom(m, m.q0, w) == AcceptsFrom(d, d.q0, w)
  {
    PrunedFacts(d, p);
    CompletedShape(d);
    QuotientAccepts(p, rep, m, p.q0, w);
    PruningKeepsLanguage(Completed(d), p, p.q0, w);
    CompletionKeepsLanguage(d, w);
  }

  /** For a well-formed input the quotient of the pruned completion is total,
      reads the language of the input, has no two equivalent states and no
      unreachable one. */
  lemma MinimizedCorrect(d: Dfa, p: Dfa, rep: map<State, State>, m: Dfa)
    requires WellFormed(d) && PrunedFrom(Completed(d), p)
    requires LeastLabels(p, rep) && Covers(p.delta, rep) && IsQuotient(p, rep, m)
    ensures Total(m)
    ensures forall w :: AcceptsFrom(m, m.q0, w) == AcceptsFrom(d, d.q0, w)
    ensures forall x, y :: x in m.Q && y in m.Q && x != y ==> !Equivalent(m, x, y)
    ensures forall r :: r in m.Q ==> Reachable(m, r)
  {
    PrunedFacts(d, p);
    QuotientTotal(p, rep, m);
    forall w ensures AcceptsFrom(m, m.q0, w) == AcceptsFrom(d, d.q0, w) {
      MinimizedLanguage(d, p, rep, m, w);
    }
    forall x, y | x in m.Q && y in m.Q && x != y ensures !Equivalent(m, x, y) {
      QuotientDistinguishes(p, rep, m, x, y);
    }
    forall q | q in p.Q ensures Reachable(p, q) {
      PruningKeepsReachability(Completed(d), p, q);
    }
    forall r | r in m.Q ensures Reachable(m, r) {
      QuotientReachable(p, rep, m, r);
    }
  }

  /** The labels are determined by the automaton: the merge order cannot
      change `equivalentes`. */
  lemma LabelsUnique(p: Dfa, r1: map<State, State>, r2: map<State, State>)
    requires LeastLabels(p, r1) && LeastLabels(p, r2)
    ensures r1 == r2
  {
    forall q | q in p.Q ensures r1[q] == r2[q] {
      assert r1[q] in r1.Values && r2[q] in r2.Values;
      assert Equivalent(p, q, r1[q]) && Equivalent(p, q, r2[q]);
      LessEqAntisymmetric(r1[q], r2[q]);
    }
    assert r1.Keys == r2.Keys;
  }

  /** Repeated calls on the same automaton give structurally identical
      results: same pruned copy, same labels, same quotient. */
  lemma MinimizeDeterministic(d: Dfa, p1: Dfa, r1: map<State, State>, m1: Dfa,
                              p2: Dfa, r2: map<State, State>, m2: Dfa)
    requires WellFormed(d)
    requires PrunedFrom(Completed(d), p1) && LeastLabels(p1, r1) && Covers(p1.delta, r1) && IsQuotient(p1, r1, m1)
    requires PrunedFrom(Completed(d), p2) && LeastLabels(p2, r2) && Covers(p2.delta, r2) && IsQuotient(p2, r2, m2)
    ensures p1 == p2 && r1 == r2 && m1 == m2
  {
    assert p1.Q == p2.Q;
    assert p1 == p2;
    LabelsUnique(p1, r1, r2);
    PrunedFacts(d, p1);
    QuotientUnique(p1, r1, m1, m2);
  }

  /** Completing and pruning a clean, total automaton whose states are all
      reachable gives it back: the new dead state is unreachable. */
  lemma PrunedCompletionOfMinimal(m: Dfa, p: Dfa)
    requires Total(m) && Clean(m) && m.q0 in m.Q
    requires forall r :: r in m.Q ==> Reachable(m, r)
    requires PrunedFrom(Completed(m), p)
    ensures p == m
  {
    var c := Completed(m);
    CompletedShape(m);
    CompletedTransitions(m);
    forall q, a | q in m.Q && a in c.sigma && Next(c.delta, q, a).Some?
      ensures Next(c.delta, q, a).value in m.Q
    {
      assert c.delta[(q, a)] == m.delta[(q, a)];
    }
    assert Closed(c, m.Q);
    forall q ensures q in p.Q <==> q in m.Q {
      if Reachable(c, q) {
        ClosedContainsReachable(c, m.Q, q);
      }
      if q in m.Q {
        var w :| Walk(m, m.q0, w) == Some(q);
        CompletionKeepsWalksOfTotal(m, m.q0, w);
        assert Walk(c, c.q0, w) == Some(q);
      }
    }
    assert p.Q == m.Q;
    forall k ensures k in p.delta <==> k in m.delta {
      if k in m.delta {
        assert k.0 in m.Q && k.1 in m.sigma;
      }
      if k.0 in m.Q && k.1 in m.sigma {
        assert Next(m.delta, k.0, k.1).Some?;
      }
    }
    forall k | k in p.delta ensures p.delta[k] == m.delta[k] {
      assert Next(m.delta, k.0, k.1).Some?;
    }
    assert p.delta == m.delta;
    assert p.F == m.F;
  }

  /** Minimising is idempotent on well-formed input: the result is itself
      well-formed, and minimising it again gives it back unchanged. */
  lemma MinimizeIdempotent(d: Dfa, p: Dfa, rep: map<State, State>, m: Dfa,
                           p2: Dfa, rep2: map<State, State>, m2: Dfa)
    requires WellFormed(d)
    requires PrunedFrom(Completed(d), p) && LeastLabels(p, rep) && Covers(p.delta, rep) && IsQuotient(p, rep, m)
    requires PrunedFrom(Completed(m), p2) && LeastLabels(p2, rep2) && Covers(p2.delta, rep2) && IsQuotient(p2, rep2, m2)
    ensures WellFormed(m)
    ensures p2 == m && m2 == m
  {
    MinimizedCorrect(d, p, rep, m);
    PrunedFacts(d, p);
    QuotientClean(p, rep, m);
    PrunedCompletionOfMinimal(m, p2);
    IdentityQuotient(m, rep2);
    QuotientUnique(m, rep2, m2, m);
  }

  /** `minimizar_afd(afd)`. Besides the new automaton it yields, as ghosts,
      the pruned completed copy and the map `equivalentes`. */
  method Minimize(afd: Afd) returns (m: Afd, ghost pruned: Dfa, ghost rep: map<State, State>)
    requires TargetsInStates(afd.Value())
    ensures fresh(m)
    ensures PrunedFrom(Completed(afd.Value()), pruned)
    ensures LeastLabels(pruned, rep) && Covers(pruned.delta, rep) && IsQuotient(pruned, rep, m.Value())
    ensures WellFormed(afd.Value()) ==> Total(m.Value())
    ensures WellFormed(afd.Value()) ==>
      forall w :: AcceptsFrom(m.Value(), m.q0, w) == AcceptsFrom(afd.Value(), afd.q0, w)
    ensures WellFormed(afd.Value()) ==>
      forall x, y :: x in m.Q && y in m.Q && x != y ==> !Equivalent(m.Value(), x, y)
    ensures WellFormed(afd.Value()) ==> forall r :: r in m.Q ==> Reachable(m.Value(), r)
  {
    ghost var d := afd.Value();
    var complete := CompleteAfd(afd);
    RemoveUnreachable(complete);
    pruned := complete.Value();
    PrunedFacts(d, pruned);
    var pairs := BuildPairs(complete.Q);
    PairsKeyed(d, pruned, pairs);
    var base := BaseMarks(pairs, complete.F);
    var marked, rounds := Refine(complete, pairs, base);
    assert Marking(pruned, pairs, base, marked);
    UnmarkedTransitive(d, pruned, pairs, base, marked);
    var equivalents := MergeEquivalent(complete.Q, pairs, marked);
    LabelsFromMerge(d, pruned, pairs, base, marked, equivalents);
    rep := equivalents;
    var newStates := equivalents.Values;
    var newFinals := set q | q in complete.F && q in equivalents :: equivalents[q];
    var newDelta := QuotientDelta(complete.delta, equivalents);
    m := new Afd(complete.sigma, newStates, newDelta, equivalents[complete.q0], newFinals);
    if WellFormed(d) {
      MinimizedCorrect(d, pruned, rep, m.Value());
    }
  }
}
