/** Step 6 of `minimizar_afd`: the automaton over the representatives, and
    why it reads every word as the automaton it was built from. */
module Quotient {
  import opened Automaton
  import opened Reachability

  /** No state is blank, and the transitions of `d` leave states of `d` on
      symbols of `d`, into states of `d`: what pruning a completed
      well-formed automaton leaves. */
  ghost predicate Clean(d: Dfa) {
    d.F <= d.Q && "" !in d.Q &&
    forall k {:trigger d.delta[k]} :: k in d.delta ==>
      k.0 in d.Q && k.1 in d.sigma && d.delta[k] in d.Q && d.delta[k] != ""
  }

  /** Every source and target of `delta` has a representative. */
  ghost predicate Covers(delta: map<(State, Symbol), State>, rep: map<State, State>) {
    forall k {:trigger delta[k]} :: k in delta ==> k.0 in rep && delta[k] in rep
  }

  /** `nova_delta` built from `delta`: a transition on `a` out of the
      representative of every source, and each entry written by some
      transition of `delta` (the last one the loop visits). */
  ghost predicate QuotientDeltaOf(delta: map<(State, Symbol), State>, rep: map<State, State>,
                                  nd: map<(State, Symbol), State>)
    requires Covers(delta, rep)
  {
    (forall k {:trigger delta[k]} :: k in delta ==> (rep[k.0], k.1) in nd) &&
    (forall k' {:trigger nd[k']} :: k' in nd ==>
      exists k {:trigger delta[k]} :: k in delta && (rep[k.0], k.1) == k' && nd[k'] == rep[delta[k]])
  }

  /** The loop `for (q, simbolo), prox in afd_completo.delta.items()`. */
  method QuotientDelta(delta: map<(State, Symbol), State>, rep: map<State, State>)
    returns (nd: map<(State, Symbol), State>)
    requires Covers(delta, rep)
    ensures QuotientDeltaOf(delta, rep, nd)
  {
    nd := map[];
    var todo := delta.Keys;
    while todo != {}
      invariant todo <= delta.Keys
      invariant forall k {:trigger delta[k]} :: k in delta && k !in todo ==> (rep[k.0], k.1) in nd
      invariant forall k' {:trigger nd[k']} :: k' in nd ==>
        exists k {:trigger delta[k]} :: k in delta && (rep[k.0], k.1) == k' && nd[k'] == rep[delta[k]]
      decreases |todo|
    {
      var k :| k in todo;
      ghost var before := nd;
      nd := nd[(rep[k.0], k.1) := rep[delta[k]]];
      forall k' | k' in nd
        ensures exists j {:trigger delta[j]} :: j in delta && (rep[j.0], j.1) == k' && nd[k'] == rep[delta[j]]
      {
        if k' == (rep[k.0], k.1) {
          assert nd[k'] == rep[delta[k]];
        } else {
          assert k' in before;
          var j :| j in delta && (rep[j.0], j.1) == k' && before[k'] == rep[delta[j]];
          assert nd[k'] == before[k'] == rep[delta[j]];
        }
      }
      todo := todo - {k};
    }
  }

  /** The representatives merge exactly the Myhill-Nerode equivalent states
      of `d`: each state is equivalent to its label, and equivalent states
      share it. */
  ghost predicate Merges(d: Dfa, rep: map<State, State>) {
    rep.Keys == d.Q && rep.Values <= d.Q &&
    (forall q {:trigger rep[q]} :: q in d.Q ==> Equivalent(d, q, rep[q])) &&
    (forall x, y {:trigger Equivalent(d, x, y)} :: x in d.Q && y in d.Q && Equivalent(d, x, y) ==> rep[x] == rep[y])
  }

  /** `afd_minimizado`: the representatives as states, the representative of
      `q0`, the image of `F` and `nova_delta`. */
  ghost predicate IsQuotient(d: Dfa, rep: map<State, State>, m: Dfa)
    requires Covers(d.delta, rep)
  {
    m.sigma == d.sigma && m.Q == rep.Values && d.q0 in rep && m.q0 == rep[d.q0] &&
    m.F == (set q | q in d.F && q in rep :: rep[q]) &&
    QuotientDeltaOf(d.delta, rep, m.delta)
  }

  /** A label is its own label. */
  lemma LabelFixed(d: Dfa, rep: map<State, State>, q: State)
    requires Merges(d, rep) && q in d.Q
    ensures rep[q] in d.Q && rep[rep[q]] == rep[q]
  {
    assert rep[q] in rep.Values;
    assert Equivalent(d, q, rep[q]);
    EquivalentIsEquivalence(d, q, rep[q], q);
  }

  /** Two states share a label exactly when they are equivalent. */
  lemma SameLabelIffEquivalent(d: Dfa, rep: map<State, State>, x: State, y: State)
    requires Merges(d, rep) && x in d.Q && y in d.Q
    ensures rep[x] == rep[y] <==> Equivalent(d, x, y)
  {
    if rep[x] == rep[y] {
      assert Equivalent(d, x, rep[x]) && Equivalent(d, y, rep[y]);
      EquivalentIsEquivalence(d, y, rep[y], x);
      EquivalentIsEquivalence(d, x, rep[x], y);
    }
  }

  /** Whatever order the loop visits the transitions in, each quotient
      transition is the label of the target of any transition it comes from. */
  lemma QuotientDeltaDetermined(d: Dfa, rep: map<State, State>, nd: map<(State, Symbol), State>, k: (State, Symbol))
    requires Total(d) && Clean(d) && Merges(d, rep) && Covers(d.delta, rep)
    requires QuotientDeltaOf(d.delta, rep, nd) && k in d.delta
    ensures (rep[k.0], k.1) in nd && nd[(rep[k.0], k.1)] == rep[d.delta[k]]
  {
    var k' := (rep[k.0], k.1);
    assert k' in nd;
    var j :| j in d.delta && (rep[j.0], j.1) == k' && nd[k'] == rep[d.delta[j]];
    SameLabelIffEquivalent(d, rep, j.0, k.0);
    assert Next(d.delta, j.0, k.1) == Some(d.delta[j]) && Next(d.delta, k.0, k.1) == Some(d.delta[k]);
    EquivalentSuccessors(d, j.0, k.0, k.1);
    SameLabelIffEquivalent(d, rep, d.delta[j], d.delta[k]);
  }

  /** Reading a word in the quotient from the label of `q` ends in the label
      of the state `d` ends in, and fails where `d` fails. */
  lemma {:induction false} QuotientWalk(d: Dfa, rep: map<State, State>, m: Dfa, q: State, w: seq<Symbol>)
    requires Total(d) && Clean(d) && Merges(d, rep) && Covers(d.delta, rep) && IsQuotient(d, rep, m)
    requires q in d.Q
    ensures match Walk(d, q, w)
      case None => Walk(m, rep[q], w) == None
      case Some(x) => x in d.Q && Walk(m, rep[q], w) == Some(rep[x])
    decreases |w|
  {
    if w != [] && w[0] in d.sigma {
      var a := w[0];
      var q' := Next(d.delta, q, a).value;
      assert q' in d.Q && d.delta[(q, a)] == q';
      QuotientDeltaDetermined(d, rep, m.delta, (q, a));
      assert rep[q'] in rep.Values;
      assert Next(m.delta, rep[q], a) == Some(rep[q']);
      QuotientWalk(d, rep, m, q', w[1..]);
    }
  }

  /** A label is final in the quotient exactly when its state is final. */
  lemma QuotientFinal(d: Dfa, rep: map<State, State>, m: Dfa, q: State)
    requires Clean(d) && Merges(d, rep) && Covers(d.delta, rep) && IsQuotient(d, rep, m)
    requires q in d.Q
    ensures rep[q] in m.F <==> q in d.F
  {
    if rep[q] in m.F {
      var f :| f in d.F && f in rep && rep[f] == rep[q];
      SameLabelIffEquivalent(d, rep, f, q);
      assert AcceptsFrom(d, f, []) == AcceptsFrom(d, q, []);
    }
  }

  /** The quotient gives every state the verdicts of its class. */
  lemma QuotientAccepts(d: Dfa, rep: map<State, State>, m: Dfa, q: State, w: seq<Symbol>)
    requires Total(d) && Clean(d) && Merges(d, rep) && Covers(d.delta, rep) && IsQuotient(d, rep, m)
    requires q in d.Q
    ensures AcceptsFrom(m, rep[q], w) == AcceptsFrom(d, q, w)
  {
    QuotientWalk(d, rep, m, q, w);
    if Walk(d, q, w).Some? {
      QuotientFinal(d, rep, m, Walk(d, q, w).value);
    }
  }

  /** The quotient is total: `nova_delta` has a transition on every symbol
      out of every representative, into a representative. */
  lemma QuotientTotal(d: Dfa, rep: map<State, State>, m: Dfa)
    requires Total(d) && Clean(d) && Merges(d, rep) && Covers(d.delta, rep) && IsQuotient(d, rep, m)
    ensures Total(m)
  {
    forall r, a | r in m.Q && a in m.sigma
      ensures Next(m.delta, r, a).Some? && Next(m.delta, r, a).value in m.Q
    {
      var q :| q in rep && rep[q] == r;
      LabelFixed(d, rep, q);
      assert (r, a) in d.delta && d.delta[(r, a)] != "";
      QuotientDeltaDetermined(d, rep, m.delta, (r, a));
      var t := d.delta[(r, a)];
      assert rep[t] in rep.Values && rep[t] in d.Q;
    }
  }

  /** Distinct states of the quotient are told apart by some word. */
  lemma QuotientDistinguishes(d: Dfa, rep: map<State, State>, m: Dfa, x: State, y: State)
    requires Total(d) && Clean(d) && Merges(d, rep) && Covers(d.delta, rep) && IsQuotient(d, rep, m)
    requires x in m.Q && y in m.Q && x != y
    ensures !Equivalent(m, x, y)
  {
    var qx :| qx in rep && rep[qx] == x;
    var qy :| qy in rep && rep[qy] == y;
    LabelFixed(d, rep, qx);
    LabelFixed(d, rep, qy);
    if Equivalent(m, x, y) {
      forall w ensures AcceptsFrom(d, x, w) == AcceptsFrom(d, y, w) {
        QuotientAccepts(d, rep, m, x, w);
        QuotientAccepts(d, rep, m, y, w);
        assert AcceptsFrom(m, x, w) == AcceptsFrom(m, y, w);
      }
      SameLabelIffEquivalent(d, rep, x, y);
      assert false;
    }
  }

  /** When every state of `d` is reachable, so is every state of the quotient. */
  lemma QuotientReachable(d: Dfa, rep: map<State, State>, m: Dfa, r: State)
    requires Total(d) && Clean(d) && Merges(d, rep) && Covers(d.delta, rep) && IsQuotient(d, rep, m)
    requires forall q :: q in d.Q ==> Reachable(d, q)
    requires r in m.Q
    ensures Reachable(m, r)
  {
    var q :| q in rep && rep[q] == r;
    LabelFixed(d, rep, q);
    var w :| Walk(d, d.q0, w) == Some(r);
    QuotientWalk(d, rep, m, d.q0, w);
    assert Walk(m, m.q0, w) == Some(r);
  }

  /** The quotient is clean like the automaton it is built from. */
  lemma QuotientClean(d: Dfa, rep: map<State, State>, m: Dfa)
    requires Clean(d) && Merges(d, rep) && Covers(d.delta, rep) && IsQuotient(d, rep, m)
    ensures Clean(m) && m.q0 in m.Q
  {
    forall q | q in m.F ensures q in m.Q {
      var x :| x in d.F && x in rep && rep[x] == q;
      assert rep[x] in rep.Values;
    }
    forall k' | k' in m.delta
      ensures k'.0 in m.Q && k'.1 in m.sigma && m.delta[k'] in m.Q && m.delta[k'] != ""
    {
      var k :| k in d.delta && (rep[k.0], k.1) == k' && m.delta[k'] == rep[d.delta[k]];
      assert rep[k.0] in rep.Values && rep[d.delta[k]] in rep.Values;
    }
    assert rep[d.q0] in rep.Values;
  }

  /** An automaton with no two equivalent states is its own quotient: every
      state is its own label. */
  lemma IdentityQuotient(d: Dfa, rep: map<State, State>)
    requires Clean(d) && d.q0 in d.Q && Merges(d, rep)
    requires forall x, y :: x in d.Q && y in d.Q && x != y ==> !Equivalent(d, x, y)
    ensures forall q :: q in d.Q ==> rep[q] == q
    ensures Covers(d.delta, rep) && IsQuotient(d, rep, d)
  {
    forall q | q in d.Q ensures rep[q] == q {
      assert rep[q] in rep.Values && Equivalent(d, q, rep[q]);
    }
    forall q | q in d.Q ensures q in rep.Values {
      assert rep[q] == q;
    }
    assert d.Q == rep.Values;
    forall k | k in d.delta ensures k.0 in rep && d.delta[k] in rep { }
    assert d.F == (set q | q in d.F && q in rep :: rep[q]);
    forall k' | k' in d.delta
      ensures exists k {:trigger d.delta[k]} :: k in d.delta && (rep[k.0], k.1) == k' && d.delta[k'] == rep[d.delta[k]]
    {
      assert rep[k'.0] == k'.0 && rep[d.delta[k']] == d.delta[k'];
    }
    forall k | k in d.delta ensures (rep[k.0], k.1) in d.delta {
      assert rep[k.0] == k.0;
    }
  }

  /** Every entry of one quotient transition map is an entry of the other. */
  lemma QuotientDeltaIncluded(d: Dfa, rep: map<State, State>, n1: map<(State, Symbol), State>, n2: map<(State, Symbol), State>)
    requires Total(d) && Clean(d) && Merges(d, rep) && Covers(d.delta, rep)
    requires QuotientDeltaOf(d.delta, rep, n1) && QuotientDeltaOf(d.delta, rep, n2)
    ensures forall k' {:trigger n1[k']} :: k' in n1 ==> k' in n2 && n2[k'] == n1[k']
  {
    forall k' | k' in n1 ensures k' in n2 && n2[k'] == n1[k'] {
      var k :| k in d.delta && (rep[k.0], k.1) == k' && n1[k'] == rep[d.delta[k]];
      QuotientDeltaDetermined(d, rep, n2, k);
    }
  }

  /** Whatever order the transitions are visited in, `nova_delta` and hence
      the whole quotient come out the same. */
  lemma QuotientUnique(d: Dfa, rep: map<State, State>, m1: Dfa, m2: Dfa)
    requires Total(d) && Clean(d) && Merges(d, rep) && Covers(d.delta, rep)
    requires IsQuotient(d, rep, m1) && IsQuotient(d, rep, m2)
    ensures m1 == m2
  {
    QuotientDeltaIncluded(d, rep, m1.delta, m2.delta);
    QuotientDeltaIncluded(d, rep, m2.delta, m1.delta);
    assert m1.delta == m2.delta;
  }
}
