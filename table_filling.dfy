/** Steps 2 to 4 of `minimizar_afd`: the pairs of states, the base marks and
    the marking fixpoint with `sao_equivalentes` (the table-filling method). */
module TableFilling {
  import opened StringOrder
  import opened Automaton
  import opened SetFacts

  type Pair = (State, State)

  /** `pares`: the pairs `(q1, q2)` of states with `q1` before `q2` in sorted order. */
  ghost predicate PairsOf(pairs: set<Pair>, Q: set<State>) {
    (forall p {:trigger p in pairs} :: p in pairs ==> p.0 in Q && p.1 in Q && Less(p.0, p.1)) &&
    (forall x, y {:trigger (x, y) in pairs} :: x in Q && y in Q && Less(x, y) ==> (x, y) in pairs)
  }

  /** The stored form of the pair of distinct states `x` and `y`. */
  function Ordered(x: State, y: State): Pair {
    if Less(x, y) then (x, y) else (y, x)
  }

  lemma OrderedSymmetric(x: State, y: State)
    requires x != y
    ensures Ordered(x, y) == Ordered(y, x)
    ensures Less(Ordered(x, y).0, Ordered(x, y).1)
    ensures {Ordered(x, y).0, Ordered(x, y).1} == {x, y}
  {
    LessTotal(x, y);
    if Less(x, y) {
      LessAsymmetric(x, y);
    }
  }

  /** In a sorted list of `Q`, what follows position `i` is exactly the states after `r[i]`. */
  lemma AfterInSorted(r: seq<State>, Q: set<State>, i: nat, x: State)
    requires Enumerates(r, Q) && i < |r|
    ensures x in r[i + 1..] <==> x in Q && Less(r[i], x)
  {
    if x in Q && Less(r[i], x) {
      var l :| 0 <= l < |r| && r[l] == x;
      if l < i {
        LessAsymmetric(r[l], r[i]);
      } else if l == i {
        LessIrreflexive(x);
      } else {
        assert r[i + 1..][l - i - 1] == x;
      }
    }
    if x in r[i + 1..] {
      var l :| i + 1 <= l < |r| && r[l] == x;
    }
  }

  /** Step 2: the nested loops over `enumerate(sorted(Q))`. */
  method BuildPairs(Q: set<State>) returns (pairs: set<Pair>)
    ensures PairsOf(pairs, Q)
  {
    var sorted := Sort(Q);
    pairs := {};
    var i := 0;
    while i < |sorted|
      invariant 0 <= i <= |sorted|
      invariant forall p :: p in pairs <==> p.0 in sorted[..i] && p.1 in Q && Less(p.0, p.1)
    {
      var q1 := sorted[i];
      var j := i + 1;
      while j < |sorted|
        invariant i + 1 <= j <= |sorted|
        invariant forall p :: p in pairs <==>
          (p.0 in sorted[..i] && p.1 in Q && Less(p.0, p.1)) || (p.0 == q1 && p.1 in sorted[i + 1..j])
      {
        pairs := pairs + {(q1, sorted[j])};
        assert sorted[i + 1..j + 1] == sorted[i + 1..j] + [sorted[j]];
        j := j + 1;
      }
      forall x ensures x in sorted[i + 1..] <==> x in Q && Less(q1, x) {
        AfterInSorted(sorted, Q, i, x);
      }
      assert sorted[..i + 1] == sorted[..i] + [q1];
      i := i + 1;
    }
    assert sorted[..|sorted|] == sorted;
  }

  /** Exactly one of the two states is final. */
  predicate OneFinal(F: set<State>, q1: State, q2: State) {
    (q1 in F && q2 !in F) || (q2 in F && q1 !in F)
  }

  /** Step 3: the pairs marked before the fixpoint. */
  method BaseMarks(pairs: set<Pair>, F: set<State>) returns (marked: set<Pair>)
    ensures forall p :: p in marked <==> p in pairs && OneFinal(F, p.0, p.1)
  {
    marked := {};
    var rest := pairs;
    while rest != {}
      invariant rest <= pairs
      invariant forall p :: p in marked <==> p in pairs - rest && OneFinal(F, p.0, p.1)
      decreases |rest|
    {
      var p :| p in rest;
      if OneFinal(F, p.0, p.1) {
        marked := marked + {p};
      }
      rest := rest - {p};
    }
  }

  /** Every symbol has a transition out of `q` in the dictionary. */
  ghost predicate HasKeys(d: Dfa, q: State) {
    forall a :: a in d.sigma ==> (q, a) in d.delta
  }

  /** Some symbol leads `q1` and `q2`, in either order, to a marked pair:
      the negation of `sao_equivalentes`. */
  ghost predicate LeadsToMarked(d: Dfa, marked: set<Pair>, q1: State, q2: State)
    requires HasKeys(d, q1) && HasKeys(d, q2)
  {
    exists a :: a in d.sigma &&
      ((d.delta[(q1, a)], d.delta[(q2, a)]) in marked || (d.delta[(q2, a)], d.delta[(q1, a)]) in marked)
  }

  lemma LeadsToMarkedMonotone(d: Dfa, m1: set<Pair>, m2: set<Pair>, q1: State, q2: State)
    requires HasKeys(d, q1) && HasKeys(d, q2) && m1 <= m2
    requires LeadsToMarked(d, m1, q1, q2)
    ensures LeadsToMarked(d, m2, q1, q2)
  {
    var a :| a in d.sigma &&
      ((d.delta[(q1, a)], d.delta[(q2, a)]) in m1 || (d.delta[(q2, a)], d.delta[(q1, a)]) in m1);
  }

  /** `sao_equivalentes(q1, q2, marcados)`: the loop over the alphabet. */
  method NoMarkedSuccessor(afd: Afd, q1: State, q2: State, marked: set<Pair>) returns (equivalent: bool)
    requires HasKeys(afd.Value(), q1) && HasKeys(afd.Value(), q2)
    ensures equivalent == !LeadsToMarked(afd.Value(), marked, q1, q2)
  {
    ghost var d := afd.Value();
    var symbols := afd.sigma;
    while symbols != {}
      invariant symbols <= d.sigma
      invariant forall a :: a in d.sigma - symbols ==>
        (d.delta[(q1, a)], d.delta[(q2, a)]) !in marked && (d.delta[(q2, a)], d.delta[(q1, a)]) !in marked
      decreases |symbols|
    {
      var a :| a in symbols;
      var next1 := afd.delta[(q1, a)];
      var next2 := afd.delta[(q2, a)];
      if (next1, next2) in marked || (next2, next1) in marked {
        return false;
      }
      symbols := symbols - {a};
    }
    return true;
  }

  /** Every pair's states have every key. */
  ghost predicate PairsHaveKeys(d: Dfa, pairs: set<Pair>) {
    forall p :: p in pairs ==> HasKeys(d, p.0) && HasKeys(d, p.1)
  }

  /** One round of the fixpoint: the unmarked pairs that lead to a marked one. */
  method NewMarks(afd: Afd, pairs: set<Pair>, marked: set<Pair>) returns (added: set<Pair>)
    requires PairsHaveKeys(afd.Value(), pairs)
    ensures forall p :: p in added <==> p in pairs - marked && LeadsToMarked(afd.Value(), marked, p.0, p.1)
  {
    added := {};
    var rest := pairs - marked;
    while rest != {}
      invariant rest <= pairs - marked
      invariant forall p :: p in added <==>
        p in (pairs - marked) - rest && LeadsToMarked(afd.Value(), marked, p.0, p.1)
      decreases |rest|
    {
      var p :| p in rest;
      var equivalent := NoMarkedSuccessor(afd, p.0, p.1, marked);
      if !equivalent {
        added := added + {p};
      }
      rest := rest - {p};
    }
  }

  /** What makes the marks meaningful: the automaton is total over the
      pairs' states and every base mark is a distinguishable pair. */
  ghost predicate SoundBase(d: Dfa, pairs: set<Pair>, base: set<Pair>) {
    Total(d) && (forall p :: p in pairs ==> p.0 in d.Q && p.1 in d.Q) &&
    forall p :: p in base ==> !Equivalent(d, p.0, p.1)
  }

  /** A pair that leads to a distinguishable pair is distinguishable. */
  lemma LeadsToDistinguishable(d: Dfa, marked: set<Pair>, q1: State, q2: State)
    requires Total(d) && q1 in d.Q && q2 in d.Q
    requires HasKeys(d, q1) && HasKeys(d, q2)
    requires forall p :: p in marked ==> !Equivalent(d, p.0, p.1)
    requires LeadsToMarked(d, marked, q1, q2)
    ensures !Equivalent(d, q1, q2)
  {
    var a :| a in d.sigma &&
      ((d.delta[(q1, a)], d.delta[(q2, a)]) in marked || (d.delta[(q2, a)], d.delta[(q1, a)]) in marked);
    if Equivalent(d, q1, q2) {
      EquivalentSuccessors(d, q1, q2, a);
      EquivalentIsEquivalence(d, d.delta[(q1, a)], d.delta[(q2, a)], q1);
      assert false;
    }
  }

  /** A round that adds marks keeps the fixpoint's invariants and makes progress. */
  lemma MarksGrow(d: Dfa, pairs: set<Pair>, base: set<Pair>, marked: set<Pair>, added: set<Pair>)
    requires PairsHaveKeys(d, pairs) && base <= marked <= pairs
    requires forall p :: p in marked && p !in base ==> LeadsToMarked(d, marked, p.0, p.1)
    requires SoundBase(d, pairs, base) ==> forall p :: p in marked ==> !Equivalent(d, p.0, p.1)
    requires forall p :: p in added <==> p in pairs - marked && LeadsToMarked(d, marked, p.0, p.1)
    requires added != {}
    ensures base <= marked + added <= pairs
    ensures forall p :: p in marked + added && p !in base ==> LeadsToMarked(d, marked + added, p.0, p.1)
    ensures SoundBase(d, pairs, base) ==> forall p :: p in marked + added ==> !Equivalent(d, p.0, p.1)
    ensures |marked - base| < |(marked + added) - base|
    ensures |pairs - (marked + added)| < |pairs - marked|
  {
    if SoundBase(d, pairs, base) {
      forall p | p in added ensures !Equivalent(d, p.0, p.1) {
        LeadsToDistinguishable(d, marked, p.0, p.1);
      }
    }
    forall p | p in marked + added && p !in base
      ensures LeadsToMarked(d, marked + added, p.0, p.1)
    {
      LeadsToMarkedMonotone(d, marked, marked + added, p.0, p.1);
    }
    var a :| a in added;
    assert (marked + added) - base == (marked - base) + added;
    SubsetCardinality((marked - base) + {a}, (marked + added) - base);
    GrowthShrinksRest(pairs, marked, added, a);
  }

  /** Step 4: `while True` rounds until one adds nothing. */
  method Refine(afd: Afd, pairs: set<Pair>, base: set<Pair>) returns (marked: set<Pair>, ghost rounds: nat)
    requires PairsHaveKeys(afd.Value(), pairs)
    requires base <= pairs
    ensures base <= marked <= pairs
    ensures forall p :: p in pairs && p !in marked ==> !LeadsToMarked(afd.Value(), marked, p.0, p.1)
    ensures forall p :: p in marked && p !in base ==> LeadsToMarked(afd.Value(), marked, p.0, p.1)
    ensures rounds <= |pairs - base|
    ensures SoundBase(afd.Value(), pairs, base) ==> forall p :: p in marked ==> !Equivalent(afd.Value(), p.0, p.1)
  {
    ghost var d := afd.Value();
    marked := base;
    rounds := 0;
    while true
      invariant base <= marked <= pairs
      invariant forall p :: p in marked && p !in base ==> LeadsToMarked(d, marked, p.0, p.1)
      invariant rounds <= |marked - base|
      invariant SoundBase(d, pairs, base) ==> forall p :: p in marked ==> !Equivalent(d, p.0, p.1)
      decreases |pairs - marked|
    {
      var added := NewMarks(afd, pairs, marked);
      if added == {} {
        break;
      }
      MarksGrow(d, pairs, base, marked, added);
      marked := marked + added;
      rounds := rounds + 1;
    }
    SubsetCardinality(marked - base, pairs - base);
  }

  /** Unmarked pairs agree on every word (completeness of the marking). */
  lemma {:induction false} UnmarkedAgree(d: Dfa, pairs: set<Pair>, marked: set<Pair>, x: State, y: State, w: seq<Symbol>)
    requires Total(d) && PairsOf(pairs, d.Q) && marked <= pairs
    requires forall p :: p in pairs && OneFinal(d.F, p.0, p.1) ==> p in marked
    requires PairsHaveKeys(d, pairs)
    requires forall p :: p in pairs && p !in marked ==> !LeadsToMarked(d, marked, p.0, p.1)
    requires x in d.Q && y in d.Q && (x == y || Ordered(x, y) !in marked)
    ensures AcceptsFrom(d, x, w) == AcceptsFrom(d, y, w)
    decreases |w|
  {
    if x != y {
      OrderedSymmetric(x, y);
      var p := Ordered(x, y);
      assert p in pairs;
      if w == [] {
        assert !OneFinal(d.F, p.0, p.1);
      } else {
        var a := w[0];
        if a in d.sigma {
          var x', y' := d.delta[(x, a)], d.delta[(y, a)];
          assert Next(d.delta, x, a) == Some(x') && Next(d.delta, y, a) == Some(y');
          if x' != y' {
            OrderedSymmetric(x', y');
          }
          UnmarkedAgree(d, pairs, marked, x', y', w[1..]);
        }
      }
    }
  }

  /** Myhill-Nerode: once the fixpoint is reached from the base marks, two
      distinct states are marked exactly when some word tells them apart. */
  lemma MarkedIffDistinguishable(d: Dfa, pairs: set<Pair>, base: set<Pair>, marked: set<Pair>, x: State, y: State)
    requires Total(d) && PairsOf(pairs, d.Q) && base <= marked <= pairs
    requires forall p :: p in base <==> p in pairs && OneFinal(d.F, p.0, p.1)
    requires forall p :: p in pairs && p !in marked ==> !LeadsToMarked(d, marked, p.0, p.1)
    requires forall p :: p in marked ==> !Equivalent(d, p.0, p.1)
    requires x in d.Q && y in d.Q && x != y
    ensures Ordered(x, y) in marked <==> !Equivalent(d, x, y)
  {
    OrderedSymmetric(x, y);
    var p := Ordered(x, y);
    assert PairsHaveKeys(d, pairs) by {
      forall p | p in pairs ensures HasKeys(d, p.0) && HasKeys(d, p.1) {
      }
    }
    if p in marked {
      if p.0 == x {
      } else {
        EquivalentIsEquivalence(d, p.0, p.1, x);
      }
    } else {
      forall w ensures AcceptsFrom(d, x, w) == AcceptsFrom(d, y, w) {
        UnmarkedAgree(d, pairs, marked, x, y, w);
      }
    }
  }

  /** The base marks are distinguishable, by the empty word. */
  lemma BaseMarksDistinguishable(d: Dfa, pairs: set<Pair>, base: set<Pair>)
    requires forall p :: p in base <==> p in pairs && OneFinal(d.F, p.0, p.1)
    ensures forall p :: p in base ==> !Equivalent(d, p.0, p.1)
  {
    forall p | p in base ensures !Equivalent(d, p.0, p.1) {
      assert AcceptsFrom(d, p.0, []) != AcceptsFrom(d, p.1, []);
    }
  }
}
