/** `completar_afd`: a fresh dead state and a total transition function. */
module Completion {
  import opened Automaton
  import opened SetFacts

  /** `'q_nulo'` followed by `k` underscores: the names the dead state may get. */
  function DeadCandidate(k: nat): (s: State)
    ensures |s| == 6 + k
  {
    "q_nulo" + seq(k, _ => '_')
  }

  /** The states at least as long as the `k`-th candidate: the ones the
      search for a free name can still run into. */
  function LongNames(Q: set<State>, k: nat): set<State> {
    set s | s in Q && |s| >= 6 + k
  }

  lemma LongNamesShrink(Q: set<State>, k: nat)
    requires DeadCandidate(k) in Q
    ensures |LongNames(Q, k + 1)| < |LongNames(Q, k)|
  {
    var dead := DeadCandidate(k);
    assert dead in LongNames(Q, k);
    SubsetCardinality(LongNames(Q, k + 1), LongNames(Q, k) - {dead});
  }

  /** The first free candidate index from `k` on. */
  function FirstFree(Q: set<State>, k: nat): (j: nat)
    ensures k <= j && DeadCandidate(j) !in Q
    ensures forall i :: k <= i < j ==> DeadCandidate(i) in Q
    decreases |LongNames(Q, k)|
  {
    if DeadCandidate(k) !in Q then k
    else
      LongNamesShrink(Q, k);
      FirstFree(Q, k + 1)
  }

  /** The dead state `completar_afd` picks for the states `Q`. */
  function DeadState(Q: set<State>): State {
    DeadCandidate(FirstFree(Q, 0))
  }

  /** The `while estado_morte in afd.Q` loop that appends underscores. */
  method DeadName(Q: set<State>) returns (dead: State)
    ensures dead == DeadState(Q)
  {
    dead := "q_nulo";
    ghost var k: nat := 0;
    assert dead == DeadCandidate(0);
    while dead in Q
      invariant dead == DeadCandidate(k)
      invariant FirstFree(Q, k) == FirstFree(Q, 0)
      decreases |LongNames(Q, k)|
    {
      LongNamesShrink(Q, k);
      assert seq(k + 1, _ => '_') == seq(k, _ => '_') + ['_'];
      dead := dead + "_";
      k := k + 1;
    }
  }

  /** The pairs `(q, a)` with `q` in `Q` and `a` in `sigma`. */
  function Keys(Q: set<State>, sigma: set<Symbol>): set<(State, Symbol)> {
    set q, a | q in Q && a in sigma :: (q, a)
  }

  /** The completed transition of `(q, a)`: the original one when it is
      defined and not blank, otherwise the dead state. */
  function CompletedTarget(d: Dfa, dead: State, q: State, a: Symbol): State {
    if q in d.Q then
      match Next(d.delta, q, a)
        case Some(p) => p
        case None => dead
    else dead
  }

  /** The automaton `completar_afd(d)` returns. */
  function Completed(d: Dfa): Dfa {
    var dead := DeadState(d.Q);
    Dfa(d.sigma, d.Q + {dead},
        map k | k in Keys(d.Q + {dead}, d.sigma) :: CompletedTarget(d, dead, k.0, k.1),
        d.q0, d.F)
  }

  /** The inner `for simbolo in afd.sigma` loop: the transitions of `q` on
      every symbol are added and nothing else changes. */
  method FillRow(afd: Afd, dead: State, q: State, deltaC: map<(State, Symbol), State>)
    returns (deltaC': map<(State, Symbol), State>)
    requires forall k :: k in deltaC ==> deltaC[k] == CompletedTarget(afd.Value(), dead, k.0, k.1)
    ensures deltaC'.Keys == deltaC.Keys + Keys({q}, afd.sigma)
    ensures forall k :: k in deltaC' ==> deltaC'[k] == CompletedTarget(afd.Value(), dead, k.0, k.1)
  {
    ghost var d := afd.Value();
    deltaC' := deltaC;
    var symbols := afd.sigma;
    while symbols != {}
      invariant symbols <= afd.sigma
      invariant deltaC'.Keys == deltaC.Keys + Keys({q}, afd.sigma - symbols)
      invariant forall k :: k in deltaC' ==> deltaC'[k] == CompletedTarget(d, dead, k.0, k.1)
      decreases |symbols|
    {
      var a :| a in symbols;
      var target;
      if q in afd.Q {
        var next := if (q, a) in afd.delta then afd.delta[(q, a)] else "";
        target := if next != "" then next else dead;
      } else {
        target := dead;
      }
      assert target == CompletedTarget(d, dead, q, a);
      deltaC' := deltaC'[(q, a) := target];
      symbols := symbols - {a};
    }
  }

  /** Moving `q` from the states left to the states done adds its keys. */
  lemma KeysStep(Qc: set<State>, states: set<State>, q: State, sigma: set<Symbol>)
    requires q in states && states <= Qc
    ensures Keys(Qc - states, sigma) + Keys({q}, sigma) == Keys(Qc - (states - {q}), sigma)
  {
  }

  /** `completar_afd`: the nested loops over `Q_completo` and `sigma` filling
      `delta_completo`. */
  method CompleteAfd(afd: Afd) returns (c: Afd)
    ensures fresh(c)
    ensures c.Value() == Completed(afd.Value())
  {
    ghost var d := afd.Value();
    var dead := DeadName(afd.Q);
    var Qc := afd.Q + {dead};
    var deltaC: map<(State, Symbol), State> := map[];
    var states := Qc;
    while states != {}
      invariant states <= Qc
      invariant deltaC.Keys == Keys(Qc - states, afd.sigma)
      invariant forall k :: k in deltaC ==> deltaC[k] == CompletedTarget(d, dead, k.0, k.1)
      decreases |states|
    {
      var q :| q in states;
      deltaC := FillRow(afd, dead, q, deltaC);
      KeysStep(Qc, states, q, afd.sigma);
      states := states - {q};
    }
    assert Qc - states == Qc;
    c := new Afd(afd.sigma, Qc, deltaC, afd.q0, afd.F);
  }

  /** The dead state is `'q_nulo'` with the fewest underscores that gives a
      name outside `Q`; every shorter candidate is taken. */
  lemma DeadStateFresh(Q: set<State>)
    ensures DeadState(Q) !in Q
    ensures exists k: nat :: DeadState(Q) == DeadCandidate(k) && forall i :: 0 <= i < k ==> DeadCandidate(i) in Q
  {
    var k := FirstFree(Q, 0);
    assert DeadState(Q) == DeadCandidate(k);
  }

  /** Completion keeps the alphabet, start and final states, adds exactly the
      dead state, and the dead state is final only if it was already listed
      in `F` (never when `F <= Q`). */
  lemma CompletedShape(d: Dfa)
    ensures Completed(d).sigma == d.sigma && Completed(d).q0 == d.q0 && Completed(d).F == d.F
    ensures Completed(d).Q == d.Q + {DeadState(d.Q)} && DeadState(d.Q) !in d.Q
    ensures d.F <= d.Q ==> DeadState(d.Q) !in Completed(d).F
  {
    DeadStateFresh(d.Q);
  }

  /** Completion is not idempotent: completing again, even an automaton that
      is already total, adds one more dead state, `'q_nulo_'` after
      `'q_nulo'` when neither name was taken. */
  lemma CompletingTwiceAddsState(d: Dfa)
    ensures Completed(d).Q < Completed(Completed(d)).Q
    ensures |Completed(Completed(d)).Q| == |Completed(d).Q| + 1
    ensures "q_nulo" !in d.Q && "q_nulo_" !in d.Q ==>
      Completed(Completed(d)).Q == d.Q + {"q_nulo", "q_nulo_"}
  {
    CompletedShape(d);
    CompletedShape(Completed(d));
    if "q_nulo" !in d.Q && "q_nulo_" !in d.Q {
      assert DeadCandidate(0) == "q_nulo";
      assert DeadState(d.Q) == "q_nulo";
      assert DeadCandidate(1) == "q_nulo_";
      assert DeadCandidate(0) in Completed(d).Q && DeadCandidate(1) !in Completed(d).Q;
      assert FirstFree(Completed(d).Q, 1) == 1;
      assert DeadState(Completed(d).Q) == "q_nulo_";
    }
  }

  /** The completed transition function is defined exactly on `Q' x sigma`;
      it keeps every non-blank transition out of `Q`, sends the missing and
      blank ones to the dead state, and the dead state loops on every symbol. */
  lemma CompletedTransitions(d: Dfa)
    ensures forall q, a :: (q, a) in Completed(d).delta <==> q in Completed(d).Q && a in d.sigma
    ensures forall q, a :: q in d.Q && a in d.sigma ==>
      Completed(d).delta[(q, a)] ==
        if (q, a) in d.delta && d.delta[(q, a)] != "" then d.delta[(q, a)] else DeadState(d.Q)
    ensures forall a :: a in d.sigma ==> Completed(d).delta[(DeadState(d.Q), a)] == DeadState(d.Q)
  {
    var dead := DeadState(d.Q);
    DeadStateFresh(d.Q);
    forall q, a ensures (q, a) in Completed(d).delta <==> q in Completed(d).Q && a in d.sigma {
      if q in Completed(d).Q && a in d.sigma {
        assert (q, a) in Keys(d.Q + {dead}, d.sigma);
      }
    }
  }

  /** After completion every state has a transition on every symbol, into a state. */
  lemma CompletedIsTotal(d: Dfa)
    requires TargetsInStates(d)
    ensures Total(Completed(d))
  {
    var c := Completed(d);
    var dead := DeadState(d.Q);
    CompletedTransitions(d);
    forall q, a | q in c.Q && a in c.sigma
      ensures Next(c.delta, q, a).Some? && Next(c.delta, q, a).value in c.Q
    {
      assert c.delta[(q, a)] != "";
    }
  }

  /** Reading from the dead state never leaves it. */
  lemma {:induction false} DeadStateAbsorbs(d: Dfa, w: seq<Symbol>)
    requires forall i :: 0 <= i < |w| ==> w[i] in d.sigma
    ensures Walk(Completed(d), DeadState(d.Q), w) == Some(DeadState(d.Q))
    decreases |w|
  {
    if w != [] {
      CompletedTransitions(d);
      DeadStateAbsorbs(d, w[1..]);
    }
  }

  /** Completion changes no verdict from a state of `Q`. */
  lemma {:induction false} CompletionKeepsLanguageFrom(d: Dfa, q: State, w: seq<Symbol>)
    requires TargetsInStates(d) && d.F <= d.Q && q in d.Q
    ensures AcceptsFrom(Completed(d), q, w) == AcceptsFrom(d, q, w)
    decreases |w|
  {
    var c := Completed(d);
    CompletedShape(d);
    if w != [] && w[0] in d.sigma {
      CompletedTransitions(d);
      match Next(d.delta, q, w[0])
      case Some(p) =>
        assert Next(c.delta, q, w[0]) == Some(p);
        CompletionKeepsLanguageFrom(d, p, w[1..]);
      case None =>
        var dead := DeadState(d.Q);
        assert Next(c.delta, q, w[0]) == Some(dead);
        if forall i :: 0 <= i < |w[1..]| ==> w[1..][i] in d.sigma {
          DeadStateAbsorbs(d, w[1..]);
        } else {
          var i :| 0 <= i < |w[1..]| && w[1..][i] !in d.sigma;
          WalkStuckOnForeignSymbol(c, dead, w[1..], i);
        }
    }
  }

  /** Completing an automaton that is already total changes no reading from
      one of its states. */
  lemma {:induction false} CompletionKeepsWalksOfTotal(d: Dfa, q: State, w: seq<Symbol>)
    requires Total(d) && q in d.Q
    ensures Walk(Completed(d), q, w) == Walk(d, q, w)
    decreases |w|
  {
    if w != [] && w[0] in d.sigma {
      CompletedTransitions(d);
      var p := Next(d.delta, q, w[0]).value;
      assert Next(Completed(d).delta, q, w[0]) == Some(p);
      CompletionKeepsWalksOfTotal(d, p, w[1..]);
    }
  }

  /** A symbol outside the alphabet stops every reading. */
  lemma {:induction false} WalkStuckOnForeignSymbol(d: Dfa, q: State, w: seq<Symbol>, i: nat)
    requires i < |w| && w[i] !in d.sigma
    ensures Walk(d, q, w) == None
    decreases i
  {
    if i > 0 && w[0] in d.sigma && Next(d.delta, q, w[0]).Some? {
      WalkStuckOnForeignSymbol(d, Next(d.delta, q, w[0]).value, w[1..], i - 1);
    }
  }

  /** Completion preserves the language: a word is accepted by `completar_afd(d)`
      exactly when it is accepted by `d`. */
  lemma CompletionKeepsLanguage(d: Dfa, w: seq<Symbol>)
    requires TargetsInStates(d) && d.F <= d.Q && d.q0 in d.Q
    ensures AcceptsFrom(Completed(d), Completed(d).q0, w) == AcceptsFrom(d, d.q0, w)
  {
    CompletionKeepsLanguageFrom(d, d.q0, w);
  }
}
