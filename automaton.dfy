/** The automaton value of main.py (class `AFD` and `criar_afd`), and the
    reading of its transition dictionary shared by every algorithm. */
module Automaton {

  /** States and symbols are Python strings. */
  type State = string
  type Symbol = string

  datatype Option<T> = None | Some(value: T)

  /** A snapshot of an `AFD` object's five fields. */
  datatype Dfa = Dfa(
    sigma: set<Symbol>,
    Q: set<State>,
    delta: map<(State, Symbol), State>,
    q0: State,
    F: set<State>)

  /** The `AFD` object: five public fields that the minimiser overwrites in place. */
  class Afd {
    var sigma: set<Symbol>
    var Q: set<State>
    var delta: map<(State, Symbol), State>
    var q0: State
    var F: set<State>

    constructor (sigma: set<Symbol>, Q: set<State>, delta: map<(State, Symbol), State>, q0: State, F: set<State>)
      ensures Value() == Dfa(sigma, Q, delta, q0, F)
    {
      this.sigma := sigma;
      this.Q := Q;
      this.delta := delta;
      this.q0 := q0;
      this.F := F;
    }

    function Value(): Dfa
      reads this
    {
      Dfa(sigma, Q, delta, q0, F)
    }
  }

  /** `criar_afd`: builds the object with its arguments in the constructor's order,
      validating nothing. */
  method CreateAfd(sigma: set<Symbol>, Q: set<State>, q0: State, F: set<State>, delta: map<(State, Symbol), State>)
    returns (afd: Afd)
    ensures fresh(afd)
    ensures afd.Value() == Dfa(sigma, Q, delta, q0, F)
  {
    afd := new Afd(sigma, Q, delta, q0, F);
  }

  /** `delta.get((q, a))` read as a transition: an absent key and the empty
      string (what the form stores for a blank entry) both mean "none". */
  function Next(delta: map<(State, Symbol), State>, q: State, a: Symbol): Option<State> {
    if (q, a) in delta && delta[(q, a)] != "" then Some(delta[(q, a)]) else None
  }

  /** The extended transition function: None as soon as a symbol is outside
      the alphabet or has no transition. */
  function Walk(d: Dfa, q: State, w: seq<Symbol>): Option<State>
    decreases |w|
  {
    if w == [] then Some(q)
    else if w[0] !in d.sigma then None
    else match Next(d.delta, q, w[0])
      case None => None
      case Some(p) => Walk(d, p, w[1..])
  }

  /** Reading `w` from `q` ends in a final state. */
  predicate AcceptsFrom(d: Dfa, q: State, w: seq<Symbol>) {
    Walk(d, q, w).Some? && Walk(d, q, w).value in d.F
  }

  /** No word tells `x` and `y` apart (Myhill-Nerode equivalence). */
  ghost predicate Equivalent(d: Dfa, x: State, y: State) {
    forall w :: AcceptsFrom(d, x, w) == AcceptsFrom(d, y, w)
  }

  /** Every state has a transition on every symbol, into a state. */
  ghost predicate Total(d: Dfa) {
    forall q, a :: q in d.Q && a in d.sigma ==>
      Next(d.delta, q, a).Some? && Next(d.delta, q, a).value in d.Q
  }

  /** The precondition of the minimiser: every transition out of a state,
      on a symbol, is blank or names a state. */
  ghost predicate TargetsInStates(d: Dfa) {
    forall k :: k in d.delta && k.0 in d.Q && k.1 in d.sigma ==>
      d.delta[k] == "" || d.delta[k] in d.Q
  }

  /** The inputs the language results of minimisation are stated for: the
      start and final states are states, no state is named by the blank
      sentinel, and transitions stay among the states. The engine checks none
      of these; the entry form's `split()` rules out only a blank state name. */
  ghost predicate WellFormed(d: Dfa) {
    d.q0 in d.Q && d.F <= d.Q && "" !in d.Q && TargetsInStates(d)
  }

  /** A Python `for simbolo in palavra`: each character is a one-character symbol. */
  function Symbols(word: string): (w: seq<Symbol>)
    ensures |w| == |word|
    ensures forall i :: 0 <= i < |word| ==> w[i] == [word[i]]
  {
    seq(|word|, i requires 0 <= i < |word| => [word[i]])
  }

  /** Reading a word in two parts. */
  lemma {:induction false} WalkAppend(d: Dfa, q: State, u: seq<Symbol>, v: seq<Symbol>)
    ensures Walk(d, q, u + v) ==
      match Walk(d, q, u)
        case None => None
        case Some(p) => Walk(d, p, v)
    decreases |u|
  {
    if u == [] {
      assert u + v == v;
    } else {
      assert (u + v)[0] == u[0] && (u + v)[1..] == u[1..] + v;
      if u[0] in d.sigma && Next(d.delta, q, u[0]).Some? {
        WalkAppend(d, Next(d.delta, q, u[0]).value, u[1..], v);
      }
    }
  }

  /** Myhill-Nerode equivalence is an equivalence relation. */
  lemma EquivalentIsEquivalence(d: Dfa, x: State, y: State, z: State)
    ensures Equivalent(d, x, x)
    ensures Equivalent(d, x, y) ==> Equivalent(d, y, x)
    ensures Equivalent(d, x, y) && Equivalent(d, y, z) ==> Equivalent(d, x, z)
  {
  }

  /** Equivalent states have equivalent successors. */
  lemma {:induction false} EquivalentSuccessors(d: Dfa, x: State, y: State, a: Symbol)
    requires Equivalent(d, x, y)
    requires a in d.sigma && Next(d.delta, x, a).Some? && Next(d.delta, y, a).Some?
    ensures Equivalent(d, Next(d.delta, x, a).value, Next(d.delta, y, a).value)
  {
    var x', y' := Next(d.delta, x, a).value, Next(d.delta, y, a).value;
    forall w ensures AcceptsFrom(d, x', w) == AcceptsFrom(d, y', w) {
      assert AcceptsFrom(d, x, [a] + w) == AcceptsFrom(d, y, [a] + w);
      assert ([a] + w)[0] == a && ([a] + w)[1..] == w;
    }
  }
}
