/** `validar_palavra`: running a word through the automaton, with a trace. */
module Simulation {
  import opened Automaton

  /** One entry of the trace `etapas`; the program's Portuguese wording is
      left abstract. */
  datatype Step =
    | Start(state: State)                                 // "Estado inicial: q"
    | Move(source: State, symbol: Symbol, target: State)  // "Transição: δ(q, a) = p"
    | BadSymbol(symbol: Symbol)                           // symbol not in the alphabet
    | NoTransition(source: State, symbol: Symbol)         // no transition defined
    | Accept                                              // the word is accepted
    | Reject                                              // the word is not accepted

  /** Reference definition of the scan from state `q` over `w`: the verdict
      and the trace entries after the initial one. */
  function RunFrom(d: Dfa, q: State, w: seq<Symbol>): (bool, seq<Step>)
    decreases |w|
  {
    if w == [] then
      if q in d.F then (true, [Accept]) else (false, [Reject])
    else if w[0] !in d.sigma then
      (false, [BadSymbol(w[0])])
    else match Next(d.delta, q, w[0])
      case None => (false, [NoTransition(q, w[0])])
      case Some(p) =>
        var (ok, steps) := RunFrom(d, p, w[1..]);
        (ok, [Move(q, w[0], p)] + steps)
  }

  /** The result of `validar_palavra(afd, palavra)`. */
  function Simulate(d: Dfa, word: string): (bool, seq<Step>) {
    var (ok, steps) := RunFrom(d, d.q0, Symbols(word));
    (ok, [Start(d.q0)] + steps)
  }

  /** `validar_palavra`: the loop over the word, appending to the trace. */
  method Validate(afd: Afd, word: string) returns (accepted: bool, trace: seq<Step>)
    ensures (accepted, trace) == Simulate(afd.Value(), word)
  {
    ghost var d := afd.Value();
    ghost var w := Symbols(word);
    var current := afd.q0;
    trace := [Start(current)];
    var i := 0;
    while i < |word|
      invariant 0 <= i <= |word|
      invariant Simulate(d, word) ==
        (RunFrom(d, current, w[i..]).0, trace + RunFrom(d, current, w[i..]).1)
    {
      var symbol := [word[i]];
      assert w[i..][0] == symbol && w[i..][1..] == w[i + 1..];
      if symbol !in afd.sigma {
        trace := trace + [BadSymbol(symbol)];
        return false, trace;
      }
      var next := if (current, symbol) in afd.delta then afd.delta[(current, symbol)] else "";
      if next == "" {
        trace := trace + [NoTransition(current, symbol)];
        return false, trace;
      }
      assert Next(d.delta, current, symbol) == Some(next);
      assert RunFrom(d, current, w[i..]) ==
        (RunFrom(d, next, w[i + 1..]).0, [Move(current, symbol, next)] + RunFrom(d, next, w[i + 1..]).1);
      var move := Move(current, symbol, next);
      assert (trace + [move]) + RunFrom(d, next, w[i + 1..]).1 == trace + ([move] + RunFrom(d, next, w[i + 1..]).1);
      trace := trace + [move];
      current := next;
      i := i + 1;
    }
    if current in afd.F {
      trace := trace + [Accept];
      accepted := true;
    } else {
      trace := trace + [Reject];
      accepted := false;
    }
  }

  /** The verdict is acceptance by the extended transition function. */
  lemma {:induction false} RunFromVerdict(d: Dfa, q: State, w: seq<Symbol>)
    ensures RunFrom(d, q, w).0 <==> AcceptsFrom(d, q, w)
    decreases |w|
  {
    if w != [] && w[0] in d.sigma && Next(d.delta, q, w[0]).Some? {
      RunFromVerdict(d, Next(d.delta, q, w[0]).value, w[1..]);
    }
  }

  /** The first `k` entries of a trace record the moves of reading `w[..k]` from `q`. */
  ghost predicate MovesAlong(d: Dfa, q: State, w: seq<Symbol>, steps: seq<Step>, k: nat) {
    k <= |w| && k <= |steps| &&
    forall i :: 0 <= i < k ==>
      steps[i].Move? && steps[i].symbol == w[i] &&
      Walk(d, q, w[..i]) == Some(steps[i].source) &&
      Walk(d, q, w[..i + 1]) == Some(steps[i].target)
  }

  /** Reading all of `w` to `p`: one move per symbol, then the verdict on `p`. */
  lemma {:induction false} RunFromConsumes(d: Dfa, q: State, w: seq<Symbol>, p: State)
    requires Walk(d, q, w) == Some(p)
    ensures RunFrom(d, q, w).0 == (p in d.F)
    ensures |RunFrom(d, q, w).1| == |w| + 1
    ensures MovesAlong(d, q, w, RunFrom(d, q, w).1, |w|)
    ensures RunFrom(d, q, w).1[|w|] == if p in d.F then Accept else Reject
    decreases |w|
  {
    if w != [] {
      var q' := Next(d.delta, q, w[0]).value;
      RunFromConsumes(d, q', w[1..], p);
      var steps := RunFrom(d, q, w).1;
      var rest := RunFrom(d, q', w[1..]).1;
      assert steps == [Move(q, w[0], q')] + rest;
      forall i | 0 <= i < |w|
        ensures steps[i].Move? && steps[i].symbol == w[i]
        ensures Walk(d, q, w[..i]) == Some(steps[i].source)
        ensures Walk(d, q, w[..i + 1]) == Some(steps[i].target)
      {
        assert w[..i + 1][0] == w[0] && w[..i + 1][1..] == w[1..][..i];
        if i > 0 {
          assert w[..i][0] == w[0] && w[..i][1..] == w[1..][..i - 1];
          assert steps[i] == rest[i - 1];
        }
      }
    }
  }

  /** Reading stops at position `k` (bad symbol or missing transition from
      `p`, where `w[..k]` led): a move per symbol before it, then the error. */
  lemma {:induction false} RunFromStops(d: Dfa, q: State, w: seq<Symbol>, k: nat, p: State)
    requires k < |w| && Walk(d, q, w[..k]) == Some(p)
    requires w[k] !in d.sigma || Next(d.delta, p, w[k]).None?
    ensures !RunFrom(d, q, w).0
    ensures |RunFrom(d, q, w).1| == k + 1
    ensures MovesAlong(d, q, w, RunFrom(d, q, w).1, k)
    ensures RunFrom(d, q, w).1[k] ==
      if w[k] !in d.sigma then BadSymbol(w[k]) else NoTransition(p, w[k])
    decreases k
  {
    if k > 0 {
      assert w[..k][0] == w[0] && w[..k][1..] == w[1..][..k - 1];
      var q' := Next(d.delta, q, w[0]).value;
      RunFromStops(d, q', w[1..], k - 1, p);
      var steps := RunFrom(d, q, w).1;
      var rest := RunFrom(d, q', w[1..]).1;
      assert steps == [Move(q, w[0], q')] + rest;
      forall i | 0 <= i < k
        ensures steps[i].Move? && steps[i].symbol == w[i]
        ensures Walk(d, q, w[..i]) == Some(steps[i].source)
        ensures Walk(d, q, w[..i + 1]) == Some(steps[i].target)
      {
        assert w[..i + 1][0] == w[0] && w[..i + 1][1..] == w[1..][..i];
        if i > 0 {
          assert w[..i][0] == w[0] && w[..i][1..] == w[1..][..i - 1];
          assert steps[i] == rest[i - 1];
        }
      }
    } else {
      assert w[..0] == [];
    }
  }

  /** `validar_palavra` accepts exactly the words that lead from `q0` to a final state. */
  lemma SimulateAcceptsIff(d: Dfa, word: string)
    ensures Simulate(d, word).0 <==> AcceptsFrom(d, d.q0, Symbols(word))
  {
    RunFromVerdict(d, d.q0, Symbols(word));
  }

  /** A word read to its end ends in `p`: acceptance is `p in F`, and the
      trace is the initial entry, one move per symbol and the verdict. */
  lemma SimulateConsumesAll(d: Dfa, word: string, p: State)
    requires Walk(d, d.q0, Symbols(word)) == Some(p)
    ensures Simulate(d, word).0 == (p in d.F)
    ensures |Simulate(d, word).1| == |word| + 2
    ensures Simulate(d, word).1[0] == Start(d.q0)
    ensures MovesAlong(d, d.q0, Symbols(word), Simulate(d, word).1[1..], |word|)
    ensures Simulate(d, word).1[|word| + 1] == if p in d.F then Accept else Reject
  {
    RunFromConsumes(d, d.q0, Symbols(word), p);
    assert Simulate(d, word).1[1..] == RunFrom(d, d.q0, Symbols(word)).1;
  }

  /** The first symbol of the word that is outside the alphabet, or has no
      transition from the state reached so far, rejects the word: the trace
      is the initial entry, the `k` moves before it and one error entry. */
  lemma SimulateStopsEarly(d: Dfa, word: string, k: nat, p: State)
    requires k < |word| && Walk(d, d.q0, Symbols(word)[..k]) == Some(p)
    requires [word[k]] !in d.sigma || Next(d.delta, p, [word[k]]).None?
    ensures !Simulate(d, word).0
    ensures |Simulate(d, word).1| == k + 2
    ensures Simulate(d, word).1[0] == Start(d.q0)
    ensures MovesAlong(d, d.q0, Symbols(word), Simulate(d, word).1[1..], k)
    ensures Simulate(d, word).1[k + 1] ==
      if [word[k]] !in d.sigma then BadSymbol([word[k]]) else NoTransition(p, [word[k]])
  {
    RunFromStops(d, d.q0, Symbols(word), k, p);
    assert Simulate(d, word).1[1..] == RunFrom(d, d.q0, Symbols(word)).1;
  }
}
