/** `remover_inalcancaveis`: depth-first search from `q0`, then pruning of
    the object's fields in place. */
module Reachability {
  import opened Automaton
  import opened SetFacts

  /** Some word leads from `q0` to `q`. */
  ghost predicate Reachable(d: Dfa, q: State) {
    exists w :: Walk(d, d.q0, w) == Some(q)
  }

  /** `S` holds every target of a transition out of it. */
  ghost predicate Closed(d: Dfa, S: set<State>) {
    forall q, a :: q in S && a in d.sigma && Next(d.delta, q, a).Some? ==> Next(d.delta, q, a).value in S
  }

  /** What `remover_inalcancaveis` leaves in an object that held `d`: the
      reachable states, the transitions out of them, and the reachable
      final states. */
  ghost predicate PrunedFrom(d: Dfa, p: Dfa) {
    p.sigma == d.sigma && p.q0 == d.q0 &&
    (forall q :: q in p.Q <==> Reachable(d, q)) &&
    p.delta == (map k | k in d.delta && k.0 in p.Q :: d.delta[k]) &&
    p.F == d.F * p.Q
  }

  lemma ReachableStart(d: Dfa)
    ensures Reachable(d, d.q0)
  {
    assert Walk(d, d.q0, []) == Some(d.q0);
  }

  /** One more transition from a reachable state reaches a state. */
  lemma ReachableStep(d: Dfa, q: State, a: Symbol)
    requires Reachable(d, q) && a in d.sigma && Next(d.delta, q, a).Some?
    ensures Reachable(d, Next(d.delta, q, a).value)
  {
    var w :| Walk(d, d.q0, w) == Some(q);
    WalkAppend(d, d.q0, w, [a]);
    assert Walk(d, d.q0, w + [a]) == Some(Next(d.delta, q, a).value);
  }

  /** A closed set containing `q` contains everything read from `q`. */
  lemma {:induction false} ClosedKeepsWalks(d: Dfa, S: set<State>, q: State, w: seq<Symbol>)
    requires Closed(d, S) && q in S && Walk(d, q, w).Some?
    ensures Walk(d, q, w).value in S
    decreases |w|
  {
    if w != [] {
      ClosedKeepsWalks(d, S, Next(d.delta, q, w[0]).value, w[1..]);
    }
  }

  /** The reachable states are the least closed set containing `q0`. */
  lemma ClosedContainsReachable(d: Dfa, S: set<State>, q: State)
    requires Closed(d, S) && d.q0 in S && Reachable(d, q)
    ensures q in S
  {
    var w :| Walk(d, d.q0, w) == Some(q);
    ClosedKeepsWalks(d, S, d.q0, w);
  }

  /** The states one transition away from `q`. */
  function Successors(d: Dfa, q: State): set<State> {
    set a | a in d.sigma && Next(d.delta, q, a).Some? :: Next(d.delta, q, a).value
  }

  lemma SuccessorsReachable(d: Dfa, q: State)
    requires Reachable(d, q)
    ensures forall x :: x in Successors(d, q) ==> Reachable(d, x)
  {
    forall x | x in Successors(d, q) ensures Reachable(d, x) {
      var a :| a in d.sigma && Next(d.delta, q, a) == Some(x);
      ReachableStep(d, q, a);
    }
  }

  /** A set that holds the successors of each of its states is closed. */
  lemma SuccessorsClosed(d: Dfa, S: set<State>)
    requires forall q :: q in S ==> Successors(d, q) <= S
    ensures Closed(d, S)
  {
    forall q, a | q in S && a in d.sigma && Next(d.delta, q, a).Some?
      ensures Next(d.delta, q, a).value in S
    {
      assert Next(d.delta, q, a).value in Successors(d, q);
    }
  }

  /** The targets of the transition dictionary: where the stack can get its states from. */
  function Targets(delta: map<(State, Symbol), State>): set<State> {
    set k | k in delta :: delta[k]
  }

  /** The inner `for simbolo in afd.sigma` loop: pushes each successor of `q`
      that is not yet in `reach`. */
  method PushSuccessors(afd: Afd, q: State, reach: set<State>, stack: seq<State>) returns (stack': seq<State>)
    ensures |stack| <= |stack'| && stack'[..|stack|] == stack
    ensures forall i :: |stack| <= i < |stack'| ==> stack'[i] in Successors(afd.Value(), q) && stack'[i] !in reach
    ensures forall x :: x in Successors(afd.Value(), q) ==> x in reach || x in stack'
  {
    ghost var d := afd.Value();
    stack' := stack;
    var symbols := afd.sigma;
    while symbols != {}
      invariant symbols <= afd.sigma
      invariant |stack| <= |stack'| && stack'[..|stack|] == stack
      invariant forall i :: |stack| <= i < |stack'| ==> stack'[i] in Successors(d, q) && stack'[i] !in reach
      invariant forall a :: a in d.sigma - symbols && Next(d.delta, q, a).Some? ==>
        Next(d.delta, q, a).value in reach || Next(d.delta, q, a).value in stack'
      decreases |symbols|
    {
      var a :| a in symbols;
      var next := if (q, a) in afd.delta then afd.delta[(q, a)] else "";
      if next != "" && next !in reach {
        assert next in Successors(d, q);
        stack' := stack' + [next];
      }
      symbols := symbols - {a};
    }
    forall x | x in Successors(d, q) ensures x in reach || x in stack' {
      var a :| a in d.sigma && Next(d.delta, q, a) == Some(x);
    }
  }

  lemma SuccessorsAreTargets(d: Dfa, q: State)
    ensures Successors(d, q) <= Targets(d.delta)
  {
    forall x | x in Successors(d, q) ensures x in Targets(d.delta) {
      var a :| a in d.sigma && Next(d.delta, q, a) == Some(x);
      assert d.delta[(q, a)] == x;
    }
  }

  /** A stack extended by elements of `S` keeps its old elements and gains
      only elements of `S`. */
  lemma StackAfterPush(before: seq<State>, stack: seq<State>, S: set<State>)
    requires |before| <= |stack| && stack[..|before|] == before
    requires forall i :: |before| <= i < |stack| ==> stack[i] in S
    ensures forall x :: x in before ==> x in stack
    ensures forall x :: x in stack ==> x in before || x in S
  {
    forall x | x in before ensures x in stack {
      var i :| 0 <= i < |before| && before[i] == x;
      assert stack[i] == x;
    }
    forall x | x in stack ensures x in before || x in S {
      var i :| 0 <= i < |stack| && stack[i] == x;
      if i < |before| {
        assert before[i] == x;
      }
    }
  }

  /** The loop invariant of the search: the stack holds reachable states
      among `q0` and the targets, every visited state is reachable, `q0` is
      visited or pending, and the successors of a visited state are visited
      or pending. */
  ghost predicate Searching(d: Dfa, universe: set<State>, reach: set<State>, stack: seq<State>) {
    (forall x :: x in stack ==> x in universe && Reachable(d, x)) &&
    (forall q :: q in reach ==> Reachable(d, q)) &&
    (d.q0 in reach || d.q0 in stack) &&
    (forall q :: q in reach ==> forall x :: x in Successors(d, q) ==> x in reach || x in stack)
  }

  /** Popping a state already visited keeps the invariant. */
  lemma SearchSkip(d: Dfa, universe: set<State>, reach: set<State>, rest: seq<State>, q: State)
    requires Searching(d, universe, reach, rest + [q]) && q in reach
    ensures Searching(d, universe, reach, rest) && reach + {q} == reach
  {
    forall p, x | p in reach && x in Successors(d, p) ensures x in reach || x in rest {
      assert x in reach || x in rest + [q];
    }
  }

  /** Visiting a popped new state and pushing its unvisited successors keeps
      the invariant. */
  lemma SearchVisit(d: Dfa, universe: set<State>, reach: set<State>, rest: seq<State>, q: State, stack: seq<State>)
    requires Searching(d, universe, reach, rest + [q]) && q !in reach
    requires Successors(d, q) <= universe
    requires |rest| <= |stack| && stack[..|rest|] == rest
    requires forall i :: |rest| <= i < |stack| ==> stack[i] in Successors(d, q)
    requires forall x :: x in Successors(d, q) ==> x in reach + {q} || x in stack
    ensures Searching(d, universe, reach + {q}, stack)
    ensures |universe - (reach + {q})| < |universe - reach|
  {
    assert q in rest + [q];
    assert universe - (reach + {q}) == (universe - reach) - {q};
    RemoveShrinks(universe - reach, q);
    StackAfterPush(rest, stack, Successors(d, q));
    assert Reachable(d, q);
    SuccessorsReachable(d, q);
    forall x | x in stack ensures x in universe && Reachable(d, x) {
      if x in rest {
        assert x in rest + [q];
      }
    }
    forall p, x | p in reach + {q} && x in Successors(d, p) ensures x in reach + {q} || x in stack {
      if p != q {
        assert x in reach || x in rest + [q];
      }
    }
    assert d.q0 in reach || d.q0 in rest + [q];
  }

  /** One turn of `while pilha`: pop a state and, if it is new, mark it
      visited and push its successors not visited yet (so never itself). */
  method SearchStep(afd: Afd, ghost universe: set<State>, reach: set<State>, stack: seq<State>)
    returns (reach': set<State>, stack': seq<State>)
    requires stack != [] && universe == {afd.q0} + Targets(afd.delta)
    requires Searching(afd.Value(), universe, reach, stack)
    ensures Searching(afd.Value(), universe, reach', stack')
    ensures reach' == reach + {stack[|stack| - 1]}
    ensures |stack| - 1 <= |stack'| && stack'[..|stack| - 1] == stack[..|stack| - 1]
    ensures forall i :: |stack| - 1 <= i < |stack'| ==> stack'[i] !in reach'
    ensures |universe - reach'| < |universe - reach| || (reach' == reach && |stack'| < |stack|)
  {
    ghost var d := afd.Value();
    var q := stack[|stack| - 1];
    stack' := stack[..|stack| - 1];
    assert stack == stack' + [q];
    reach' := reach;
    if q !in reach {
      ghost var rest := stack';
      reach' := reach + {q};
      stack' := PushSuccessors(afd, q, reach', stack');
      assert stack'[..|rest|] == rest;
      SuccessorsAreTargets(d, q);
      SearchVisit(d, universe, reach, rest, q, stack');
    } else {
      SearchSkip(d, universe, reach, stack', q);
      assert stack'[..|stack'|] == stack';
    }
  }

  /** The depth-first search of `remover_inalcancaveis`: the reachable states. */
  method ReachableStates(afd: Afd) returns (reach: set<State>)
    ensures forall q :: q in reach <==> Reachable(afd.Value(), q)
  {
    ghost var d := afd.Value();
    ghost var universe := {afd.q0} + Targets(afd.delta);
    reach := {};
    var stack := [afd.q0];
    ReachableStart(d);
    while stack != []
      invariant Searching(d, universe, reach, stack)
      decreases |universe - reach|, |stack|
    {
      ghost var reach0 := reach;
      reach, stack := SearchStep(afd, universe, reach, stack);
      SubsetCardinality(universe - reach, universe - reach0);
    }
    SuccessorsClosed(d, reach);
    forall q ensures q in reach <==> Reachable(d, q) {
      if Reachable(d, q) {
        ClosedContainsReachable(d, reach, q);
      }
    }
  }

  /** `remover_inalcancaveis(afd)`: the search, then the three field updates. */
  method RemoveUnreachable(afd: Afd)
    modifies afd
    ensures PrunedFrom(old(afd.Value()), afd.Value())
  {
    var reach := ReachableStates(afd);
    afd.Q := reach;
    afd.delta := map k | k in afd.delta && k.0 in reach :: afd.delta[k];
    afd.F := afd.F * reach;
  }

  /** The pruned automaton has the same reachable states: pruning twice
      changes nothing more. */
  lemma PruningKeepsReachability(d: Dfa, p: Dfa, q: State)
    requires PrunedFrom(d, p)
    ensures Reachable(p, q) <==> Reachable(d, q)
  {
    ReachableStart(d);
    assert Closed(p, p.Q) by {
      forall r, a | r in p.Q && a in p.sigma && Next(p.delta, r, a).Some?
        ensures Next(p.delta, r, a).value in p.Q
      {
        assert Next(d.delta, r, a) == Next(p.delta, r, a);
        ReachableStep(d, r, a);
      }
    }
    if Reachable(p, q) {
      ClosedContainsReachable(p, p.Q, q);
    }
    if Reachable(d, q) {
      var w :| Walk(d, d.q0, w) == Some(q);
      PrunedWalk(d, p, d.q0, w);
    }
  }

  /** From a reachable state the pruned automaton reads every word as the original does. */
  lemma {:induction false} PrunedWalk(d: Dfa, p: Dfa, q: State, w: seq<Symbol>)
    requires PrunedFrom(d, p) && q in p.Q
    ensures Walk(p, q, w) == Walk(d, q, w)
    decreases |w|
  {
    if w != [] && w[0] in d.sigma {
      assert Next(p.delta, q, w[0]) == Next(d.delta, q, w[0]);
      if Next(d.delta, q, w[0]).Some? {
        ReachableStep(d, q, w[0]);
        PrunedWalk(d, p, Next(d.delta, q, w[0]).value, w[1..]);
      }
    }
  }

  /** Pruning keeps the language and every verdict from a reachable state. */
  lemma PruningKeepsLanguage(d: Dfa, p: Dfa, q: State, w: seq<Symbol>)
    requires PrunedFrom(d, p) && q in p.Q
    ensures AcceptsFrom(p, q, w) == AcceptsFrom(d, q, w)
  {
    PrunedWalk(d, p, q, w);
    if Walk(d, q, w).Some? {
      var w' :| Walk(d, d.q0, w') == Some(q);
      WalkAppend(d, d.q0, w', w);
      assert Reachable(d, Walk(d, q, w).value) by {
        assert Walk(d, d.q0, w' + w) == Walk(d, q, w);
      }
    }
  }

  /** A pruned total automaton stays total. */
  lemma PruningKeepsTotality(d: Dfa, p: Dfa)
    requires PrunedFrom(d, p) && Total(d) && d.q0 in d.Q
    ensures Total(p)
  {
    forall q, a | q in p.Q && a in p.sigma
      ensures Next(p.delta, q, a).Some? && Next(p.delta, q, a).value in p.Q
    {
      ClosedContainsReachable(d, d.Q, q);
      assert Next(p.delta, q, a) == Next(d.delta, q, a);
      ReachableStep(d, q, a);
    }
  }
}
