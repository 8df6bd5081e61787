# A verified model of the `project_AFD` automaton engine

`main.py` of `project_AFD` is a small engine for deterministic finite automata
(AFD, *autômato finito determinístico*). It offers five operations:

- It builds an automaton object (`AFD`, `criar_afd`).
- It runs a word through the automaton and returns a verdict and a trace
  (`validar_palavra`).
- It completes the transition function with a fresh dead state (`completar_afd`).
- It minimises the automaton (`minimizar_afd`). The steps are completion,
  removal of unreachable states by a depth-first search that rewrites the
  object in place, the table-filling fixpoint over sorted pairs, a naive
  union of equivalent states in which the smaller representative wins, and
  the quotient automaton.
- It renders the transition table as text (`obter_tabela_transicoes`).

The Dafny project follows the source's imperative shape:

- The `AFD` object is a class `Automaton.Afd` with the same five mutable fields.
  `Value()` takes a snapshot as the datatype `Dfa`.
- Each loop of the source is a method with a `while` or `for` loop. It is
  proved against a specification function or predicate. The lemmas beside it
  prove what the source promises about that specification.
- States and symbols are strings. A word is a string and each of its
  characters is read as a one-character symbol.
- The trace `etapas` is a sequence of `Simulation.Step` entries. Its
  constructors stand for the messages at main.py:56 (`Start`), 68 (`Move`),
  60 (`BadSymbol`), 65 (`NoTransition`), 72 (`Accept`) and 75 (`Reject`).
- A transition whose value is `""` (the blank sentinel) counts as no
  transition, exactly as an absent key does (`Automaton.Next`).
- Python's string order is `StringOrder.Less`, lexicographic by code point.
  `sorted` is `StringOrder.Sort`, and `min` is `StringOrder.Min`.
- A `for` loop over a Python set visits the elements in an order chosen by
  `:|`. The proofs therefore hold for every iteration order.

The beyond-the-code results live in `Minimization`. For a well-formed input
(`q0` and `F` inside `Q`, no state named `""`, every target blank or a
state), the minimised automaton has these properties:

- it is total;
- it accepts the same words as the input;
- no two of its states are equivalent;
- every one of its states is reachable;
- it is the same whatever order the sets are visited in;
- minimising it again gives it back unchanged.

Modules, in dependency order: `StringOrder`, `SetFacts`, `Automaton`,
`Simulation`, `Completion`, `Reachability`, `TableFilling`, `Merging`,
`Quotient`, `Minimization`, `Table`.

Three behaviours of the code are easy to misread, and the model keeps them:

- A cell of the table shows `∅` only when the key is absent (main.py:201).
  A key present with the value `""` shows as an empty cell, although such a
  transition counts as missing everywhere else. `Table.Cell` and
  `Table.RowFields` follow the code.
- The union step does not simply give the smaller label to every state that
  carries one of the two old labels. It re-reads `equivalentes[q1]` and
  `equivalentes[q2]` on every step of the inner loop (main.py:166-168),
  after it may already have overwritten them. `Merging.Relabel` re-reads them
  the same way. `Merging.MergeEquivalent` proves that the final labels are
  still the class minima, because the unmarked pairs relate the states
  transitively.
- Completion is not idempotent. `completar_afd` always adds a fresh dead
  state (main.py:84-88), even to an automaton that is already total, so a
  second call adds `'q_nulo_'` beside `'q_nulo'`
  (`Completion.CompletingTwiceAddsState`). Minimisation is idempotent on
  well-formed input (`Minimization.MinimizeIdempotent`), because pruning
  removes the second dead state again.

## Model

| member | source | states |
|---|---|---|
| Automaton.Afd.constructor | main.py:9-15 | the new object holds exactly the five given fields |
| Automaton.CreateAfd | main.py:47-48 | a fresh object whose fields are the arguments, taken in the constructor's order |
| Automaton.Next | main.py:63-64 | a transition exists exactly when the key is present and its value is not `''`: an absent key and a `''` value both mean no transition, as in `completar_afd` (main.py:96-97) and the search (main.py:119-120) |
| Automaton.Symbols | main.py:58 | a word becomes one one-character symbol per character, in order |
| Simulation.RunFrom | main.py:58-76 | the scan from a state: a symbol outside `sigma` or with no transition stops it with an error entry and False; otherwise one move entry per symbol, then the verdict `p in F` |
| Simulation.Simulate | main.py:55-76 | `validar_palavra`: the start entry, then the scan of the word from `q0` |
| Simulation.Validate | main.py:51-76 | the verdict and trace of the loop equal the reference scan `Simulate` |
| Simulation.RunFromVerdict | main.py:58-76 | the scan's verdict is: the extended transition function reaches a final state |
| Simulation.RunFromConsumes | main.py:58-76 | a scan that reads the whole word records one move per symbol, then the verdict `p in F` |
| Simulation.RunFromStops | main.py:58-66 | a scan that stops at position k records k moves, then one error entry naming the bad symbol or the missing transition |
| Simulation.SimulateAcceptsIff | main.py:71-76 | `validar_palavra` returns True if and only if the word leads from `q0` to a final state |
| Simulation.SimulateConsumesAll | main.py:68-76 | the word is read to its end in `p`: the result is `p in F`, and the trace has the start entry, one correct move per symbol and the verdict (length + 2 entries) |
| Simulation.SimulateStopsEarly | main.py:55-66 | the first symbol outside `sigma`, or with no transition or a `''` one, gives False; the trace is the start entry, the moves before it and one error entry |
| Completion.DeadCandidate | main.py:84-86 | every candidate dead name is `'q_nulo'` with k underscores appended, of length 6 + k |
| Completion.LongNamesShrink | main.py:85-86 | each underscore that is appended leaves fewer states at least as long as the candidate, so the loop ends |
| Completion.FirstFree | main.py:85-86 | the first candidate from k on that is not a state; all the candidates before it are states |
| Completion.DeadName | main.py:84-86 | the `while` loop yields `Completion.DeadState(Q)` |
| Completion.DeadState | main.py:84-86 | the name `completar_afd` gives the dead state: the candidate at the first free index from 0 |
| Completion.DeadStateFresh | main.py:84-86 | the dead state is not in `Q` and is the first `'q_nulo' + '_'*k` that is not in `Q` |
| Completion.CompletedTarget | main.py:94-100 | the completed transition of a pair: the original target when the state is in `Q` and its transition on the symbol is present and not `''`, else the dead state |
| Completion.Completed | main.py:84-102 | `completar_afd(d)`: `sigma`, `q0` and `F` kept, `Q` plus the dead state, and a completed transition for every state of the new `Q` and every symbol |
| Completion.FillRow | main.py:93-100 | the inner loop adds the completed transition of the state on every symbol and changes no other entry |
| Completion.CompleteAfd | main.py:78-102 | a fresh object whose value is `Completed(d)`; the original is untouched |
| Completion.CompletedShape | main.py:88-102 | `sigma`, `q0` and `F` are unchanged, the states are `Q + {dead}`, and the dead state is never final when `F <= Q` |
| Completion.CompletedTransitions | main.py:92-100 | keys are exactly `Q' x sigma`; non-blank transitions out of `Q` are kept; blank or missing ones go to the dead state; the dead state loops on itself |
| Completion.CompletedIsTotal | main.py:92-100 | when targets are blank or states, the completed automaton is total over its states |
| Completion.DeadStateAbsorbs | main.py:98-100 | reading symbols of the alphabet never leaves the dead state |
| Completion.CompletionKeepsLanguageFrom | main.py:92-97 | from a state of `Q`, completion changes the verdict of no word |
| Completion.WalkStuckOnForeignSymbol | main.py:59-61 | a symbol outside the alphabet stops every reading |
| Completion.CompletionKeepsLanguage | main.py:78-102 | the completed automaton accepts exactly the words the original accepts |
| Completion.CompletionKeepsWalksOfTotal | main.py:92-97 | completing a total automaton changes no reading from its states |
| Completion.CompletingTwiceAddsState | main.py:84-102 | completion is not idempotent: a second call adds one more state, `'q_nulo_'` after `'q_nulo'` when neither name was taken |
| Reachability.PrunedFrom | main.py:123-125 | what the pruning leaves: the reachable states, the transitions whose source is reachable, the reachable final states, `sigma` and `q0` unchanged |
| Reachability.ReachableStart | main.py:112 | `q0` is reachable |
| Reachability.ReachableStep | main.py:118-121 | the target of a transition out of a reachable state is reachable |
| Reachability.ClosedKeepsWalks | main.py:114-121 | a set closed under the transitions keeps every reading that starts inside it |
| Reachability.ClosedContainsReachable | main.py:114-121 | a closed set holding `q0` holds every reachable state |
| Reachability.Successors | main.py:118-120 | the candidates the inner loop may push for a state: its transition targets on symbols of `sigma` that are present and not `''` |
| Reachability.SuccessorsReachable | main.py:118-121 | the states pushed for a reachable state are reachable |
| Reachability.SuccessorsClosed | main.py:114-121 | a set that holds the successors of each of its states is closed |
| Reachability.SuccessorsAreTargets | main.py:119-121 | every successor is a target of some transition |
| Reachability.PushSuccessors | main.py:118-121 | the stack grows only by successors outside the visited set, and every successor ends up visited or on the stack |
| Reachability.SearchSkip | main.py:115-116 | popping a state already visited keeps the search invariant |
| Reachability.SearchVisit | main.py:115-121 | visiting a new state and pushing its unvisited successors keeps the search invariant |
| Reachability.SearchStep | main.py:114-121 | one turn of `while pilha` marks the popped state visited before pushing, so the stack keeps its other entries and gains only states not visited, never the popped one; the search invariant holds, and either a new state is visited or the stack shrinks |
| Reachability.ReachableStates | main.py:111-121 | the depth-first search returns exactly the reachable states |
| Reachability.RemoveUnreachable | main.py:110-125 | the object's `Q` becomes the reachable states, `delta` keeps only the keys with a reachable source, `F` becomes `F` intersected with them; `sigma` and `q0` are unchanged |
| Reachability.PruningKeepsReachability | main.py:123-125 | the pruned automaton reaches exactly what the original reaches, so its `Q` is closed |
| Reachability.PrunedWalk | main.py:123-125 | from a kept state the pruned automaton reads every word as the original does |
| Reachability.PruningKeepsLanguage | main.py:123-125 | pruning changes no verdict from a kept state |
| Reachability.PruningKeepsTotality | main.py:123-125 | pruning a total automaton whose `q0` is a state leaves it total |
| StringOrder.Less | main.py:165 | Python's `<` on `str`, on which `sorted` (main.py:131, 190-191) and `min` rest: the first differing character decides by code point, and a proper prefix is smaller |
| StringOrder.LessIrreflexive | main.py:165 | no string is below itself |
| StringOrder.LessTransitive | main.py:165 | the string order is transitive |
| StringOrder.LessTotal | main.py:165 | any two different strings are ordered |
| StringOrder.LessAsymmetric | main.py:165 | the string order is asymmetric |
| StringOrder.LessEqAntisymmetric | main.py:165 | two strings each at most the other are equal |
| StringOrder.LeastElement | main.py:131 | every non-empty set of strings has a least element |
| StringOrder.Min | main.py:165 | `min` returns one of its arguments, at most both |
| StringOrder.Smallest | main.py:131 | the least element of a non-empty set |
| StringOrder.Sort | main.py:131 | `sorted(s)` lists the elements of `s` strictly increasing, each once |
| StringOrder.EnumerationUnique | main.py:131 | that list is unique, so it does not depend on the iteration order |
| TableFilling.PairsOf | main.py:130-134 | the contents of `pares`: exactly the pairs `(q1, q2)` of states with `q1 < q2` |
| TableFilling.OrderedSymmetric | main.py:147 | the canonical pair of two different states is the same in either order, is increasing, and holds exactly the two states |
| TableFilling.AfterInSorted | main.py:132-133 | the states after position i of the sorted list are exactly the states above the i-th |
| TableFilling.BuildPairs | main.py:130-134 | the pairs are exactly the `(q1, q2)` of states with `q1 < q2` |
| TableFilling.OneFinal | main.py:139 | the test of the base marking: exactly one of the two states is final |
| TableFilling.BaseMarks | main.py:137-140 | a pair is marked first exactly when exactly one of its states is final |
| TableFilling.LeadsToMarked | main.py:143-149 | the negation of `sao_equivalentes`: some symbol leads the two states to a marked pair, in either order |
| TableFilling.LeadsToMarkedMonotone | main.py:151-158 | a pair that leads to a mark still does when more pairs are marked |
| TableFilling.NoMarkedSuccessor | main.py:143-149 | `sao_equivalentes` is True exactly when no symbol leads the pair, in either order, to a marked pair |
| TableFilling.NewMarks | main.py:152-155 | a round adds exactly the unmarked pairs that lead to a marked pair |
| TableFilling.LeadsToDistinguishable | main.py:143-149 | in a total automaton, a pair that leads to distinguishable states is distinguishable |
| TableFilling.MarksGrow | main.py:156-158 | a round only adds marks, each new mark leads to a marked pair, marks stay sound, and the unmarked pairs decrease |
| TableFilling.Refine | main.py:151-158 | at the fixpoint the marks lie between the base and the pairs; no unmarked pair leads to a mark; every added mark does; there are at most as many rounds as unmarked base pairs; with sound base marks every mark is distinguishable |
| TableFilling.UnmarkedAgree | main.py:151-158 | at the fixpoint two states of an unmarked pair agree on every word |
| TableFilling.MarkedIffDistinguishable | main.py:137-158 | at the fixpoint a pair is marked if and only if some word tells its states apart |
| TableFilling.BaseMarksDistinguishable | main.py:137-140 | a final and a non-final state are told apart by the empty word |
| Merging.Relabel | main.py:166-168 | every label stays a state; `q1` and `q2` get the new label; each other state keeps its label or had one of the two old ones and gets the new one |
| Merging.RelabelOne | main.py:164-168 | a relabelled state's new label is in its class, and a label that was its class minimum is not replaced |
| Merging.RelabelSettles | main.py:164-168 | after one merge every label is still in its state's class, and class minima stay put |
| Merging.VisitKeeps | main.py:163-168 | after a merge the minima still label themselves, and every visited pair with a minimum as its first state labels its second state with that minimum |
| Merging.VisitPair | main.py:164-168 | one iteration of the union loop keeps the labels in `Q` and keeps the settled-labels invariant |
| Merging.MergeEquivalent | main.py:161-168 | the labels are states of `Q`, and when the unmarked pairs are transitive each label is the least state of its class, whatever the merge order |
| Merging.MergedToMinimum | main.py:161-168 | after the loop each state's label is the minimum of its class |
| Merging.SameLabelIffTogether | main.py:163-168 | two states share a label exactly when they are the same or form an unmarked pair |
| Merging.LabelIdempotent | main.py:161-168 | a label is a state and is its own label: `equivalentes[equivalentes[q]] == equivalentes[q]` |
| Quotient.QuotientDeltaOf | main.py:174-178 | `nova_delta`: a transition out of the label of every source on the same symbol, each entry the label of the target of some transition (the last one the loop writes) |
| Quotient.IsQuotient | main.py:170-181 | `afd_minimizado`: the labels as states, the label of `q0`, the labels of the final states, and `nova_delta` |
| Quotient.QuotientDelta | main.py:174-178 | every transition gives a quotient transition out of its source's label, and every entry comes from some transition |
| Quotient.LabelFixed | main.py:171 | each representative is a state and is its own representative |
| Quotient.SameLabelIffEquivalent | main.py:163-168 | two states share a representative exactly when they are equivalent |
| Quotient.QuotientDeltaDetermined | main.py:174-178 | whatever the visiting order, each quotient transition is the label of the target of any transition it comes from |
| Quotient.QuotientWalk | main.py:170-181 | reading a word in the quotient from a state's label ends in the label of where the original ends, and fails where it fails |
| Quotient.QuotientFinal | main.py:172 | a label is final exactly when its state is final |
| Quotient.QuotientAccepts | main.py:170-181 | the quotient gives a label the verdicts of its state |
| Quotient.QuotientTotal | main.py:174-178 | the quotient has a transition on every symbol out of every representative, into a representative |
| Quotient.QuotientDistinguishes | main.py:170-181 | distinct representatives are told apart by some word |
| Quotient.QuotientReachable | main.py:170-181 | when every state is reachable, so is every representative |
| Quotient.QuotientDeltaIncluded | main.py:174-178 | two transition maps built by the loop have the same entries |
| Quotient.QuotientUnique | main.py:170-181 | the quotient is determined by the automaton and its labels |
| Quotient.QuotientClean | main.py:170-181 | the quotient of a clean automaton is clean and holds its start state |
| Quotient.IdentityQuotient | main.py:161-181 | an automaton with no two equivalent states labels each state with itself and is its own quotient |
| Minimization.DeadStateNotBlank | main.py:84-86 | the dead state is never `""` |
| Minimization.CompletedReach | main.py:110-121 | the reachable states of the completion are its states, or just `q0` when `q0` is not one |
| Minimization.PrunedFacts | main.py:107-127 | the pruned completion keeps `sigma` and `q0`, holds `q0`, has `F <= Q` and keys from states on symbols into non-blank states; it is total, or just `{q0}` |
| Minimization.PairsKeyed | main.py:145-146 | the lookups `afd_completo.delta[(q, simbolo)]` in `sao_equivalentes` never fail |
| Minimization.TogetherIffEquivalent | main.py:151-163 | at the fixpoint two states form an unmarked pair, or are the same state, exactly when they are equivalent |
| Minimization.UnmarkedTransitive | main.py:163 | the unmarked pairs relate the states transitively |
| Minimization.LabelsFromMerge | main.py:161-168 | `equivalentes` merges exactly the equivalent states and labels each with the least state equivalent to it |
| Minimization.LabelsUnique | main.py:161-168 | those labels are unique, so the merge order cannot change them |
| Minimization.MinimizedLanguage | main.py:105-183 | the minimised automaton accepts exactly the words the input accepts |
| Minimization.MinimizedCorrect | main.py:105-183 | for a well-formed input the result is total, accepts the input's language, has no two equivalent states and has no unreachable state |
| Minimization.MinimizeDeterministic | main.py:105-183 | two runs on the same input give the same pruned copy, labels and result |
| Minimization.PrunedCompletionOfMinimal | main.py:107-127 | completing and pruning a clean total automaton whose states are all reachable gives it back unchanged |
| Minimization.MinimizeIdempotent | main.py:105-183 | for a well-formed input the result is well-formed, and minimising it again gives it back unchanged |
| Minimization.Minimize | main.py:105-183 | the result is the quotient of the pruned completion under least-state labels; for a well-formed input it is total, language-preserving, with pairwise inequivalent, reachable states |
| Table.Join | main.py:195 | `sep.join(parts)`: the parts with the separator between each two neighbours |
| Table.Header | main.py:195 | the header line without its line break: `"Estado"`, a tab, then the symbols joined by tabs |
| Table.Cell | main.py:201 | a cell shows the entry when the key is present, even `''`, and `"∅"` when it is absent |
| Table.Row | main.py:199-203 | `linha`: the state, then the cell of every symbol in the given order, each followed by a tab |
| Table.TableText | main.py:190-205 | the whole text: the title, the header and one row per state in the given order, each followed by a line break |
| Table.SplitField | main.py:199-203 | a field, the separator and a rest split into the field and the rest's fields |
| Table.SplitTerminated | main.py:199-203 | splitting the parts-each-followed-by-a-separator text gives the parts back and one empty field |
| Table.SplitJoin | main.py:195 | `"\t".join` of parts without tabs splits back into the parts |
| Table.HeaderFields | main.py:194-195 | the header is `"Estado"` followed by the sorted symbols, tab-separated (one empty field when there is no symbol) |
| Table.RowFields | main.py:198-203 | a row is the state, then per symbol `delta[(state, symbol)]`, or `"∅"` when the key is absent, each followed by a tab; a present empty value shows as an empty field |
| Table.TableLines | main.py:190-205 | the text is the title line, the header line, one row per state in the given order, and a final line break |
| Table.NoLineBreakInRow | main.py:198-203 | a row has no line break when its state and targets have none |
| Table.BuildRow | main.py:199-203 | the inner loop builds the row of the state for the symbols in order |
| Table.TransitionTable | main.py:185-205 | the lists used are the states and the symbols strictly sorted, each once, and the text is the table of those lists: title, header, then the rows |

## Left out

- `AFD.visualizar` (main.py:20-44) is left out. It only calls Graphviz, writes a PNG file and prints.
- `AFD.__str__` (main.py:17-18) is left out. It is Python's display of sets and dictionaries.
- `interface.py` is not part of this model. It is the Tkinter window that calls the engine.
- Simulation.Validate: the trace entries are a datatype (`Simulation.Step`), not the Portuguese messages. `Start`, `Move`, `BadSymbol` and `NoTransition` hold the states and symbol their messages print (main.py:56, 68, 60, 65); `Accept` and `Reject` (main.py:72, 75) drop the word their messages print.
- Simulation.Validate: for `for simbolo in palavra` a symbol is one character; a multi-character symbol of `sigma` is never matched by a word, as in the source.
- Minimization.Minimize requires every transition out of a state on a symbol of `sigma` to be blank or a state (`TargetsInStates`). This also excludes a stray target out of an unreachable state, which the source prunes and never looks up: for `sigma = {a}`, `Q = {A, B}`, `delta = {(A, a): A, (B, a): Z}`, `q0 = A` the source minimises without error, and the model does not cover that input. A target outside `Q` of a reachable state is kept by the search (main.py:117-121) but has no row in the completed map, so `sao_equivalentes` raises `KeyError` (main.py:145-146) once the fixpoint examines an unmarked pair holding it. The source still finishes when that target is the dead state's name, or when every pair holding it is marked at the start (main.py:137-140). The model covers neither those runs nor the error.
- Minimization.Minimize: the totality, language, minimality, reachability and idempotence results are stated only for a well-formed input (`Automaton.WellFormed`: `q0` in `Q`, `F` inside `Q`, no state named `""`, every target blank or a state). Neither the engine nor the entry form checks the first, second or fourth condition: the form takes `q0` and every target as typed text (interface.py:78, 122), and only its `split()` of the state list (interface.py:77) rules out a state named `""`. Totality can fail outside it: when `q0` is neither in `Q` nor the dead state's name, the completion has no transition out of `q0`, so the result is the single state `q0` with no transitions (`Minimization.PrunedFacts`).
- Python's fixed set and dictionary iteration orders are not modelled. Each loop over a set or dictionary takes its elements in an arbitrary order, so every result is proved for all orders.
- Table.TableLines, Table.RowFields and Table.HeaderFields speak about line and field structure only when no state, symbol or target holds a tab or a line break; with such names the text is the same but does not split back.
