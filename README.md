# Finite automata and right-linear grammars

This project models the core of a small Java library for formal languages. It covers two classes:

- `FiniteAutomaton` is an automaton FA = (Q, Sigma, delta, q0, F), with delta mapping a state and a symbol to a set of states. It offers:
  - NFA membership by subset simulation (`stringBelongToLanguage`);
  - a determinism test (`isDeterministic`);
  - the subset construction (`toDFA`), which names each DFA state with `encode`;
  - a conversion to a right-linear grammar (`toRegularGrammar`).
- `Grammar` is a right-linear grammar G = (Vn, Vt, P, S), where each production is `t` or `t Y`. It offers:
  - a bounded random derivation (`generateSentence` with `chooseWithBias`);
  - a conversion to an automaton (`toAutomaton`) with one extra accepting state "X".

Both classes have only final fields, so they are Dafny datatypes (`FiniteAutomata.Automaton`, `Grammars.Grammar`). Every operation that loops in Java is a Dafny method with the same loops. Each loop's invariants tie it to a ghost specification:

- `Step` and `Run` are the subset simulation folded over the input;
- `Accepts` is the language;
- `Deterministic` is the determinism property;
- `IsGrammarOf` and `IsAutomatonOf` are the two conversions;
- `DerivesFrom`, `Derivation` and `Generated` are derivations;
- `SubsetDFA` is the subset automaton.

Lemmas then relate these specifications to one another: language equality of the conversions, language equivalence of `toDFA`, and acceptance of generated sentences.

Modules:

- `Wrappers` holds `Option`.
- `Labels` holds the `String.compareTo` order, the sort and the comma join used by `encode`.
- `Grammars` holds the grammar and the generation.
- `FiniteAutomata` holds membership, determinism and `toRegularGrammar`.
- `SubsetConstruction` holds `toDFA` and `encode`.
- `GrammarToAutomaton` holds `toAutomaton`. It is a separate module because it needs both the grammar and the automaton, and Dafny modules cannot import each other in a cycle.

Where the Java reads a `Random`, the model reads an oracle: a caller-supplied sequence of draws `Choice(coin, index)`. `coin` stands for `nextDouble() < 0.65`. `index` stands for the value that `nextInt(n)` reduces modulo `n`. Past the end of the oracle a fixed draw is used.

## Model

| member | source | states |
|---|---|---|
| FiniteAutomata.Successors | src/src/main/java/org/example/FiniteAutomaton.java:47-54 | The union of the stored successors of the current states for `ch` is exactly `Step`; missing entries contribute nothing |
| FiniteAutomata.ContainsFinal | src/src/main/java/org/example/FiniteAutomaton.java:61-64 | The scan with early exit answers true iff the current set meets F |
| FiniteAutomata.StringBelongToLanguage | src/src/main/java/org/example/FiniteAutomaton.java:37-65 | The answer, early returns included, is exactly `Accepts`: every symbol in Sigma and the run from {q0} meets F |
| FiniteAutomata.RunFromEmpty | src/src/main/java/org/example/FiniteAutomaton.java:56 | From the empty set the run stays empty, so the early `return false` on an empty set does not change the answer |
| FiniteAutomata.RunMonotone | src/src/main/java/org/example/FiniteAutomaton.java:47-57 | A larger starting set reaches a superset of states on every input |
| FiniteAutomata.RunSnoc | src/src/main/java/org/example/FiniteAutomaton.java:41-57 | One more loop iteration: the run over `w + [c]` is the step on `c` from the run over `w` |
| FiniteAutomata.StepSingleton | src/src/main/java/org/example/FiniteAutomaton.java:49-53 | The step from one state is its stored successor set, or empty when the state or symbol has no entry |
| FiniteAutomata.AcceptsEmpty | src/src/main/java/org/example/FiniteAutomaton.java:38-39 | The empty input is accepted iff q0 is final |
| FiniteAutomata.RejectsForeignSymbol | src/src/main/java/org/example/FiniteAutomaton.java:45 | An input with a symbol outside Sigma is rejected, whatever delta is |
| FiniteAutomata.IsDeterministic | src/src/main/java/org/example/FiniteAutomaton.java:120-127 | The nested scan answers true iff every stored successor set has at most one element; absent pairs do not matter |
| FiniteAutomata.DeterministicRunAtMostOne | src/src/main/java/org/example/FiniteAutomaton.java:117-127 | A deterministic automaton, started in at most one state, is in at most one state after any input |
| FiniteAutomata.AddSymbolProductions | src/src/main/java/org/example/FiniteAutomaton.java:102-109 | After the loop over the targets of `from --symbol-->`, the list of `from` has gained `symbol to` for each target and `symbol` iff some target is final; the other lists are unchanged |
| FiniteAutomata.AddStateProductions | src/src/main/java/org/example/FiniteAutomaton.java:100-110 | After the loop over the symbols of `from`, its list holds a production for each edge leaving `from`, plus the terminal-only ones for edges into F; the other lists are unchanged |
| FiniteAutomata.ToRegularGrammar | src/src/main/java/org/example/FiniteAutomaton.java:90-114 | Vn = Q, Vt = Sigma, start q0, a list for every state; `c to` is in P[from] iff the edge `from --c--> to` exists, and `c` iff some such edge enters F; no other productions |
| FiniteAutomata.GrammarOfDerivesAccepted | src/src/main/java/org/example/FiniteAutomaton.java:86-113 | Every string the converted grammar derives from a state x is accepted by the automaton started in x |
| FiniteAutomata.RunWitness | src/src/main/java/org/example/FiniteAutomaton.java:47-57 | A state the run reaches from a set is reached from some single member of that set |
| FiniteAutomata.AcceptedGrammarOfDerives | src/src/main/java/org/example/FiniteAutomaton.java:86-113 | Every nonempty string leading from x into F is derived by the converted grammar from x |
| FiniteAutomata.GrammarOfLanguage | src/src/main/java/org/example/FiniteAutomaton.java:86-113 | On nonempty strings: accepted by the automaton iff derived from q0 by the converted grammar |
| FiniteAutomata.GrammarOfGeneratesAccepted | src/src/main/java/org/example/FiniteAutomaton.java:90-113 | Every sentence the corrected generation returns for the converted grammar is accepted by the automaton |
| FiniteAutomata.GrammarOfGeneratesAsWrittenAccepted | src/src/main/java/org/example/FiniteAutomaton.java:90-113 | Every sentence the generation as written (with the throwing `chooseWithBias`) returns for the converted grammar is accepted by the automaton |
| Labels.LessEq | src/src/main/java/org/example/FiniteAutomaton.java:189 | The `String.compareTo` order on labels. Its contract states that a prefix comes first; in the body the first differing character decides. Its order laws are the four lemmas below |
| Labels.LessEqReflexive | src/src/main/java/org/example/FiniteAutomaton.java:189 | The `String.compareTo` order is reflexive |
| Labels.LessEqTotal | src/src/main/java/org/example/FiniteAutomaton.java:189 | The `String.compareTo` order is total |
| Labels.LessEqAntisymmetric | src/src/main/java/org/example/FiniteAutomaton.java:189 | The `String.compareTo` order is antisymmetric |
| Labels.LessEqTransitive | src/src/main/java/org/example/FiniteAutomaton.java:189 | The `String.compareTo` order is transitive |
| Labels.LeastExists | src/src/main/java/org/example/FiniteAutomaton.java:189 | Every nonempty set of labels has a least element |
| Labels.LeastUnique | src/src/main/java/org/example/FiniteAutomaton.java:189 | The least element is unique |
| Labels.Least | src/src/main/java/org/example/FiniteAutomaton.java:189 | The chosen label is in the set and no later than any other |
| Labels.SortedLabelsListing | src/src/main/java/org/example/FiniteAutomaton.java:188-189 | The sorted copy lists every label of the set once and nothing else |
| Labels.SortedLabelsSorted | src/src/main/java/org/example/FiniteAutomaton.java:189 | The sorted copy is strictly ascending |
| Labels.SortedListingUnique | src/src/main/java/org/example/FiniteAutomaton.java:188-189 | Any strictly ascending listing of a set is the sorted copy, so the sort is canonical |
| Labels.SortedLabels | src/src/main/java/org/example/FiniteAutomaton.java:188-189 | The sorted copy of a set of labels is empty exactly for the empty set; `SortedLabelsListing`, `SortedLabelsSorted` and `SortedListingUnique` show it is the unique strictly ascending listing |
| Labels.Join | src/src/main/java/org/example/FiniteAutomaton.java:190 | `String.join(",", xs)` begins with the first label and, with two or more labels, has a ',' right after it; `JoinInjective` shows no information is lost for comma-free labels |
| Labels.SameFirstField | src/src/main/java/org/example/FiniteAutomaton.java:190 | Equal joins with comma-free first fields have equal first fields and equal remainders |
| Labels.JoinInjective | src/src/main/java/org/example/FiniteAutomaton.java:190 | `String.join(",", …)` is injective on nonempty listings of comma-free labels |
| SubsetConstruction.Encode | src/src/main/java/org/example/FiniteAutomaton.java:187-191 | The name `"{" + Join(SortedLabels(s)) + "}"` starts with '{' and ends with '}'; `EncodeCanonical` and `EncodeInjective` give its canonicity and injectivity |
| SubsetConstruction.EncodeCanonical | src/src/main/java/org/example/FiniteAutomaton.java:187-191 | The name of a set is "{" + any ascending listing joined by "," + "}", so equal sets always get equal names |
| SubsetConstruction.EncodeInjective | src/src/main/java/org/example/FiniteAutomaton.java:187-191 | Different nonempty sets of comma-free labels get different names |
| SubsetConstruction.StepInTargets | src/src/main/java/org/example/FiniteAutomaton.java:161-167 | A reachable set only holds targets of delta, so every subset `toDFA` names lies in {q0} plus the targets |
| SubsetConstruction.UniverseCommaFree | src/src/main/java/org/example/FiniteAutomaton.java:139-173 | When q0 and the targets of delta have no ',', neither has any label of a subset `toDFA` can name |
| SubsetConstruction.RowOnAdd | src/src/main/java/org/example/FiniteAutomaton.java:160-168 | One more symbol adds the entry for that symbol when its reachable set is nonempty, and nothing otherwise |
| SubsetConstruction.RowCellAdd | src/src/main/java/org/example/FiniteAutomaton.java:175-178 | `computeIfAbsent(symbol, …).add(targetName)` on the row built so far gives the row over one more symbol |
| SubsetConstruction.RowSingletons | src/src/main/java/org/example/FiniteAutomaton.java:175-178 | Each entry of a subset's row holds exactly one name |
| SubsetConstruction.ExpandSubset | src/src/main/java/org/example/FiniteAutomaton.java:160-179 | The loop over Sigma builds exactly the subset's row, with no entry for an empty reachable set. Every nonempty reachable set ends up named by `encode` and, from a reachable subset, stays reachable. The sets named anew are exactly the ones appended to the worklist |
| SubsetConstruction.NamesValidAdd | src/src/main/java/org/example/FiniteAutomaton.java:170-173 | Naming a new reachable set by `encode` keeps every name equal to the encoding of its subset |
| SubsetConstruction.ClosedStep | src/src/main/java/org/example/FiniteAutomaton.java:160-179 | After a subset is processed, all of its nonempty steps are named |
| SubsetConstruction.RowsStoredStep | src/src/main/java/org/example/FiniteAutomaton.java:150-178 | With comma-free labels, storing the new row under the subset's name keeps every earlier subset's row |
| SubsetConstruction.DoneValidStep | src/src/main/java/org/example/FiniteAutomaton.java:148-179 | Processing one subset keeps the invariant: steps of processed subsets are named, delta's keys are their names, the finals are the names of those meeting F, and every cell holds one name |
| SubsetConstruction.SingletonCellsStep | src/src/main/java/org/example/FiniteAutomaton.java:150-178 | Storing a subset's row keeps every stored cell a singleton |
| SubsetConstruction.NamesStep | src/src/main/java/org/example/FiniteAutomaton.java:150-158 | Processing a subset adds its name to the DFA states, and adds it to the finals iff the subset meets F |
| SubsetConstruction.NewNamesShrink | src/src/main/java/org/example/FiniteAutomaton.java:147-173 | Naming a new subset shrinks the set of unnamed subsets of the universe; this is the termination measure of the worklist loop |
| SubsetConstruction.ExploreDecreases | src/src/main/java/org/example/FiniteAutomaton.java:147-173 | Each iteration either names a new subset of the universe or shortens the worklist, so the worklist loop terminates |
| SubsetConstruction.ReachableStart | src/src/main/java/org/example/FiniteAutomaton.java:139-145 | The start set {q0} is reachable (by the empty string) |
| SubsetConstruction.ReachableStep | src/src/main/java/org/example/FiniteAutomaton.java:160-173 | A nonempty step on a symbol of Sigma from a reachable subset is reachable, so the worklist names only reachable subsets |
| SubsetConstruction.ClosedHoldsRuns | src/src/main/java/org/example/FiniteAutomaton.java:160-179 | A family closed under nonempty steps holds every nonempty run over Sigma from its members |
| SubsetConstruction.ClosedHoldsReachable | src/src/main/java/org/example/FiniteAutomaton.java:139-180 | A step-closed family holding {q0} holds every reachable subset |
| SubsetConstruction.VisitNext | src/src/main/java/org/example/FiniteAutomaton.java:147-179 | One worklist iteration keeps the loop invariant: every named subset is reachable and is processed or queued, and the rows and finality of the processed ones are right. It never forgets a name, and it shortens the queue when it names nothing new |
| SubsetConstruction.VisitStep | src/src/main/java/org/example/FiniteAutomaton.java:148-179 | Given the polled subset's row and the names and queue after the loop over Sigma, the iteration keeps the loop invariant: every named subset is processed or queued, steps of processed subsets are named, and their rows and finality are right |
| SubsetConstruction.ExploreSubsets | src/src/main/java/org/example/FiniteAutomaton.java:135-180 | The worklist loop terminates with every named subset processed and reachable from {q0}, {q0} named, the collected delta and finals right, and (with comma-free labels) each row stored under its subset's name |
| SubsetConstruction.NamesInUse | src/src/main/java/org/example/FiniteAutomaton.java:182 | The DFA's states, the values of `stateNames`, are exactly the names of the processed subsets |
| SubsetConstruction.SubsetRunTracks | src/src/main/java/org/example/FiniteAutomaton.java:132-184 | Running the subset automaton from the name of s is in exactly the name of the NFA run from s, or in no state when that run is empty |
| SubsetConstruction.SubsetDFAEquivalent | src/src/main/java/org/example/FiniteAutomaton.java:132-184 | With comma-free labels, the subset automaton accepts exactly the strings the NFA accepts |
| SubsetConstruction.SubsetDFASingleNames | src/src/main/java/org/example/FiniteAutomaton.java:175-178 | Every stored entry of the subset automaton holds exactly one name, so it is deterministic |
| SubsetConstruction.ToDFA | src/src/main/java/org/example/FiniteAutomaton.java:132-184 | For any labels: alphabet Sigma, start `encode({q0})`, and states exactly the names of the subsets reachable from {q0} by strings over Sigma. Finals are the names of those meeting F, every stored cell has one name, and the result is deterministic. With comma-free labels it is the subset automaton and accepts the NFA's language |
| Grammars.Endings | src/src/main/java/org/example/Grammar.java:104 | Filtering keeps exactly the terminating productions of the options |
| Grammars.ChooseAsWritten | src/src/main/java/org/example/Grammar.java:97-111 | As written, the choice fails (`None`, the `nextInt(0)` exception) iff past step 20 there are no endings and the coin is below 0.65; otherwise it returns one of the options |
| Grammars.ChooseAsWrittenThrows | src/src/main/java/org/example/Grammar.java:105-106 | Options [`b S`], step 21 and a low coin make the as-written choice throw |
| Grammars.ChooseWithBias | src/src/main/java/org/example/Grammar.java:97-111 | The corrected choice always returns one of the options; past step 20 with a low coin it returns a terminating one when there is one |
| Grammars.Terminals | src/src/main/java/org/example/Grammar.java:87 | The appended string has one character per applied production, in order |
| Grammars.DerivationUnfold | src/src/main/java/org/example/Grammar.java:76-88 | One loop step applies the chosen production and continues from its non-terminal, or stops if it has none |
| Grammars.GenerateSentence | src/src/main/java/org/example/Grammar.java:70-93 | The loop returns exactly the `Generated` sentence: null (`None`) on a missing or empty list or at step 61, otherwise the terminals of the chosen derivation |
| Grammars.DerivationIsDerivation | src/src/main/java/org/example/Grammar.java:76-92 | Whatever the loop applies is a derivation: each production is in the list of the non-terminal it rewrites, only the last one terminates, and there are at most 60 of them |
| Grammars.GeneratedIsDerived | src/src/main/java/org/example/Grammar.java:70-93 | A generated sentence is the terminal string of a derivation from S, of length between 1 and 60 |
| Grammars.NoProductionsNoSentence | src/src/main/java/org/example/Grammar.java:79-83 | Without a nonempty list for S the generation returns null |
| Grammars.DerivationAsWrittenIsDerivation | src/src/main/java/org/example/Grammar.java:76-111 | With `chooseWithBias` as written, whatever the loop applies is still a complete derivation of at most 60 - steps productions |
| Grammars.GeneratedAsWrittenIsDerived | src/src/main/java/org/example/Grammar.java:70-111 | A sentence the as-written generation returns (no exception, no null) is the terminal string of a derivation from S, of length 1 to 60 |
| Grammars.AsWrittenThrowsAtBias | src/src/main/java/org/example/Grammar.java:100-106 | When S's list has no terminating production, reaching step 21 at S with a low coin makes the as-written generation fail |
| GrammarToAutomaton.ToAutomaton | src/src/main/java/org/example/Grammar.java:117-140 | States Vn + {X}, alphabet Vt, start S, accepting {X}, a map for every state. `from --t--> Y` iff P[from] has `t Y`, or Y = X and P[from] has `t`; no other edges |
| GrammarToAutomaton.AddProductionEdges | src/src/main/java/org/example/Grammar.java:127-134 | The loop over the productions of `from` adds exactly one edge per production, to X when it terminates, and leaves the other states' edges alone |
| GrammarToAutomaton.DerivationReachesFinal | src/src/main/java/org/example/Grammar.java:113-134 | Along a derivation from x, the automaton started in x reaches X on the derived terminals |
| GrammarToAutomaton.FinalIsDead | src/src/main/java/org/example/Grammar.java:119-134 | When X has no productions (whether or not a production names X), the automaton cannot leave X |
| GrammarToAutomaton.AcceptedIsDerived | src/src/main/java/org/example/Grammar.java:113-134 | When X is not used by the grammar, every nonempty string leading from x to X is derived from x |
| GrammarToAutomaton.AutomatonOfLanguage | src/src/main/java/org/example/Grammar.java:113-140 | When X is not used by the grammar, on nonempty strings: accepted by the automaton iff derived from S |
| GrammarToAutomaton.GeneratedAccepted | src/src/main/java/org/example/Grammar.java:117-139 | Every sentence the corrected generation returns is accepted by the automaton of `toAutomaton` |
| GrammarToAutomaton.GeneratedAsWrittenAccepted | src/src/main/java/org/example/Grammar.java:70-139 | Every sentence the generation as written (with the throwing `chooseWithBias`) returns is accepted by the automaton of `toAutomaton` |

## Left out

- Printing is left out: `printTransitions`, `Production.toString` and both `main` methods are console output and formatting only.
- The `Random` field and its probabilities are replaced by the oracle of draws. The 0.65 threshold and the step-20 bias are kept as the oracle's coin and `BIAS_AFTER`.
- The fixtures `variant25` and `buildVariant25NDFA` are concrete test data, and the expected values printed beside them are left out.
- `classifyChomskyHierarchy` is called by the second `main` but is not defined in `Grammar.java`, so there is nothing to model.
- The defensive copies in both constructors are left out, because Dafny values cannot be aliased. So is the `Grammar` constructor writing copies back into the caller's map: keys and list contents are unchanged by construction.
- The unused import in `Grammar.java` has no behaviour.
- Java collection iteration order is left out:
  - HashMap/HashSet order decides the order of the lists of `toRegularGrammar`, which is why that grammar is stated by membership;
  - it decides the order in which `toAutomaton` adds edges, which is irrelevant to sets;
  - it decides the order in which `toDFA` names subsets.
  - The model picks set elements with `:|`, which stands for any order.
- FiniteAutomata.ToRegularGrammar: states which productions each list holds, but not how often or in what order. Java appends `c` once per final target, so the same terminal-only production can occur several times.
- FiniteAutomata.GrammarOfLanguage: covers nonempty strings only. The grammars have no empty production, so the empty string is never derived, while the automaton accepts it when q0 is final.
- GrammarToAutomaton.AutomatonOfLanguage: needs X not to be rewritten and not to be named by a production. Otherwise the automaton runs through X, and a production `t X` is reachable although it cannot end a derivation.
- SubsetConstruction.ToDFA: proves the subset automaton and language equivalence only when q0 and the targets of delta contain no ','. Otherwise `encode` can give two subsets the same name, and the stored rows can collide. Braces in labels do no harm.
- FiniteAutomata.ToRegularGrammar: requires every state with an outgoing edge to be in Q, because Java dereferences `P.get(from)` for it.
- Grammars.GenerateSentence: the loop uses the corrected `ChooseWithBias`. Where Java throws at Grammar.java:106, the method goes on and can return a sentence. The as-written behaviour, exception included, is `GeneratedAsWritten`, with `GeneratedAsWrittenIsDerived` proved about it.
- Null labels are not modelled: states, symbols and the start symbol are Dafny strings and cannot be null. A null `startSymbol` makes the Java loop skip at once and return "", a sentence outside the 1 to 60 bound of `GeneratedIsDerived`.
- GrammarToAutomaton.ToAutomaton: requires every non-terminal with a nonempty list to be in Vn or "X", because Java dereferences `delta.get(from)` for it.
- Labels.LessEq: labels are sequences of Unicode code points (Dafny `char`), while Java compares and walks strings as UTF-16 code units. For supplementary characters the model's order differs from `String.compareTo` (U+10000 sorts after U+FFFF here, before it in Java), so `SubsetConstruction.Encode` can order such labels differently from `encode`. Likewise `FiniteAutomata.StringBelongToLanguage` reads one code point where `charAt` reads two surrogates, and Sigma and Vt cannot hold lone surrogates.

## Findings

| source | as written | input that shows it | evidently intended | confidence | as-written member | corrected member |
|---|---|---|---|---|---|---|
| src/src/main/java/org/example/Grammar.java:105-106 | `if (endings.isEmpty() && random.nextDouble() < 0.65) return endings.get(random.nextInt(endings.size()))` | options [`b S`] at step 21 with a draw below 0.65: `nextInt(0)` throws | `!endings.isEmpty()`: past step 20, prefer a terminating production when there is one | not executed | Grammars.ChooseAsWritten, Grammars.ChooseAsWrittenThrows | Grammars.ChooseWithBias |
