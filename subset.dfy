/**
 * `toDFA` and its naming helper `encode`: the subset construction, run as a
 * worklist over the reachable sets of NFA states, each named by its sorted,
 * comma-joined labels in braces.
 */
module SubsetConstruction {
  import opened Labels
  import opened FiniteAutomata

  /** `encode`: "{" + the labels of `states` in ascending order, joined by "," + "}". */
  function Encode(states: set<string>): (name: string)
    ensures |name| >= 2 && name[0] == '{' && name[|name| - 1] == '}'
  {
    "{" + Join(SortedLabels(states)) + "}"
  }

  /** The name does not depend on how the set was built: any ascending listing
      of its labels gives it. */
  lemma EncodeCanonical(xs: seq<string>, s: set<string>)
    requires StrictlySorted(xs)
    requires forall x :: x in xs <==> x in s
    ensures Encode(s) == "{" + Join(xs) + "}"
  {
    SortedListingUnique(xs, s);
  }

  /** Different nonempty sets of comma-free labels get different names. */
  lemma EncodeInjective(s1: set<string>, s2: set<string>)
    requires s1 != {} && s2 != {}
    requires forall x :: x in s1 ==> CommaFree(x)
    requires forall x :: x in s2 ==> CommaFree(x)
    requires Encode(s1) == Encode(s2)
    ensures s1 == s2
  {
    var n := Encode(s1);
    var j1, j2 := Join(SortedLabels(s1)), Join(SortedLabels(s2));
    assert j1 == n[1..|n| - 1] && j2 == n[1..|n| - 1];
    SortedLabelsListing(s1);
    SortedLabelsListing(s2);
    JoinInjective(SortedLabels(s1), SortedLabels(s2));
  }

  /** Every state that delta can lead to. */
  ghost function Targets(a: Automaton): set<string> {
    set st, c, t | st in a.delta && c in a.delta[st] && t in a.delta[st][c] :: t
  }

  /** The NFA states a subset built by `toDFA` can contain. */
  ghost function Universe(a: Automaton): set<string> {
    {a.q0} + Targets(a)
  }

  /** Subsets of the universe: the subsets `toDFA` can ever name. */
  ghost function Subsets(u: set<string>): set<set<string>> {
    set s: set<string> | s <= u
  }

  /** No label `toDFA` can put in a subset contains ','; then names and
      subsets correspond one to one. */
  ghost predicate CommaFreeLabels(a: Automaton) {
    && CommaFree(a.q0)
    && forall st, c, t :: EdgeIn(a.delta, st, c, t) ==> CommaFree(t)
  }

  lemma StepInTargets(a: Automaton, cur: set<string>, c: char)
    ensures Step(a, cur, c) <= Targets(a)
  {
  }

  lemma UniverseCommaFree(a: Automaton, s: set<string>)
    requires CommaFreeLabels(a) && s <= Universe(a)
    ensures forall x :: x in s ==> CommaFree(x)
  {
    forall x | x in s ensures CommaFree(x) {
      if x != a.q0 {
        var st, c :| st in a.delta && c in a.delta[st] && x in a.delta[st][c];
        assert EdgeIn(a.delta, st, c, x);
      }
    }
  }

  /** The row of the DFA state for subset `s`, over the symbols `syms`: one
      name per symbol, and no entry where no NFA state is reachable. */
  ghost function RowOn(a: Automaton, s: set<string>, syms: set<char>): map<char, set<string>> {
    map c | c in syms && Step(a, s, c) != {} :: {Encode(Step(a, s, c))}
  }

  /** `computeIfAbsent(c, new HashSet)` on a row, read without the insertion:
      the stored cell for `c`, or the empty set. */
  function CellOf(row: map<char, set<string>>, c: char): set<string> {
    if c in row then row[c] else {}
  }

  /** Extending the symbols by `c` adds the entry for `c`, if any. */
  lemma RowOnAdd(a: Automaton, s: set<string>, syms: set<char>, c: char)
    requires c !in syms
    ensures c !in RowOn(a, s, syms)
    ensures RowOn(a, s, syms + {c}) ==
      if Step(a, s, c) == {} then RowOn(a, s, syms) else RowOn(a, s, syms)[c := {Encode(Step(a, s, c))}]
  {
    var l := RowOn(a, s, syms + {c});
    var r := if Step(a, s, c) == {} then RowOn(a, s, syms) else RowOn(a, s, syms)[c := {Encode(Step(a, s, c))}];
    assert l.Keys == r.Keys;
    forall k | k in l ensures l[k] == r[k] {
    }
  }

  /** Adding the name of the nonempty step on `c`, as `toDFA` does, extends the row by `c`. */
  lemma RowCellAdd(a: Automaton, s: set<string>, syms: set<char>, c: char,
                   row: map<char, set<string>>, name: string)
    requires c !in syms && row == RowOn(a, s, syms)
    requires Step(a, s, c) != {} && name == Encode(Step(a, s, c))
    ensures row[c := CellOf(row, c) + {name}] == RowOn(a, s, syms + {c})
  {
    RowOnAdd(a, s, syms, c);
    assert CellOf(row, c) + {name} == {name};
  }

  ghost function Row(a: Automaton, s: set<string>): map<char, set<string>> {
    RowOn(a, s, a.Sigma)
  }

  /** Every nonempty step out of a subset of `done` is among `known`. */
  ghost predicate Closed(a: Automaton, done: set<set<string>>, known: set<set<string>>) {
    forall s, c {:trigger Step(a, s, c) in known} ::
      s in done && c in a.Sigma && Step(a, s, c) != {} ==> Step(a, s, c) in known
  }

  /** `delta` holds, under the name of each subset of `done`, that subset's row. */
  ghost predicate RowsStored(a: Automaton, done: set<set<string>>, delta: Delta) {
    forall s {:trigger delta[Encode(s)]} ::
      s in done ==> Encode(s) in delta && delta[Encode(s)] == Row(a, s)
  }

  ghost function Names(ss: set<set<string>>): set<string> {
    set s | s in ss :: Encode(s)
  }

  ghost function FinalNames(a: Automaton, ss: set<set<string>>): set<string> {
    set s | s in ss && s * a.F != {} :: Encode(s)
  }

  /** `d` is the subset automaton of `a` over the named subsets `N`: N holds
      {q0} and is closed under the steps, the states of `d` are the names of N,
      each has the row of its subset, and a name is final iff its subset meets F. */
  ghost predicate SubsetDFA(a: Automaton, N: set<set<string>>, d: Automaton) {
    && {a.q0} in N
    && (forall s :: s in N ==> s != {} && s <= Universe(a))
    && Closed(a, N, N)
    && d.Sigma == a.Sigma
    && d.q0 == Encode({a.q0})
    && d.Q == Names(N)
    && d.delta.Keys == d.Q
    && RowsStored(a, N, d.delta)
    && d.F == FinalNames(a, N)
  }

  /** Running the subset automaton from the name of `s` tracks the NFA run from `s`. */
  lemma {:induction false} SubsetRunTracks(a: Automaton, N: set<set<string>>, d: Automaton, s: set<string>, w: string)
    requires SubsetDFA(a, N, d) && s in N
    requires forall i :: 0 <= i < |w| ==> w[i] in a.Sigma
    ensures Run(a, s, w) != {} ==> Run(a, s, w) in N && Run(d, {Encode(s)}, w) == {Encode(Run(a, s, w))}
    ensures Run(a, s, w) == {} ==> Run(d, {Encode(s)}, w) == {}
    decreases |w|
  {
    if w != [] {
      var c := w[0];
      var t := Step(a, s, c);
      StepSingleton(d, Encode(s), c);
      assert forall i :: 0 <= i < |w[1..]| ==> w[1..][i] in a.Sigma by {
        forall i | 0 <= i < |w[1..]| ensures w[1..][i] in a.Sigma { assert w[1..][i] == w[i + 1]; }
      }
      if t == {} {
        assert Step(d, {Encode(s)}, c) == {};
        RunFromEmpty(a, w[1..]);
        RunFromEmpty(d, w[1..]);
      } else {
        assert Step(d, {Encode(s)}, c) == {Encode(t)};
        SubsetRunTracks(a, N, d, t, w[1..]);
      }
    }
  }

  /** The subset automaton accepts exactly the strings the NFA accepts. */
  lemma SubsetDFAEquivalent(a: Automaton, N: set<set<string>>, d: Automaton, w: string)
    requires SubsetDFA(a, N, d) && CommaFreeLabels(a)
    ensures Accepts(d, w) <==> Accepts(a, w)
  {
    if forall i :: 0 <= i < |w| ==> w[i] in a.Sigma {
      SubsetRunTracks(a, N, d, {a.q0}, w);
      var r := Run(a, {a.q0}, w);
      if r != {} {
        assert Run(d, {d.q0}, w) == {Encode(r)};
        if Encode(r) in d.F {
          var s :| s in N && s * a.F != {} && Encode(s) == Encode(r);
          UniverseCommaFree(a, s);
          UniverseCommaFree(a, r);
          EncodeInjective(s, r);
          assert Encode(r) in Run(d, {d.q0}, w) * d.F;
        } else {
          assert r * a.F == {};
        }
      }
    }
  }

  /** Every stored entry of the subset automaton holds exactly one name. */
  lemma SubsetDFASingleNames(a: Automaton, N: set<set<string>>, d: Automaton)
    requires SubsetDFA(a, N, d)
    ensures forall n, c :: n in d.delta && c in d.delta[n] ==> |d.delta[n][c]| == 1
    ensures Deterministic(d)
  {
    forall n, c | n in d.delta && c in d.delta[n] ensures |d.delta[n][c]| == 1 {
      var s :| s in N && Encode(s) == n;
      RowSingletons(a, s, c);
    }
  }

  lemma RowSingletons(a: Automaton, s: set<string>, c: char)
    requires c in Row(a, s)
    ensures |Row(a, s)[c]| == 1
  {
  }

  /** `s` is a nonempty set of NFA states that some string over Sigma leads
      to from {q0}: a subset the worklist of `toDFA` can reach. */
  ghost predicate Reachable(a: Automaton, s: set<string>) {
    && s != {}
    && exists w :: (forall i :: 0 <= i < |w| ==> w[i] in a.Sigma) && Run(a, {a.q0}, w) == s
  }

  ghost predicate AllReachable(a: Automaton, ss: set<set<string>>) {
    forall s :: s in ss ==> Reachable(a, s)
  }

  lemma ReachableStart(a: Automaton)
    ensures Reachable(a, {a.q0})
  {
    assert Run(a, {a.q0}, []) == {a.q0};
  }

  /** A nonempty step on a symbol of Sigma from a reachable subset is reachable. */
  lemma ReachableStep(a: Automaton, s: set<string>, c: char)
    requires Reachable(a, s) && c in a.Sigma && Step(a, s, c) != {}
    ensures Reachable(a, Step(a, s, c))
  {
    var w :| (forall i :: 0 <= i < |w| ==> w[i] in a.Sigma) && Run(a, {a.q0}, w) == s;
    RunSnoc(a, {a.q0}, w, c);
    var w' := w + [c];
    assert forall i :: 0 <= i < |w'| ==> w'[i] in a.Sigma by {
      forall i | 0 <= i < |w'| ensures w'[i] in a.Sigma {
        if i < |w| { assert w'[i] == w[i]; }
      }
    }
    assert Run(a, {a.q0}, w') == Step(a, s, c);
  }

  /** A step-closed family holds every nonempty run from its members. */
  lemma {:induction false} ClosedHoldsRuns(a: Automaton, N: set<set<string>>, s: set<string>, w: string)
    requires Closed(a, N, N) && s in N
    requires forall i :: 0 <= i < |w| ==> w[i] in a.Sigma
    requires Run(a, s, w) != {}
    ensures Run(a, s, w) in N
    decreases |w|
  {
    if w != [] {
      var t := Step(a, s, w[0]);
      if t == {} {
        RunFromEmpty(a, w[1..]);
      } else {
        assert t in N;
        assert forall i :: 0 <= i < |w[1..]| ==> w[1..][i] in a.Sigma by {
          forall i | 0 <= i < |w[1..]| ensures w[1..][i] in a.Sigma { assert w[1..][i] == w[i + 1]; }
        }
        ClosedHoldsRuns(a, N, t, w[1..]);
      }
    }
  }

  /** A step-closed family holding {q0} holds every reachable subset. */
  lemma ClosedHoldsReachable(a: Automaton, N: set<set<string>>, s: set<string>)
    requires Closed(a, N, N) && {a.q0} in N && Reachable(a, s)
    ensures s in N
  {
    var w :| (forall i :: 0 <= i < |w| ==> w[i] in a.Sigma) && Run(a, {a.q0}, w) == s;
    ClosedHoldsRuns(a, N, {a.q0}, w);
  }

  /** The names in use and their subsets: every key is a nonempty subset of
      the universe, named by `Encode`. */
  ghost predicate NamesValid(a: Automaton, names: map<set<string>, string>) {
    forall s :: s in names ==> s != {} && s <= Universe(a) && names[s] == Encode(s)
  }

  /** What holds of the processed subsets `done`. */
  ghost predicate DoneValid(a: Automaton, names: map<set<string>, string>, done: set<set<string>>,
                           dfaDelta: Delta, dfaFinal: set<string>) {
    && Closed(a, done, names.Keys)
    && dfaDelta.Keys == Names(done)
    && dfaFinal == FinalNames(a, done)
    && SingletonCells(dfaDelta)
  }

  /** Every stored cell holds exactly one name. */
  ghost predicate SingletonCells(delta: Delta) {
    forall n, c :: n in delta && c in delta[n] ==> |delta[n][c]| == 1
  }

  lemma ClosedStep(a: Automaton, done: set<set<string>>, current: set<string>,
                   known: set<set<string>>, known': set<set<string>>)
    requires Closed(a, done, known) && known <= known'
    requires forall c {:trigger Step(a, current, c) in known'} :: c in a.Sigma && Step(a, current, c) != {} ==> Step(a, current, c) in known'
    ensures Closed(a, done + {current}, known')
  {
    forall s, c | s in done + {current} && c in a.Sigma && Step(a, s, c) != {} ensures Step(a, s, c) in known' {
      if s != current {
        assert Step(a, s, c) in known;
      }
    }
  }

  /** Storing the row of `current` under its name keeps the rows stored before:
      distinct subsets have distinct names. */
  lemma RowsStoredStep(a: Automaton, done: set<set<string>>, current: set<string>, delta: Delta)
    requires CommaFreeLabels(a) && RowsStored(a, done, delta)
    requires forall s :: s in done + {current} ==> s != {} && s <= Universe(a)
    ensures RowsStored(a, done + {current}, delta[Encode(current) := Row(a, current)])
  {
    var delta' := delta[Encode(current) := Row(a, current)];
    forall s | s in done + {current} ensures Encode(s) in delta' && delta'[Encode(s)] == Row(a, s) {
      if s != current && Encode(s) == Encode(current) {
        UniverseCommaFree(a, s);
        UniverseCommaFree(a, current);
        EncodeInjective(s, current);
      }
      if s != current {
        assert Encode(s) in delta && delta[Encode(s)] == Row(a, s);
      }
    }
  }

  /** Processing one more subset keeps `DoneValid`; this needs no assumption
      on the labels. */
  lemma DoneValidStep(a: Automaton, names: map<set<string>, string>, names': map<set<string>, string>,
                      done: set<set<string>>, current: set<string>, dfaDelta: Delta, dfaFinal: set<string>)
    requires DoneValid(a, names, done, dfaDelta, dfaFinal)
    requires names.Keys <= names'.Keys
    requires forall c {:trigger Step(a, current, c) in names'.Keys} :: c in a.Sigma && Step(a, current, c) != {} ==> Step(a, current, c) in names'.Keys
    ensures DoneValid(a, names', done + {current}, dfaDelta[Encode(current) := Row(a, current)],
                      if current * a.F != {} then dfaFinal + {Encode(current)} else dfaFinal)
  {
    ClosedStep(a, done, current, names.Keys, names'.Keys);
    SingletonCellsStep(a, dfaDelta, Encode(current), current);
    NamesStep(a, done, current);
  }

  lemma SingletonCellsStep(a: Automaton, delta: Delta, n: string, s: set<string>)
    requires SingletonCells(delta)
    ensures SingletonCells(delta[n := Row(a, s)])
  {
    forall c | c in Row(a, s) ensures |Row(a, s)[c]| == 1 {
      RowSingletons(a, s, c);
    }
  }

  lemma NamesStep(a: Automaton, done: set<set<string>>, current: set<string>)
    ensures Names(done + {current}) == Names(done) + {Encode(current)}
    ensures FinalNames(a, done + {current}) ==
      if current * a.F != {} then FinalNames(a, done) + {Encode(current)} else FinalNames(a, done)
  {
    assert Names(done + {current}) == Names(done) + {Encode(current)};
    if current * a.F != {} {
      assert FinalNames(a, done + {current}) == FinalNames(a, done) + {Encode(current)};
    } else {
      assert FinalNames(a, done + {current}) == FinalNames(a, done);
    }
  }

  /** Naming more subsets of the universe leaves fewer to name: the measure
      of `toDFA`'s worklist loop. */
  lemma NewNamesShrink(u: set<string>, before: set<set<string>>, after: set<set<string>>)
    requires before <= after && forall s :: s in after ==> s <= u
    ensures Subsets(u) - after <= Subsets(u) - before
    ensures after != before ==> Subsets(u) - after != Subsets(u) - before
  {
    if after != before {
      assert after == before + (after - before);
      var s :| s in after - before;
      assert s in Subsets(u) - before;
    }
  }

  /** The measure of the worklist loop decreases: either a subset was named
      anew, or the worklist got shorter. */
  lemma ExploreDecreases(a: Automaton, before: set<set<string>>, names: map<set<string>, string>,
                         length: nat, length': nat)
    requires NamesValid(a, names) && before <= names.Keys
    requires names.Keys == before ==> length' < length
    ensures Subsets(Universe(a)) - names.Keys < Subsets(Universe(a)) - before ||
      (Subsets(Universe(a)) - names.Keys == Subsets(Universe(a)) - before && length' < length)
  {
    NewNamesShrink(Universe(a), before, names.Keys);
  }

  /** Naming one more reachable subset by `Encode` keeps `NamesValid`. */
  lemma NamesValidAdd(a: Automaton, names: map<set<string>, string>, s: set<string>)
    requires NamesValid(a, names) && s != {} && s <= Universe(a)
    ensures NamesValid(a, names[s := Encode(s)])
  {
  }

  lemma AppendQueued(worklist: seq<set<string>>, added: seq<set<string>>, s: set<string>)
    ensures (worklist + added) + [s] == worklist + (added + [s])
  {
  }

  /** The loop over Sigma inside `toDFA`'s worklist loop: the row of `current`,
      naming and enqueuing every reachable set not named yet. */
  method ExpandSubset(a: Automaton, current: set<string>, names: map<set<string>, string>,
                      worklist: seq<set<string>>)
    returns (row: map<char, set<string>>, names': map<set<string>, string>, worklist': seq<set<string>>)
    requires NamesValid(a, names)
    requires Reachable(a, current) && AllReachable(a, names.Keys)
    ensures NamesValid(a, names') && AllReachable(a, names'.Keys)
    ensures row == Row(a, current)
    ensures names.Keys <= names'.Keys
    ensures |worklist| <= |worklist'| && worklist' == worklist + worklist'[|worklist|..]
    ensures forall s :: s in names' <==> s in names || s in worklist'[|worklist|..]
    ensures names'.Keys == names.Keys ==> worklist' == worklist
    ensures forall c {:trigger Step(a, current, c) in names'.Keys} :: c in a.Sigma && Step(a, current, c) != {} ==> Step(a, current, c) in names'.Keys
  {
    row, names', worklist' := map[], names, worklist;
    ghost var added: seq<set<string>> := [];
    var symbols := a.Sigma;
    ghost var seen: set<char> := {};
    while symbols != {}
      invariant seen + symbols == a.Sigma && seen !! symbols
      invariant NamesValid(a, names') && AllReachable(a, names'.Keys)
      invariant row == RowOn(a, current, seen)
      invariant names.Keys <= names'.Keys
      invariant worklist' == worklist + added
      invariant forall s :: s in names' <==> s in names || s in added
      invariant names'.Keys == names.Keys ==> added == []
      invariant forall c {:trigger Step(a, current, c) in names'.Keys} :: c in seen && Step(a, current, c) != {} ==> Step(a, current, c) in names'.Keys
      decreases symbols
    {
      var symbol :| symbol in symbols;
      var reachable := Successors(a, current, symbol);
      if reachable != {} {
        if reachable !in names' {
          var newName := Encode(reachable);
          StepInTargets(a, current, symbol);
          NamesValidAdd(a, names', reachable);
          ReachableStep(a, current, symbol);
          AppendQueued(worklist, added, reachable);
          names' := names'[reachable := newName];
          worklist' := worklist' + [reachable];
          added := added + [reachable];
        }
        var targetName := names'[reachable];
        var cell := CellOf(row, symbol);
        RowCellAdd(a, current, seen, symbol, row, targetName);
        row := row[symbol := cell + {targetName}];
      } else {
        RowOnAdd(a, current, seen, symbol);
      }
      symbols := symbols - {symbol};
      seen := seen + {symbol};
    }
    assert worklist'[|worklist|..] == added;
  }

  /** When the worklist is empty the processed subsets are the named ones, so
      the names in use are the names of the processed subsets. */
  lemma NamesInUse(a: Automaton, names: map<set<string>, string>, done: set<set<string>>)
    requires NamesValid(a, names) && names.Keys == done
    ensures names.Values == Names(done)
  {
    forall n | n in names.Values ensures n in Names(done) {
      var s :| s in names && names[s] == n;
    }
    forall n | n in Names(done) ensures n in names.Values {
      var s :| s in done && Encode(s) == n;
      assert names[s] == n;
    }
  }

  /** What holds between the iterations of `toDFA`'s worklist loop: every
      named subset is processed or queued, and what was collected is right for
      the processed ones. */
  ghost predicate Exploring(a: Automaton, stateNames: map<set<string>, string>, dfaDelta: Delta,
                            dfaFinal: set<string>, worklist: seq<set<string>>, done: set<set<string>>) {
    && NamesValid(a, stateNames)
    && {a.q0} in stateNames
    && (forall s :: s in stateNames <==> s in done || s in worklist)
    && DoneValid(a, stateNames, done, dfaDelta, dfaFinal)
    && (CommaFreeLabels(a) ==> RowsStored(a, done, dfaDelta))
  }

  /** One iteration of `toDFA`'s worklist loop: poll a subset, record its
      finality and its row, and name and queue its new successors. */
  method VisitNext(a: Automaton, stateNames: map<set<string>, string>, dfaDelta: Delta,
                   dfaFinal: set<string>, worklist: seq<set<string>>, ghost done: set<set<string>>)
    returns (stateNames': map<set<string>, string>, dfaDelta': Delta, dfaFinal': set<string>,
             worklist': seq<set<string>>, ghost done': set<set<string>>)
    requires worklist != [] && Exploring(a, stateNames, dfaDelta, dfaFinal, worklist, done)
    requires AllReachable(a, stateNames.Keys)
    ensures Exploring(a, stateNames', dfaDelta', dfaFinal', worklist', done')
    ensures AllReachable(a, stateNames'.Keys)
    ensures stateNames.Keys <= stateNames'.Keys
    ensures stateNames'.Keys == stateNames.Keys ==> |worklist'| < |worklist|
  {
    var current := worklist[0];
    assert current in stateNames;
    var currentName := stateNames[current];
    assert Reachable(a, current);
    dfaFinal' := dfaFinal;
    var isFinal := ContainsFinal(a, current);
    if isFinal {
      dfaFinal' := dfaFinal' + {currentName};
    }
    var row;
    row, stateNames', worklist' := ExpandSubset(a, current, stateNames, worklist[1..]);
    dfaDelta' := dfaDelta[currentName := row];
    done' := done + {current};
    VisitStep(a, stateNames, dfaDelta, dfaFinal, worklist, done, row, stateNames', worklist');
  }

  /** What one iteration of the worklist loop preserves, given what the loop
      over Sigma computed for the polled subset. */
  lemma VisitStep(a: Automaton, stateNames: map<set<string>, string>, dfaDelta: Delta,
                  dfaFinal: set<string>, worklist: seq<set<string>>, done: set<set<string>>,
                  row: map<char, set<string>>, stateNames': map<set<string>, string>,
                  worklist': seq<set<string>>)
    requires worklist != [] && Exploring(a, stateNames, dfaDelta, dfaFinal, worklist, done)
    requires NamesValid(a, stateNames')
    requires row == Row(a, worklist[0])
    requires stateNames.Keys <= stateNames'.Keys
    requires |worklist[1..]| <= |worklist'| && worklist' == worklist[1..] + worklist'[|worklist[1..]|..]
    requires forall s :: s in stateNames' <==> s in stateNames || s in worklist'[|worklist[1..]|..]
    requires stateNames'.Keys == stateNames.Keys ==> worklist' == worklist[1..]
    requires forall c {:trigger Step(a, worklist[0], c) in stateNames'.Keys} ::
      c in a.Sigma && Step(a, worklist[0], c) != {} ==> Step(a, worklist[0], c) in stateNames'.Keys
    ensures Exploring(a, stateNames', dfaDelta[Encode(worklist[0]) := row],
                      if worklist[0] * a.F != {} then dfaFinal + {Encode(worklist[0])} else dfaFinal,
                      worklist', done + {worklist[0]})
  {
    var current := worklist[0];
    assert current in stateNames;
    DoneValidStep(a, stateNames, stateNames', done, current, dfaDelta, dfaFinal);
    if CommaFreeLabels(a) {
      assert forall s :: s in done + {current} ==> s in stateNames;
      RowsStoredStep(a, done, current, dfaDelta);
    }
    QueueMembers(worklist, worklist');
  }

  /** Membership in the queue before and after one iteration: the head left,
      the tail stayed and new subsets were appended. */
  lemma QueueMembers(worklist: seq<set<string>>, worklist': seq<set<string>>)
    requires worklist != [] && |worklist| - 1 <= |worklist'|
    requires worklist' == worklist[1..] + worklist'[|worklist| - 1..]
    ensures forall s :: s in worklist <==> s == worklist[0] || s in worklist[1..]
    ensures forall s :: s in worklist' <==> s in worklist[1..] || s in worklist'[|worklist| - 1..]
  {
    assert worklist == [worklist[0]] + worklist[1..];
  }

  /** The worklist loop of `toDFA`: names every subset reachable from {q0},
      collecting the row and the finality of each.  On exit every named
      subset has been processed; when no label contains ',' the names do not
      collide and every processed subset's row is stored under its name. */
  method ExploreSubsets(a: Automaton)
    returns (stateNames: map<set<string>, string>, dfaDelta: Delta, dfaFinal: set<string>,
             ghost done: set<set<string>>)
    ensures NamesValid(a, stateNames) && {a.q0} in stateNames && stateNames.Keys == done
    ensures AllReachable(a, done)
    ensures DoneValid(a, stateNames, done, dfaDelta, dfaFinal)
    ensures CommaFreeLabels(a) ==> RowsStored(a, done, dfaDelta)
  {
    var startSet := {a.q0};
    stateNames := map[startSet := Encode(startSet)];
    dfaDelta, dfaFinal := map[], {};
    var worklist := [startSet];
    done := {};
    ReachableStart(a);
    ghost var all := Subsets(Universe(a));
    while worklist != []
      invariant Exploring(a, stateNames, dfaDelta, dfaFinal, worklist, done)
      invariant AllReachable(a, stateNames.Keys)
      decreases all - stateNames.Keys, |worklist|
    {
      ghost var keysBefore, lengthBefore := stateNames.Keys, |worklist|;
      stateNames, dfaDelta, dfaFinal, worklist, done := VisitNext(a, stateNames, dfaDelta, dfaFinal, worklist, done);
      ExploreDecreases(a, keysBefore, stateNames, lengthBefore, |worklist|);
    }
  }

  /** `toDFA`: the subset construction.  The ghost result `named` is the set of
      subsets it named.  Whatever the labels, the result is deterministic, has
      the alphabet Sigma, starts at the name of {q0} and has one name per
      reachable subset; when no label contains ',' it is the subset automaton
      of `a` and accepts the same language. */
  method ToDFA(a: Automaton) returns (d: Automaton, ghost named: set<set<string>>)
    ensures d.Sigma == a.Sigma && d.q0 == Encode({a.q0}) && d.delta.Keys == d.Q
    ensures {a.q0} in named && Closed(a, named, named)
    ensures forall s :: s in named <==> Reachable(a, s)
    ensures d.Q == Names(named) && d.F == FinalNames(a, named)
    ensures forall n, c :: n in d.delta && c in d.delta[n] ==> |d.delta[n][c]| == 1
    ensures Deterministic(d)
    ensures CommaFreeLabels(a) ==> SubsetDFA(a, named, d)
    ensures CommaFreeLabels(a) ==> forall w :: Accepts(d, w) <==> Accepts(a, w)
  {
    var stateNames, dfaDelta, dfaFinal;
    stateNames, dfaDelta, dfaFinal, named := ExploreSubsets(a);
    var startName := stateNames[{a.q0}];
    d := Automaton(stateNames.Values, a.Sigma, dfaDelta, startName, dfaFinal);
    NamesInUse(a, stateNames, named);
    forall s ensures s in named <==> Reachable(a, s) {
      if Reachable(a, s) {
        ClosedHoldsReachable(a, named, s);
      }
    }
    if CommaFreeLabels(a) {
      assert SubsetDFA(a, named, d);
      forall w ensures Accepts(d, w) <==> Accepts(a, w) {
        SubsetDFAEquivalent(a, named, d, w);
      }
    }
  }
}
