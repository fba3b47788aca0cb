/**
 * The finite automaton FA = (Q, Sigma, delta, q0, F) of FiniteAutomaton.java:
 * NFA membership by subset simulation, the determinism test and the conversion
 * to a right-linear grammar.
 */
module FiniteAutomata {
  import opened Wrappers
  import opened Grammars

  /** delta: state -> symbol -> successor states; absent entries mean "no move". */
  type Delta = map<string, map<char, set<string>>>

  datatype Automaton = Automaton(
    Q: set<string>,      // states
    Sigma: set<char>,    // alphabet
    delta: Delta,        // transitions
    q0: string,          // start state
    F: set<string>       // final states
  )

  /** `from --c--> to` is stored in `delta`. */
  ghost predicate EdgeIn(delta: Delta, from: string, c: char, to: string) {
    from in delta && c in delta[from] && to in delta[from][c]
  }

  /** One step of the subset simulation: the union of the stored successors
      of the states of `cur` for `c`; missing entries contribute nothing. */
  ghost function Step(a: Automaton, cur: set<string>, c: char): set<string> {
    set st, t | st in cur && st in a.delta && c in a.delta[st] && t in a.delta[st][c] :: t
  }

  /** The simulation folded over `w` from the set `cur`. */
  ghost function Run(a: Automaton, cur: set<string>, w: string): set<string>
    decreases |w|
  {
    if w == [] then cur else Run(a, Step(a, cur, w[0]), w[1..])
  }

  /** The language of the automaton: every symbol is in Sigma and the run from
      {q0} ends in a set that meets F. */
  ghost predicate Accepts(a: Automaton, w: string) {
    && (forall i :: 0 <= i < |w| ==> w[i] in a.Sigma)
    && Run(a, {a.q0}, w) * a.F != {}
  }

  /** Once no state is left, none comes back: so stopping early on an empty
      set does not change the answer. */
  lemma {:induction false} RunFromEmpty(a: Automaton, w: string)
    ensures Run(a, {}, w) == {}
    decreases |w|
  {
    if w != [] {
      assert Step(a, {}, w[0]) == {};
      RunFromEmpty(a, w[1..]);
    }
  }

  /** A larger starting set reaches at least as much. */
  lemma {:induction false} RunMonotone(a: Automaton, c1: set<string>, c2: set<string>, w: string)
    requires c1 <= c2
    ensures Run(a, c1, w) <= Run(a, c2, w)
    decreases |w|
  {
    if w != [] {
      assert Step(a, c1, w[0]) <= Step(a, c2, w[0]);
      RunMonotone(a, Step(a, c1, w[0]), Step(a, c2, w[0]), w[1..]);
    }
  }

  /** Running over `w + [c]` is running over `w` and then stepping on `c`. */
  lemma {:induction false} RunSnoc(a: Automaton, cur: set<string>, w: string, c: char)
    ensures Run(a, cur, w + [c]) == Step(a, Run(a, cur, w), c)
    decreases |w|
  {
    if w == [] {
      assert [] + [c] == [c];
    } else {
      assert (w + [c])[0] == w[0] && (w + [c])[1..] == w[1..] + [c];
      RunSnoc(a, Step(a, cur, w[0]), w[1..], c);
    }
  }

  lemma StepSingleton(a: Automaton, st: string, c: char)
    ensures Step(a, {st}, c) == if st in a.delta && c in a.delta[st] then a.delta[st][c] else {}
  {
  }

  /** The empty input is accepted exactly when q0 is final. */
  lemma AcceptsEmpty(a: Automaton)
    ensures Accepts(a, "") <==> a.q0 in a.F
  {
    if a.q0 in a.F {
      assert a.q0 in {a.q0} * a.F;
    }
  }

  /** A symbol outside Sigma rejects the input, whatever delta is. */
  lemma RejectsForeignSymbol(a: Automaton, w: string, i: nat)
    requires i < |w| && w[i] !in a.Sigma
    ensures !Accepts(a, w)
  {
  }

  /** The union of the successors of `cur` for `ch`, one state at a time. */
  method Successors(a: Automaton, cur: set<string>, ch: char) returns (next: set<string>)
    ensures next == Step(a, cur, ch)
  {
    next := {};
    var rest := cur;
    while rest != {}
      invariant rest <= cur
      invariant next == Step(a, cur - rest, ch)
      decreases rest
    {
      var st :| st in rest;
      if st in a.delta {
        var trans := a.delta[st];
        if ch in trans {
          next := next + trans[ch];
        }
      }
      assert cur - (rest - {st}) == (cur - rest) + {st};
      rest := rest - {st};
    }
  }

  /** Whether some state of `cur` is final, scanning with an early exit. */
  method ContainsFinal(a: Automaton, cur: set<string>) returns (found: bool)
    ensures found <==> cur * a.F != {}
  {
    var rest := cur;
    while rest != {}
      invariant rest <= cur
      invariant (cur - rest) * a.F == {}
      decreases rest
    {
      var st :| st in rest;
      if st in a.F {
        assert st in cur * a.F;
        return true;
      }
      rest := rest - {st};
    }
    return false;
  }

  /** `stringBelongToLanguage`: subset simulation with early rejection on a
      foreign symbol or an empty set. */
  method StringBelongToLanguage(a: Automaton, w: string) returns (accepted: bool)
    ensures accepted == Accepts(a, w)
  {
    var current := {a.q0};
    for i := 0 to |w|
      invariant Run(a, {a.q0}, w) == Run(a, current, w[i..])
      invariant forall j :: 0 <= j < i ==> w[j] in a.Sigma
    {
      var ch := w[i];
      if ch !in a.Sigma {
        return false;
      }
      var next := Successors(a, current, ch);
      assert w[i..][1..] == w[i + 1..];
      if next == {} {
        RunFromEmpty(a, w[i + 1..]);
        return false;
      }
      current := next;
    }
    assert w[|w|..] == [];
    accepted := ContainsFinal(a, current);
  }

  /** Every successor set stored in delta has at most one element; absent
      pairs do not matter. */
  ghost predicate Deterministic(a: Automaton) {
    forall st, c :: st in a.delta && c in a.delta[st] ==> |a.delta[st][c]| <= 1
  }

  /** `isDeterministic`: the nested scan over delta. */
  method IsDeterministic(a: Automaton) returns (det: bool)
    ensures det == Deterministic(a)
  {
    var states := a.delta.Keys;
    while states != {}
      invariant states <= a.delta.Keys
      invariant forall st, c :: st in a.delta && st !in states && c in a.delta[st] ==> |a.delta[st][c]| <= 1
      decreases states
    {
      var st :| st in states;
      var symbols := a.delta[st].Keys;
      while symbols != {}
        invariant symbols <= a.delta[st].Keys
        invariant forall c :: c in a.delta[st] && c !in symbols ==> |a.delta[st][c]| <= 1
        decreases symbols
      {
        var c :| c in symbols;
        if |a.delta[st][c]| > 1 {
          return false;
        }
        symbols := symbols - {c};
      }
      states := states - {st};
    }
    return true;
  }

  /** A deterministic automaton is in at most one state at any time. */
  lemma {:induction false} DeterministicRunAtMostOne(a: Automaton, cur: set<string>, w: string)
    requires Deterministic(a) && |cur| <= 1
    ensures |Run(a, cur, w)| <= 1
    decreases |w|
  {
    if w != [] {
      if cur == {} {
        assert Step(a, cur, w[0]) == {};
      } else {
        var st :| st in cur;
        assert |cur - {st}| == |cur| - 1;
        assert cur == {st};
        StepSingleton(a, st, w[0]);
      }
      DeterministicRunAtMostOne(a, Step(a, cur, w[0]), w[1..]);
    }
  }

  /** Some stored successor of `from` on `c` is final. */
  ghost predicate EntersFinal(a: Automaton, from: string, c: char) {
    from in a.delta && c in a.delta[from] && a.delta[from][c] * a.F != {}
  }

  /** The grammar `toRegularGrammar` builds, up to the order of each list:
      Vn = Q, Vt = Sigma, start q0, a list for every state, and exactly the
      productions `from -> c to` for each edge and `from -> c` for each edge into F. */
  ghost predicate IsGrammarOf(a: Automaton, g: Grammar) {
    && g.Vn == a.Q && g.Vt == a.Sigma && g.S == a.q0
    && g.P.Keys == a.Q
    && (forall from, c, to :: from in g.P ==>
          (Production(c, Some(to)) in g.P[from] <==> EdgeIn(a.delta, from, c, to)))
    && (forall from, c :: from in g.P ==>
          (Production(c, None) in g.P[from] <==> EntersFinal(a, from, c)))
  }

  /** The innermost loop of `toRegularGrammar`: for each target `to` of
      `from --symbol-->`, append `symbol to`, and also `symbol` when `to` is final. */
  method AddSymbolProductions(a: Automaton, P: map<string, seq<Production>>, from: string, symbol: char)
    returns (P': map<string, seq<Production>>)
    requires from in P && from in a.delta && symbol in a.delta[from]
    ensures P'.Keys == P.Keys
    ensures forall f :: f in P && f != from ==> P'[f] == P[f]
    ensures forall c, to :: Production(c, Some(to)) in P'[from] <==>
      Production(c, Some(to)) in P[from] || (c == symbol && to in a.delta[from][symbol])
    ensures forall c :: Production(c, None) in P'[from] <==>
      Production(c, None) in P[from] || (c == symbol && a.delta[from][symbol] * a.F != {})
  {
    P' := P;
    var targets := a.delta[from][symbol];
    while targets != {}
      invariant targets <= a.delta[from][symbol]
      invariant P'.Keys == P.Keys
      invariant forall f :: f in P && f != from ==> P'[f] == P[f]
      invariant forall c, to :: Production(c, Some(to)) in P'[from] <==>
        Production(c, Some(to)) in P[from] ||
        (c == symbol && to in a.delta[from][symbol] && to !in targets)
      invariant forall c :: Production(c, None) in P'[from] <==>
        Production(c, None) in P[from] ||
        (c == symbol && (a.delta[from][symbol] - targets) * a.F != {})
      decreases targets
    {
      var to :| to in targets;
      P' := P'[from := P'[from] + [Production(symbol, Some(to))]];
      if to in a.F {
        P' := P'[from := P'[from] + [Production(symbol, None)]];
        assert to in (a.delta[from][symbol] - (targets - {to})) * a.F;
      }
      assert a.delta[from][symbol] - (targets - {to}) == (a.delta[from][symbol] - targets) + {to};
      targets := targets - {to};
    }
  }

  /** The middle loop of `toRegularGrammar`: the productions of every edge
      leaving `from`. */
  method AddStateProductions(a: Automaton, P: map<string, seq<Production>>, from: string)
    returns (P': map<string, seq<Production>>)
    requires from in P && from in a.delta
    ensures P'.Keys == P.Keys
    ensures forall f :: f in P && f != from ==> P'[f] == P[f]
    ensures forall c, to :: Production(c, Some(to)) in P'[from] <==>
      Production(c, Some(to)) in P[from] || EdgeIn(a.delta, from, c, to)
    ensures forall c :: Production(c, None) in P'[from] <==>
      Production(c, None) in P[from] || EntersFinal(a, from, c)
  {
    P' := P;
    var symbols := a.delta[from].Keys;
    while symbols != {}
      invariant symbols <= a.delta[from].Keys
      invariant P'.Keys == P.Keys
      invariant forall f :: f in P && f != from ==> P'[f] == P[f]
      invariant forall c, to :: Production(c, Some(to)) in P'[from] <==>
        Production(c, Some(to)) in P[from] || (c !in symbols && EdgeIn(a.delta, from, c, to))
      invariant forall c :: Production(c, None) in P'[from] <==>
        Production(c, None) in P[from] || (c !in symbols && EntersFinal(a, from, c))
      decreases symbols
    {
      var symbol :| symbol in symbols;
      P' := AddSymbolProductions(a, P', from, symbol);
      symbols := symbols - {symbol};
    }
  }

  /** `toRegularGrammar`.  Line 104 dereferences `P.get(from)`, so every state
      with an outgoing edge must be in Q. */
  method ToRegularGrammar(a: Automaton) returns (g: Grammar)
    requires forall from, c, to :: EdgeIn(a.delta, from, c, to) ==> from in a.Q
    ensures IsGrammarOf(a, g)
  {
    var P: map<string, seq<Production>> := map[];
    var qs := a.Q;
    while qs != {}
      invariant qs <= a.Q
      invariant P.Keys == a.Q - qs
      invariant forall s :: s in P ==> P[s] == []
      decreases qs
    {
      var s :| s in qs;
      P := P[s := []];
      qs := qs - {s};
    }
    var froms := a.delta.Keys;
    while froms != {}
      invariant froms <= a.delta.Keys
      invariant P.Keys == a.Q
      invariant forall f, c, to :: f in P ==>
        (Production(c, Some(to)) in P[f] <==> f !in froms && EdgeIn(a.delta, f, c, to))
      invariant forall f, c :: f in P ==>
        (Production(c, None) in P[f] <==> f !in froms && EntersFinal(a, f, c))
      decreases froms
    {
      var from :| from in froms;
      // a state outside Q has no edges (by the precondition), so it adds nothing
      if from in P {
        P := AddStateProductions(a, P, from);
      }
      froms := froms - {from};
    }
    g := Grammar(a.Q, a.Sigma, P, a.q0);
  }

  /** Every sentence the converted grammar derives is accepted by the
      automaton, provided the stored symbols lie in Sigma. */
  lemma {:induction false} GrammarOfDerivesAccepted(a: Automaton, g: Grammar, x: string, ps: seq<Production>)
    requires IsGrammarOf(a, g)
    requires forall from, c, to :: EdgeIn(a.delta, from, c, to) ==> c in a.Sigma
    requires DerivesFrom(g, x, ps)
    ensures forall i :: 0 <= i < |ps| ==> Terminals(ps)[i] in a.Sigma
    ensures Run(a, {x}, Terminals(ps)) * a.F != {}
    decreases |ps|
  {
    var p := ps[0];
    var w := Terminals(ps);
    assert w[0] == p.terminal && w[1..] == Terminals(ps[1..]);
    StepSingleton(a, x, p.terminal);
    match p.next {
      case None =>
        assert EntersFinal(a, x, p.terminal);
        var f :| f in a.delta[x][p.terminal] * a.F;
        assert EdgeIn(a.delta, x, p.terminal, f);
        assert w[1..] == [];
      case Some(y) =>
        assert EdgeIn(a.delta, x, p.terminal, y);
        GrammarOfDerivesAccepted(a, g, y, ps[1..]);
        RunMonotone(a, {y}, Step(a, {x}, p.terminal), w[1..]);
    }
  }

  /** A state reached from a set is reached from one of its members. */
  lemma {:induction false} RunWitness(a: Automaton, cur: set<string>, w: string, f: string)
    requires f in Run(a, cur, w)
    ensures exists x :: x in cur && f in Run(a, {x}, w)
    decreases |w|
  {
    if w != [] {
      var next := Step(a, cur, w[0]);
      RunWitness(a, next, w[1..], f);
      var y :| y in next && f in Run(a, {y}, w[1..]);
      var x :| x in cur && x in a.delta && w[0] in a.delta[x] && y in a.delta[x][w[0]];
      StepSingleton(a, x, w[0]);
      RunMonotone(a, {y}, Step(a, {x}, w[0]), w[1..]);
    }
  }

  /** The converse of `GrammarOfDerivesAccepted`: a nonempty string on which
      the automaton gets from `x` into F is derived by the converted grammar
      from `x`. */
  lemma {:induction false} AcceptedGrammarOfDerives(a: Automaton, g: Grammar, x: string, w: string)
    requires IsGrammarOf(a, g)
    requires forall from, c, to :: EdgeIn(a.delta, from, c, to) ==> from in a.Q
    requires w != [] && Run(a, {x}, w) * a.F != {}
    ensures exists ps :: DerivesFrom(g, x, ps) && Terminals(ps) == w
    decreases |w|
  {
    var c := w[0];
    StepSingleton(a, x, c);
    var f :| f in Run(a, {x}, w) * a.F;
    if w[1..] == [] {
      assert f in Step(a, {x}, c);
      assert EdgeIn(a.delta, x, c, f) && x in g.P;
      assert EntersFinal(a, x, c);
      var ps := [Production(c, None)];
      assert Terminals(ps) == w;
      assert DerivesFrom(g, x, ps);
    } else {
      RunWitness(a, Step(a, {x}, c), w[1..], f);
      var y :| y in Step(a, {x}, c) && f in Run(a, {y}, w[1..]);
      assert EdgeIn(a.delta, x, c, y) && x in g.P;
      assert f in Run(a, {y}, w[1..]) * a.F;
      AcceptedGrammarOfDerives(a, g, y, w[1..]);
      var rest :| DerivesFrom(g, y, rest) && Terminals(rest) == w[1..];
      var ps := [Production(c, Some(y))] + rest;
      assert ps[1..] == rest;
      assert Terminals(ps) == w;
      assert DerivesFrom(g, x, ps);
    }
  }

  /** On nonempty strings the converted grammar's language is the automaton's:
      a string is accepted iff the grammar derives it from q0.  (The empty
      string is never derived, since every production emits a terminal.) */
  lemma GrammarOfLanguage(a: Automaton, g: Grammar, w: string)
    requires IsGrammarOf(a, g)
    requires forall from, c, to :: EdgeIn(a.delta, from, c, to) ==> from in a.Q && c in a.Sigma
    requires w != []
    ensures Accepts(a, w) <==> exists ps :: DerivesFrom(g, a.q0, ps) && Terminals(ps) == w
  {
    if Accepts(a, w) {
      AcceptedGrammarOfDerives(a, g, a.q0, w);
    }
    if ps :| DerivesFrom(g, a.q0, ps) && Terminals(ps) == w {
      GrammarOfDerivesAccepted(a, g, a.q0, ps);
    }
  }

  /** Converting to a grammar and generating from it only yields accepted strings. */
  lemma GrammarOfGeneratesAccepted(a: Automaton, g: Grammar, oracle: seq<Choice>)
    requires IsGrammarOf(a, g)
    requires forall from, c, to :: EdgeIn(a.delta, from, c, to) ==> c in a.Sigma
    requires Generated(g, oracle).Some?
    ensures Accepts(a, Generated(g, oracle).value)
  {
    GeneratedIsDerived(g, oracle);
    GrammarOfDerivesAccepted(a, g, g.S, Derivation(g, oracle, g.S, 0).value);
  }

  /** The same for the generation as written, exception and all. */
  lemma GrammarOfGeneratesAsWrittenAccepted(a: Automaton, g: Grammar, oracle: seq<Choice>)
    requires IsGrammarOf(a, g)
    requires forall from, c, to :: EdgeIn(a.delta, from, c, to) ==> c in a.Sigma
    requires GeneratedAsWritten(g, oracle).Some?
    ensures Accepts(a, GeneratedAsWritten(g, oracle).value)
  {
    GeneratedAsWrittenIsDerived(g, oracle);
    GrammarOfDerivesAccepted(a, g, g.S, DerivationAsWritten(g, oracle, g.S, 0).value);
  }
}
