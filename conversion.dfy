/**
 * `Grammar.toAutomaton`: a right-linear grammar becomes an automaton with one
 * extra accepting state "X".  It is a module of its own because it needs both
 * the grammar and the automaton, and the automaton already needs the grammar.
 */
module GrammarToAutomaton {
  import opened Wrappers
  import opened Grammars
  import opened FiniteAutomata

  /** The synthetic accepting state. */
  const FINAL := "X"

  /** `prods` holds a production that yields the edge `--t--> y`: `t y`, or `t`
      alone when `y` is the final state. */
  ghost predicate Emits(prods: seq<Production>, t: char, y: string) {
    Production(t, Some(y)) in prods || (y == FINAL && Production(t, None) in prods)
  }

  /** The automaton `toAutomaton` builds: states Vn + {X}, alphabet Vt, start S,
      accepting {X}, a (possibly empty) map for every state, and exactly one
      edge per production; no symbol maps to an empty set. */
  ghost predicate IsAutomatonOf(g: Grammar, a: Automaton) {
    && a.Q == g.Vn + {FINAL} && a.Sigma == g.Vt && a.q0 == g.S && a.F == {FINAL}
    && a.delta.Keys == a.Q
    && (forall from, t :: from in a.delta && t in a.delta[from] ==> a.delta[from][t] != {})
    && (forall from, t, y :: EdgeIn(a.delta, from, t, y) <==> from in g.P && Emits(g.P[from], t, y))
  }

  /** `toAutomaton`.  Line 132 dereferences `delta.get(from)`, so every
      non-terminal with a nonempty list must be a state (in Vn or "X"). */
  method ToAutomaton(g: Grammar) returns (a: Automaton)
    requires forall from :: from in g.P && g.P[from] != [] ==> from in g.Vn + {FINAL}
    ensures IsAutomatonOf(g, a)
  {
    var states := g.Vn + {FINAL};
    var delta: Delta := map[];
    var rest := states;
    while rest != {}
      invariant rest <= states
      invariant delta.Keys == states - rest
      invariant forall s :: s in delta ==> delta[s] == map[]
      decreases rest
    {
      var s :| s in rest;
      delta := delta[s := map[]];
      rest := rest - {s};
    }
    var froms := g.P.Keys;
    while froms != {}
      invariant froms <= g.P.Keys
      invariant delta.Keys == states
      invariant forall from, t :: from in delta && t in delta[from] ==> delta[from][t] != {}
      invariant forall from, t, y :: EdgeIn(delta, from, t, y) <==>
        from in g.P && from !in froms && Emits(g.P[from], t, y)
      decreases froms
    {
      var from :| from in froms;
      delta := AddProductionEdges(g, delta, from);
      froms := froms - {from};
    }
    a := Automaton(states, g.Vt, delta, g.S, {FINAL});
  }

  /** The inner loop of `toAutomaton`: one edge for each production of `from`. */
  method AddProductionEdges(g: Grammar, delta: Delta, from: string) returns (delta': Delta)
    requires from in g.P
    requires g.P[from] != [] ==> from in delta
    requires forall f, t :: f in delta && t in delta[f] ==> delta[f][t] != {}
    ensures delta'.Keys == delta.Keys
    ensures forall f, t :: f in delta' && t in delta'[f] ==> delta'[f][t] != {}
    ensures forall f, t, y :: f != from ==> (EdgeIn(delta', f, t, y) <==> EdgeIn(delta, f, t, y))
    ensures forall t, y :: EdgeIn(delta', from, t, y) <==> EdgeIn(delta, from, t, y) || Emits(g.P[from], t, y)
  {
    delta' := delta;
    var prods := g.P[from];
    for k := 0 to |prods|
      invariant delta'.Keys == delta.Keys
      invariant forall f, t :: f in delta' && t in delta'[f] ==> delta'[f][t] != {}
      invariant forall f :: f in delta && f != from ==> delta'[f] == delta[f]
      invariant forall t, y :: EdgeIn(delta', from, t, y) <==> EdgeIn(delta, from, t, y) || Emits(prods[..k], t, y)
    {
      var prod := prods[k];
      var to := if prod.next.None? then FINAL else prod.next.value;
      ghost var before := delta';
      var row := delta'[from];
      var cell := if prod.terminal in row then row[prod.terminal] else {};
      delta' := delta'[from := row[prod.terminal := cell + {to}]];
      assert prods[..k + 1] == prods[..k] + [prod];
      forall t, y ensures EdgeIn(delta', from, t, y) <==> EdgeIn(before, from, t, y) || (t == prod.terminal && y == to) {
      }
      forall t, y ensures Emits(prods[..k + 1], t, y) <==> Emits(prods[..k], t, y) || (t == prod.terminal && y == to) {
      }
    }
    assert prods[..|prods|] == prods;
  }

  /** Along a derivation from `x`, the run of the automaton from {x} over its
      terminals reaches X, and every terminal is in Vt. */
  lemma {:induction false} DerivationReachesFinal(g: Grammar, a: Automaton, x: string, ps: seq<Production>)
    requires IsAutomatonOf(g, a)
    requires forall from, p :: from in g.P && p in g.P[from] ==> p.terminal in g.Vt
    requires DerivesFrom(g, x, ps)
    ensures forall i :: 0 <= i < |ps| ==> Terminals(ps)[i] in a.Sigma
    ensures FINAL in Run(a, {x}, Terminals(ps))
    decreases |ps|
  {
    var p := ps[0];
    var w := Terminals(ps);
    assert w[0] == p.terminal && w[1..] == Terminals(ps[1..]);
    StepSingleton(a, x, p.terminal);
    match p.next {
      case None =>
        assert Emits(g.P[x], p.terminal, FINAL);
        assert EdgeIn(a.delta, x, p.terminal, FINAL);
        assert w[1..] == [];
      case Some(y) =>
        assert Emits(g.P[x], p.terminal, y);
        assert EdgeIn(a.delta, x, p.terminal, y);
        DerivationReachesFinal(g, a, y, ps[1..]);
        RunMonotone(a, {y}, Step(a, {x}, p.terminal), w[1..]);
    }
  }

  /** "X" is never rewritten and never named by a production: then it is a
      dead end of the automaton, and reaching it means a derivation ended. */
  ghost predicate FinalUnused(g: Grammar) {
    && (FINAL in g.P ==> g.P[FINAL] == [])
    && forall from, p :: from in g.P && p in g.P[from] ==> p.next != Some(FINAL)
  }

  /** Nothing leaves X when X has no productions. */
  lemma FinalIsDead(g: Grammar, a: Automaton, w: string)
    requires IsAutomatonOf(g, a) && (FINAL in g.P ==> g.P[FINAL] == []) && w != []
    ensures Run(a, {FINAL}, w) == {}
  {
    StepSingleton(a, FINAL, w[0]);
    forall y ensures y !in Step(a, {FINAL}, w[0]) {
      assert !EdgeIn(a.delta, FINAL, w[0], y);
    }
    assert Step(a, {FINAL}, w[0]) == {};
    RunFromEmpty(a, w[1..]);
  }

  /** The converse of `DerivationReachesFinal`: a nonempty string on which the
      automaton gets from `x` to X is derived by the grammar from `x`. */
  lemma {:induction false} AcceptedIsDerived(g: Grammar, a: Automaton, x: string, w: string)
    requires IsAutomatonOf(g, a) && FinalUnused(g)
    requires w != [] && FINAL in Run(a, {x}, w)
    ensures exists ps :: DerivesFrom(g, x, ps) && Terminals(ps) == w
    decreases |w|
  {
    var c := w[0];
    StepSingleton(a, x, c);
    if w[1..] == [] {
      assert EdgeIn(a.delta, x, c, FINAL);
      var ps := [Production(c, None)];
      assert Terminals(ps) == w;
      assert DerivesFrom(g, x, ps);
    } else {
      RunWitness(a, Step(a, {x}, c), w[1..], FINAL);
      var y :| y in Step(a, {x}, c) && FINAL in Run(a, {y}, w[1..]);
      assert EdgeIn(a.delta, x, c, y);
      FinalIsDead(g, a, w[1..]);
      assert y != FINAL;
      AcceptedIsDerived(g, a, y, w[1..]);
      var rest :| DerivesFrom(g, y, rest) && Terminals(rest) == w[1..];
      var ps := [Production(c, Some(y))] + rest;
      assert ps[1..] == rest;
      assert Terminals(ps) == w;
      assert DerivesFrom(g, x, ps);
    }
  }

  /** On nonempty strings the automaton's language is the grammar's: a string
      is accepted iff the grammar derives it from S. */
  lemma AutomatonOfLanguage(g: Grammar, a: Automaton, w: string)
    requires IsAutomatonOf(g, a) && FinalUnused(g)
    requires forall from, p :: from in g.P && p in g.P[from] ==> p.terminal in g.Vt
    requires w != []
    ensures Accepts(a, w) <==> exists ps :: DerivesFrom(g, g.S, ps) && Terminals(ps) == w
  {
    if Accepts(a, w) {
      var f :| f in Run(a, {a.q0}, w) * a.F;
      AcceptedIsDerived(g, a, g.S, w);
    }
    if ps :| DerivesFrom(g, g.S, ps) && Terminals(ps) == w {
      DerivationReachesFinal(g, a, g.S, ps);
      assert FINAL in Run(a, {a.q0}, w) * a.F;
    }
  }

  /** Every sentence `generateSentence` produces is accepted by the automaton
      of `toAutomaton`, when every terminal used is in Vt. */
  lemma GeneratedAccepted(g: Grammar, a: Automaton, oracle: seq<Choice>)
    requires IsAutomatonOf(g, a)
    requires forall from, p :: from in g.P && p in g.P[from] ==> p.terminal in g.Vt
    requires Generated(g, oracle).Some?
    ensures Accepts(a, Generated(g, oracle).value)
  {
    GeneratedIsDerived(g, oracle);
    DerivationReachesFinal(g, a, g.S, Derivation(g, oracle, g.S, 0).value);
    assert FINAL in Run(a, {a.q0}, Generated(g, oracle).value) * a.F;
  }

  /** The same for the generation as written: a sentence it returns (no
      exception, no null) is accepted by the automaton of `toAutomaton`. */
  lemma GeneratedAsWrittenAccepted(g: Grammar, a: Automaton, oracle: seq<Choice>)
    requires IsAutomatonOf(g, a)
    requires forall from, p :: from in g.P && p in g.P[from] ==> p.terminal in g.Vt
    requires GeneratedAsWritten(g, oracle).Some?
    ensures Accepts(a, GeneratedAsWritten(g, oracle).value)
  {
    GeneratedAsWrittenIsDerived(g, oracle);
    DerivationReachesFinal(g, a, g.S, DerivationAsWritten(g, oracle, g.S, 0).value);
    assert FINAL in Run(a, {a.q0}, GeneratedAsWritten(g, oracle).value) * a.F;
  }
}
