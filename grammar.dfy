/**
 * The right-linear grammar G = (Vn, Vt, P, S) of Grammar.java and its bounded
 * random derivation.  The random source is replaced by an oracle: a sequence of
 * draws supplied by the caller, one per derivation step.
 */
module Grammars {
  import opened Wrappers

  /** `terminal` alone (`next == None`) or `terminal next`. */
  datatype Production = Production(terminal: char, next: Option<string>)

  datatype Grammar = Grammar(
    Vn: set<string>,                  // non-terminals
    Vt: set<char>,                    // terminals
    P: map<string, seq<Production>>,  // production lists, in order
    S: string                         // start symbol
  )

  /** At most this many productions are applied by one derivation. */
  const MAX_STEPS := 60
  /** Past this many steps the choice prefers terminating productions. */
  const BIAS_AFTER := 20

  /** One draw of the random source: `coin` is `nextDouble() < 0.65`, and
      `index` is the value that `nextInt(n)` reduces modulo `n`. */
  datatype Choice = Choice(coin: bool, index: nat)

  /** The draw used at step `step` (steps count from 1); past the end of the
      oracle a fixed draw is used. */
  function Draw(oracle: seq<Choice>, step: nat): Choice {
    if 1 <= step <= |oracle| then oracle[step - 1] else Choice(false, 0)
  }

  /** The terminating productions of `options`, in order. */
  function Endings(options: seq<Production>): (r: seq<Production>)
    ensures forall p :: p in r <==> p in options && p.next.None?
    ensures |r| <= |options|
  {
    if options == [] then []
    else if options[0].next.None? then [options[0]] + Endings(options[1..])
    else Endings(options[1..])
  }

  /** `chooseWithBias` as written: when the bias applies and there is NO
      terminating production, a coin below 0.65 makes it call `nextInt(0)` on
      the empty list of endings, which throws (`None`). */
  function ChooseAsWritten(options: seq<Production>, steps: nat, c: Choice): (r: Option<Production>)
    requires options != []
    ensures r.None? <==> steps > BIAS_AFTER && Endings(options) == [] && c.coin
    ensures r.Some? ==> r.value in options
  {
    var endings := Endings(options);
    if steps > BIAS_AFTER && endings == [] && c.coin then None
    else Some(options[c.index % |options|])
  }

  /** The failure of the as-written choice on a list without endings. */
  lemma ChooseAsWrittenThrows()
    ensures ChooseAsWritten([Production('b', Some("S"))], BIAS_AFTER + 1, Choice(true, 0)) == None
  {
    assert Endings([Production('b', Some("S"))]) == [];
  }

  /** `chooseWithBias` as evidently intended: past the threshold, a coin below
      0.65 picks among the terminating productions when there are any. */
  function ChooseWithBias(options: seq<Production>, steps: nat, c: Choice): (r: Production)
    requires options != []
    ensures r in options
    ensures steps > BIAS_AFTER && c.coin && Endings(options) != [] ==> r.next.None?
  {
    var endings := Endings(options);
    if steps > BIAS_AFTER && endings != [] && c.coin then endings[c.index % |endings|]
    else options[c.index % |options|]
  }

  /** The terminals emitted by a sequence of productions. */
  function Terminals(ps: seq<Production>): (s: string)
    ensures |s| == |ps|
    ensures forall i :: 0 <= i < |ps| ==> s[i] == ps[i].terminal
  {
    if ps == [] then [] else [ps[0].terminal] + Terminals(ps[1..])
  }

  /** `ps` is a complete derivation from non-terminal `x`: each production is in
      the list of the non-terminal it rewrites, and only the last one
      terminates. */
  ghost predicate DerivesFrom(g: Grammar, x: string, ps: seq<Production>)
    decreases |ps|
  {
    && |ps| >= 1
    && x in g.P && ps[0] in g.P[x]
    && match ps[0].next
       case None => |ps| == 1
       case Some(y) => DerivesFrom(g, y, ps[1..])
  }

  /** The productions that the generation loop applies from non-terminal `x`,
      `steps` productions having been applied before: `None` when a list is
      missing or empty or when step MAX_STEPS + 1 is reached. */
  ghost function Derivation(g: Grammar, oracle: seq<Choice>, x: string, steps: nat): Option<seq<Production>>
    decreases MAX_STEPS - steps
  {
    if steps + 1 > MAX_STEPS then None
    else if x !in g.P || g.P[x] == [] then None
    else
      var p := ChooseWithBias(g.P[x], steps + 1, Draw(oracle, steps + 1));
      match p.next
      case None => Some([p])
      case Some(y) =>
        match Derivation(g, oracle, y, steps + 1)
        case None => None
        case Some(rest) => Some([p] + rest)
  }

  /** The sentence the generation produces with the given oracle. */
  ghost function Generated(g: Grammar, oracle: seq<Choice>): Option<string> {
    match Derivation(g, oracle, g.S, 0)
    case None => None
    case Some(ps) => Some(Terminals(ps))
  }

  /** `Some(prefix + r)` for `Some(r)`, `None` for `None`. */
  function Prepend(prefix: seq<Production>, o: Option<seq<Production>>): Option<seq<Production>> {
    match o
    case None => None
    case Some(r) => Some(prefix + r)
  }

  lemma PrependAssoc(a: seq<Production>, b: seq<Production>, o: Option<seq<Production>>)
    ensures Prepend(a, Prepend(b, o)) == Prepend(a + b, o)
  {
    match o {
      case None =>
      case Some(r) => assert a + (b + r) == (a + b) + r;
    }
  }

  lemma PrependNothing(o: Option<seq<Production>>)
    ensures Prepend([], o) == o
  {
    match o {
      case None =>
      case Some(r) => assert [] + r == r;
    }
  }

  /** One step of `Derivation`, for a non-terminal with a nonempty list. */
  lemma DerivationUnfold(g: Grammar, oracle: seq<Choice>, x: string, steps: nat)
    requires steps + 1 <= MAX_STEPS && x in g.P && g.P[x] != []
    ensures var p := ChooseWithBias(g.P[x], steps + 1, Draw(oracle, steps + 1));
      Derivation(g, oracle, x, steps) ==
        if p.next.None? then Some([p]) else Prepend([p], Derivation(g, oracle, p.next.value, steps + 1))
  {
  }

  /** `generateSentence`: rewrite from the start symbol, one chosen production
      per step, until a terminating production is chosen; give up (`None`) on
      a missing or empty production list or at step MAX_STEPS + 1. */
  method GenerateSentence(g: Grammar, oracle: seq<Choice>) returns (sentence: Option<string>)
    ensures sentence == Generated(g, oracle)
  {
    var current: Option<string> := Some(g.S);
    var sb: string := "";
    var steps: nat := 0;
    ghost var applied: seq<Production> := [];
    PrependNothing(Derivation(g, oracle, g.S, 0));
    while current.Some?
      invariant steps <= MAX_STEPS
      invariant sb == Terminals(applied)
      invariant current.Some? ==>
        Derivation(g, oracle, g.S, 0) == Prepend(applied, Derivation(g, oracle, current.value, steps))
      invariant current.None? ==> Derivation(g, oracle, g.S, 0) == Some(applied)
      decreases MAX_STEPS - steps
    {
      steps := steps + 1;
      if steps > MAX_STEPS {
        return None;
      }
      var name := current.value;
      if name !in g.P || g.P[name] == [] {
        return None;
      }
      var options := g.P[name];
      var chosen := ChooseWithBias(options, steps, Draw(oracle, steps));
      DerivationUnfold(g, oracle, name, steps - 1);
      TerminalsSnoc(applied, chosen);
      if chosen.next.Some? {
        PrependAssoc(applied, [chosen], Derivation(g, oracle, chosen.next.value, steps));
      }
      applied := applied + [chosen];
      sb := sb + [chosen.terminal];
      current := chosen.next;
    }
    return Some(sb);
  }

  lemma TerminalsSnoc(ps: seq<Production>, p: Production)
    ensures Terminals(ps + [p]) == Terminals(ps) + [p.terminal]
  {
  }

  /** The productions the generation loop applies with `chooseWithBias` as
      written: like `Derivation`, and also `None` where the choice throws. */
  ghost function DerivationAsWritten(g: Grammar, oracle: seq<Choice>, x: string, steps: nat): Option<seq<Production>>
    decreases MAX_STEPS - steps
  {
    if steps + 1 > MAX_STEPS then None
    else if x !in g.P || g.P[x] == [] then None
    else
      match ChooseAsWritten(g.P[x], steps + 1, Draw(oracle, steps + 1))
      case None => None
      case Some(p) =>
        match p.next
        case None => Some([p])
        case Some(y) =>
          match DerivationAsWritten(g, oracle, y, steps + 1)
          case None => None
          case Some(rest) => Some([p] + rest)
  }

  /** The sentence `generateSentence` as written returns, `None` for null or
      for the exception of the choice. */
  ghost function GeneratedAsWritten(g: Grammar, oracle: seq<Choice>): Option<string> {
    match DerivationAsWritten(g, oracle, g.S, 0)
    case None => None
    case Some(ps) => Some(Terminals(ps))
  }

  /** Even with the defective choice, whatever is returned is a derivation of
      between 1 and MAX_STEPS - steps productions. */
  lemma {:induction false} DerivationAsWrittenIsDerivation(g: Grammar, oracle: seq<Choice>, x: string, steps: nat)
    requires DerivationAsWritten(g, oracle, x, steps).Some?
    ensures DerivesFrom(g, x, DerivationAsWritten(g, oracle, x, steps).value)
    ensures 1 <= |DerivationAsWritten(g, oracle, x, steps).value| <= MAX_STEPS - steps
    decreases MAX_STEPS - steps
  {
    var p := ChooseAsWritten(g.P[x], steps + 1, Draw(oracle, steps + 1)).value;
    match p.next {
      case None =>
      case Some(y) =>
        DerivationAsWrittenIsDerivation(g, oracle, y, steps + 1);
        var rest := DerivationAsWritten(g, oracle, y, steps + 1).value;
        assert ([p] + rest)[1..] == rest;
    }
  }

  /** A sentence the as-written generation returns is the terminal string of a
      derivation from S, of length between 1 and MAX_STEPS. */
  lemma GeneratedAsWrittenIsDerived(g: Grammar, oracle: seq<Choice>)
    requires GeneratedAsWritten(g, oracle).Some?
    ensures DerivesFrom(g, g.S, DerivationAsWritten(g, oracle, g.S, 0).value)
    ensures GeneratedAsWritten(g, oracle).value == Terminals(DerivationAsWritten(g, oracle, g.S, 0).value)
    ensures 1 <= |GeneratedAsWritten(g, oracle).value| <= MAX_STEPS
  {
    DerivationAsWrittenIsDerivation(g, oracle, g.S, 0);
  }

  /** Where the start symbol's list has no terminating production, a 21st step
      from S with a low coin makes the as-written generation throw. */
  lemma AsWrittenThrowsAtBias(g: Grammar, oracle: seq<Choice>)
    requires g.S in g.P && g.P[g.S] != [] && Endings(g.P[g.S]) == []
    requires Draw(oracle, BIAS_AFTER + 1).coin
    ensures DerivationAsWritten(g, oracle, g.S, BIAS_AFTER) == None
  {
  }

  /** Whatever the generation returns is a derivation from the start symbol
      of between 1 and MAX_STEPS - steps productions. */
  lemma {:induction false} DerivationIsDerivation(g: Grammar, oracle: seq<Choice>, x: string, steps: nat)
    requires Derivation(g, oracle, x, steps).Some?
    ensures DerivesFrom(g, x, Derivation(g, oracle, x, steps).value)
    ensures 1 <= |Derivation(g, oracle, x, steps).value| <= MAX_STEPS - steps
    decreases MAX_STEPS - steps
  {
    var p := ChooseWithBias(g.P[x], steps + 1, Draw(oracle, steps + 1));
    match p.next {
      case None =>
      case Some(y) =>
        DerivationIsDerivation(g, oracle, y, steps + 1);
        var rest := Derivation(g, oracle, y, steps + 1).value;
        assert ([p] + rest)[1..] == rest;
    }
  }

  /** A generated sentence is the terminal string of a derivation from S with at
      most MAX_STEPS productions, so its length is between 1 and MAX_STEPS. */
  lemma GeneratedIsDerived(g: Grammar, oracle: seq<Choice>)
    requires Generated(g, oracle).Some?
    ensures DerivesFrom(g, g.S, Derivation(g, oracle, g.S, 0).value)
    ensures Generated(g, oracle).value == Terminals(Derivation(g, oracle, g.S, 0).value)
    ensures 1 <= |Generated(g, oracle).value| <= MAX_STEPS
  {
    DerivationIsDerivation(g, oracle, g.S, 0);
  }

  /** Without a nonempty production list for S the generation fails at once. */
  lemma NoProductionsNoSentence(g: Grammar, oracle: seq<Choice>)
    requires g.S !in g.P || g.P[g.S] == []
    ensures Generated(g, oracle) == None
  {
  }
}
