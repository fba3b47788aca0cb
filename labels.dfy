/**
 * State labels are strings.  The subset construction names a set of labels by
 * sorting them with Java's `String.compareTo` order and joining them with ','.
 * This module gives that order, the sort, the join and the facts the naming
 * relies on.
 */
module Labels {

  /** `a` comes no later than `b` in `String.compareTo` order: the first
      differing character decides, and a proper prefix comes first. */
  predicate LessEq(a: string, b: string): (r: bool)
    ensures a <= b ==> r
    decreases |a|
  {
    if a == [] then true
    else if b == [] then false
    else if a[0] != b[0] then a[0] < b[0]
    else LessEq(a[1..], b[1..])
  }

  lemma {:induction false} LessEqReflexive(a: string)
    ensures LessEq(a, a)
    decreases |a|
  {
    if a != [] { LessEqReflexive(a[1..]); }
  }

  lemma {:induction false} LessEqTotal(a: string, b: string)
    ensures LessEq(a, b) || LessEq(b, a)
    decreases |a|
  {
    if a != [] && b != [] && a[0] == b[0] { LessEqTotal(a[1..], b[1..]); }
  }

  lemma {:induction false} LessEqAntisymmetric(a: string, b: string)
    requires LessEq(a, b) && LessEq(b, a)
    ensures a == b
    decreases |a|
  {
    if a != [] && b != [] {
      LessEqAntisymmetric(a[1..], b[1..]);
      assert a == [a[0]] + a[1..] && b == [b[0]] + b[1..];
    }
  }

  lemma {:induction false} LessEqTransitive(a: string, b: string, c: string)
    requires LessEq(a, b) && LessEq(b, c)
    ensures LessEq(a, c)
    decreases |a|
  {
    if a != [] && b != [] && c != [] && a[0] == b[0] && b[0] == c[0] {
      LessEqTransitive(a[1..], b[1..], c[1..]);
    }
  }

  /** `m` is the least label of `s`. */
  predicate IsLeast(m: string, s: set<string>) {
    m in s && forall y {:trigger LessEq(m, y)} :: y in s ==> LessEq(m, y)
  }

  lemma {:induction false} LeastExists(s: set<string>)
    requires s != {}
    ensures exists m :: IsLeast(m, s)
    decreases |s|
  {
    var x :| x in s;
    if s == {x} {
      LessEqReflexive(x);
      assert IsLeast(x, s);
    } else {
      LeastExists(s - {x});
      var m :| IsLeast(m, s - {x});
      LessEqTotal(m, x);
      if LessEq(m, x) {
        assert IsLeast(m, s);
      } else {
        LessEqReflexive(x);
        forall y | y in s ensures LessEq(x, y) {
          if y != x { LessEqTransitive(x, m, y); }
        }
        assert IsLeast(x, s);
      }
    }
  }

  lemma LeastUnique(m1: string, m2: string, s: set<string>)
    requires IsLeast(m1, s) && IsLeast(m2, s)
    ensures m1 == m2
  {
    LessEqAntisymmetric(m1, m2);
  }

  /** The least label of a nonempty set. */
  function Least(s: set<string>): (m: string)
    requires s != {}
    ensures IsLeast(m, s)
  {
    LeastExists(s);
    forall m1, m2 | IsLeast(m1, s) && IsLeast(m2, s) ensures m1 == m2 {
      LeastUnique(m1, m2, s);
    }
    var m :| IsLeast(m, s);
    m
  }

  /** Strictly increasing in `String.compareTo` order (so without repeats). */
  ghost predicate StrictlySorted(xs: seq<string>) {
    forall i, j :: 0 <= i < j < |xs| ==> LessEq(xs[i], xs[j]) && xs[i] != xs[j]
  }

  /** The labels of `s` in ascending order, as `Collections.sort` leaves a copy of the set. */
  function SortedLabels(s: set<string>): (r: seq<string>)
    ensures r == [] <==> s == {}
    decreases |s|
  {
    if s == {} then []
    else
      var m := Least(s);
      [m] + SortedLabels(s - {m})
  }

  /** The sort lists every label of `s`, each once, and nothing else.  (Kept
      out of the function's contract so that every use of a name does not drag
      the sort's facts into unrelated proofs.) */
  lemma {:induction false} SortedLabelsListing(s: set<string>)
    ensures |SortedLabels(s)| == |s|
    ensures forall x :: x in SortedLabels(s) <==> x in s
    decreases |s|
  {
    if s != {} {
      var m := Least(s);
      SortedLabelsListing(s - {m});
    }
  }

  /** The sort's output is strictly increasing. */
  lemma {:induction false} SortedLabelsSorted(s: set<string>)
    ensures StrictlySorted(SortedLabels(s))
    decreases |s|
  {
    if s != {} {
      var m := Least(s);
      var rest := SortedLabels(s - {m});
      SortedLabelsSorted(s - {m});
      SortedLabelsListing(s - {m});
      var r := [m] + rest;
      assert r == SortedLabels(s);
      forall i, j | 0 <= i < j < |r| ensures LessEq(r[i], r[j]) && r[i] != r[j] {
        if i == 0 {
          assert r[j] == rest[j - 1] && rest[j - 1] in s - {m};
        } else {
          assert r[i] == rest[i - 1] && r[j] == rest[j - 1];
        }
      }
    }
  }

  /** Sorting is canonical: a strictly sorted listing of `s` is the one `SortedLabels` gives. */
  lemma {:induction false} SortedListingUnique(xs: seq<string>, s: set<string>)
    requires StrictlySorted(xs)
    requires forall x :: x in xs <==> x in s
    ensures xs == SortedLabels(s)
    decreases |xs|
  {
    if xs == [] {
      assert s == {};
    } else {
      assert s != {} by { assert xs[0] in s; }
      var m := Least(s);
      forall y | y in s ensures LessEq(xs[0], y) {
        var j :| 0 <= j < |xs| && xs[j] == y;
        if j > 0 { } else { LessEqReflexive(y); }
      }
      LeastUnique(xs[0], m, s);
      assert StrictlySorted(xs[1..]);
      forall x ensures x in xs[1..] <==> x in s - {m} {
        if x in xs[1..] {
          var j :| 1 <= j < |xs| && xs[j] == x;
          assert xs[0] != xs[j];
        }
        if x in s - {m} {
          var j :| 0 <= j < |xs| && xs[j] == x;
          assert j != 0;
          assert xs[1..][j - 1] == x;
        }
      }
      SortedListingUnique(xs[1..], s - {m});
      assert xs == [xs[0]] + xs[1..];
    }
  }

  /** `String.join(",", xs)`. */
  function Join(xs: seq<string>): (r: string)
    ensures xs != [] ==> |xs[0]| <= |r| && r[..|xs[0]|] == xs[0]
    ensures |xs| >= 2 ==> |xs[0]| < |r| && r[|xs[0]|] == ','
    decreases |xs|
  {
    if |xs| == 0 then ""
    else if |xs| == 1 then xs[0]
    else xs[0] + "," + Join(xs[1..])
  }

  /** A label that cannot be confused with the separator of `Join`. */
  predicate CommaFree(x: string) {
    ',' !in x
  }

  /** A comma-free label cannot equal one that has a comma before its end. */
  lemma CommaFreeNotJoined(a: string, b: string, rest: string)
    requires CommaFree(a)
    ensures a != b + "," + rest
  {
  }

  /** In `a + "," + r` with `a` comma-free, the first comma stands at position `|a|`. */
  lemma FirstComma(a: string, r: string)
    requires CommaFree(a)
    ensures (a + "," + r)[|a|] == ','
    ensures forall i :: 0 <= i < |a| ==> (a + "," + r)[i] != ','
  {
    forall i | 0 <= i < |a| ensures (a + "," + r)[i] != ',' {
      assert (a + "," + r)[i] == a[i];
    }
  }

  /** The first comma-free fields of two equal joins agree. */
  lemma {:induction false} SameFirstField(a: string, b: string, ra: string, rb: string)
    requires CommaFree(a) && CommaFree(b)
    requires a + "," + ra == b + "," + rb
    ensures a == b && ra == rb
  {
    var u := a + "," + ra;
    var v := b + "," + rb;
    FirstComma(a, ra);
    FirstComma(b, rb);
    assert |a| == |b|;
    {
      assert a == u[..|a|] && b == v[..|b|];
      assert ra == u[|a| + 1..] && rb == v[|b| + 1..];
    }
  }

  /** Joining nonempty listings of comma-free labels loses nothing. */
  lemma {:induction false} JoinInjective(xs: seq<string>, ys: seq<string>)
    requires |xs| >= 1 && |ys| >= 1
    requires forall x :: x in xs ==> CommaFree(x)
    requires forall y :: y in ys ==> CommaFree(y)
    requires Join(xs) == Join(ys)
    ensures xs == ys
    decreases |xs|
  {
    if |xs| == 1 && |ys| == 1 {
    } else if |xs| == 1 {
      CommaFreeNotJoined(xs[0], ys[0], Join(ys[1..]));
    } else if |ys| == 1 {
      CommaFreeNotJoined(ys[0], xs[0], Join(xs[1..]));
    } else {
      SameFirstField(xs[0], ys[0], Join(xs[1..]), Join(ys[1..]));
      assert forall x :: x in xs[1..] ==> x in xs;
      assert forall y :: y in ys[1..] ==> y in ys;
      JoinInjective(xs[1..], ys[1..]);
      assert xs == [xs[0]] + xs[1..] && ys == [ys[0]] + ys[1..];
    }
  }
}
