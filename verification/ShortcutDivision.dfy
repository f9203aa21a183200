/** Dividing by an unknown: expressions as polynomials in it, the exact condition under which replacing it by
    1 divides by it, and builders that take each branch of that division. */
module ShortcutDivision {
  import MachineInt
  import opened Congruence
  import opened ScevDivision
  import opened ScevExpr

  // ----- polynomials, lowest coefficient first -----

  function EvalPoly(p: seq<int>, x: int): int
  {
    if p == [] then 0 else p[0] + x * EvalPoly(p[1..], x)
  }

  function PolyAdd(p: seq<int>, q: seq<int>): (r: seq<int>)
    ensures |r| == if |p| >= |q| then |p| else |q|
  {
    if p == [] then q else if q == [] then p else [p[0] + q[0]] + PolyAdd(p[1..], q[1..])
  }

  function PolyScale(c: int, p: seq<int>): seq<int>
  {
    if p == [] then [] else [c * p[0]] + PolyScale(c, p[1..])
  }

  function PolyMul(p: seq<int>, q: seq<int>): seq<int>
  {
    if p == [] then [] else PolyAdd(PolyScale(p[0], q), [0] + PolyMul(p[1..], q))
  }

  lemma {:induction false} EvalPolyAdd(p: seq<int>, q: seq<int>, x: int)
    ensures EvalPoly(PolyAdd(p, q), x) == EvalPoly(p, x) + EvalPoly(q, x)
  {
    if p != [] && q != [] {
      EvalPolyAdd(p[1..], q[1..], x);
      assert PolyAdd(p, q)[1..] == PolyAdd(p[1..], q[1..]);
      assert x * (EvalPoly(p[1..], x) + EvalPoly(q[1..], x)) == x * EvalPoly(p[1..], x) + x * EvalPoly(q[1..], x);
    }
  }

  lemma {:induction false} EvalPolyScale(c: int, p: seq<int>, x: int)
    ensures EvalPoly(PolyScale(c, p), x) == c * EvalPoly(p, x)
  {
    if p != [] {
      EvalPolyScale(c, p[1..], x);
      assert PolyScale(c, p)[1..] == PolyScale(c, p[1..]);
      Distribute(c, p[0], x, EvalPoly(p[1..], x));
    }
  }

  lemma Distribute(c: int, a: int, x: int, b: int)
    ensures c * a + x * (c * b) == c * (a + x * b)
  {
    assert x * (c * b) == c * (x * b);
  }

  lemma {:induction false} EvalPolyMul(p: seq<int>, q: seq<int>, x: int)
    ensures EvalPoly(PolyMul(p, q), x) == EvalPoly(p, x) * EvalPoly(q, x)
  {
    if p != [] {
      var rest := PolyMul(p[1..], q);
      EvalPolyMul(p[1..], q, x);
      EvalPolyScale(p[0], q, x);
      EvalPolyAdd(PolyScale(p[0], q), [0] + rest, x);
      assert ([0] + rest)[1..] == rest;
      DistributeRight(p[0], x, EvalPoly(p[1..], x), EvalPoly(q, x));
    }
  }

  lemma DistributeRight(a: int, x: int, b: int, c: int)
    ensures a * c + x * (b * c) == (a + x * b) * c
  {
    assert x * (b * c) == (x * b) * c;
  }

  /** A polynomial that is zero at every positive integer has no coefficient but zero. */
  lemma {:induction false} VanishingPoly(p: seq<int>)
    requires forall x: int {:trigger EvalPoly(p, x)} :: x > 0 ==> EvalPoly(p, x) == 0
    ensures forall k :: 0 <= k < |p| ==> p[k] == 0
  {
    if p != [] {
      var x := (if p[0] >= 0 then p[0] else -p[0]) + 1;
      assert EvalPoly(p, x) == 0;
      SmallMultiple(p[0], x, EvalPoly(p[1..], x));
      forall y: int {:trigger EvalPoly(p[1..], y)} | y > 0
        ensures EvalPoly(p[1..], y) == 0
      {
        assert EvalPoly(p, y) == 0;
        ZeroProduct(y, EvalPoly(p[1..], y));
      }
      VanishingPoly(p[1..]);
    }
  }

  lemma SmallMultiple(c: int, x: int, q: int)
    requires -x < c < x && c + x * q == 0
    ensures c == 0
  {
    assert (-q) * x == -(x * q);
    if q > 0 {
      MachineInt.AtLeastFactor(q, x);
    } else if q < 0 {
      MachineInt.AtLeastFactor(-q, x);
    }
  }

  lemma ZeroProduct(y: int, z: int)
    requires y > 0 && y * z == 0
    ensures z == 0
  {
  }

  // ----- expressions as polynomials in one unknown -----

  /** The coefficients of the powers of u, the other unknowns and the iterations being those of v. */
  function Poly(e: Expr, u: nat, v: Valuation): seq<int>
    decreases e, 0
  {
    match e
    case Const(c) => [c]
    case Unknown(n) => if n == u then [0, 1] else [v.unknown(n)]
    case Add(ops) => PolySum(ops, u, v)
    case Mul(ops) => PolyProduct(ops, u, v)
    case AddRec(start, step, loop) => PolyAdd(Poly(start, u, v), PolyScale(v.iteration(loop), Poly(step, u, v)))
  }

  function PolySum(es: seq<Expr>, u: nat, v: Valuation): seq<int>
    decreases es
  {
    if es == [] then [] else PolyAdd(Poly(es[0], u, v), PolySum(es[1..], u, v))
  }

  function PolyProduct(es: seq<Expr>, u: nat, v: Valuation): seq<int>
    decreases es
  {
    if es == [] then [1] else PolyMul(Poly(es[0], u, v), PolyProduct(es[1..], u, v))
  }

  /** The polynomial is the expression as a function of u. */
  lemma {:induction false} PolyIsValue(e: Expr, u: nat, v: Valuation, x: int)
    ensures EvalPoly(Poly(e, u, v), x) == Eval(e, At(v, u, x))
    decreases e, 0
  {
    match e
    case Const(c) => Constant(c, x);
    case Unknown(n) =>
      if n == u {
        assert [0, 1][1..] == [1];
        Constant(1, x);
      } else {
        Constant(v.unknown(n), x);
      }
    case Add(ops) => OperandPolys(ops, u, v, x);
    case Mul(ops) => OperandPolys(ops, u, v, x);
    case AddRec(start, step, loop) =>
      PolyIsValue(start, u, v, x);
      PolyIsValue(step, u, v, x);
      EvalPolyScale(v.iteration(loop), Poly(step, u, v), x);
      EvalPolyAdd(Poly(start, u, v), PolyScale(v.iteration(loop), Poly(step, u, v)), x);
  }

  lemma Constant(c: int, x: int)
    ensures EvalPoly([c], x) == c
  {
    assert [c][1..] == [] && EvalPoly([], x) == 0;
  }

  lemma {:induction false} OperandPolys(es: seq<Expr>, u: nat, v: Valuation, x: int)
    ensures EvalPoly(PolySum(es, u, v), x) == Sum(es, At(v, u, x))
    ensures EvalPoly(PolyProduct(es, u, v), x) == Product(es, At(v, u, x))
    decreases es
  {
    if es == [] {
      Constant(1, x);
    } else {
      PolyIsValue(es[0], u, v, x);
      OperandPolys(es[1..], u, v, x);
      EvalPolyAdd(Poly(es[0], u, v), PolySum(es[1..], u, v), x);
      EvalPolyMul(Poly(es[0], u, v), PolyProduct(es[1..], u, v), x);
    }
  }

  /** The coefficients do not depend on u itself. */
  lemma {:induction false} PolyIgnoresUnknown(e: Expr, u: nat, v: Valuation, x: int)
    ensures Poly(e, u, At(v, u, x)) == Poly(e, u, v)
    decreases e, 0
  {
    match e
    case Const(_) =>
    case Unknown(_) =>
    case Add(ops) => OperandPolysIgnore(ops, u, v, x);
    case Mul(ops) => OperandPolysIgnore(ops, u, v, x);
    case AddRec(start, step, _) =>
      PolyIgnoresUnknown(start, u, v, x);
      PolyIgnoresUnknown(step, u, v, x);
  }

  lemma {:induction false} OperandPolysIgnore(es: seq<Expr>, u: nat, v: Valuation, x: int)
    ensures PolySum(es, u, At(v, u, x)) == PolySum(es, u, v)
    ensures PolyProduct(es, u, At(v, u, x)) == PolyProduct(es, u, v)
    decreases es
  {
    if es != [] {
      PolyIgnoresUnknown(es[0], u, v, x);
      OperandPolysIgnore(es[1..], u, v, x);
    }
  }

  // ----- finite differences -----

  /** The coefficients of p(x + 1) - p(x). */
  function DiffPoly(p: seq<int>): (d: seq<int>)
    ensures |d| == if p == [] then 0 else |p| - 1
  {
    if |p| <= 1 then [] else
    var rest, d := p[1..], DiffPoly(p[1..]);
    PolyAdd(rest, PolyAdd(d, [0] + d))
  }

  function NthDiff(p: seq<int>, k: nat): seq<int>
    decreases k
  {
    if k == 0 then p else NthDiff(DiffPoly(p), k - 1)
  }

  lemma {:induction false} DiffPolyValue(p: seq<int>, x: int)
    ensures EvalPoly(DiffPoly(p), x) == EvalPoly(p, x + 1) - EvalPoly(p, x)
  {
    if |p| > 1 {
      var rest, d := p[1..], DiffPoly(p[1..]);
      DiffPolyValue(rest, x);
      EvalPolyAdd(d, [0] + d, x);
      EvalPolyAdd(rest, PolyAdd(d, [0] + d), x);
      assert ([0] + d)[1..] == d;
      StepOfProduct(x, EvalPoly(rest, x), EvalPoly(rest, x + 1));
    } else if |p| == 1 {
      assert p == [p[0]];
      Constant(p[0], x);
      Constant(p[0], x + 1);
    }
  }

  lemma StepOfProduct(x: int, r: int, s: int)
    ensures (x + 1) * s - x * r == r + (s - r) + x * (s - r)
  {
  }

  ghost predicate VanishesMod(p: seq<int>, m: nat)
  {
    forall x: int {:trigger EvalPoly(p, x)} :: Cong(EvalPoly(p, x), 0, m)
  }

  ghost predicate DifferencesVanishFrom(p: seq<int>, first: nat, m: nat)
  {
    forall k {:trigger NthDiff(p, k)} :: first <= k < |p| ==> Cong(EvalPoly(NthDiff(p, k), 0), 0, m)
  }

  lemma {:induction false} VanishingDifferences(p: seq<int>, m: nat, k: nat)
    requires VanishesMod(p, m)
    ensures Cong(EvalPoly(NthDiff(p, k), 0), 0, m)
    decreases k
  {
    if k > 0 {
      forall x: int {:trigger EvalPoly(DiffPoly(p), x)}
        ensures Cong(EvalPoly(DiffPoly(p), x), 0, m)
      {
        DiffPolyValue(p, x);
        CongAdd(EvalPoly(p, x + 1), 0, EvalPoly(p, x), 0, m);
      }
      VanishingDifferences(DiffPoly(p), m, k - 1);
    }
  }

  /** A polynomial is 0 modulo m everywhere if and only if its differences at 0 are, of order 0 to its degree. */
  lemma {:induction false} VanishesIff(p: seq<int>, m: nat)
    ensures VanishesMod(p, m) <==> DifferencesVanishFrom(p, 0, m)
    decreases |p|
  {
    if VanishesMod(p, m) {
      forall k: nat {:trigger NthDiff(p, k)} | k < |p|
        ensures Cong(EvalPoly(NthDiff(p, k), 0), 0, m)
      {
        VanishingDifferences(p, m, k);
      }
    }
    if DifferencesVanishFrom(p, 0, m) && p != [] {
      forall k: nat {:trigger NthDiff(DiffPoly(p), k)} | k < |DiffPoly(p)|
        ensures Cong(EvalPoly(NthDiff(DiffPoly(p), k), 0), 0, m)
      {
        assert NthDiff(p, k + 1) == NthDiff(DiffPoly(p), k);
      }
      VanishesIff(DiffPoly(p), m);
      assert NthDiff(p, 0) == p;
      forall x: int {:trigger EvalPoly(p, x)}
        ensures Cong(EvalPoly(p, x), 0, m)
      {
        NoDifferenceNoChange(p, m, x);
      }
    }
  }

  lemma {:induction false} NoDifferenceNoChange(p: seq<int>, m: nat, x: int)
    requires VanishesMod(DiffPoly(p), m) && Cong(EvalPoly(p, 0), 0, m)
    ensures Cong(EvalPoly(p, x), 0, m)
    decreases if x >= 0 then x else -x
  {
    if x > 0 {
      NoDifferenceNoChange(p, m, x - 1);
      DiffPolyValue(p, x - 1);
      CongAdd(EvalPoly(p, x - 1), 0, EvalPoly(DiffPoly(p), x - 1), 0, m);
    } else if x < 0 {
      NoDifferenceNoChange(p, m, x + 1);
      DiffPolyValue(p, x);
      CongAdd(EvalPoly(p, x + 1), 0, EvalPoly(DiffPoly(p), x), 0, m);
    }
  }

  lemma ConstantHasNoDifference(p: seq<int>, c: int)
    requires p != []
    ensures DiffPoly(p[0 := c]) == DiffPoly(p)
  {
    assert p[0 := c][1..] == p[1..];
  }

  lemma SlopeHasNoSecondDifference(p: seq<int>, c: int)
    requires |p| > 1
    ensures DiffPoly(DiffPoly(p[1 := c])) == DiffPoly(DiffPoly(p))
  {
    var rest, changed := p[1..], p[1..][0 := c];
    assert p[1 := c][1..] == changed;
    ConstantHasNoDifference(rest, c);
    var d := DiffPoly(rest);
    var more := PolyAdd(d, [0] + d);
    assert DiffPoly(p) == PolyAdd(rest, more) && DiffPoly(p[1 := c]) == PolyAdd(changed, more);
    assert changed[1..] == rest[1..];
    assert DiffPoly(p[1 := c]) == DiffPoly(p)[0 := DiffPoly(p[1 := c])[0]];
    ConstantHasNoDifference(DiffPoly(p), DiffPoly(p[1 := c])[0]);
  }

  // ----- the shortcut -----

  /** As a polynomial in u, the expression has no power above the first. */
  ghost predicate NoHigherPowers(e: Expr, u: nat)
  {
    forall v: Valuation {:trigger Poly(e, u, v)} :: HigherCoefficientsVanish(Poly(e, u, v))
  }

  predicate HigherCoefficientsVanish(p: seq<int>)
  {
    forall k :: 2 <= k < |p| ==> p[k] == 0
  }

  /** As a polynomial in u, the finite differences of the expression at 0, of the second order up to its degree,
      are 0 modulo m, whatever the other values are. */
  ghost predicate NoHigherDifferences(m: nat, e: Expr, u: nat)
  {
    forall v: Valuation {:trigger Poly(e, u, v)} :: DifferencesVanishFrom(Poly(e, u, v), 2, m)
  }

  lemma {:induction false} AllZero(p: seq<int>, x: int)
    requires forall k :: 0 <= k < |p| ==> p[k] == 0
    ensures EvalPoly(p, x) == 0
  {
    if p != [] {
      AllZero(p[1..], x);
    }
  }

  ghost predicate Proportional(p: seq<int>, m: nat)
  {
    forall x: int {:trigger EvalPoly(p, x)} :: Cong(EvalPoly(p, x), EvalPoly(p, 1) * x, m)
  }

  lemma LessSlope(p: seq<int>, slope: int, x: int)
    requires |p| > 1
    ensures EvalPoly(p[1 := p[1] - slope], x) == EvalPoly(p, x) - slope * x
  {
    var q := p[1 := p[1] - slope];
    assert q[1..][1..] == p[1..][1..];
    var tail := EvalPoly(p[1..][1..], x);
    assert EvalPoly(q[1..], x) == p[1] - slope + x * tail && EvalPoly(p[1..], x) == p[1] + x * tail;
    assert x * (p[1] - slope + x * tail) == x * (p[1] + x * tail) - slope * x;
  }

  lemma ProportionalIsVanishing(p: seq<int>, m: nat)
    requires |p| > 1
    ensures Proportional(p, m) <==> VanishesMod(p[1 := p[1] - EvalPoly(p, 1)], m)
  {
    var slope := EvalPoly(p, 1);
    var rest := p[1 := p[1] - slope];
    if Proportional(p, m) {
      forall x: int
        ensures Cong(EvalPoly(rest, x), 0, m)
      {
        assert Cong(EvalPoly(p, x), slope * x, m);
        ProportionalAt(p, slope, m, x);
      }
    }
    if VanishesMod(rest, m) {
      forall x: int
        ensures Cong(EvalPoly(p, x), slope * x, m)
      {
        assert Cong(EvalPoly(rest, x), 0, m);
        ProportionalAt(p, slope, m, x);
      }
    }
  }

  lemma ProportionalAt(p: seq<int>, slope: int, m: nat, x: int)
    requires |p| > 1
    ensures Cong(EvalPoly(p, x), slope * x, m) <==> Cong(EvalPoly(p[1 := p[1] - slope], x), 0, m)
  {
    LessSlope(p, slope, x);
    CongMinus(EvalPoly(p, x), slope * x, m);
  }

  ghost predicate SameHigher(p: seq<int>, q: seq<int>)
  {
    forall k: nat {:trigger NthDiff(p, k)} {:trigger NthDiff(q, k)} :: k >= 2 ==> NthDiff(p, k) == NthDiff(q, k)
  }

  predicate LowVanish(p: seq<int>, m: nat)
  {
    Cong(EvalPoly(NthDiff(p, 0), 0), 0, m) && Cong(EvalPoly(NthDiff(p, 1), 0), 0, m)
  }

  lemma FirstDifferences(p: seq<int>, rest: seq<int>, slope: int, m: nat)
    requires |p| > 1 && Cong(EvalPoly(p, 0), 0, m) && slope == EvalPoly(p, 1) && rest == p[1 := p[1] - slope]
    ensures LowVanish(rest, m)
  {
    LessSlope(p, slope, 0);
    LessSlope(p, slope, 1);
    DiffPolyValue(rest, 0);
    FirstDiffs(rest);
    CongAdd(0, 0, EvalPoly(p, 0), 0, m);
  }

  lemma FirstDiffs(p: seq<int>)
    ensures NthDiff(p, 0) == p && NthDiff(p, 1) == DiffPoly(p)
  {
    assert NthDiff(p, 1) == NthDiff(DiffPoly(p), 0);
  }

  lemma SameHigherDifferences(p: seq<int>, q: seq<int>, c: int)
    requires |p| > 1 && q == p[1 := c]
    ensures SameHigher(p, q)
  {
    SlopeHasNoSecondDifference(p, c);
    forall k: nat {:trigger NthDiff(p, k)} | k >= 2
      ensures NthDiff(p, k) == NthDiff(q, k)
    {
      SecondAndMore(p, k);
      SecondAndMore(q, k);
    }
  }

  lemma SameFrom(p: seq<int>, q: seq<int>, m: nat)
    requires |p| == |q|
    requires SameHigher(q, p) && LowVanish(p, m)
    ensures DifferencesVanishFrom(p, 0, m) <==> DifferencesVanishFrom(q, 2, m)
  {
    if DifferencesVanishFrom(q, 2, m) {
      forall k: nat {:trigger NthDiff(p, k)} | k < |p|
        ensures Cong(EvalPoly(NthDiff(p, k), 0), 0, m)
      {
        assert k >= 2 ==> NthDiff(p, k) == NthDiff(q, k);
      }
    }
  }

  /** Without its slope, a polynomial that is 0 at 0 and the slope at 1 vanishes if and only if its higher
      differences do. */
  lemma VanishesIffHigher(p: seq<int>, slope: int, m: nat)
    requires |p| > 1 && Cong(EvalPoly(p, 0), 0, m) && slope == EvalPoly(p, 1)
    ensures VanishesMod(p[1 := p[1] - slope], m) <==> DifferencesVanishFrom(p, 2, m)
  {
    var rest := p[1 := p[1] - slope];
    FirstDifferences(p, rest, slope, m);
    VanishesIffFrom(p, rest, p[1] - slope, m);
  }

  lemma VanishesIffFrom(p: seq<int>, rest: seq<int>, c: int, m: nat)
    requires |p| > 1 && rest == p[1 := c] && LowVanish(rest, m)
    ensures VanishesMod(rest, m) <==> DifferencesVanishFrom(p, 2, m)
  {
    SameHigherDifferences(p, rest, c);
    SameFrom(rest, p, m);
    VanishesIff(rest, m);
  }

  lemma SecondAndMore(p: seq<int>, k: nat)
    requires k >= 2
    ensures NthDiff(p, k) == NthDiff(DiffPoly(DiffPoly(p)), k - 2)
  {
    assert NthDiff(p, k) == NthDiff(DiffPoly(p), k - 1);
  }

  /** A polynomial that is 0 at 0 is p(1) * x modulo m for every x if and only if its higher differences vanish. */
  lemma ProportionalIff(p: seq<int>, m: nat)
    requires Cong(EvalPoly(p, 0), 0, m)
    ensures Proportional(p, m) <==> DifferencesVanishFrom(p, 2, m)
  {
    if |p| > 1 {
      ProportionalIsVanishing(p, m);
      VanishesIffHigher(p, EvalPoly(p, 1), m);
    } else {
      forall x: int
        ensures Cong(EvalPoly(p, x), EvalPoly(p, 1) * x, m)
      {
        ConstantIsProportional(p, m, x);
      }
    }
  }

  lemma ConstantIsProportional(p: seq<int>, m: nat, x: int)
    requires |p| <= 1 && Cong(EvalPoly(p, 0), 0, m)
    ensures Cong(EvalPoly(p, x), EvalPoly(p, 1) * x, m)
  {
    if p != [] {
      assert p == [p[0]];
      Constant(p[0], 0);
      Constant(p[0], 1);
      Constant(p[0], x);
      CongScale(p[0], 0, x, m);
    }
  }

  /** Without a bound, vanishing differences are vanishing coefficients. */
  lemma UnboundedDifferences(p: seq<int>)
    ensures DifferencesVanishFrom(p, 2, 0) <==> HigherCoefficientsVanish(p)
  {
    if p != [] {
      var q := p[0 := 0];
      forall k {:trigger NthDiff(q, k)} {:trigger NthDiff(p, k)} | k >= 2
        ensures NthDiff(q, k) == NthDiff(p, k)
      {
        ConstantHasNoDifference(p, 0);
        SecondAndMore(q, k);
        SecondAndMore(p, k);
      }
      assert DifferencesVanishFrom(q, 2, 0) <==> DifferencesVanishFrom(p, 2, 0);
      assert EvalPoly(q, 0) == q[0] + 0 * EvalPoly(q[1..], 0) == 0;
      ProportionalIff(q, 0);
      ProportionalIffFirstPower(q);
      assert forall k :: 1 <= k < |p| ==> p[k] == q[k];
    }
  }

  lemma ProportionalIffFirstPower(p: seq<int>)
    requires EvalPoly(p, 0) == 0
    ensures Proportional(p, 0) <==> HigherCoefficientsVanish(p)
  {
    if HigherCoefficientsVanish(p) {
      forall x: int
        ensures EvalPoly(p, x) == EvalPoly(p, 1) * x
      {
        FirstPowerOnly(p, x);
        FirstPowerOnly(p, 1);
      }
    }
    if Proportional(p, 0) && |p| > 1 {
      var rest := p[1 := p[1] - EvalPoly(p, 1)];
      ProportionalIsVanishing(p, 0);
      VanishingPoly(rest);
      assert forall k :: 2 <= k < |p| ==> rest[k] == p[k];
    }
  }

  lemma FirstPowerOnly(p: seq<int>, x: int)
    requires EvalPoly(p, 0) == 0 && HigherCoefficientsVanish(p)
    ensures EvalPoly(p, x) == if |p| > 1 then p[1] * x else 0
  {
    if p != [] {
      assert p[0] == 0;
      if |p| > 1 {
        AllZero(p[1..][1..], x);
        assert EvalPoly(p[1..], x) == p[1] + x * EvalPoly(p[1..][1..], x) == p[1];
      }
    }
  }

  /** Replacing the unknown by 1 divides by it, when nothing is left at 0, if and only if the numerator, as a
      polynomial in it, has no finite differences above the first, in the arithmetic of the modulus. */
  lemma ShortcutLawIff(SE: ScalarEvolution, N: Expr, u: nat)
    requires Trusted(SE) && SE.rewrite(N, u, 0) == Zero
    ensures DivisionLaw(SE.modulus, N, Unknown(u), SE.rewrite(N, u, 1), Zero) <==> NoHigherDifferences(SE.modulus, N, u)
    ensures SE.modulus == 0 ==> (NoHigherDifferences(SE.modulus, N, u) <==> NoHigherPowers(N, u))
  {
    if DivisionLaw(SE.modulus, N, Unknown(u), SE.rewrite(N, u, 1), Zero) {
      LawMeansNoHigherDifferences(SE, N, u);
    }
    if NoHigherDifferences(SE.modulus, N, u) {
      NoHigherDifferencesMeansLaw(SE, N, u);
    }
    UnboundedIff(N, u);
  }

  lemma NoHigherDifferencesMeansLaw(SE: ScalarEvolution, N: Expr, u: nat)
    requires Trusted(SE) && SE.rewrite(N, u, 0) == Zero && NoHigherDifferences(SE.modulus, N, u)
    ensures DivisionLaw(SE.modulus, N, Unknown(u), SE.rewrite(N, u, 1), Zero)
  {
    forall v
      ensures Divided(Eval(N, v), Eval(Unknown(u), v), Eval(SE.rewrite(N, u, 1), v), Eval(Zero, v), SE.modulus)
    {
      ShortcutByPoly(SE, N, u, v);
    }
  }

  lemma UnboundedIff(e: Expr, u: nat)
    ensures NoHigherDifferences(0, e, u) <==> NoHigherPowers(e, u)
  {
    forall v: Valuation
      ensures DifferencesVanishFrom(Poly(e, u, v), 2, 0) <==> HigherCoefficientsVanish(Poly(e, u, v))
    {
      UnboundedDifferences(Poly(e, u, v));
    }
  }

  lemma LawMeansNoHigherDifferences(SE: ScalarEvolution, N: Expr, u: nat)
    requires Trusted(SE) && SE.rewrite(N, u, 0) == Zero && DivisionLaw(SE.modulus, N, Unknown(u), SE.rewrite(N, u, 1), Zero)
    ensures NoHigherDifferences(SE.modulus, N, u)
  {
    forall v: Valuation
      ensures DifferencesVanishFrom(Poly(N, u, v), 2, SE.modulus)
    {
      var p := Poly(N, u, v);
      forall x: int {:trigger EvalPoly(p, x)}
        ensures Cong(EvalPoly(p, x), EvalPoly(p, 1) * x, SE.modulus)
      {
        LawAt(SE, N, u, v, x);
      }
      PolyAtZero(SE, N, u, v);
      ProportionalIff(p, SE.modulus);
    }
  }

  lemma LawAt(SE: ScalarEvolution, N: Expr, u: nat, v: Valuation, x: int)
    requires Trusted(SE) && DivisionLaw(SE.modulus, N, Unknown(u), SE.rewrite(N, u, 1), Zero)
    ensures Cong(EvalPoly(Poly(N, u, v), x), EvalPoly(Poly(N, u, v), 1) * x, SE.modulus)
  {
    ShortcutAt(SE, N, u, v, x);
    var w := At(v, u, x);
    assert Divided(Eval(N, w), Eval(Unknown(u), w), Eval(SE.rewrite(N, u, 1), w), Eval(Zero, w), SE.modulus);
    CongScale(Eval(SE.rewrite(N, u, 1), w), EvalPoly(Poly(N, u, v), 1), x, SE.modulus);
  }

  lemma PolyAtZero(SE: ScalarEvolution, N: Expr, u: nat, v: Valuation)
    requires Trusted(SE) && SE.rewrite(N, u, 0) == Zero
    ensures Cong(EvalPoly(Poly(N, u, v), 0), 0, SE.modulus)
  {
    PolyIsValue(N, u, v, 0);
    assert Cong(Eval(SE.rewrite(N, u, 0), v), Eval(N, At(v, u, 0)), SE.modulus);
  }

  /** Numerator and shortcut quotient, when the unknown is x, read off the polynomial. */
  lemma ShortcutAt(SE: ScalarEvolution, N: Expr, u: nat, v: Valuation, x: int)
    requires Trusted(SE)
    ensures Eval(N, At(v, u, x)) == EvalPoly(Poly(N, u, v), x)
    ensures Cong(Eval(SE.rewrite(N, u, 1), At(v, u, x)), EvalPoly(Poly(N, u, v), 1), SE.modulus)
  {
    var w := At(v, u, x);
    PolyIsValue(N, u, v, x);
    PolyIsValue(N, u, w, 1);
    PolyIgnoresUnknown(N, u, v, x);
    assert Cong(Eval(SE.rewrite(N, u, 1), w), Eval(N, At(w, u, 1)), SE.modulus);
  }

  lemma ShortcutByPoly(SE: ScalarEvolution, N: Expr, u: nat, v: Valuation)
    requires Trusted(SE) && SE.rewrite(N, u, 0) == Zero && NoHigherDifferences(SE.modulus, N, u)
    ensures Divided(Eval(N, v), v.unknown(u), Eval(SE.rewrite(N, u, 1), v), 0, SE.modulus)
  {
    var p, x, m := Poly(N, u, v), v.unknown(u), SE.modulus;
    PolyAtZero(SE, N, u, v);
    assert DifferencesVanishFrom(p, 2, m);
    ProportionalIff(p, m);
    PolyIsValue(N, u, v, x);
    AtOwnValue(N, v, u);
    PolyIsValue(N, u, v, 1);
    assert Cong(Eval(SE.rewrite(N, u, 1), v), Eval(N, At(v, u, 1)), m);
    assert Cong(EvalPoly(p, x), EvalPoly(p, 1) * x, m);
    CongScale(Eval(SE.rewrite(N, u, 1), v), EvalPoly(p, 1), x, m);
  }

  /** A numerator of degree at most one, as the division requires of all numerators, has no higher powers, and
      so no higher differences in any arithmetic. */
  lemma LinearHasNoHigherPowers(e: Expr, u: nat, m: nat)
    requires Degree(e, u) <= 1
    ensures NoHigherPowers(e, u) && NoHigherDifferences(m, e, u)
  {
    forall v: Valuation
      ensures DifferencesVanishFrom(Poly(e, u, v), 2, 0)
    {
      var p := Poly(e, u, v);
      if |p| > 0 {
        var q := p[0 := 0];
        forall x: int {:trigger EvalPoly(q, x)}
          ensures EvalPoly(q, x) == EvalPoly(q, 1) * x
        {
          LinearThroughZero(e, u, v, x);
        }
        assert EvalPoly(q, 0) == q[0] + 0 * EvalPoly(q[1..], 0) == 0;
        ProportionalIffFirstPower(q);
        assert forall k :: 2 <= k < |p| ==> p[k] == q[k];
        UnboundedDifferences(p);
      }
    }
    UnboundedIff(e, u);
  }

  lemma LinearThroughZero(e: Expr, u: nat, v: Valuation, x: int)
    requires Degree(e, u) <= 1 && |Poly(e, u, v)| > 0
    ensures EvalPoly(Poly(e, u, v)[0 := 0], x) == EvalPoly(Poly(e, u, v)[0 := 0], 1) * x
  {
    var p := Poly(e, u, v);
    assert p[0 := 0][1..] == p[1..];
    LinearInUnknown(e, v, u, x);
    PolyIsValue(e, u, v, 0);
    PolyIsValue(e, u, v, 1);
    PolyIsValue(e, u, v, x);
    assert EvalPoly(p, 0) == p[0] + 0 * EvalPoly(p[1..], 0) == p[0];
    assert x * (EvalPoly(p, 1) - p[0]) == (EvalPoly(p, 1) - p[0]) * x;
  }

  // ----- a numerator for which it is wrong -----

  /** y * ((x + 1) * (x + 1) - 1): nothing is left at x = 0, but it is not linear in x. */
  function NonlinearNumerator(): Expr
  {
    Mul([Unknown(1), Add([Mul([Add([Unknown(0), One]), Add([Unknown(0), One])]), Const(-1)])])
  }

  lemma NonlinearValue(v: Valuation)
    ensures var x, y := v.unknown(0), v.unknown(1);
            Eval(NonlinearNumerator(), v) == y * ((x + 1) * (x + 1) - 1)
  {
    var x := v.unknown(0);
    var inc := Add([Unknown(0), One]);
    var square := Mul([inc, inc]);
    var less := Add([square, Const(-1)]);
    assert inc.ops[1..] == [One] && square.ops[1..] == [inc] && less.ops[1..] == [Const(-1)];
    assert NonlinearNumerator() == Mul([Unknown(1), less]) && [Unknown(1), less][1..] == [less];
    SingleOperand(One);
    SingleOperand(inc);
    SingleOperand(Const(-1));
    SingleOperand(less);
    assert Eval(Unknown(0), v) == x && Eval(Unknown(1), v) == v.unknown(1);
    assert Eval(inc, v) == Eval(inc.ops[0], v) + Sum(inc.ops[1..], v);
    assert Eval(square, v) == (x + 1) * (x + 1);
    assert Eval(less, v) == Eval(square, v) + Sum([Const(-1)], v);
  }

  /** A trusted builder that folds this one numerator at x = 0. */
  function FoldingEvolution(m: nat): ScalarEvolution
  {
    PlainEvolution(m).(rewrite := (e, u: nat, c) => if e == NonlinearNumerator() && u == 0 && c == 0 then Zero else Substitute(e, u, c))
  }

  lemma FoldingEvolutionIsTrusted(m: nat)
    ensures Trusted(FoldingEvolution(m))
  {
    PlainEvolutionIsTrusted(m);
    var SE, plain := FoldingEvolution(m), PlainEvolution(m);
    forall e, u: nat, c, v {:trigger Eval(SE.rewrite(e, u, c), v)} | true
      ensures Eval(SE.rewrite(e, u, c), v) == Eval(e, At(v, u, c))
    {
      SubstituteValue(e, u, c, v);
      NonlinearValue(At(v, 0, 0));
    }
    forall e, n: nat, c, u: nat {:trigger Degree(SE.rewrite(e, n, c), u)} | true
      ensures Degree(SE.rewrite(e, n, c), u) <= Degree(e, u)
    {
      assert Degree(plain.rewrite(e, n, c), u) <= Degree(e, u);
    }
    forall e, u: nat {:trigger SE.getMinus(e, SE.rewrite(e, u, 0))} | true
      ensures Size(SE.getMinus(e, SE.rewrite(e, u, 0))) > Size(e)
    {
      PlainMinus(m, e, SE.rewrite(e, u, 0));
    }
  }

  lemma SquareAtTwo() returns (v: Valuation)
    ensures Eval(NonlinearNumerator(), v) == 8 && Eval(NonlinearNumerator(), At(v, 0, 1)) == 3 && v.unknown(0) == 2
  {
    v := Valuation((n: nat) => if n == 0 then 2 else 1, (l: nat) => 0);
    NonlinearValue(v);
    NonlinearValue(At(v, 0, 1));
  }

  lemma EightIsNotSix(m: nat)
    requires m != 1 && m != 2
    ensures !Cong(8, 6, m)
  {
    if Cong(8, 6, m) {
      var k := CongGap(8, 6, m);
      if k > 0 && m > 0 {
        MachineInt.AtLeastFactor(k, m);
      }
    }
  }

  /** A numerator for which the shortcut is wrong from two bits on: at x = 2, y = 1 it is 8 and quotient times x
      is 6. */
  lemma ShortcutOnSquare(m: nat) returns (v: Valuation)
    requires m != 1 && m != 2
    ensures Trusted(FoldingEvolution(m)) && FoldingEvolution(m).rewrite(NonlinearNumerator(), 0, 0) == Zero
    ensures Eval(NonlinearNumerator(), v) == 8
    ensures Eval(FoldingEvolution(m).rewrite(NonlinearNumerator(), 0, 1), v) * v.unknown(0) == 6
    ensures !NoHigherDifferences(m, NonlinearNumerator(), 0)
  {
    FoldingEvolutionIsTrusted(m);
    v := SquareAtTwo();
    var SE, N := FoldingEvolution(m), NonlinearNumerator();
    SubstituteValue(N, 0, 1, v);
    assert SE.rewrite(N, 0, 1) == Substitute(N, 0, 1);
    LawFailsAt(m, N, SE.rewrite(N, 0, 1), v);
    ShortcutLawIff(SE, N, 0);
  }

  lemma LawFailsAt(m: nat, N: Expr, Q: Expr, v: Valuation)
    requires m != 1 && m != 2
    requires Eval(N, v) == 8 && Eval(Q, v) == 3 && v.unknown(0) == 2
    ensures !DivisionLaw(m, N, Unknown(0), Q, Zero)
  {
    EightIsNotSix(m);
    assert !Divided(Eval(N, v), Eval(Unknown(0), v), Eval(Q, v), Eval(Zero, v), m);
  }

  lemma EvenProduct(x: int)
    ensures (x * (x - 1)) % 2 == 0
  {
    if x % 2 == 0 {
      assert x * (x - 1) == 2 * ((x / 2) * (x - 1));
    } else {
      assert x - 1 == 2 * ((x - 1) / 2);
      assert x * (x - 1) == 2 * (x * ((x - 1) / 2));
    }
  }

  lemma BitLaw(x: int, y: int)
    ensures Divided(y * ((x + 1) * (x + 1) - 1), x, 3 * y, 0, 2)
  {
    EvenProduct(x);
    var h := (x * (x - 1)) / 2;
    assert y * ((x + 1) * (x + 1) - 1) == y * (x * (x - 1) + 3 * x) == y * (2 * h + 3 * x) == (3 * y) * x + (y * h) * 2;
    CongBy(y * ((x + 1) * (x + 1) - 1), (3 * y) * x, y * h, 2);
  }

  lemma BitLawAt(v: Valuation)
    ensures Divided(Eval(NonlinearNumerator(), v), v.unknown(0), Eval(Substitute(NonlinearNumerator(), 0, 1), v), 0, 2)
  {
    NonlinearValue(v);
    NonlinearValue(At(v, 0, 1));
    SubstituteValue(NonlinearNumerator(), 0, 1, v);
    BitLaw(v.unknown(0), v.unknown(1));
  }

  lemma BitLawEverywhere()
    ensures DivisionLaw(2, NonlinearNumerator(), Unknown(0), Substitute(NonlinearNumerator(), 0, 1), Zero)
  {
    var N := NonlinearNumerator();
    var Q := Substitute(N, 0, 1);
    forall v
      ensures Divided(Eval(N, v), Eval(Unknown(0), v), Eval(Q, v), Eval(Zero, v), 2)
    {
      BitLawAt(v);
    }
  }

  /** In one bit the same numerator is divided rightly: its second difference is 2 * y. */
  lemma ShortcutOnBits()
    ensures NoHigherDifferences(2, NonlinearNumerator(), 0) && !NoHigherPowers(NonlinearNumerator(), 0)
  {
    var v := ShortcutOnSquare(0);
    UnboundedIff(NonlinearNumerator(), 0);
    FoldingEvolutionIsTrusted(2);
    BitLawEverywhere();
    assert FoldingEvolution(2).rewrite(NonlinearNumerator(), 0, 1) == Substitute(NonlinearNumerator(), 0, 1);
    ShortcutLawIff(FoldingEvolution(2), NonlinearNumerator(), 0);
  }

  // ----- a numerator that is divided by subtracting what is left -----

  /** y * (x + 1), what it is at x = 0, and the difference y * x. */
  function OffsetNumerator(): Expr
  {
    Mul([Unknown(1), Add([Unknown(0), One])])
  }

  function OffsetDifference(): Expr
  {
    Mul([Unknown(1), Unknown(0)])
  }

  /** A trusted builder that simplifies these two expressions at x = 0, and their difference. */
  function OffsetEvolution(m: nat): ScalarEvolution
  {
    PlainEvolution(m).(
      rewrite := (e, u: nat, c) =>
        if e == OffsetNumerator() && u == 0 && c == 0 then Unknown(1)
        else if e == OffsetDifference() && u == 0 && c == 0 then Zero
        else Substitute(e, u, c),
      getMinus := (a, b) => if a == OffsetNumerator() && b == Unknown(1) then OffsetDifference() else Add([a, Mul([Const(-1), b])]))
  }

  lemma OffsetValues(v: Valuation)
    ensures Eval(OffsetNumerator(), v) == v.unknown(1) * (v.unknown(0) + 1)
    ensures Eval(OffsetDifference(), v) == v.unknown(1) * v.unknown(0)
  {
    var inc := Add([Unknown(0), One]);
    assert inc.ops[1..] == [One] && [Unknown(1), inc][1..] == [inc] && [Unknown(1), Unknown(0)][1..] == [Unknown(0)];
    SingleOperand(One);
    SingleOperand(inc);
    SingleOperand(Unknown(0));
    assert Eval(One, v) == 1 && Eval(Unknown(0), v) == v.unknown(0) && Eval(Unknown(1), v) == v.unknown(1);
    assert Eval(inc, v) == Eval(inc.ops[0], v) + Sum(inc.ops[1..], v);
  }

  lemma OffsetDegrees(u: nat)
    ensures Degree(Unknown(1), u) <= Degree(OffsetNumerator(), u)
    ensures Degree(OffsetDifference(), u) <= Degree(OffsetNumerator(), u)
  {
    var inc := Add([Unknown(0), One]);
    assert inc.ops[1..] == [One] && [Unknown(1), inc][1..] == [inc] && [Unknown(1), Unknown(0)][1..] == [Unknown(0)];
    SingleOperand(One);
    SingleOperand(inc);
    SingleOperand(Unknown(0));
    assert Degree(inc, u) == MaxDegree(inc.ops, u) == Max(Degree(Unknown(0), u), MaxDegree([One], u));
  }

  lemma OffsetMinusValue(m: nat, a: Expr, b: Expr, v: Valuation)
    ensures Eval(OffsetEvolution(m).getMinus(a, b), v) == Eval(a, v) - Eval(b, v)
  {
    PlainMinus(m, a, b);
    OffsetValues(v);
    assert v.unknown(1) * (v.unknown(0) + 1) == v.unknown(1) * v.unknown(0) + v.unknown(1);
  }

  lemma OffsetKeepsValues(m: nat)
    ensures KeepsValues(OffsetEvolution(m))
  {
    PlainKeepsValues(m);
    var SE := OffsetEvolution(m);
    forall a, b, v {:trigger Eval(SE.getMinus(a, b), v)} | true
      ensures Eval(SE.getMinus(a, b), v) == Eval(a, v) - Eval(b, v)
    {
      OffsetMinusValue(m, a, b, v);
    }
    forall e, u: nat, c, v {:trigger Eval(SE.rewrite(e, u, c), v)} | true
      ensures Eval(SE.rewrite(e, u, c), v) == Eval(e, At(v, u, c))
    {
      OffsetRewriteValue(m, e, u, c, v);
    }
  }

  lemma OffsetRewriteValue(m: nat, e: Expr, u: nat, c: int, v: Valuation)
    ensures Eval(OffsetEvolution(m).rewrite(e, u, c), v) == Eval(e, At(v, u, c))
  {
    OffsetValues(At(v, 0, 0));
    SubstituteValue(e, u, c, v);
  }

  lemma OffsetKeepsDegrees(m: nat)
    ensures KeepsDegrees(OffsetEvolution(m))
  {
    PlainKeepsDegrees(m);
    var SE, plain := OffsetEvolution(m), PlainEvolution(m);
    forall a, b, u: nat {:trigger Degree(SE.getMinus(a, b), u)} | true
      ensures Degree(SE.getMinus(a, b), u) <= Max(Degree(a, u), Degree(b, u))
    {
      OffsetDegrees(u);
      assert Degree(plain.getMinus(a, b), u) <= Max(Degree(a, u), Degree(b, u));
    }
    forall e, n: nat, c, u: nat {:trigger Degree(SE.rewrite(e, n, c), u)} | true
      ensures Degree(SE.rewrite(e, n, c), u) <= Degree(e, u)
    {
      OffsetDegrees(u);
      assert Degree(plain.rewrite(e, n, c), u) <= Degree(e, u);
    }
  }

  lemma OffsetCancels(m: nat)
    ensures Cancels(OffsetEvolution(m))
  {
    var SE := OffsetEvolution(m);
    forall e, u: nat {:trigger SE.getMinus(e, SE.rewrite(e, u, 0))} | Size(SE.getMinus(e, SE.rewrite(e, u, 0))) <= Size(e)
      ensures SE.rewrite(SE.getMinus(e, SE.rewrite(e, u, 0)), u, 0) == Zero
    {
      PlainMinus(m, e, SE.rewrite(e, u, 0));
      assert e == OffsetNumerator() && SE.rewrite(e, u, 0) == Unknown(1);
      assert u != 0 ==> Substitute(e, u, 0).Mul?;
    }
  }

  /** A trusted builder can simplify a difference: y * (x + 1) leaves y at x = 0, and y * (x + 1) - y becomes the
      smaller y * x, which leaves nothing. Division by x subtracts y and goes on with y * x. */
  lemma DifferencesCanSimplify(m: nat)
    ensures var SE, N := OffsetEvolution(m), OffsetNumerator();
            var rest := SE.rewrite(N, 0, 0);
            && Trusted(SE) && Admissible(N, Unknown(0)) && rest != Zero
            && Size(SE.getMinus(N, rest)) <= Size(N) && SE.rewrite(SE.getMinus(N, rest), 0, 0) == Zero
  {
    OffsetKeepsValues(m);
    OffsetKeepsDegrees(m);
    OffsetCancels(m);
    OffsetSizes();
    OffsetIsLinear();
  }

  /** It does so: y * (x + 1) over x leaves y. */
  method DivideOffset(m: nat) returns (Q: Expr, R: Expr)
    requires m != 1
    ensures R == Unknown(1)
    ensures forall v: Valuation :: Cong(v.unknown(1) * (v.unknown(0) + 1), Eval(Q, v) * v.unknown(0) + v.unknown(1), m)
  {
    Q, R := DivideTheOffset(m, OffsetEvolution(m), OffsetNumerator());
    OffsetRest(m, Q, R);
  }

  method DivideTheOffset(m: nat, SE: ScalarEvolution, N: Expr) returns (Q: Expr, R: Expr)
    requires SE == OffsetEvolution(m) && N == OffsetNumerator()
    ensures DivisionLaw(m, N, Unknown(0), Q, R) && (R == Zero || R == Unknown(1))
  {
    DividesOffset(m, SE, N);
    Q, R := Divide(SE, N, Unknown(0));
    OffsetReplaced(m, SE, N, R);
  }

  lemma DividesOffset(m: nat, SE: ScalarEvolution, N: Expr)
    requires SE == OffsetEvolution(m) && N == OffsetNumerator()
    ensures Trusted(SE) && Admissible(N, Unknown(0)) && SE.modulus == m && N.Mul?
  {
    DifferencesCanSimplify(m);
  }

  lemma OffsetReplaced(m: nat, SE: ScalarEvolution, N: Expr, R: Expr)
    requires SE == OffsetEvolution(m) && N == OffsetNumerator() && FindsByReplacing(SE, N, 0, R)
    ensures R == Zero || R == Unknown(1)
  {
    DifferencesCanSimplify(m);
    assert SE.rewrite(N, 0, 0) == Unknown(1) && SE.getMinus(N, Unknown(1)) == OffsetDifference();
  }

  lemma OffsetRest(m: nat, Q: Expr, R: Expr)
    requires DivisionLaw(m, OffsetNumerator(), Unknown(0), Q, R) && (R == Zero || R == Unknown(1)) && m != 1
    ensures R == Unknown(1)
    ensures forall v: Valuation :: Cong(v.unknown(1) * (v.unknown(0) + 1), Eval(Q, v) * v.unknown(0) + v.unknown(1), m)
  {
    forall v: Valuation
      ensures Divided(v.unknown(1) * (v.unknown(0) + 1), v.unknown(0), Eval(Q, v), Eval(R, v), m)
    {
      OffsetValues(v);
      assert Divided(Eval(OffsetNumerator(), v), Eval(Unknown(0), v), Eval(Q, v), Eval(R, v), m);
    }
    var w := Valuation((n: nat) => if n == 1 then 1 else 0, (l: nat) => 0);
    assert Divided(w.unknown(1) * (w.unknown(0) + 1), w.unknown(0), Eval(Q, w), Eval(R, w), m);
    assert Eval(Q, w) * 0 == 0 && Eval(Zero, w) == 0;
    OneIsNotZero(m);
  }

  lemma OneIsNotZero(m: nat)
    requires m != 1
    ensures !Cong(1, 0, m)
  {
    if m > 1 {
      MachineInt.WrapInRange(1, m);
      MachineInt.WrapInRange(0, m);
    }
  }

  lemma OffsetIsLinear()
    ensures Degree(OffsetNumerator(), 0) <= 1
  {
    var inc := Add([Unknown(0), One]);
    assert inc.ops[1..] == [One] && [Unknown(1), inc][1..] == [inc];
    SingleOperand(One);
    SingleOperand(inc);
    assert Degree(inc, 0) == MaxDegree(inc.ops, 0) == Max(Degree(Unknown(0), 0), MaxDegree([One], 0));
  }

  lemma ProductNodes(a: Expr, b: Expr)
    ensures Nodes(Mul([a, b])) == {Mul([a, b])} + Nodes(a) + Nodes(b)
  {
    assert [a, b][1..] == [b] && [b][1..] == [];
    assert AllNodes([b]) == Nodes(b) + AllNodes([]);
  }

  lemma OffsetSizes()
    ensures Size(OffsetDifference()) <= 3 <= Size(OffsetNumerator())
  {
    DifferenceSize(OffsetDifference(), Unknown(1), Unknown(0));
    NumeratorSize(OffsetNumerator(), Unknown(1), Add([Unknown(0), One]));
  }

  lemma DifferenceSize(e: Expr, a: Expr, b: Expr)
    requires e == Mul([a, b]) && a.Unknown? && b.Unknown?
    ensures Size(e) <= 3
  {
    ProductNodes(a, b);
    assert Nodes(a) == {a} && Nodes(b) == {b};
    assert Nodes(e) == {e, a, b};
    assert |{e, a, b}| <= 3;
  }

  lemma NumeratorSize(e: Expr, a: Expr, b: Expr)
    requires e == Mul([a, b]) && a.Unknown? && b.Add?
    ensures Size(e) >= 3
  {
    ProductNodes(a, b);
    assert a in Nodes(a) && b in Nodes(b);
    AtLeastAsMany({e, a, b}, Nodes(e));
  }

  lemma {:induction false} AtLeastAsMany(S: set<Expr>, T: set<Expr>)
    requires S <= T
    ensures |S| <= |T|
  {
    if S != {} {
      var x :| x in S;
      AtLeastAsMany(S - {x}, T - {x});
    }
  }
}
