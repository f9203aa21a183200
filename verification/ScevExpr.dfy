/** Scalar-evolution expressions: what they evaluate to, their degree in an unknown, their size as a
    graph, and what the rest of this project relies on about the rewriting they undergo. */
module ScevExpr {
  import opened Congruence

  datatype Expr =
    | Const(value: int)
    | Unknown(name: nat)
    | Add(ops: seq<Expr>)
    | Mul(ops: seq<Expr>)
    | AddRec(start: Expr, step: Expr, loop: nat)

  const Zero: Expr := Const(0)
  const One: Expr := Const(1)

  /** The unknowns' values and the current iteration of every loop. */
  datatype Valuation = Valuation(unknown: nat -> int, iteration: nat -> nat)

  function At(v: Valuation, u: nat, x: int): Valuation
  {
    v.(unknown := (n: nat) => if n == u then x else v.unknown(n))
  }

  function Eval(e: Expr, v: Valuation): int
    decreases e, 0
  {
    match e
    case Const(c) => c
    case Unknown(n) => v.unknown(n)
    case Add(ops) => Sum(ops, v)
    case Mul(ops) => Product(ops, v)
    case AddRec(start, step, loop) => Eval(start, v) + v.iteration(loop) * Eval(step, v)
  }

  function Sum(es: seq<Expr>, v: Valuation): int
    decreases es
  {
    if es == [] then 0 else Eval(es[0], v) + Sum(es[1..], v)
  }

  function Product(es: seq<Expr>, v: Valuation): int
    decreases es
  {
    if es == [] then 1 else Eval(es[0], v) * Product(es[1..], v)
  }

  /** An upper bound on the power of u, read off the expression. */
  function Degree(e: Expr, u: nat): nat
    decreases e, 0
  {
    match e
    case Const(_) => 0
    case Unknown(n) => if n == u then 1 else 0
    case Add(ops) => MaxDegree(ops, u)
    case Mul(ops) => SumDegree(ops, u)
    case AddRec(start, step, _) => Max(Degree(start, u), Degree(step, u))
  }

  function MaxDegree(es: seq<Expr>, u: nat): nat
    decreases es
  {
    if es == [] then 0 else Max(Degree(es[0], u), MaxDegree(es[1..], u))
  }

  function SumDegree(es: seq<Expr>, u: nat): nat
    decreases es
  {
    if es == [] then 0 else Degree(es[0], u) + SumDegree(es[1..], u)
  }

  function Max(a: nat, b: nat): nat
  {
    if a >= b then a else b
  }

  lemma {:induction false} DegreeOfOperand(es: seq<Expr>, i: nat, u: nat)
    requires i < |es|
    ensures Degree(es[i], u) <= MaxDegree(es, u) && Degree(es[i], u) <= SumDegree(es, u)
  {
    if i > 0 {
      DegreeOfOperand(es[1..], i - 1, u);
    }
  }

  // ----- linearity -----

  lemma {:induction false} SameWithoutUnknown(e: Expr, v: Valuation, u: nat, x: int, y: int)
    requires Degree(e, u) == 0
    ensures Eval(e, At(v, u, x)) == Eval(e, At(v, u, y))
    decreases e, 0
  {
    match e
    case Const(_) =>
    case Unknown(_) =>
    case Add(ops) => SameOperands(ops, v, u, x, y);
    case Mul(ops) => SameOperands(ops, v, u, x, y);
    case AddRec(start, step, _) =>
      SameWithoutUnknown(start, v, u, x, y);
      SameWithoutUnknown(step, v, u, x, y);
  }

  lemma {:induction false} SameOperands(es: seq<Expr>, v: Valuation, u: nat, x: int, y: int)
    ensures MaxDegree(es, u) == 0 ==> Sum(es, At(v, u, x)) == Sum(es, At(v, u, y))
    ensures SumDegree(es, u) == 0 ==> Product(es, At(v, u, x)) == Product(es, At(v, u, y))
    decreases es
  {
    if es != [] {
      SameOperands(es[1..], v, u, x, y);
      if Degree(es[0], u) == 0 {
        SameWithoutUnknown(es[0], v, u, x, y);
      }
    }
  }

  /** f(x) = f(0) + x * (f(1) - f(0)). */
  predicate Affine(f0: int, f1: int, x: int, fx: int)
  {
    fx == f0 + x * (f1 - f0)
  }

  lemma AffineConstant(c: int, x: int)
    ensures Affine(c, c, x, c)
  {
  }

  lemma AffineIdentity(x: int)
    ensures Affine(0, 1, x, x)
  {
  }

  lemma AffineSum(a0: int, a1: int, b0: int, b1: int, x: int, ax: int, bx: int)
    requires Affine(a0, a1, x, ax) && Affine(b0, b1, x, bx)
    ensures Affine(a0 + b0, a1 + b1, x, ax + bx)
  {
    assert x * (a1 - a0) + x * (b1 - b0) == x * (a1 + b1 - (a0 + b0));
  }

  lemma AffineScaled(c: int, a0: int, a1: int, x: int, ax: int)
    requires Affine(a0, a1, x, ax)
    ensures Affine(c * a0, c * a1, x, c * ax)
  {
    assert c * (x * (a1 - a0)) == x * (c * a1 - c * a0);
  }

  lemma AffineRecurrence(a0: int, a1: int, b0: int, b1: int, k: int, x: int, ax: int, bx: int)
    requires Affine(a0, a1, x, ax) && Affine(b0, b1, x, bx)
    ensures Affine(a0 + k * b0, a1 + k * b1, x, ax + k * bx)
  {
    AffineScaled(k, b0, b1, x, bx);
    AffineSum(a0, a1, k * b0, k * b1, x, ax, k * bx);
  }

  /** Degree at most one means affine in u, whatever the other values are. */
  lemma {:induction false} LinearInUnknown(e: Expr, v: Valuation, u: nat, x: int)
    requires Degree(e, u) <= 1
    ensures Affine(Eval(e, At(v, u, 0)), Eval(e, At(v, u, 1)), x, Eval(e, At(v, u, x)))
    decreases e, 0
  {
    match e
    case Const(c) => AffineConstant(c, x);
    case Unknown(n) =>
      if n == u {
        AffineIdentity(x);
      } else {
        AffineConstant(v.unknown(n), x);
      }
    case Add(ops) => LinearSum(ops, v, u, x);
    case Mul(ops) => LinearProduct(ops, v, u, x);
    case AddRec(start, step, loop) =>
      LinearInUnknown(start, v, u, x);
      LinearInUnknown(step, v, u, x);
      AffineRecurrence(Eval(start, At(v, u, 0)), Eval(start, At(v, u, 1)), Eval(step, At(v, u, 0)), Eval(step, At(v, u, 1)),
                       v.iteration(loop), x, Eval(start, At(v, u, x)), Eval(step, At(v, u, x)));
  }

  lemma {:induction false} LinearSum(es: seq<Expr>, v: Valuation, u: nat, x: int)
    requires MaxDegree(es, u) <= 1
    ensures Affine(Sum(es, At(v, u, 0)), Sum(es, At(v, u, 1)), x, Sum(es, At(v, u, x)))
    decreases es
  {
    if es != [] {
      LinearInUnknown(es[0], v, u, x);
      LinearSum(es[1..], v, u, x);
      AffineSum(Eval(es[0], At(v, u, 0)), Eval(es[0], At(v, u, 1)), Sum(es[1..], At(v, u, 0)), Sum(es[1..], At(v, u, 1)),
                x, Eval(es[0], At(v, u, x)), Sum(es[1..], At(v, u, x)));
    }
  }

  /** At most one factor of a product of degree one depends on u. */
  lemma {:induction false} LinearProduct(es: seq<Expr>, v: Valuation, u: nat, x: int)
    requires SumDegree(es, u) <= 1
    ensures Affine(Product(es, At(v, u, 0)), Product(es, At(v, u, 1)), x, Product(es, At(v, u, x)))
    decreases es
  {
    if es != [] {
      var h0, h1, hx := Eval(es[0], At(v, u, 0)), Eval(es[0], At(v, u, 1)), Eval(es[0], At(v, u, x));
      var t0, t1, tx := Product(es[1..], At(v, u, 0)), Product(es[1..], At(v, u, 1)), Product(es[1..], At(v, u, x));
      if Degree(es[0], u) == 0 {
        SameWithoutUnknown(es[0], v, u, 0, 1);
        SameWithoutUnknown(es[0], v, u, 0, x);
        LinearProduct(es[1..], v, u, x);
        AffineScaled(h0, t0, t1, x, tx);
      } else {
        SameOperands(es[1..], v, u, 0, 1);
        SameOperands(es[1..], v, u, 0, x);
        LinearInUnknown(es[0], v, u, x);
        AffineScaled(t0, h0, h1, x, hx);
        assert h0 * t0 == t0 * h0 && h1 * t0 == t0 * h1 && hx * t0 == t0 * hx;
      }
    }
  }

  lemma {:induction false} AtOwnValue(e: Expr, v: Valuation, u: nat)
    ensures Eval(e, At(v, u, v.unknown(u))) == Eval(e, v)
    decreases e, 0
  {
    match e
    case Const(_) =>
    case Unknown(_) =>
    case Add(ops) => OperandsAtOwnValue(ops, v, u);
    case Mul(ops) => OperandsAtOwnValue(ops, v, u);
    case AddRec(start, step, _) =>
      AtOwnValue(start, v, u);
      AtOwnValue(step, v, u);
  }

  lemma {:induction false} OperandsAtOwnValue(es: seq<Expr>, v: Valuation, u: nat)
    ensures Sum(es, At(v, u, v.unknown(u))) == Sum(es, v)
    ensures Product(es, At(v, u, v.unknown(u))) == Product(es, v)
    decreases es
  {
    if es != [] {
      AtOwnValue(es[0], v, u);
      OperandsAtOwnValue(es[1..], v, u);
    }
  }

  // ----- size -----

  /** The distinct nodes of an expression. */
  function Nodes(e: Expr): set<Expr>
    decreases e, 0
  {
    {e} + match e
          case Const(_) => {}
          case Unknown(_) => {}
          case Add(ops) => AllNodes(ops)
          case Mul(ops) => AllNodes(ops)
          case AddRec(start, step, _) => Nodes(start) + Nodes(step)
  }

  function AllNodes(es: seq<Expr>): set<Expr>
    decreases es
  {
    if es == [] then {} else Nodes(es[0]) + AllNodes(es[1..])
  }

  /** sizeOfSCEV: a shared node counts once. */
  function Size(e: Expr): nat
  {
    |Nodes(e)|
  }

  function Height(e: Expr): nat
    decreases e, 0
  {
    match e
    case Const(_) => 0
    case Unknown(_) => 0
    case Add(ops) => MaxHeight(ops) + 1
    case Mul(ops) => MaxHeight(ops) + 1
    case AddRec(start, step, _) => Max(Height(start), Height(step)) + 1
  }

  function MaxHeight(es: seq<Expr>): nat
    decreases es
  {
    if es == [] then 0 else Max(Height(es[0]), MaxHeight(es[1..]))
  }

  lemma {:induction false} NodesAreLower(e: Expr, n: Expr)
    requires n in Nodes(e)
    ensures n == e || Height(n) < Height(e)
    decreases e, 0
  {
    match e
    case Const(_) =>
    case Unknown(_) =>
    case Add(ops) => if n != e { OperandNodesAreLower(ops, n); }
    case Mul(ops) => if n != e { OperandNodesAreLower(ops, n); }
    case AddRec(start, step, _) =>
      if n in Nodes(start) {
        NodesAreLower(start, n);
      } else if n in Nodes(step) {
        NodesAreLower(step, n);
      }
  }

  lemma {:induction false} OperandNodesAreLower(es: seq<Expr>, n: Expr)
    requires n in AllNodes(es)
    ensures Height(n) <= MaxHeight(es)
    decreases es
  {
    if n in Nodes(es[0]) {
      NodesAreLower(es[0], n);
    } else {
      OperandNodesAreLower(es[1..], n);
    }
  }

  lemma {:induction false} OperandNodes(es: seq<Expr>, i: nat)
    requires i < |es|
    ensures Nodes(es[i]) <= AllNodes(es) && Height(es[i]) <= MaxHeight(es)
  {
    if i > 0 {
      OperandNodes(es[1..], i - 1);
    }
  }

  lemma {:induction false} FewerNodes(S: set<Expr>, T: set<Expr>, e: Expr)
    requires S <= T && e in T && e !in S
    ensures |S| < |T|
  {
    if S == {} {
      assert T != {};
    } else {
      var x :| x in S;
      FewerNodes(S - {x}, T - {x}, e);
    }
  }

  /** Operands are smaller. */
  lemma OperandIsSmaller(e: Expr, i: nat)
    requires (e.Add? || e.Mul?) && i < |e.ops|
    ensures Size(e.ops[i]) < Size(e)
  {
    OperandNodes(e.ops, i);
    if e in Nodes(e.ops[i]) {
      NodesAreLower(e.ops[i], e);
    }
    FewerNodes(Nodes(e.ops[i]), Nodes(e), e);
  }

  lemma RecurrencePartsAreSmaller(e: Expr)
    requires e.AddRec?
    ensures Size(e.start) < Size(e) && Size(e.step) < Size(e)
  {
    PartIsSmaller(e, e.start);
    PartIsSmaller(e, e.step);
  }

  lemma PartIsSmaller(e: Expr, part: Expr)
    requires Nodes(part) <= Nodes(e) && Height(part) < Height(e)
    ensures Size(part) < Size(e)
  {
    if e in Nodes(part) {
      NodesAreLower(part, e);
    }
    FewerNodes(Nodes(part), Nodes(e), e);
  }

  // ----- what the expression builder promises -----

  /** The builders and the rewriter of the scalar-evolution library, as far as they are used here. Values are
      taken modulo 2^w for expressions of width w; the modulus 0 stands for integers without bound. */
  datatype ScalarEvolution = ScalarEvolution(
    modulus: nat,
    getAdd: seq<Expr> -> Expr,
    getMul: seq<Expr> -> Expr,
    getMinus: (Expr, Expr) -> Expr,
    getAddRec: (Expr, Expr, nat) -> Expr,
    rewrite: (Expr, nat, int) -> Expr)

  /** They keep values under every valuation, up to the modulus, ... */
  ghost predicate KeepsValues(SE: ScalarEvolution)
  {
    var m := SE.modulus;
    && (forall es, v {:trigger Eval(SE.getAdd(es), v)} :: Cong(Eval(SE.getAdd(es), v), Sum(es, v), m))
    && (forall es, v {:trigger Eval(SE.getMul(es), v)} :: Cong(Eval(SE.getMul(es), v), Product(es, v), m))
    && (forall a, b, v {:trigger Eval(SE.getMinus(a, b), v)} :: Cong(Eval(SE.getMinus(a, b), v), Eval(a, v) - Eval(b, v), m))
    && (forall a, b, l, v {:trigger Eval(SE.getAddRec(a, b, l), v)} ::
          Cong(Eval(SE.getAddRec(a, b, l), v), Eval(a, v) + v.iteration(l) * Eval(b, v), m))
    && (forall e, u, c, v {:trigger Eval(SE.rewrite(e, u, c), v)} :: Cong(Eval(SE.rewrite(e, u, c), v), Eval(e, At(v, u, c)), m))
  }

  /** ... do not raise degrees, ... */
  ghost predicate KeepsDegrees(SE: ScalarEvolution)
  {
    && (forall es, u {:trigger Degree(SE.getAdd(es), u)} :: Degree(SE.getAdd(es), u) <= MaxDegree(es, u))
    && (forall es, u {:trigger Degree(SE.getMul(es), u)} :: Degree(SE.getMul(es), u) <= SumDegree(es, u))
    && (forall a, b, u {:trigger Degree(SE.getMinus(a, b), u)} :: Degree(SE.getMinus(a, b), u) <= Max(Degree(a, u), Degree(b, u)))
    && (forall a, b, l, u {:trigger Degree(SE.getAddRec(a, b, l), u)} :: Degree(SE.getAddRec(a, b, l), u) <= Max(Degree(a, u), Degree(b, u)))
    && (forall e, n, c, u {:trigger Degree(SE.rewrite(e, n, c), u)} :: Degree(SE.rewrite(e, n, c), u) <= Degree(e, u))
  }

  /** ... and when subtracting what is left at u = 0 simplifies at all, nothing is left at u = 0. */
  ghost predicate Cancels(SE: ScalarEvolution)
  {
    forall e, u {:trigger SE.getMinus(e, SE.rewrite(e, u, 0))} ::
      Size(SE.getMinus(e, SE.rewrite(e, u, 0))) <= Size(e) ==> SE.rewrite(SE.getMinus(e, SE.rewrite(e, u, 0)), u, 0) == Zero
  }

  ghost predicate Trusted(SE: ScalarEvolution)
  {
    KeepsValues(SE) && KeepsDegrees(SE) && Cancels(SE)
  }

  // ----- the promises can be kept -----

  function Substitute(e: Expr, u: nat, c: int): (r: Expr)
    decreases e, 0
  {
    match e
    case Const(_) => e
    case Unknown(n) => if n == u then Const(c) else e
    case Add(ops) => Add(SubstituteAll(ops, u, c))
    case Mul(ops) => Mul(SubstituteAll(ops, u, c))
    case AddRec(start, step, loop) => AddRec(Substitute(start, u, c), Substitute(step, u, c), loop)
  }

  function SubstituteAll(es: seq<Expr>, u: nat, c: int): seq<Expr>
    decreases es
  {
    if es == [] then [] else [Substitute(es[0], u, c)] + SubstituteAll(es[1..], u, c)
  }

  lemma {:induction false} SubstituteValue(e: Expr, u: nat, c: int, v: Valuation)
    ensures Eval(Substitute(e, u, c), v) == Eval(e, At(v, u, c))
    decreases e, 0
  {
    match e
    case Const(_) =>
    case Unknown(_) =>
    case Add(ops) => SubstituteAllValue(ops, u, c, v);
    case Mul(ops) => SubstituteAllValue(ops, u, c, v);
    case AddRec(start, step, _) =>
      SubstituteValue(start, u, c, v);
      SubstituteValue(step, u, c, v);
  }

  lemma {:induction false} SubstituteAllValue(es: seq<Expr>, u: nat, c: int, v: Valuation)
    ensures Sum(SubstituteAll(es, u, c), v) == Sum(es, At(v, u, c))
    ensures Product(SubstituteAll(es, u, c), v) == Product(es, At(v, u, c))
    decreases es
  {
    if es != [] {
      SubstituteValue(es[0], u, c, v);
      SubstituteAllValue(es[1..], u, c, v);
      assert SubstituteAll(es, u, c)[1..] == SubstituteAll(es[1..], u, c);
    }
  }

  lemma {:induction false} SubstituteDegree(e: Expr, n: nat, c: int, u: nat)
    ensures Degree(Substitute(e, n, c), u) <= Degree(e, u)
    decreases e, 0
  {
    match e
    case Const(_) =>
    case Unknown(_) =>
    case Add(ops) => SubstituteAllDegree(ops, n, c, u);
    case Mul(ops) => SubstituteAllDegree(ops, n, c, u);
    case AddRec(start, step, _) =>
      SubstituteDegree(start, n, c, u);
      SubstituteDegree(step, n, c, u);
  }

  lemma {:induction false} SubstituteAllDegree(es: seq<Expr>, n: nat, c: int, u: nat)
    ensures MaxDegree(SubstituteAll(es, n, c), u) <= MaxDegree(es, u)
    ensures SumDegree(SubstituteAll(es, n, c), u) <= SumDegree(es, u)
    decreases es
  {
    if es != [] {
      SubstituteDegree(es[0], n, c, u);
      SubstituteAllDegree(es[1..], n, c, u);
      assert SubstituteAll(es, n, c)[1..] == SubstituteAll(es[1..], n, c);
    }
  }

  /** The builder that never simplifies. */
  function PlainEvolution(m: nat): ScalarEvolution
  {
    ScalarEvolution(m, es => Add(es), es => Mul(es), (a, b) => Add([a, Mul([Const(-1), b])]), (a, b, l: nat) => AddRec(a, b, l),
                    (e, u: nat, c) => Substitute(e, u, c))
  }

  lemma PlainMinus(m: nat, a: Expr, b: Expr)
    ensures forall v :: Eval(PlainEvolution(m).getMinus(a, b), v) == Eval(a, v) - Eval(b, v)
    ensures forall u :: Degree(PlainEvolution(m).getMinus(a, b), u) <= Max(Degree(a, u), Degree(b, u))
    ensures Size(PlainEvolution(m).getMinus(a, b)) > Size(a)
  {
    var n := Mul([Const(-1), b]);
    var diff := PlainEvolution(m).getMinus(a, b);
    var factors := [Const(-1), b];
    assert n == Mul(factors) && factors[0] == Const(-1) && factors[1..] == [b] && [b][1..] == [];
    assert diff == Add([a, n]) && [a, n][1..] == [n] && [n][1..] == [];
    forall v ensures Eval(diff, v) == Eval(a, v) - Eval(b, v) {
      assert Product([b], v) == Eval(b, v);
      assert Eval(n, v) == Product(factors, v) == -1 * Product([b], v);
      assert Sum([n], v) == Eval(n, v);
    }
    forall u: nat ensures Degree(diff, u) <= Max(Degree(a, u), Degree(b, u)) {
      assert SumDegree([b], u) == Degree(b, u);
      assert Degree(n, u) == SumDegree(factors, u) == 0 + SumDegree([b], u);
      assert MaxDegree([n], u) == Degree(n, u);
    }
    OperandIsSmaller(diff, 0);
  }

  lemma PlainEvolutionIsTrusted(m: nat)
    ensures Trusted(PlainEvolution(m))
  {
    PlainKeepsValues(m);
    PlainKeepsDegrees(m);
    var SE := PlainEvolution(m);
    forall e, u: nat {:trigger SE.getMinus(e, SE.rewrite(e, u, 0))} | true
      ensures Size(SE.getMinus(e, SE.rewrite(e, u, 0))) > Size(e)
    {
      PlainMinus(m, e, SE.rewrite(e, u, 0));
    }
  }

  lemma PlainKeepsValues(m: nat)
    ensures KeepsValues(PlainEvolution(m))
  {
    var SE := PlainEvolution(m);
    forall a, b, v {:trigger Eval(SE.getMinus(a, b), v)} | true
      ensures Eval(SE.getMinus(a, b), v) == Eval(a, v) - Eval(b, v)
    {
      PlainMinus(m, a, b);
    }
    forall e, u: nat, c, v {:trigger Eval(SE.rewrite(e, u, c), v)} | true
      ensures Eval(SE.rewrite(e, u, c), v) == Eval(e, At(v, u, c))
    {
      SubstituteValue(e, u, c, v);
    }
  }

  lemma PlainKeepsDegrees(m: nat)
    ensures KeepsDegrees(PlainEvolution(m))
  {
    var SE := PlainEvolution(m);
    forall a, b, u: nat {:trigger Degree(SE.getMinus(a, b), u)} | true
      ensures Degree(SE.getMinus(a, b), u) <= Max(Degree(a, u), Degree(b, u))
    {
      PlainMinus(m, a, b);
    }
    forall e, n: nat, c, u: nat {:trigger Degree(SE.rewrite(e, n, c), u)} | true
      ensures Degree(SE.rewrite(e, n, c), u) <= Degree(e, u)
    {
      SubstituteDegree(e, n, c, u);
    }
  }
}
