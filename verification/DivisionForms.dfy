/** How a numerator can be written over a denominator, so that dividing finds quotient and remainder, and what
    that needs of the expression builder. */
module DivisionForms {
  import MachineInt
  import opened Congruence
  import opened ScevExpr

  ghost predicate SameValue(m: nat, a: Expr, b: Expr)
  {
    forall v {:trigger Eval(a, v)} {:trigger Eval(b, v)} :: Cong(Eval(a, v), Eval(b, v), m)
  }

  function Abs(a: int): nat
  {
    if a >= 0 then a else -a
  }

  // ----- forms -----

  /** N has D as a factor, in every term. */
  predicate IsMultiple(N: Expr, D: Expr)
  {
    || N == D
    || N == Zero
    || match N
       case Const(c) => D.Const? && D.value != 0 && c % D.value == 0
       case Unknown(_) => false
       case Add(ops) => forall k :: 0 <= k < |ops| ==> IsMultiple(ops[k], D)
       case Mul(ops) => exists k :: 0 <= k < |ops| && IsMultiple(ops[k], D)
       case AddRec(start, step, _) => IsMultiple(start, D) && IsMultiple(step, D)
  }

  /** The same with the cofactor q: N with one factor D less in every term. */
  predicate MultipleOf(N: Expr, D: Expr, q: Expr)
  {
    if N == D then q == One
    else if N == Zero then q == Zero
    else
      match N
      case Const(c) => D.Const? && D.value != 0 && q.Const? && c == q.value * D.value
      case Unknown(_) => false
      case Add(ops) => q.Add? && |q.ops| == |ops| && forall k :: 0 <= k < |ops| ==> MultipleOf(ops[k], D, q.ops[k])
      case Mul(ops) =>
        q.Mul? && |q.ops| == |ops| && exists k :: 0 <= k < |ops| && MultipleOf(ops[k], D, q.ops[k]) && q.ops == ops[k := q.ops[k]]
      case AddRec(start, step, loop) => q.AddRec? && q.loop == loop && MultipleOf(start, D, q.start) && MultipleOf(step, D, q.step)
  }

  /** D is nowhere in N, and no constant of N reaches a constant D: visiting N finds nothing to divide. */
  predicate IsRest(N: Expr, D: Expr)
  {
    && N != D
    && D != One
    && match N
       case Const(c) => !D.Const? || Abs(c) < Abs(D.value)
       case Unknown(_) => true
       case Add(ops) => forall k :: 0 <= k < |ops| ==> IsRest(ops[k], D)
       case Mul(ops) => forall k :: 0 <= k < |ops| ==> IsRest(ops[k], D)
       case AddRec(start, step, _) => IsRest(start, D) && IsRest(step, D)
  }

  /** c is q times d plus r, rounded towards zero. */
  predicate Rounded(c: int, d: int, q: int, r: int)
  {
    c == q * d + r && Abs(r) < Abs(d) && (r > 0 ==> c > 0) && (r < 0 ==> c < 0)
  }

  /** N is written as q times D plus r: a sum, or a recurrence, of multiples of D, of rests, and of constants
      divided by a constant. */
  predicate Written(N: Expr, D: Expr, q: Expr, r: Expr)
  {
    || (MultipleOf(N, D, q) && r == Zero)
    || (N.Const? && D.Const? && D != One && q.Const? && r.Const? && Rounded(N.value, D.value, q.value, r.value))
    || (IsRest(N, D) && q == Zero && r == N)
    || (N != D && N.Add? && q.Add? && r.Add? && |q.ops| == |r.ops| == |N.ops| &&
        forall k :: 0 <= k < |N.ops| ==> Written(N.ops[k], D, q.ops[k], r.ops[k]))
    || (N != D && N.AddRec? && q.AddRec? && r.AddRec? && q.loop == r.loop == N.loop &&
        Written(N.start, D, q.start, r.start) && Written(N.step, D, q.step, r.step))
  }

  /** Every product in N has the unknown u among its operands or not in it at all. */
  predicate Plain(N: Expr, u: nat)
  {
    match N
    case Const(_) => true
    case Unknown(_) => true
    case Add(ops) => forall k :: 0 <= k < |ops| ==> Plain(ops[k], u)
    case Mul(ops) => Degree(N, u) == 0 || exists k :: 0 <= k < |ops| && ops[k] == Unknown(u)
    case AddRec(start, step, _) => Plain(start, u) && Plain(step, u)
  }

  /** All factors of a product denominator can be found, one after the other: a constant one at most in front,
      and different unknowns. */
  predicate FactorsFound(N: Expr, factors: seq<Expr>)
  {
    && (forall i :: 0 <= i < |factors| ==> IsMultiple(N, factors[i]) && (factors[i].Unknown? || (i == 0 && factors[i].Const?)))
    && (forall i, j :: 0 <= i < j < |factors| ==> factors[i] != factors[j])
  }

  // ----- what the forms mean -----

  lemma {:induction false} MultipleIsMultiple(N: Expr, D: Expr, q: Expr)
    requires MultipleOf(N, D, q)
    ensures IsMultiple(N, D)
  {
    if N != D && N != Zero {
      match N
      case Const(c) => ExactMultiple(c, q.value, D.value);
      case Unknown(_) =>
      case Add(ops) =>
        forall k | 0 <= k < |ops| ensures IsMultiple(ops[k], D) {
          MultipleIsMultiple(ops[k], D, q.ops[k]);
        }
      case Mul(ops) =>
        var k :| 0 <= k < |ops| && MultipleOf(ops[k], D, q.ops[k]) && q.ops == ops[k := q.ops[k]];
        MultipleIsMultiple(ops[k], D, q.ops[k]);
      case AddRec(start, step, _) =>
        MultipleIsMultiple(start, D, q.start);
        MultipleIsMultiple(step, D, q.step);
    }
  }

  lemma ExactMultiple(c: int, k: int, d: int)
    requires d != 0 && c == k * d
    ensures c % d == 0
  {
    var q, r := c / d, c % d;
    assert c == d * q + r && 0 <= r < Abs(d);
    assert (k - q) * d == k * d - q * d == r;
    if r != 0 {
      SmallMultiple(k - q, d, r);
    }
  }

  lemma SmallMultiple(k: int, d: int, r: int)
    requires k * d == r && Abs(r) < Abs(d)
    ensures r == 0 && k == 0
  {
    AbsProduct(k, d);
    if k != 0 {
      MachineInt.AtLeastFactor(Abs(k), Abs(d));
    }
  }

  lemma RoundedUnique(c: int, d: int, q: int, r: int, q': int, r': int)
    requires Rounded(c, d, q, r) && Rounded(c, d, q', r')
    ensures q == q' && r == r'
  {
    assert (q - q') * d == q * d - q' * d == r' - r;
    SmallMultiple(q - q', d, r' - r);
  }

  lemma AbsProduct(k: int, d: int)
    ensures Abs(k * d) == Abs(k) * Abs(d)
  {
    if k >= 0 && d < 0 {
      assert k * (-d) == -(k * d);
      assert k * d <= 0;
    } else if k < 0 && d >= 0 {
      assert (-k) * d == -(k * d);
      assert k * d <= 0;
    } else if k < 0 && d < 0 {
      assert (-k) * (-d) == k * d;
    }
  }

  /** The other factors of a product. */
  function Others(ops: seq<Expr>, k: nat, v: Valuation): int
    requires k < |ops|
  {
    if k == 0 then Product(ops[1..], v) else Eval(ops[0], v) * Others(ops[1..], k - 1, v)
  }

  lemma {:induction false} ProductAt(ops: seq<Expr>, k: nat, x: Expr, v: Valuation)
    requires k < |ops|
    ensures Product(ops[k := x], v) == Eval(x, v) * Others(ops, k, v)
  {
    if k == 0 {
      assert ops[k := x][1..] == ops[1..];
    } else {
      assert ops[k := x][1..] == ops[1..][k - 1 := x];
      ProductAt(ops[1..], k - 1, x, v);
      Exchange(Eval(ops[0], v), Eval(x, v), Others(ops[1..], k - 1, v));
    }
  }

  lemma Exchange(a: int, b: int, c: int)
    ensures a * (b * c) == b * (a * c)
  {
    assert a * (b * c) == (a * b) * c == (b * a) * c;
  }

  lemma OwnProduct(ops: seq<Expr>, k: nat, v: Valuation)
    requires k < |ops|
    ensures Product(ops, v) == Eval(ops[k], v) * Others(ops, k, v)
  {
    assert ops[k := ops[k]] == ops;
    ProductAt(ops, k, ops[k], v);
  }

  /** With two operands replaced, the rest of the product is the same. */
  lemma {:induction false} ProductAtTwo(ops: seq<Expr>, f: nat, k: nat, v: Valuation) returns (c: int)
    requires f < k < |ops|
    ensures forall a, b :: Product(ops[f := a][k := b], v) == Eval(a, v) * (Eval(b, v) * c)
  {
    if f == 0 {
      c := Others(ops[1..], k - 1, v);
      forall a, b ensures Product(ops[f := a][k := b], v) == Eval(a, v) * (Eval(b, v) * c) {
        assert ops[f := a][k := b][1..] == ops[1..][k - 1 := b];
        ProductAt(ops[1..], k - 1, b, v);
      }
    } else {
      var d := ProductAtTwo(ops[1..], f - 1, k - 1, v);
      c := Eval(ops[0], v) * d;
      forall a, b ensures Product(ops[f := a][k := b], v) == Eval(a, v) * (Eval(b, v) * c) {
        assert ops[f := a][k := b][1..] == ops[1..][f - 1 := a][k - 1 := b];
        ExchangeTwice(Eval(ops[0], v), Eval(a, v), Eval(b, v), d);
      }
    }
  }

  lemma ExchangeTwice(x: int, a: int, b: int, d: int)
    ensures x * (a * (b * d)) == a * (b * (x * d))
  {
    Exchange(x, a, b * d);
    Exchange(x, b, d);
  }

  /** Dividing one multiple of D or another among the operands gives the same cofactor. */
  lemma SameCofactor(m: nat, ops: seq<Expr>, D: Expr, f: nat, qf: Expr, k: nat, qk: Expr, v: Valuation)
    requires f < |ops| && k < |ops| && f != k
    requires Divided(Eval(ops[f], v), Eval(D, v), Eval(qf, v), 0, m) && Divided(Eval(ops[k], v), Eval(D, v), Eval(qk, v), 0, m)
    ensures Cong(Product(ops[f := qf], v), Product(ops[k := qk], v), m)
  {
    var d, a, b, x, y := Eval(D, v), Eval(ops[f], v), Eval(ops[k], v), Eval(qf, v), Eval(qk, v);
    var c;
    if f < k {
      c := ProductAtTwo(ops, f, k, v);
      assert ops[f := qf] == ops[f := qf][k := ops[k]] && ops[k := qk] == ops[f := ops[f]][k := qk];
      assert Product(ops[f := qf], v) == x * (b * c) && Product(ops[k := qk], v) == a * (y * c);
    } else {
      c := ProductAtTwo(ops, k, f, v);
      assert ops[f := qf] == ops[k := ops[k]][f := qf] && ops[k := qk] == ops[k := qk][f := ops[f]];
      assert Product(ops[f := qf], v) == b * (x * c) && Product(ops[k := qk], v) == y * (a * c);
      Exchange(b, x, c);
      Exchange(y, a, c);
    }
    CofactorValue(a, b, x, y, d, c, m);
  }

  lemma CofactorValue(a: int, b: int, x: int, y: int, d: int, c: int, m: nat)
    requires Divided(a, d, x, 0, m) && Divided(b, d, y, 0, m)
    ensures Cong(x * (b * c), a * (y * c), m)
  {
    CongScale(b, y * d, c, m);
    CongScale(b * c, (y * d) * c, x, m);
    CongScale(a, x * d, y * c, m);
    assert x * ((y * d) * c) == (x * d) * (y * c) by {
      assert (y * d) * c == d * (y * c);
      assert x * (d * (y * c)) == (x * d) * (y * c);
    }
  }

  lemma {:induction false} MultipleLaw(N: Expr, D: Expr, q: Expr, v: Valuation)
    requires MultipleOf(N, D, q)
    ensures Eval(N, v) == Eval(q, v) * Eval(D, v)
    decreases N, 0
  {
    if N != D && N != Zero {
      match N
      case Const(_) =>
      case Unknown(_) =>
      case Add(ops) => SumOfMultiples(N, ops, D, q.ops, v);
      case Mul(ops) =>
        var k :| 0 <= k < |ops| && MultipleOf(ops[k], D, q.ops[k]) && q.ops == ops[k := q.ops[k]];
        MultipleLaw(ops[k], D, q.ops[k], v);
        OwnProduct(ops, k, v);
        ProductAt(ops, k, q.ops[k], v);
        MoveFactor(Eval(q.ops[k], v), Eval(D, v), Others(ops, k, v));
      case AddRec(start, step, loop) =>
        MultipleLaw(start, D, q.start, v);
        MultipleLaw(step, D, q.step, v);
        Collect(Eval(q.start, v), Eval(q.step, v), v.iteration(loop), Eval(D, v));
    }
  }

  lemma MoveFactor(q: int, d: int, c: int)
    ensures (q * d) * c == (q * c) * d
  {
    assert (q * d) * c == q * (d * c) == q * (c * d) == (q * c) * d;
  }

  lemma Collect(a: int, b: int, k: int, d: int)
    ensures a * d + k * (b * d) == (a + k * b) * d
  {
    assert k * (b * d) == (k * b) * d;
  }

  lemma {:induction false} SumOfMultiples(N: Expr, ops: seq<Expr>, D: Expr, qs: seq<Expr>, v: Valuation)
    requires |qs| == |ops| && forall k :: 0 <= k < |ops| ==> ops[k] < N && MultipleOf(ops[k], D, qs[k])
    ensures Sum(ops, v) == Sum(qs, v) * Eval(D, v)
    decreases N, 0, |ops|
  {
    if ops != [] {
      MultipleLaw(ops[0], D, qs[0], v);
      SumOfMultiples(N, ops[1..], D, qs[1..], v);
      assert (Eval(qs[0], v) + Sum(qs[1..], v)) * Eval(D, v) == Eval(qs[0], v) * Eval(D, v) + Sum(qs[1..], v) * Eval(D, v);
    }
  }

  /** Over 1 everything is the quotient. */
  lemma {:induction false} OneLeavesNothing(N: Expr, q: Expr, r: Expr, v: Valuation)
    requires Written(N, One, q, r)
    ensures Eval(q, v) == Eval(N, v) && Eval(r, v) == 0
    decreases N, 0
  {
    if MultipleOf(N, One, q) && r == Zero {
      MultipleLaw(N, One, q, v);
      assert Eval(One, v) == 1;
    } else if N.Add? {
      SumOverOne(N, N.ops, q.ops, r.ops, v);
    } else {
      OneLeavesNothing(N.start, q.start, r.start, v);
      OneLeavesNothing(N.step, q.step, r.step, v);
    }
  }

  lemma {:induction false} SumOverOne(N: Expr, ops: seq<Expr>, qs: seq<Expr>, rs: seq<Expr>, v: Valuation)
    requires |qs| == |rs| == |ops| && forall k :: 0 <= k < |ops| ==> ops[k] < N && Written(ops[k], One, qs[k], rs[k])
    ensures Sum(qs, v) == Sum(ops, v) && Sum(rs, v) == 0
    decreases N, 0, |ops|
  {
    if ops != [] {
      OneLeavesNothing(ops[0], qs[0], rs[0], v);
      SumOverOne(N, ops[1..], qs[1..], rs[1..], v);
    }
  }

  function Zeros(n: nat): (es: seq<Expr>)
    ensures |es| == n && forall k :: 0 <= k < n ==> es[k] == Zero
  {
    seq(n, k => Zero)
  }

  lemma {:induction false} ZerosAddNothing(es: seq<Expr>, v: Valuation)
    requires forall k :: 0 <= k < |es| ==> es[k] == Zero
    ensures Sum(es, v) == 0
  {
    if es != [] {
      ZerosAddNothing(es[1..], v);
      assert Eval(Zero, v) == 0;
    }
  }

  /** A written sum is written operand by operand. */
  lemma WrittenOperands(N: Expr, D: Expr, q: Expr, r: Expr) returns (qs: seq<Expr>, rs: seq<Expr>)
    requires N.Add? && N != D && Written(N, D, q, r)
    ensures |qs| == |rs| == |N.ops| && forall k :: 0 <= k < |N.ops| ==> Written(N.ops[k], D, qs[k], rs[k])
    ensures forall v :: Eval(q, v) == Sum(qs, v) && Eval(r, v) == Sum(rs, v)
  {
    if MultipleOf(N, D, q) && r == Zero {
      qs, rs := q.ops, Zeros(|N.ops|);
      forall v ensures Eval(r, v) == Sum(rs, v) {
        ZerosAddNothing(rs, v);
      }
    } else if IsRest(N, D) && q == Zero && r == N {
      qs, rs := Zeros(|N.ops|), N.ops;
      forall v ensures Eval(q, v) == Sum(qs, v) {
        ZerosAddNothing(qs, v);
      }
    } else {
      qs, rs := q.ops, r.ops;
    }
  }

  /** So is a written recurrence. */
  lemma WrittenParts(N: Expr, D: Expr, q: Expr, r: Expr) returns (q0: Expr, r0: Expr, q1: Expr, r1: Expr)
    requires N.AddRec? && N != D && Written(N, D, q, r)
    ensures Written(N.start, D, q0, r0) && Written(N.step, D, q1, r1)
    ensures forall v :: Eval(q, v) == Eval(q0, v) + v.iteration(N.loop) * Eval(q1, v)
    ensures forall v :: Eval(r, v) == Eval(r0, v) + v.iteration(N.loop) * Eval(r1, v)
  {
    if MultipleOf(N, D, q) && r == Zero {
      q0, r0, q1, r1 := q.start, Zero, q.step, Zero;
    } else if IsRest(N, D) && q == Zero && r == N {
      q0, r0, q1, r1 := Zero, N.start, Zero, N.step;
    } else {
      q0, r0, q1, r1 := q.start, r.start, q.step, r.step;
    }
  }

  // ----- unknown denominators -----

  /** A rest does not have the unknown in it, and conversely. */
  lemma {:induction false} RestIffAbsent(N: Expr, u: nat)
    ensures IsRest(N, Unknown(u)) <==> Degree(N, u) == 0
    decreases N, 0
  {
    match N
    case Const(_) =>
    case Unknown(_) =>
    case Add(ops) => RestsIffAbsent(N, ops, u);
    case Mul(ops) => RestsIffAbsent(N, ops, u);
    case AddRec(start, step, _) =>
      RestIffAbsent(start, u);
      RestIffAbsent(step, u);
  }

  lemma {:induction false} RestsIffAbsent(N: Expr, ops: seq<Expr>, u: nat)
    requires forall k :: 0 <= k < |ops| ==> ops[k] < N
    ensures (forall k :: 0 <= k < |ops| ==> IsRest(ops[k], Unknown(u))) <==> MaxDegree(ops, u) == 0
    ensures MaxDegree(ops, u) == 0 <==> SumDegree(ops, u) == 0
    decreases N, 0, |ops|
  {
    if ops != [] {
      RestIffAbsent(ops[0], u);
      RestsIffAbsent(N, ops[1..], u);
      assert (forall k :: 0 <= k < |ops| ==> IsRest(ops[k], Unknown(u)))
        <==> IsRest(ops[0], Unknown(u)) && forall k :: 0 <= k < |ops[1..]| ==> IsRest(ops[1..][k], Unknown(u)) by {
        if forall k :: 0 <= k < |ops| ==> IsRest(ops[k], Unknown(u)) {
          forall k | 0 <= k < |ops[1..]| ensures IsRest(ops[1..][k], Unknown(u)) {
            assert ops[1..][k] == ops[k + 1];
          }
        }
        if IsRest(ops[0], Unknown(u)) && forall k :: 0 <= k < |ops[1..]| ==> IsRest(ops[1..][k], Unknown(u)) {
          forall k | 0 <= k < |ops| ensures IsRest(ops[k], Unknown(u)) {
            assert k > 0 ==> ops[k] == ops[1..][k - 1];
          }
        }
      }
    }
  }

  lemma {:induction false} AbsentIsPlain(N: Expr, u: nat)
    requires Degree(N, u) == 0
    ensures Plain(N, u)
  {
    match N
    case Const(_) =>
    case Unknown(_) =>
    case Add(ops) =>
      forall k | 0 <= k < |ops| ensures Plain(ops[k], u) {
        DegreeOfOperand(ops, k, u);
        AbsentIsPlain(ops[k], u);
      }
    case Mul(ops) =>
    case AddRec(start, step, _) =>
      AbsentIsPlain(start, u);
      AbsentIsPlain(step, u);
  }

  /** Division of N, as a function of u, by u: the remainder is N at u = 0, the quotient the coefficient of u. */
  ghost predicate Splits(m: nat, N: Expr, u: nat, Q: Expr, R: Expr)
  {
    forall v {:trigger SplitsAt(m, N, u, Q, R, v)} :: SplitsAt(m, N, u, Q, R, v)
  }

  predicate SplitsAt(m: nat, N: Expr, u: nat, Q: Expr, R: Expr, v: Valuation)
  {
    && Cong(Eval(R, v), Eval(N, At(v, u, 0)), m)
    && Cong(Eval(Q, v), Eval(N, At(v, u, 1)) - Eval(N, At(v, u, 0)), m)
  }

  ghost predicate SumSplitsAt(ops: seq<Expr>, u: nat, qs: seq<Expr>, rs: seq<Expr>, v: Valuation)
  {
    Sum(rs, v) == Sum(ops, At(v, u, 0)) && Sum(qs, v) == Sum(ops, At(v, u, 1)) - Sum(ops, At(v, u, 0))
  }

  lemma AbsentSplits(N: Expr, u: nat)
    requires Degree(N, u) == 0
    ensures Written(N, Unknown(u), Zero, N) && Splits(0, N, u, Zero, N)
  {
    RestIffAbsent(N, u);
    forall v
      ensures SplitsAt(0, N, u, Zero, N, v)
    {
      AtOwnValue(N, v, u);
      SameWithoutUnknown(N, v, u, v.unknown(u), 0);
      SameWithoutUnknown(N, v, u, 0, 1);
    }
  }

  lemma {:induction false} OthersAbsent(ops: seq<Expr>, k: nat, v: Valuation, u: nat, x: int)
    requires k < |ops| && SumDegree(ops, u) <= Degree(ops[k], u)
    ensures Others(ops, k, At(v, u, x)) == Others(ops, k, v)
  {
    if k == 0 {
      SameOperands(ops[1..], v, u, v.unknown(u), x);
      OperandsAtOwnValue(ops[1..], v, u);
    } else {
      DegreeOfOperand(ops[1..], k - 1, u);
      SameWithoutUnknown(ops[0], v, u, v.unknown(u), x);
      AtOwnValue(ops[0], v, u);
      OthersAbsent(ops[1..], k - 1, v, u, x);
    }
  }

  lemma FactorSplits(N: Expr, u: nat, k: nat)
    requires N.Mul? && k < |N.ops| && N.ops[k] == Unknown(u) && Degree(N, u) <= 1
    ensures Written(N, Unknown(u), Mul(N.ops[k := One]), Zero) && Splits(0, N, u, Mul(N.ops[k := One]), Zero)
  {
    var q := Mul(N.ops[k := One]);
    assert MultipleOf(N.ops[k], Unknown(u), q.ops[k]) && q.ops == N.ops[k := q.ops[k]];
    forall v
      ensures SplitsAt(0, N, u, q, Zero, v)
    {
      OwnProduct(N.ops, k, At(v, u, 0));
      OwnProduct(N.ops, k, At(v, u, 1));
      ProductAt(N.ops, k, One, v);
      OthersAbsent(N.ops, k, v, u, 0);
      OthersAbsent(N.ops, k, v, u, 1);
    }
  }

  /** A plain expression, linear in u, is written over u with its coefficient and its value at 0. */
  lemma {:induction false} PlainIsWritten(N: Expr, u: nat) returns (q: Expr, r: Expr)
    requires Plain(N, u) && Degree(N, u) <= 1
    ensures Written(N, Unknown(u), q, r) && Splits(0, N, u, q, r)
    decreases N, 0
  {
    if Degree(N, u) == 0 {
      AbsentSplits(N, u);
      return Zero, N;
    }
    match N
    case Unknown(_) =>
      q, r := One, Zero;
      forall v ensures SplitsAt(0, N, u, q, r, v) {
      }
    case Mul(ops) =>
      var k :| 0 <= k < |ops| && ops[k] == Unknown(u);
      FactorSplits(N, u, k);
      q, r := Mul(ops[k := One]), Zero;
    case AddRec(start, step, loop) =>
      var q0, r0 := PlainIsWritten(start, u);
      var q1, r1 := PlainIsWritten(step, u);
      q, r := AddRec(q0, q1, loop), AddRec(r0, r1, loop);
      RecurrenceSplits(N, u, q, r);
    case Add(ops) =>
      var qs, rs := PlainOperands(N, ops, u);
      q, r := Add(qs), Add(rs);
      forall v
        ensures SplitsAt(0, N, u, q, r, v)
      {
        assert SumSplitsAt(ops, u, qs, rs, v);
      }
  }

  lemma RecurrenceSplits(N: Expr, u: nat, q: Expr, r: Expr)
    requires N.AddRec? && q.AddRec? && r.AddRec? && q.loop == r.loop == N.loop
    requires Splits(0, N.start, u, q.start, r.start) && Splits(0, N.step, u, q.step, r.step)
    ensures Splits(0, N, u, q, r)
  {
    forall v
      ensures SplitsAt(0, N, u, q, r, v)
    {
      assert SplitsAt(0, N.start, u, q.start, r.start, v) && SplitsAt(0, N.step, u, q.step, r.step, v);
      var k, b, c := v.iteration(N.loop), Eval(N.step, At(v, u, 0)), Eval(N.step, At(v, u, 1));
      assert k * (c - b) == k * c - k * b;
    }
  }

  lemma {:induction false} PlainOperands(N: Expr, ops: seq<Expr>, u: nat) returns (qs: seq<Expr>, rs: seq<Expr>)
    requires (forall k :: 0 <= k < |ops| ==> ops[k] < N && Plain(ops[k], u)) && MaxDegree(ops, u) <= 1
    ensures |qs| == |rs| == |ops| && forall k :: 0 <= k < |ops| ==> Written(ops[k], Unknown(u), qs[k], rs[k])
    ensures forall v {:trigger SumSplitsAt(ops, u, qs, rs, v)} :: SumSplitsAt(ops, u, qs, rs, v)
    decreases N, 0, |ops|
  {
    if ops == [] {
      qs, rs := [], [];
    } else {
      var q, r := PlainIsWritten(ops[0], u);
      var qs1, rs1 := PlainOperands(N, ops[1..], u);
      qs, rs := [q] + qs1, [r] + rs1;
      forall k | 0 <= k < |ops|
        ensures Written(ops[k], Unknown(u), qs[k], rs[k])
      {
        assert k > 0 ==> ops[k] == ops[1..][k - 1] && qs[k] == qs1[k - 1] && rs[k] == rs1[k - 1];
      }
      assert qs[1..] == qs1 && rs[1..] == rs1;
      forall v
        ensures SumSplitsAt(ops, u, qs, rs, v)
      {
        assert SplitsAt(0, ops[0], u, q, r, v) && SumSplitsAt(ops[1..], u, qs1, rs1, v);
      }
    }
  }

  // ----- what finding needs of the builder -----

  /** Zeros are folded, an absent unknown is not replaced, and an expression less itself is zero. */
  ghost predicate FoldsZeros(SE: ScalarEvolution)
  {
    && (forall es {:trigger SE.getAdd(es)} :: (forall k :: 0 <= k < |es| ==> es[k] == Zero) ==> SE.getAdd(es) == Zero)
    && (forall l :: SE.getAddRec(Zero, Zero, l) == Zero)
    && (forall e, u {:trigger SE.rewrite(e, u, 0)} :: Degree(e, u) == 0 ==> SE.rewrite(e, u, 0) == e)
    && (forall e :: SE.getMinus(e, e) == Zero)
  }

  /** The difference that is divided, where it simplifies. */
  ghost predicate Simplified(SE: ScalarEvolution, e: Expr, u: nat, diff: Expr)
  {
    diff == SE.getMinus(e, SE.rewrite(e, u, 0)) && Size(diff) <= Size(e)
  }

  /** A factor in every term stays a factor in every term of what is built. */
  ghost predicate KeepsMultiples(SE: ScalarEvolution)
  {
    && (forall es, w {:trigger IsMultiple(SE.getAdd(es), Unknown(w))} :: IsMultiple(Add(es), Unknown(w)) ==> IsMultiple(SE.getAdd(es), Unknown(w)))
    && (forall es, w {:trigger IsMultiple(SE.getMul(es), Unknown(w))} :: IsMultiple(Mul(es), Unknown(w)) ==> IsMultiple(SE.getMul(es), Unknown(w)))
    && (forall a, b, l, w {:trigger IsMultiple(SE.getAddRec(a, b, l), Unknown(w))} ::
          IsMultiple(AddRec(a, b, l), Unknown(w)) ==> IsMultiple(SE.getAddRec(a, b, l), Unknown(w)))
    && (forall e, u, c, w {:trigger IsMultiple(SE.rewrite(e, u, c), Unknown(w))} ::
          w != u && IsMultiple(e, Unknown(w)) ==> IsMultiple(SE.rewrite(e, u, c), Unknown(w)))
    && (forall e, u, diff, w {:trigger Simplified(SE, e, u, diff), IsMultiple(diff, Unknown(w))} ::
          w != u && Simplified(SE, e, u, diff) && IsMultiple(e, Unknown(w)) ==> IsMultiple(diff, Unknown(w)))
  }

  /** Plain expressions are built from plain expressions. */
  ghost predicate KeepsPlain(SE: ScalarEvolution)
  {
    && (forall es, w {:trigger Plain(SE.getAdd(es), w)} :: Plain(Add(es), w) ==> Plain(SE.getAdd(es), w))
    && (forall es, w {:trigger Plain(SE.getMul(es), w)} :: Plain(Mul(es), w) ==> Plain(SE.getMul(es), w))
    && (forall a, b, l, w {:trigger Plain(SE.getAddRec(a, b, l), w)} :: Plain(AddRec(a, b, l), w) ==> Plain(SE.getAddRec(a, b, l), w))
    && (forall e, u, c, w {:trigger Plain(SE.rewrite(e, u, c), w)} :: w != u && Plain(e, w) ==> Plain(SE.rewrite(e, u, c), w))
    && (forall e, u, diff, w {:trigger Simplified(SE, e, u, diff), Plain(diff, w)} ::
          w != u && Simplified(SE, e, u, diff) && Plain(e, w) ==> Plain(diff, w))
  }

  ghost predicate Canonical(SE: ScalarEvolution)
  {
    FoldsZeros(SE) && KeepsMultiples(SE) && KeepsPlain(SE)
  }

  // ----- what division finds -----

  /** A multiple leaves nothing; whatever way N is written over D, quotient and remainder have the values of
      that writing; an unknown is left as it is. */
  ghost predicate FindsWritten(m: nat, N: Expr, D: Expr, Q: Expr, R: Expr)
  {
    && (IsMultiple(N, D) ==> R == Zero)
    && (forall q, r {:trigger Written(N, D, q, r)} :: Written(N, D, q, r) ==> SameValue(m, Q, q) && SameValue(m, R, r))
    && (N.Unknown? && N != D && D != One ==> R == N)
  }

  /** The quotient can go on being divided by the other unknowns. */
  ghost predicate KeepsForms(N: Expr, D: Expr, Q: Expr)
  {
    && (forall w {:trigger Plain(N, w)} {:trigger Plain(Q, w)} :: Plain(N, w) && Degree(D, w) == 0 ==> Plain(Q, w))
    && (D.Unknown? || D.Const? ==>
          forall w {:trigger IsMultiple(N, Unknown(w))} {:trigger IsMultiple(Q, Unknown(w))} ::
            D != Unknown(w) && IsMultiple(N, Unknown(w)) ==> IsMultiple(Q, Unknown(w)))
  }

  /** A product is divided factor by factor, as far as its factors are found. */
  ghost predicate Finds(m: nat, N: Expr, D: Expr, Q: Expr, R: Expr)
  {
    && (D.Mul? ==> (FactorsFound(N, D.ops) ==> R == Zero))
    && (!D.Mul? ==> FindsWritten(m, N, D, Q, R))
    && KeepsForms(N, D, Q)
  }

  lemma FindsItself(m: nat, N: Expr)
    requires N != Zero
    ensures Finds(m, N, N, One, Zero)
  {
    ItselfKeepsForms(N);
    forall q, r {:trigger Written(N, N, q, r)} | Written(N, N, q, r)
      ensures q == One && r == Zero
    {
      OverItself(N, q, r);
    }
  }

  lemma OverItself(N: Expr, q: Expr, r: Expr)
    requires Written(N, N, q, r)
    ensures q == One && r == Zero
  {
    if N.Const? && !(MultipleOf(N, N, q) && r == Zero) {
      var c := N.value;
      assert Rounded(c, c, 1, 0);
      RoundedUnique(c, c, q.value, r.value, 1, 0);
    }
  }

  lemma ItselfKeepsForms(N: Expr)
    requires N != Zero
    ensures KeepsForms(N, N, One)
  {
    forall w | (N.Unknown? || N.Const?) && N != Unknown(w)
      ensures !IsMultiple(N, Unknown(w))
    {
    }
  }

  lemma FindsZero(m: nat, D: Expr)
    requires D != Zero
    ensures Finds(m, Zero, D, Zero, Zero)
  {
  }

  lemma FindsAllOverOne(m: nat, N: Expr)
    requires N != One
    ensures Finds(m, N, One, N, Zero)
  {
    forall q, r {:trigger Written(N, One, q, r)} | Written(N, One, q, r)
      ensures SameValue(m, N, q) && SameValue(m, Zero, r)
    {
      forall v
        ensures Eval(q, v) == Eval(N, v) && Eval(r, v) == 0
      {
        OneLeavesNothing(N, q, r, v);
      }
    }
  }

  /** Where there is nothing to divide. */
  lemma FindsNothing(m: nat, N: Expr, D: Expr)
    requires N != D && N != Zero && D != One && !D.Mul? && !IsMultiple(N, D) && !N.Add? && !N.AddRec? && !(N.Const? && D.Const?)
    ensures Finds(m, N, D, Zero, N)
  {
    forall q, r {:trigger Written(N, D, q, r)} | Written(N, D, q, r)
      ensures SameValue(m, Zero, q) && SameValue(m, N, r)
    {
      if MultipleOf(N, D, q) {
        MultipleIsMultiple(N, D, q);
      }
    }
  }

  /** Over an unknown, a plain numerator is divided as a linear function of it. */
  lemma PlainSplits(m: nat, N: Expr, u: nat, Q: Expr, R: Expr)
    requires Finds(m, N, Unknown(u), Q, R) && Plain(N, u) && Degree(N, u) <= 1
    ensures Splits(m, N, u, Q, R)
  {
    var q, r := PlainIsWritten(N, u);
    assert SameValue(m, Q, q) && SameValue(m, R, r);
    forall v
      ensures SplitsAt(m, N, u, Q, R, v)
    {
      assert SplitsAt(0, N, u, q, r, v);
    }
  }
}
