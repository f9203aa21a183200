/** Symbolic division of scalar-evolution expressions, and the delinearization built on it. */
module ScevDivision {
  import MachineInt
  import opened Congruence
  import opened DivisionForms
  import opened ScevExpr

  /** Numerator = Quotient * Denominator + Remainder, up to the modulus, whatever the unknowns and iterations are. */
  ghost predicate DivisionLaw(m: nat, N: Expr, D: Expr, Q: Expr, R: Expr)
  {
    forall v {:trigger Eval(N, v)} {:trigger Eval(Q, v)} {:trigger Eval(R, v)} :: Divided(Eval(N, v), Eval(D, v), Eval(Q, v), Eval(R, v), m)
  }

  ghost predicate NoHigherDegree(Q: Expr, N: Expr)
  {
    forall u {:trigger Degree(Q, u)} {:trigger Degree(N, u)} :: Degree(Q, u) <= Degree(N, u)
  }

  /** Constant factors of the denominator are nonzero, and the numerator is linear in its unknown factors. */
  ghost predicate Admissible(N: Expr, D: Expr)
    decreases D, 0
  {
    match D
    case Const(c) => c != 0
    case Unknown(u) => Degree(N, u) <= 1
    case Mul(ops) => AdmissibleAll(N, ops)
    case Add(_) => true
    case AddRec(_, _, _) => true
  }

  ghost predicate AdmissibleAll(N: Expr, ops: seq<Expr>)
    decreases ops
  {
    ops != [] ==> Admissible(N, ops[0]) && AdmissibleAll(N, ops[1..])
  }

  lemma {:induction false} StaysAdmissible(N: Expr, N': Expr, D: Expr)
    requires Admissible(N, D) && NoHigherDegree(N', N)
    ensures Admissible(N', D)
    decreases D, 0
  {
    if D.Mul? {
      AllStayAdmissible(N, N', D.ops);
    }
  }

  lemma {:induction false} AllStayAdmissible(N: Expr, N': Expr, ops: seq<Expr>)
    requires AdmissibleAll(N, ops) && NoHigherDegree(N', N)
    ensures AdmissibleAll(N', ops)
    decreases ops
  {
    if ops != [] {
      StaysAdmissible(N, N', ops[0]);
      AllStayAdmissible(N, N', ops[1..]);
    }
  }

  lemma {:induction false} FactorAdmissible(N: Expr, ops: seq<Expr>, i: nat)
    requires AdmissibleAll(N, ops) && i < |ops|
    ensures Admissible(N, ops[i])
  {
    if i > 0 {
      FactorAdmissible(N, ops[1..], i - 1);
    }
  }

  // ----- sums and products built from the left -----

  lemma {:induction false} ProductAppend(es: seq<Expr>, e: Expr, v: Valuation)
    ensures Product(es + [e], v) == Product(es, v) * Eval(e, v)
  {
    if es == [] {
      assert [e][1..] == [] && es + [e] == [e];
    } else {
      assert (es + [e])[1..] == es[1..] + [e];
      ProductAppend(es[1..], e, v);
    }
  }

  lemma {:induction false} SumAppend(es: seq<Expr>, e: Expr, v: Valuation)
    ensures Sum(es + [e], v) == Sum(es, v) + Eval(e, v)
  {
    if es == [] {
      assert [e][1..] == [] && es + [e] == [e];
    } else {
      assert (es + [e])[1..] == es[1..] + [e];
      SumAppend(es[1..], e, v);
    }
  }

  lemma {:induction false} DegreeAppend(es: seq<Expr>, e: Expr, u: nat)
    ensures SumDegree(es + [e], u) == SumDegree(es, u) + Degree(e, u)
    ensures MaxDegree(es + [e], u) == Max(MaxDegree(es, u), Degree(e, u))
  {
    if es == [] {
      assert [e][1..] == [] && es + [e] == [e];
    } else {
      assert (es + [e])[1..] == es[1..] + [e];
      DegreeAppend(es[1..], e, u);
    }
  }

  lemma SingleOperand(e: Expr)
    ensures forall v :: Sum([e], v) == Eval(e, v) && Product([e], v) == Eval(e, v)
    ensures forall u :: MaxDegree([e], u) == Degree(e, u) && SumDegree([e], u) == Degree(e, u)
  {
    assert [e][1..] == [];
  }

  // ----- constants -----

  /** Signed division as sdivrem does it, rounding towards zero. */
  function TruncatedQuotient(a: int, b: int): int
    requires b != 0
  {
    if (a >= 0) == (b > 0) then Abs(a) / Abs(b) else -(Abs(a) / Abs(b))
  }

  function TruncatedRemainder(a: int, b: int): int
    requires b != 0
  {
    if a >= 0 then Abs(a) % Abs(b) else -(Abs(a) % Abs(b))
  }

  lemma SdivremLaw(a: int, b: int)
    requires b != 0
    ensures a == TruncatedQuotient(a, b) * b + TruncatedRemainder(a, b)
    ensures Abs(TruncatedRemainder(a, b)) < Abs(b)
  {
    var q, r := Abs(a) / Abs(b), Abs(a) % Abs(b);
    assert Abs(a) == Abs(b) * q + r;
    if b > 0 {
      assert b * q == q * b;
      assert a < 0 ==> (-q) * b == -(b * q);
    } else {
      assert (-b) * q == -(q * b);
      assert a >= 0 ==> (-q) * b == (-b) * q;
    }
  }

  // ----- the laws of the single steps -----

  lemma GivingUp(m: nat, N: Expr, D: Expr)
    ensures DivisionLaw(m, N, D, Zero, N) && NoHigherDegree(Zero, N)
  {
  }

  lemma RecurrenceLaw(SE: ScalarEvolution, N: Expr, D: Expr, startQ: Expr, startR: Expr, stepQ: Expr, stepR: Expr)
    requires Trusted(SE) && N.AddRec?
    requires DivisionLaw(SE.modulus, N.start, D, startQ, startR) && DivisionLaw(SE.modulus, N.step, D, stepQ, stepR)
    requires NoHigherDegree(startQ, N.start) && NoHigherDegree(stepQ, N.step)
    ensures DivisionLaw(SE.modulus, N, D, SE.getAddRec(startQ, stepQ, N.loop), SE.getAddRec(startR, stepR, N.loop))
    ensures NoHigherDegree(SE.getAddRec(startQ, stepQ, N.loop), N)
  {
    var m, Q, R := SE.modulus, SE.getAddRec(startQ, stepQ, N.loop), SE.getAddRec(startR, stepR, N.loop);
    forall v ensures Divided(Eval(N, v), Eval(D, v), Eval(Q, v), Eval(R, v), m) {
      var k, d := v.iteration(N.loop), Eval(D, v);
      assert Divided(Eval(N.start, v), d, Eval(startQ, v), Eval(startR, v), m) && Divided(Eval(N.step, v), d, Eval(stepQ, v), Eval(stepR, v), m);
      DividedScaled(Eval(N.step, v), Eval(stepQ, v), Eval(stepR, v), d, k, m);
      DividedSum(Eval(N.start, v), Eval(startQ, v), Eval(startR, v), k * Eval(N.step, v), k * Eval(stepQ, v), k * Eval(stepR, v), d, m);
      DividedSame(Eval(N, v), d, Eval(startQ, v) + k * Eval(stepQ, v), Eval(startR, v) + k * Eval(stepR, v), Eval(Q, v), Eval(R, v), m);
    }
  }

  /** Replacing the unknown by 1 divides by it, if nothing is left at 0 and the numerator is linear in it. */
  lemma ShortcutLaw(SE: ScalarEvolution, N: Expr, u: nat)
    requires Trusted(SE) && Degree(N, u) <= 1 && SE.rewrite(N, u, 0) == Zero
    ensures DivisionLaw(SE.modulus, N, Unknown(u), SE.rewrite(N, u, 1), Zero)
  {
    forall v ensures Divided(Eval(N, v), Eval(Unknown(u), v), Eval(SE.rewrite(N, u, 1), v), Eval(Zero, v), SE.modulus) {
      ShortcutLawAt(SE, N, u, v);
    }
  }

  lemma ShortcutLawAt(SE: ScalarEvolution, N: Expr, u: nat, v: Valuation)
    requires Trusted(SE) && Degree(N, u) <= 1 && SE.rewrite(N, u, 0) == Zero
    ensures Divided(Eval(N, v), v.unknown(u), Eval(SE.rewrite(N, u, 1), v), 0, SE.modulus)
  {
    assert Cong(Eval(SE.rewrite(N, u, 0), v), Eval(N, At(v, u, 0)), SE.modulus);
    assert Cong(Eval(SE.rewrite(N, u, 1), v), Eval(N, At(v, u, 1)), SE.modulus);
    LinearInUnknown(N, v, u, v.unknown(u));
    AtOwnValue(N, v, u);
    DividedLine(Eval(N, At(v, u, 0)), Eval(N, At(v, u, 1)), v.unknown(u), Eval(N, v), Eval(SE.rewrite(N, u, 1), v), SE.modulus);
  }

  lemma DifferenceLaw(SE: ScalarEvolution, N: Expr, D: Expr, rest: Expr, Q: Expr)
    requires Trusted(SE) && DivisionLaw(SE.modulus, SE.getMinus(N, rest), D, Q, Zero)
    ensures DivisionLaw(SE.modulus, N, D, Q, rest)
  {
    var m := SE.modulus;
    forall v ensures Divided(Eval(N, v), Eval(D, v), Eval(Q, v), Eval(rest, v), m) {
      assert Divided(Eval(SE.getMinus(N, rest), v), Eval(D, v), Eval(Q, v), Eval(Zero, v), m);
      CongAdd(Eval(N, v) - Eval(rest, v), Eval(Q, v) * Eval(D, v), Eval(rest, v), Eval(rest, v), m);
    }
  }

  // ----- termination -----

  /** Whether the numerator still leaves something when the denominator is replaced by 0. */
  ghost function LeavesRemainder(SE: ScalarEvolution, N: Expr, D: Expr): nat
  {
    if D.Unknown? && SE.rewrite(N, D.name, 0) == Zero then 0 else 1
  }

  // ----- the division -----

  /** Division ends and obeys the law for every admissible numerator; the quotient is in no unknown of higher
      degree. With a builder that keeps forms it finds what is there: a multiple of the denominator leaves nothing,
      and however the numerator is written over it, quotient and remainder are those of that writing. */
  method Divide(SE: ScalarEvolution, N: Expr, D: Expr) returns (Q: Expr, R: Expr)
    requires Trusted(SE) && Admissible(N, D)
    ensures DivisionLaw(SE.modulus, N, D, Q, R) && NoHigherDegree(Q, N)
    ensures Canonical(SE) ==> Finds(SE.modulus, N, D, Q, R)
    ensures N.Mul? && D.Unknown? ==> FindsByReplacing(SE, N, D.name, R)
    ensures Canonical(SE) && N.Mul? && D in N.ops && !D.Mul? ==> R == Zero
    ensures Canonical(SE) && D.Unknown? && Plain(N, D.name) ==> Splits(SE.modulus, N, D.name, Q, R)
    decreases Size(D), Size(N), LeavesRemainder(SE, N, D), 2
  {
    if N == D {
      Q, R := One, Zero;
      FindsItself(SE.modulus, N);
    } else if N == Zero {
      Q, R := Zero, Zero;
      FindsZero(SE.modulus, D);
    } else if D == One {
      Q, R := N, Zero;
      FindsAllOverOne(SE.modulus, N);
    } else if D.Mul? {
      Q, R := DivideByFactors(SE, N, D);
    } else {
      match N
      case Const(_) => Q, R := VisitConstant(SE, N, D);
      case Unknown(_) =>
        GivingUp(SE.modulus, N, D);
        FindsNothing(SE.modulus, N, D);
        Q, R := Zero, N;
      case Add(_) => Q, R := VisitAddExpr(SE, N, D);
      case Mul(_) => Q, R := VisitMulExpr(SE, N, D);
      case AddRec(_, _, _) => Q, R := VisitAddRecExpr(SE, N, D);
    }
    if Canonical(SE) {
      FoundInParticular(SE.modulus, N, D, Q, R);
    }
  }

  lemma FoundInParticular(m: nat, N: Expr, D: Expr, Q: Expr, R: Expr)
    requires Admissible(N, D) && Finds(m, N, D, Q, R)
    ensures N.Mul? && D in N.ops && !D.Mul? ==> R == Zero
    ensures D.Unknown? && Plain(N, D.name) ==> Splits(m, N, D.name, Q, R)
  {
    if N.Mul? && D in N.ops {
      var k :| 0 <= k < |N.ops| && N.ops[k] == D;
      assert IsMultiple(N.ops[k], D);
    }
    if D.Unknown? && Plain(N, D.name) {
      PlainSplits(m, N, D.name, Q, R);
    }
  }

  /** A product divides one factor at a time, and only if every one leaves no remainder. */
  method DivideByFactors(SE: ScalarEvolution, N: Expr, D: Expr) returns (Q: Expr, R: Expr)
    requires Trusted(SE) && Admissible(N, D) && D.Mul? && N != D && N != Zero
    ensures DivisionLaw(SE.modulus, N, D, Q, R) && NoHigherDegree(Q, N)
    ensures Canonical(SE) ==> Finds(SE.modulus, N, D, Q, R)
    decreases Size(D), Size(N), LeavesRemainder(SE, N, D), 0
  {
    Q := N;
    for i := 0 to |D.ops|
      invariant NoHigherDegree(Q, N)
      invariant ExactBy(SE.modulus, N, Q, D.ops[..i])
      invariant Canonical(SE) ==> FactorsLeft(N, Q, D, i)
    {
      FactorAdmissible(N, D.ops, i);
      StaysAdmissible(N, Q, D.ops[i]);
      OperandIsSmaller(D, i);
      var q, r := Divide(SE, Q, D.ops[i]);
      if Canonical(SE) {
        FactorDivides(SE.modulus, N, Q, D, i, q, r);
      }
      if r != Zero {
        GivingUp(SE.modulus, N, D);
        return Zero, N;
      }
      ExactByOneMore(SE.modulus, N, Q, D.ops, i, q);
      Q := q;
    }
    assert D.ops[..|D.ops|] == D.ops;
    R := Zero;
  }

  /** What is left to find when i factors have been divided out. */
  ghost predicate FactorsLeft(N: Expr, Q: Expr, D: Expr, i: nat)
    requires D.Mul?
  {
    && (FactorsFound(N, D.ops) ==> forall j :: i <= j < |D.ops| ==> IsMultiple(Q, D.ops[j]))
    && (forall w {:trigger Plain(N, w)} {:trigger Plain(Q, w)} :: Plain(N, w) && Degree(D, w) == 0 ==> Plain(Q, w))
  }

  lemma FactorDivides(m: nat, N: Expr, Q: Expr, D: Expr, i: nat, q: Expr, r: Expr)
    requires D.Mul? && i < |D.ops| && FactorsLeft(N, Q, D, i) && Finds(m, Q, D.ops[i], q, r)
    ensures FactorsFound(N, D.ops) ==> r == Zero
    ensures FactorsLeft(N, q, D, i + 1)
  {
    forall w | Plain(N, w) && Degree(D, w) == 0
      ensures Plain(q, w)
    {
      DegreeOfOperand(D.ops, i, w);
    }
    if FactorsFound(N, D.ops) {
      forall j | i + 1 <= j < |D.ops|
        ensures IsMultiple(q, D.ops[j])
      {
        assert D.ops[i] != D.ops[j] && D.ops[j] == Unknown(D.ops[j].name);
      }
    }
  }

  ghost predicate ExactBy(m: nat, N: Expr, Q: Expr, factors: seq<Expr>)
  {
    forall v {:trigger Eval(N, v)} {:trigger Eval(Q, v)} :: Cong(Eval(N, v), Eval(Q, v) * Product(factors, v), m)
  }

  lemma ExactByOneMore(m: nat, N: Expr, Q: Expr, ops: seq<Expr>, i: nat, q: Expr)
    requires i < |ops| && ExactBy(m, N, Q, ops[..i]) && DivisionLaw(m, Q, ops[i], q, Zero)
    ensures ExactBy(m, N, q, ops[..i + 1])
  {
    assert ops[..i + 1] == ops[..i] + [ops[i]];
    forall v ensures Cong(Eval(N, v), Eval(q, v) * Product(ops[..i + 1], v), m) {
      ProductAppend(ops[..i], ops[i], v);
      assert Divided(Eval(Q, v), Eval(ops[i], v), Eval(q, v), Eval(Zero, v), m);
      DividedAgain(Eval(N, v), Product(ops[..i], v), Eval(Q, v), Eval(ops[i], v), Eval(q, v), m);
    }
  }

  method VisitConstant(SE: ScalarEvolution, N: Expr, D: Expr) returns (Q: Expr, R: Expr)
    requires N.Const? && Admissible(N, D) && !D.Mul? && N != D && N != Zero && D != One
    ensures DivisionLaw(SE.modulus, N, D, Q, R) && NoHigherDegree(Q, N)
    ensures Finds(SE.modulus, N, D, Q, R)
  {
    if D.Const? {
      SdivremLaw(N.value, D.value);
      FindsRounded(SE.modulus, N, D);
      return Const(TruncatedQuotient(N.value, D.value)), Const(TruncatedRemainder(N.value, D.value));
    }
    GivingUp(SE.modulus, N, D);
    FindsNothing(SE.modulus, N, D);
    return Zero, N;
  }

  lemma RemainderSign(a: int, b: int)
    requires b != 0
    ensures (TruncatedRemainder(a, b) > 0 ==> a > 0) && (TruncatedRemainder(a, b) < 0 ==> a < 0)
  {
    if a == 0 {
      MachineInt.DivModUnique(0, Abs(b), 0, 0);
    }
  }

  lemma ExactRounded(a: int, b: int)
    requires b != 0 && a % b == 0
    ensures Rounded(a, b, a / b, 0)
  {
    assert a == b * (a / b) + a % b;
    assert b * (a / b) == (a / b) * b;
  }

  lemma SdivremRounds(a: int, b: int)
    requires b != 0
    ensures Rounded(a, b, TruncatedQuotient(a, b), TruncatedRemainder(a, b))
  {
    SdivremLaw(a, b);
    RemainderSign(a, b);
  }

  lemma RoundedWriting(c: int, d: int, q: Expr, r: Expr)
    requires d != 0 && Written(Const(c), Const(d), q, r) && c != d && c != 0 && d != 1
    ensures q.Const? && r.Const? && Rounded(c, d, q.value, r.value)
  {
  }

  lemma FindsRounded(m: nat, N: Expr, D: Expr)
    requires N.Const? && D.Const? && D.value != 0 && N != D && N != Zero && D != One
    ensures Finds(m, N, D, Const(TruncatedQuotient(N.value, D.value)), Const(TruncatedRemainder(N.value, D.value)))
  {
    var c, d := N.value, D.value;
    var Q, R := TruncatedQuotient(c, d), TruncatedRemainder(c, d);
    SdivremRounds(c, d);
    if IsMultiple(N, D) {
      ExactRounded(c, d);
      RoundedUnique(c, d, Q, R, c / d, 0);
    }
    forall q, r {:trigger Written(N, D, q, r)} | Written(N, D, q, r)
      ensures SameValue(m, Const(Q), q) && SameValue(m, Const(R), r)
    {
      RoundedWriting(c, d, q, r);
      RoundedUnique(c, d, Q, R, q.value, r.value);
    }
  }

  method VisitAddRecExpr(SE: ScalarEvolution, N: Expr, D: Expr) returns (Q: Expr, R: Expr)
    requires Trusted(SE) && Admissible(N, D) && N.AddRec? && !D.Mul? && N != D && D != One
    ensures DivisionLaw(SE.modulus, N, D, Q, R) && NoHigherDegree(Q, N)
    ensures Canonical(SE) ==> Finds(SE.modulus, N, D, Q, R)
    decreases Size(D), Size(N), LeavesRemainder(SE, N, D), 0
  {
    RecurrencePartsAreSmaller(N);
    StaysAdmissible(N, N.start, D);
    StaysAdmissible(N, N.step, D);
    var startQ, startR := Divide(SE, N.start, D);
    var stepQ, stepR := Divide(SE, N.step, D);
    RecurrenceLaw(SE, N, D, startQ, startR, stepQ, stepR);
    if Canonical(SE) {
      RecurrenceFinds(SE, N, D, startQ, startR, stepQ, stepR);
    }
    Q := SE.getAddRec(startQ, stepQ, N.loop);
    R := SE.getAddRec(startR, stepR, N.loop);
  }

  lemma RecurrenceFinds(SE: ScalarEvolution, N: Expr, D: Expr, startQ: Expr, startR: Expr, stepQ: Expr, stepR: Expr)
    requires Trusted(SE) && Canonical(SE) && N.AddRec? && N != D && !D.Mul? && D != One
    requires Finds(SE.modulus, N.start, D, startQ, startR) && Finds(SE.modulus, N.step, D, stepQ, stepR)
    ensures Finds(SE.modulus, N, D, SE.getAddRec(startQ, stepQ, N.loop), SE.getAddRec(startR, stepR, N.loop))
  {
    var m, Q, R := SE.modulus, SE.getAddRec(startQ, stepQ, N.loop), SE.getAddRec(startR, stepR, N.loop);
    forall q, r {:trigger Written(N, D, q, r)} | Written(N, D, q, r)
      ensures SameValue(m, Q, q) && SameValue(m, R, r)
    {
      var q0, r0, q1, r1 := WrittenParts(N, D, q, r);
      assert SameValue(m, startQ, q0) && SameValue(m, startR, r0) && SameValue(m, stepQ, q1) && SameValue(m, stepR, r1);
      forall v
        ensures Cong(Eval(Q, v), Eval(q, v), m) && Cong(Eval(R, v), Eval(r, v), m)
      {
        SameRecurrence(m, v.iteration(N.loop), Eval(startQ, v), Eval(q0, v), Eval(stepQ, v), Eval(q1, v));
        SameRecurrence(m, v.iteration(N.loop), Eval(startR, v), Eval(r0, v), Eval(stepR, v), Eval(r1, v));
      }
    }
    RecurrenceKeepsForms(SE, N, D, startQ, stepQ);
  }

  lemma SameRecurrence(m: nat, k: int, a: int, a': int, b: int, b': int)
    requires Cong(a, a', m) && Cong(b, b', m)
    ensures Cong(a + k * b, a' + k * b', m)
  {
    CongScale(b, b', k, m);
    CongAdd(a, a', k * b, k * b', m);
  }

  lemma RecurrenceKeepsForms(SE: ScalarEvolution, N: Expr, D: Expr, startQ: Expr, stepQ: Expr)
    requires Canonical(SE) && N.AddRec? && KeepsForms(N.start, D, startQ) && KeepsForms(N.step, D, stepQ)
    ensures KeepsForms(N, D, SE.getAddRec(startQ, stepQ, N.loop))
  {
    var Q := SE.getAddRec(startQ, stepQ, N.loop);
    forall w | Plain(N, w) && Degree(D, w) == 0
      ensures Plain(Q, w)
    {
      assert Plain(AddRec(startQ, stepQ, N.loop), w);
    }
    forall w | (D.Unknown? || D.Const?) && D != Unknown(w) && IsMultiple(N, Unknown(w))
      ensures IsMultiple(Q, Unknown(w))
    {
      assert IsMultiple(N.start, Unknown(w)) && IsMultiple(N.step, Unknown(w));
      assert IsMultiple(startQ, Unknown(w)) && IsMultiple(stepQ, Unknown(w));
      assert IsMultiple(AddRec(startQ, stepQ, N.loop), Unknown(w));
    }
  }

  /** The operands divided so far. */
  ghost predicate SumDivided(m: nat, ops: seq<Expr>, D: Expr, Qs: seq<Expr>, Rs: seq<Expr>)
  {
    && (forall v {:trigger Sum(ops, v)} {:trigger Sum(Qs, v)} {:trigger Sum(Rs, v)} :: Divided(Sum(ops, v), Eval(D, v), Sum(Qs, v), Sum(Rs, v), m))
    && (forall u {:trigger MaxDegree(Qs, u)} :: MaxDegree(Qs, u) <= MaxDegree(ops, u))
  }

  lemma SumDividedOneMore(m: nat, ops: seq<Expr>, D: Expr, Qs: seq<Expr>, Rs: seq<Expr>, op: Expr, q: Expr, r: Expr)
    requires SumDivided(m, ops, D, Qs, Rs) && DivisionLaw(m, op, D, q, r) && NoHigherDegree(q, op)
    ensures SumDivided(m, ops + [op], D, Qs + [q], Rs + [r])
  {
    forall v ensures Divided(Sum(ops + [op], v), Eval(D, v), Sum(Qs + [q], v), Sum(Rs + [r], v), m) {
      SumAppend(ops, op, v);
      SumAppend(Qs, q, v);
      SumAppend(Rs, r, v);
      assert Divided(Eval(op, v), Eval(D, v), Eval(q, v), Eval(r, v), m);
      DividedSum(Sum(ops, v), Sum(Qs, v), Sum(Rs, v), Eval(op, v), Eval(q, v), Eval(r, v), Eval(D, v), m);
    }
    forall u ensures MaxDegree(Qs + [q], u) <= MaxDegree(ops + [op], u) {
      DegreeAppend(ops, op, u);
      DegreeAppend(Qs, q, u);
    }
  }

  method VisitAddExpr(SE: ScalarEvolution, N: Expr, D: Expr) returns (Q: Expr, R: Expr)
    requires Trusted(SE) && Admissible(N, D) && N.Add? && !D.Mul? && N != D && D != One
    ensures DivisionLaw(SE.modulus, N, D, Q, R) && NoHigherDegree(Q, N)
    ensures Canonical(SE) ==> Finds(SE.modulus, N, D, Q, R)
    decreases Size(D), Size(N), LeavesRemainder(SE, N, D), 0
  {
    var Qs, Rs := [], [];
    for i := 0 to |N.ops|
      invariant |Qs| == |Rs| == i
      invariant SumDivided(SE.modulus, N.ops[..i], D, Qs, Rs)
      invariant Canonical(SE) ==> forall k :: 0 <= k < i ==> Finds(SE.modulus, N.ops[k], D, Qs[k], Rs[k])
    {
      OperandIsSmaller(N, i);
      OperandAdmissible(N, i, D);
      var q, r := Divide(SE, N.ops[i], D);
      SumDividedOneMore(SE.modulus, N.ops[..i], D, Qs, Rs, N.ops[i], q, r);
      assert N.ops[..i + 1] == N.ops[..i] + [N.ops[i]];
      Qs, Rs := Qs + [q], Rs + [r];
    }
    assert N.ops[..|N.ops|] == N.ops;
    SumIsDivided(SE, N, D, Qs, Rs);
    if Canonical(SE) {
      SumFinds(SE, N, D, Qs, Rs);
    }
    if |Qs| == 1 {
      return Qs[0], Rs[0];
    }
    return SE.getAdd(Qs), SE.getAdd(Rs);
  }

  lemma SumIsDivided(SE: ScalarEvolution, N: Expr, D: Expr, Qs: seq<Expr>, Rs: seq<Expr>)
    requires Trusted(SE) && N.Add? && SumDivided(SE.modulus, N.ops, D, Qs, Rs) && |Qs| == |Rs|
    ensures DivisionLaw(SE.modulus, N, D, SE.getAdd(Qs), SE.getAdd(Rs)) && NoHigherDegree(SE.getAdd(Qs), N)
    ensures |Qs| == 1 ==> DivisionLaw(SE.modulus, N, D, Qs[0], Rs[0]) && NoHigherDegree(Qs[0], N)
  {
    var m := SE.modulus;
    forall v ensures Divided(Eval(N, v), Eval(D, v), Eval(SE.getAdd(Qs), v), Eval(SE.getAdd(Rs), v), m) {
      assert Eval(N, v) == Sum(N.ops, v);
      DividedSame(Eval(N, v), Eval(D, v), Sum(Qs, v), Sum(Rs, v), Eval(SE.getAdd(Qs), v), Eval(SE.getAdd(Rs), v), m);
    }
    if |Qs| == 1 {
      assert Qs == [Qs[0]] && Rs == [Rs[0]];
      SingleOperand(Qs[0]);
      SingleOperand(Rs[0]);
      forall v ensures Divided(Eval(N, v), Eval(D, v), Eval(Qs[0], v), Eval(Rs[0], v), m) {
        assert Eval(N, v) == Sum(N.ops, v) && Sum(Qs, v) == Eval(Qs[0], v) && Sum(Rs, v) == Eval(Rs[0], v);
      }
      forall u ensures Degree(Qs[0], u) <= Degree(N, u) {
        assert MaxDegree(Qs, u) == Degree(Qs[0], u);
      }
    }
  }

  lemma {:induction false} SameSums(m: nat, es: seq<Expr>, fs: seq<Expr>, v: Valuation)
    requires |es| == |fs| && forall k :: 0 <= k < |es| ==> SameValue(m, es[k], fs[k])
    ensures Cong(Sum(es, v), Sum(fs, v), m)
  {
    if es != [] {
      SameSums(m, es[1..], fs[1..], v);
      assert SameValue(m, es[0], fs[0]);
      CongAdd(Eval(es[0], v), Eval(fs[0], v), Sum(es[1..], v), Sum(fs[1..], v), m);
    }
  }

  /** Q and R are the built sums of Qs and Rs, or their only elements. */
  ghost predicate SumOf(SE: ScalarEvolution, es: seq<Expr>, e: Expr)
  {
    e == SE.getAdd(es) || (|es| == 1 && e == es[0])
  }

  lemma SumOfValue(SE: ScalarEvolution, es: seq<Expr>, e: Expr, v: Valuation)
    requires Trusted(SE) && SumOf(SE, es, e)
    ensures Cong(Eval(e, v), Sum(es, v), SE.modulus)
  {
    if |es| == 1 && e == es[0] {
      assert es == [es[0]];
      SingleOperand(es[0]);
    }
  }

  lemma SumFinds(SE: ScalarEvolution, N: Expr, D: Expr, Qs: seq<Expr>, Rs: seq<Expr>)
    requires Trusted(SE) && Canonical(SE) && N.Add? && N != D && !D.Mul? && D != One
    requires |Qs| == |Rs| == |N.ops| && forall k :: 0 <= k < |N.ops| ==> Finds(SE.modulus, N.ops[k], D, Qs[k], Rs[k])
    ensures Finds(SE.modulus, N, D, SE.getAdd(Qs), SE.getAdd(Rs))
    ensures |Qs| == 1 ==> Finds(SE.modulus, N, D, Qs[0], Rs[0])
  {
    SumFindsAs(SE, N, D, Qs, Rs, SE.getAdd(Qs), SE.getAdd(Rs));
    if |Qs| == 1 {
      SumFindsAs(SE, N, D, Qs, Rs, Qs[0], Rs[0]);
    }
  }

  lemma SumFindsAs(SE: ScalarEvolution, N: Expr, D: Expr, Qs: seq<Expr>, Rs: seq<Expr>, Q: Expr, R: Expr)
    requires Trusted(SE) && Canonical(SE) && N.Add? && N != D && !D.Mul? && D != One
    requires |Qs| == |Rs| == |N.ops| && forall k :: 0 <= k < |N.ops| ==> Finds(SE.modulus, N.ops[k], D, Qs[k], Rs[k])
    requires SumOf(SE, Qs, Q) && SumOf(SE, Rs, R)
    ensures Finds(SE.modulus, N, D, Q, R)
  {
    var m := SE.modulus;
    if IsMultiple(N, D) {
      assert forall k :: 0 <= k < |Rs| ==> Rs[k] == Zero;
    }
    forall q, r {:trigger Written(N, D, q, r)} | Written(N, D, q, r)
      ensures SameValue(m, Q, q) && SameValue(m, R, r)
    {
      var qs, rs := WrittenOperands(N, D, q, r);
      forall k | 0 <= k < |N.ops|
        ensures SameValue(m, Qs[k], qs[k]) && SameValue(m, Rs[k], rs[k])
      {
        assert Finds(m, N.ops[k], D, Qs[k], Rs[k]) && Written(N.ops[k], D, qs[k], rs[k]);
      }
      forall v
        ensures Cong(Eval(Q, v), Eval(q, v), m) && Cong(Eval(R, v), Eval(r, v), m)
      {
        SumOfValue(SE, Qs, Q, v);
        SumOfValue(SE, Rs, R, v);
        SameSums(m, Qs, qs, v);
        SameSums(m, Rs, rs, v);
      }
    }
    SumKeepsForms(SE, N, D, Qs, Q);
  }

  lemma SumKeepsForms(SE: ScalarEvolution, N: Expr, D: Expr, Qs: seq<Expr>, Q: Expr)
    requires Canonical(SE) && N.Add? && |Qs| == |N.ops| && SumOf(SE, Qs, Q)
    requires forall k :: 0 <= k < |N.ops| ==> KeepsForms(N.ops[k], D, Qs[k])
    ensures KeepsForms(N, D, Q)
  {
    forall w | Plain(N, w) && Degree(D, w) == 0
      ensures Plain(Q, w)
    {
      assert Plain(Add(Qs), w);
    }
    forall w | (D.Unknown? || D.Const?) && D != Unknown(w) && IsMultiple(N, Unknown(w))
      ensures IsMultiple(Q, Unknown(w))
    {
      assert forall k :: 0 <= k < |N.ops| ==> IsMultiple(N.ops[k], Unknown(w));
      assert forall k :: 0 <= k < |Qs| ==> IsMultiple(Qs[k], Unknown(w));
      assert IsMultiple(Add(Qs), Unknown(w));
    }
  }

  lemma OperandAdmissible(N: Expr, i: nat, D: Expr)
    requires (N.Add? || N.Mul?) && i < |N.ops| && Admissible(N, D)
    ensures Admissible(N.ops[i], D)
  {
    forall u ensures Degree(N.ops[i], u) <= Degree(N, u) {
      DegreeOfOperand(N.ops, i, u);
    }
    StaysAdmissible(N, N.ops[i], D);
  }

  /** One factor of the product has been divided by D, the others are as they were. */
  ghost predicate FactorDivided(m: nat, ops: seq<Expr>, D: Expr, Qs: seq<Expr>)
  {
    && (forall v {:trigger Product(ops, v)} {:trigger Product(Qs, v)} :: Divided(Product(ops, v), Eval(D, v), Product(Qs, v), 0, m))
    && (forall u {:trigger SumDegree(Qs, u)} :: SumDegree(Qs, u) <= SumDegree(ops, u))
  }

  lemma FactorFound(m: nat, ops: seq<Expr>, D: Expr, op: Expr, q: Expr)
    requires DivisionLaw(m, op, D, q, Zero) && NoHigherDegree(q, op)
    ensures FactorDivided(m, ops + [op], D, ops + [q])
  {
    forall v ensures Divided(Product(ops + [op], v), Eval(D, v), Product(ops + [q], v), 0, m) {
      ProductAppend(ops, op, v);
      ProductAppend(ops, q, v);
      assert Divided(Eval(op, v), Eval(D, v), Eval(q, v), Eval(Zero, v), m);
      DividedScaled(Eval(op, v), Eval(q, v), 0, Eval(D, v), Product(ops, v), m);
    }
    forall u ensures SumDegree(ops + [q], u) <= SumDegree(ops + [op], u) {
      DegreeAppend(ops, op, u);
      DegreeAppend(ops, q, u);
    }
  }

  lemma FactorKept(m: nat, ops: seq<Expr>, D: Expr, Qs: seq<Expr>, op: Expr)
    requires FactorDivided(m, ops, D, Qs)
    ensures FactorDivided(m, ops + [op], D, Qs + [op])
  {
    forall v ensures Divided(Product(ops + [op], v), Eval(D, v), Product(Qs + [op], v), 0, m) {
      ProductAppend(ops, op, v);
      ProductAppend(Qs, op, v);
      var c := Eval(op, v);
      DividedScaled(Product(ops, v), Product(Qs, v), 0, Eval(D, v), c, m);
      assert c * Product(ops, v) == Product(ops, v) * c && c * Product(Qs, v) == Product(Qs, v) * c;
    }
    forall u ensures SumDegree(Qs + [op], u) <= SumDegree(ops + [op], u) {
      DegreeAppend(ops, op, u);
      DegreeAppend(Qs, op, u);
    }
  }

  /** Which factor it is, and what is known of its quotient. */
  ghost predicate FactorAt(SE: ScalarEvolution, ops: seq<Expr>, D: Expr, Qs: seq<Expr>, f: nat, qf: Expr)
  {
    && f < |ops| && Qs == ops[f := qf]
    && DivisionLaw(SE.modulus, ops[f], D, qf, Zero) && NoHigherDegree(qf, ops[f])
    && (Canonical(SE) ==> Finds(SE.modulus, ops[f], D, qf, Zero))
  }

  lemma FactorStays(SE: ScalarEvolution, ops: seq<Expr>, D: Expr, Qs: seq<Expr>, f: nat, qf: Expr, op: Expr)
    requires FactorAt(SE, ops, D, Qs, f, qf)
    ensures FactorAt(SE, ops + [op], D, Qs + [op], f, qf)
  {
    assert (ops + [op])[f] == ops[f] && (ops + [op])[f := qf] == ops[f := qf] + [op];
  }

  lemma FactorHere(SE: ScalarEvolution, ops: seq<Expr>, D: Expr, op: Expr, q: Expr)
    requires DivisionLaw(SE.modulus, op, D, q, Zero) && NoHigherDegree(q, op) && (Canonical(SE) ==> Finds(SE.modulus, op, D, q, Zero))
    ensures FactorAt(SE, ops + [op], D, ops + [q], |ops|, q)
  {
    assert (ops + [op])[|ops| := q] == ops + [q];
  }

  ghost predicate OperandDivided(SE: ScalarEvolution, ops: seq<Expr>, D: Expr, Qs: seq<Expr>, f: nat, qf: Expr)
  {
    FactorDivided(SE.modulus, ops, D, Qs) && FactorAt(SE, ops, D, Qs, f, qf)
  }

  lemma OperandStays(SE: ScalarEvolution, ops: seq<Expr>, D: Expr, Qs: seq<Expr>, f: nat, qf: Expr, op: Expr)
    requires OperandDivided(SE, ops, D, Qs, f, qf)
    ensures OperandDivided(SE, ops + [op], D, Qs + [op], f, qf)
  {
    FactorKept(SE.modulus, ops, D, Qs, op);
    FactorStays(SE, ops, D, Qs, f, qf, op);
  }

  lemma OperandHere(SE: ScalarEvolution, ops: seq<Expr>, D: Expr, op: Expr, q: Expr)
    requires DivisionLaw(SE.modulus, op, D, q, Zero) && NoHigherDegree(q, op) && (Canonical(SE) ==> Finds(SE.modulus, op, D, q, Zero))
    ensures OperandDivided(SE, ops + [op], D, ops + [q], |ops|, q)
  {
    FactorFound(SE.modulus, ops, D, op, q);
    FactorHere(SE, ops, D, op, q);
  }

  /** Divide the first operand that D divides, if there is one. */
  method DivideAnOperand(SE: ScalarEvolution, N: Expr, D: Expr) returns (foundDenominatorTerm: bool, Qs: seq<Expr>, ghost f: nat, ghost qf: Expr)
    requires Trusted(SE) && Admissible(N, D) && N.Mul? && !D.Mul? && N != D && D != One
    ensures foundDenominatorTerm ==> OperandDivided(SE, N.ops, D, Qs, f, qf)
    ensures !foundDenominatorTerm && Canonical(SE) ==> !IsMultiple(N, D)
    decreases Size(D), Size(N), LeavesRemainder(SE, N, D), 0
  {
    Qs, foundDenominatorTerm, f, qf := [], false, 0, Zero;
    for i := 0 to |N.ops|
      invariant |Qs| == i
      invariant !foundDenominatorTerm ==> Qs == N.ops[..i]
      invariant foundDenominatorTerm ==> OperandDivided(SE, N.ops[..i], D, Qs, f, qf)
      invariant !foundDenominatorTerm && Canonical(SE) ==> forall k :: 0 <= k < i ==> !IsMultiple(N.ops[k], D)
    {
      var op := N.ops[i];
      assert N.ops[..i + 1] == N.ops[..i] + [op];
      if foundDenominatorTerm {
        OperandStays(SE, N.ops[..i], D, Qs, f, qf, op);
        Qs := Qs + [op];
        continue;
      }
      OperandIsSmaller(N, i);
      OperandAdmissible(N, i, D);
      var q, r := Divide(SE, op, D);
      if r != Zero {
        Qs := Qs + [op];
        continue;
      }
      foundDenominatorTerm := true;
      OperandHere(SE, N.ops[..i], D, op, q);
      f, qf := i, q;
      Qs := Qs + [q];
    }
    assert N.ops[..|N.ops|] == N.ops;
  }

  /** Divide an operand by D, or else all occurrences of the unknown D. */
  method VisitMulExpr(SE: ScalarEvolution, N: Expr, D: Expr) returns (Q: Expr, R: Expr)
    requires Trusted(SE) && Admissible(N, D) && N.Mul? && !D.Mul? && N != D && D != One
    ensures DivisionLaw(SE.modulus, N, D, Q, R) && NoHigherDegree(Q, N)
    ensures Canonical(SE) ==> Finds(SE.modulus, N, D, Q, R)
    ensures D.Unknown? ==> FindsByReplacing(SE, N, D.name, R)
    decreases Size(D), Size(N), LeavesRemainder(SE, N, D), 1
  {
    var foundDenominatorTerm, Qs, f, qf := DivideAnOperand(SE, N, D);
    if foundDenominatorTerm {
      ProductIsDivided(SE, N, D, Qs);
      if Canonical(SE) {
        ProductFinds(SE, N, D, Qs, f, qf, if |Qs| == 1 then Qs[0] else SE.getMul(Qs));
      }
      return if |Qs| == 1 then Qs[0] else SE.getMul(Qs), Zero;
    }
    if Canonical(SE) {
      FindsNothing(SE.modulus, N, D);
    }
    if !D.Unknown? {
      GivingUp(SE.modulus, N, D);
      return Zero, N;
    }
    Q, R := DivideByUnknown(SE, N, D);
  }

  lemma ProductFinds(SE: ScalarEvolution, N: Expr, D: Expr, Qs: seq<Expr>, f: nat, qf: Expr, Q: Expr)
    requires Trusted(SE) && Canonical(SE) && N.Mul? && N != D && !D.Mul? && D != One
    requires FactorAt(SE, N.ops, D, Qs, f, qf)
    requires Q == SE.getMul(Qs) || (|Qs| == 1 && Q == Qs[0])
    ensures Finds(SE.modulus, N, D, Q, Zero)
  {
    var m := SE.modulus;
    forall q, r {:trigger Written(N, D, q, r)} | Written(N, D, q, r)
      ensures SameValue(m, Q, q) && SameValue(m, Zero, r)
    {
      forall v
        ensures Cong(Eval(Q, v), Eval(q, v), m) && Cong(0, Eval(r, v), m)
      {
        ProductOfValue(SE, Qs, Q, v);
        ProductFindsAt(m, N, D, f, qf, q, r, v);
      }
    }
    ProductKeepsForms(SE, N, D, Qs, f, qf, Q);
  }

  lemma ProductOfValue(SE: ScalarEvolution, es: seq<Expr>, e: Expr, v: Valuation)
    requires Trusted(SE) && (e == SE.getMul(es) || (|es| == 1 && e == es[0]))
    ensures Cong(Eval(e, v), Product(es, v), SE.modulus)
  {
    if |es| == 1 && e == es[0] {
      assert es == [es[0]];
      SingleOperand(es[0]);
    }
  }

  lemma ProductFindsAt(m: nat, N: Expr, D: Expr, f: nat, qf: Expr, q: Expr, r: Expr, v: Valuation)
    requires N.Mul? && N != D && !D.Mul? && f < |N.ops| && Written(N, D, q, r)
    requires DivisionLaw(m, N.ops[f], D, qf, Zero) && Finds(m, N.ops[f], D, qf, Zero)
    ensures Cong(Product(N.ops[f := qf], v), Eval(q, v), m) && Cong(0, Eval(r, v), m)
  {
    if MultipleOf(N, D, q) && r == Zero {
      var k :| 0 <= k < |N.ops| && MultipleOf(N.ops[k], D, q.ops[k]) && q.ops == N.ops[k := q.ops[k]];
      FoundFactor(m, N.ops, D, f, qf, k, q.ops[k], v);
    } else {
      assert IsRest(N, D) && q == Zero && r == N;
      FoundNothing(m, N.ops, D, f, qf, v);
    }
  }

  /** Another factor than the one found gives the same cofactor. */
  lemma FoundFactor(m: nat, ops: seq<Expr>, D: Expr, f: nat, qf: Expr, k: nat, qk: Expr, v: Valuation)
    requires f < |ops| && k < |ops| && !D.Mul? && MultipleOf(ops[k], D, qk)
    requires DivisionLaw(m, ops[f], D, qf, Zero) && Finds(m, ops[f], D, qf, Zero)
    ensures Cong(Product(ops[f := qf], v), Product(ops[k := qk], v), m)
  {
    if k == f {
      assert Written(ops[f], D, qk, Zero) && SameValue(m, qf, qk);
      ProductAt(ops, f, qf, v);
      ProductAt(ops, f, qk, v);
      CongScale(Eval(qf, v), Eval(qk, v), Others(ops, f, v), m);
    } else {
      MultipleLaw(ops[k], D, qk, v);
      assert Divided(Eval(ops[f], v), Eval(D, v), Eval(qf, v), Eval(Zero, v), m);
      SameCofactor(m, ops, D, f, qf, k, qk, v);
    }
  }

  /** A rest that leaves nothing is zero. */
  lemma FoundNothing(m: nat, ops: seq<Expr>, D: Expr, f: nat, qf: Expr, v: Valuation)
    requires f < |ops| && !D.Mul? && IsRest(ops[f], D) && Finds(m, ops[f], D, qf, Zero)
    ensures Cong(Product(ops[f := qf], v), 0, m) && Cong(0, Product(ops, v), m)
  {
    assert Written(ops[f], D, Zero, ops[f]) && SameValue(m, qf, Zero) && SameValue(m, Zero, ops[f]);
    assert Eval(Zero, v) == 0;
    ProductAt(ops, f, qf, v);
    OwnProduct(ops, f, v);
    CongScale(Eval(qf, v), Eval(Zero, v), Others(ops, f, v), m);
    CongScale(Eval(Zero, v), Eval(ops[f], v), Others(ops, f, v), m);
  }

  lemma {:induction false} ReplacedDegree(ops: seq<Expr>, f: nat, q: Expr, u: nat)
    requires f < |ops| && Degree(q, u) <= Degree(ops[f], u)
    ensures SumDegree(ops[f := q], u) <= SumDegree(ops, u)
  {
    if f == 0 {
      assert ops[f := q][1..] == ops[1..];
    } else {
      assert ops[f := q][1..] == ops[1..][f - 1 := q];
      ReplacedDegree(ops[1..], f - 1, q, u);
    }
  }

  lemma PlainProduct(m: nat, N: Expr, D: Expr, f: nat, qf: Expr, w: nat)
    requires N.Mul? && f < |N.ops| && !D.Mul? && D != One && Degree(D, w) == 0 && Plain(N, w)
    requires Finds(m, N.ops[f], D, qf, Zero) && NoHigherDegree(qf, N.ops[f])
    ensures Plain(Mul(N.ops[f := qf]), w) && (|N.ops| == 1 ==> Plain(qf, w))
  {
    var Qs := N.ops[f := qf];
    if Degree(N, w) == 0 {
      DegreeOfOperand(N.ops, f, w);
      assert Degree(qf, w) <= Degree(N.ops[f], w) == 0;
      ReplacedDegree(N.ops, f, qf, w);
      AbsentIsPlain(qf, w);
      assert Degree(Mul(Qs), w) == SumDegree(Qs, w) == 0;
    } else {
      var k :| 0 <= k < |N.ops| && N.ops[k] == Unknown(w);
      assert Qs[k] == Unknown(w);
    }
  }

  lemma ProductKeepsForms(SE: ScalarEvolution, N: Expr, D: Expr, Qs: seq<Expr>, f: nat, qf: Expr, Q: Expr)
    requires Trusted(SE) && Canonical(SE) && N.Mul? && !D.Mul? && D != One && f < |N.ops| && Qs == N.ops[f := qf]
    requires Finds(SE.modulus, N.ops[f], D, qf, Zero) && (Q == SE.getMul(Qs) || (|Qs| == 1 && Q == Qs[0]))
    requires NoHigherDegree(qf, N.ops[f])
    ensures KeepsForms(N, D, Q)
  {
    forall w | Plain(N, w) && Degree(D, w) == 0
      ensures Plain(Q, w)
    {
      PlainProduct(SE.modulus, N, D, f, qf, w);
      if |Qs| == 1 {
        assert Qs == [qf];
      }
    }
    forall w | (D.Unknown? || D.Const?) && D != Unknown(w) && IsMultiple(N, Unknown(w))
      ensures IsMultiple(Q, Unknown(w))
    {
      var k :| 0 <= k < |N.ops| && IsMultiple(N.ops[k], Unknown(w));
      assert IsMultiple(Qs[k], Unknown(w));
      assert IsMultiple(Mul(Qs), Unknown(w));
    }
  }

  lemma ProductIsDivided(SE: ScalarEvolution, N: Expr, D: Expr, Qs: seq<Expr>)
    requires Trusted(SE) && N.Mul? && FactorDivided(SE.modulus, N.ops, D, Qs)
    ensures DivisionLaw(SE.modulus, N, D, SE.getMul(Qs), Zero) && NoHigherDegree(SE.getMul(Qs), N)
    ensures |Qs| == 1 ==> DivisionLaw(SE.modulus, N, D, Qs[0], Zero) && NoHigherDegree(Qs[0], N)
  {
    var m := SE.modulus;
    forall v ensures Divided(Eval(N, v), Eval(D, v), Eval(SE.getMul(Qs), v), Eval(Zero, v), m) {
      assert Eval(N, v) == Product(N.ops, v);
      DividedSame(Eval(N, v), Eval(D, v), Product(Qs, v), 0, Eval(SE.getMul(Qs), v), 0, m);
    }
    if |Qs| == 1 {
      assert Qs == [Qs[0]];
      SingleOperand(Qs[0]);
      forall v ensures Divided(Eval(N, v), Eval(D, v), Eval(Qs[0], v), Eval(Zero, v), m) {
        assert Eval(N, v) == Product(N.ops, v) && Product(Qs, v) == Eval(Qs[0], v);
      }
      forall u ensures Degree(Qs[0], u) <= Degree(N, u) {
        assert SumDegree(Qs, u) == Degree(Qs[0], u);
      }
    }
  }

  /** A product that is Zero with u replaced by 0 is divided by u; one whose difference to that simplifies to a
      product leaves it. */
  ghost predicate FindsByReplacing(SE: ScalarEvolution, N: Expr, u: nat, R: Expr)
  {
    var rest := SE.rewrite(N, u, 0);
    && (rest == Zero ==> R == Zero)
    && (SE.getMinus(N, rest).Mul? && Size(SE.getMinus(N, rest)) <= Size(N) ==> R == Zero || R == rest)
  }

  /** The remainder is the numerator with the unknown replaced by 0; what is left is divided if it simplifies. */
  method DivideByUnknown(SE: ScalarEvolution, N: Expr, D: Expr) returns (Q: Expr, R: Expr)
    requires Trusted(SE) && Admissible(N, D) && D.Unknown? && N.Mul?
    requires Canonical(SE) ==> !IsMultiple(N, D)
    ensures DivisionLaw(SE.modulus, N, D, Q, R) && NoHigherDegree(Q, N)
    ensures Canonical(SE) ==> Finds(SE.modulus, N, D, Q, R)
    ensures FindsByReplacing(SE, N, D.name, R)
    decreases Size(D), Size(N), LeavesRemainder(SE, N, D), 0
  {
    R := SE.rewrite(N, D.name, 0);
    if Canonical(SE) {
      FindsNothing(SE.modulus, N, D);
    }
    if R == Zero {
      ShortcutLaw(SE, N, D.name);
      if Canonical(SE) {
        ShortcutFinds(SE, N, D.name);
      }
      Q := SE.rewrite(N, D.name, 1);
      return;
    }
    var diff := SE.getMinus(N, R);
    if Size(diff) > Size(N) {
      GivingUp(SE.modulus, N, D);
      return Zero, N;
    }
    assert LeavesRemainder(SE, N, D) == 1 && LeavesRemainder(SE, diff, D) == 0;
    forall u ensures Degree(diff, u) <= Degree(N, u) {
      assert Degree(R, u) <= Degree(N, u);
    }
    StaysAdmissible(N, diff, D);
    var q, r := Divide(SE, diff, D);
    if r != Zero {
      GivingUp(SE.modulus, N, D);
      return Zero, N;
    }
    DifferenceLaw(SE, N, D, R, q);
    if Canonical(SE) {
      DifferenceFinds(SE, N, D.name, diff, q);
    }
    Q := q;
  }

  /** A product that is no multiple of u is written over u only if u is not in it. */
  lemma WrittenWithout(N: Expr, u: nat, q: Expr, r: Expr)
    requires N.Mul? && !IsMultiple(N, Unknown(u)) && Written(N, Unknown(u), q, r)
    ensures Degree(N, u) == 0 && q == Zero && r == N
  {
    if MultipleOf(N, Unknown(u), q) {
      MultipleIsMultiple(N, Unknown(u), q);
    }
    RestIffAbsent(N, u);
  }

  lemma ShortcutFinds(SE: ScalarEvolution, N: Expr, u: nat)
    requires Canonical(SE) && N.Mul? && !IsMultiple(N, Unknown(u)) && SE.rewrite(N, u, 0) == Zero
    ensures Finds(SE.modulus, N, Unknown(u), SE.rewrite(N, u, 1), Zero)
  {
    forall q, r {:trigger Written(N, Unknown(u), q, r)}
      ensures !Written(N, Unknown(u), q, r)
    {
      if Written(N, Unknown(u), q, r) {
        WrittenWithout(N, u, q, r);
      }
    }
  }

  lemma DifferenceFinds(SE: ScalarEvolution, N: Expr, u: nat, diff: Expr, q: Expr)
    requires Canonical(SE) && N.Mul? && !IsMultiple(N, Unknown(u)) && Simplified(SE, N, u, diff)
    requires Finds(SE.modulus, diff, Unknown(u), q, Zero)
    ensures Finds(SE.modulus, N, Unknown(u), q, SE.rewrite(N, u, 0))
  {
    var m, R := SE.modulus, SE.rewrite(N, u, 0);
    forall q', r {:trigger Written(N, Unknown(u), q', r)} | Written(N, Unknown(u), q', r)
      ensures SameValue(m, q, q') && SameValue(m, R, r)
    {
      WrittenWithout(N, u, q', r);
      assert R == N && diff == Zero;
      assert Written(Zero, Unknown(u), Zero, Zero);
    }
  }

  // ----- delinearization -----

  function Reverse(es: seq<Expr>): (r: seq<Expr>)
    ensures |r| == |es|
  {
    if es == [] then [] else Reverse(es[1..]) + [es[0]]
  }

  lemma {:induction false} ReverseAppend(es: seq<Expr>, e: Expr)
    ensures Reverse(es + [e]) == [e] + Reverse(es)
  {
    if es == [] {
      assert [] + [e] == [e] && [e][1..] == [];
    } else {
      assert (es + [e])[1..] == es[1..] + [e];
      ReverseAppend(es[1..], e);
    }
  }

  /** Linearize the remaining subscripts onto a value: multiply by the next size, add the next subscript. */
  ghost function HornerFrom(x: int, subscripts: seq<Expr>, sizes: seq<Expr>, v: Valuation): int
    requires |subscripts| == |sizes|
    decreases |subscripts|
  {
    if subscripts == [] then x else HornerFrom(x * Eval(sizes[0], v) + Eval(subscripts[0], v), subscripts[1..], sizes[1..], v)
  }

  /** The flattened element index of subscripts s[0..n] in an array whose inner dimensions are sizes[0..n-1];
      the last size is that of an element. */
  ghost function Linearized(subscripts: seq<Expr>, sizes: seq<Expr>, v: Valuation): int
    requires |subscripts| == |sizes| > 0
  {
    HornerFrom(Eval(subscripts[0], v), subscripts[1..], sizes[..|sizes| - 1], v)
  }

  ghost predicate AllAdmissible(E: Expr, sizes: seq<Expr>)
  {
    forall i :: 0 <= i < |sizes| ==> Admissible(E, sizes[i])
  }

  /** What the expression is after the sizes from `from` on have been divided out. */
  ghost predicate PeeledTo(m: nat, E: Expr, res: Expr, rest: seq<Expr>, sizes: seq<Expr>, from: nat, dropped: Expr)
    requires from < |sizes| && |rest| == |sizes| - 1 - from
  {
    forall v {:trigger Eval(res, v)} ::
      Divided(Eval(E, v), Eval(sizes[|sizes| - 1], v), HornerFrom(Eval(res, v), rest, sizes[from..|sizes| - 1], v), Eval(dropped, v), m)
  }

  lemma {:induction false} HornerSame(x: int, y: int, subscripts: seq<Expr>, sizes: seq<Expr>, v: Valuation, m: nat)
    requires |subscripts| == |sizes| && Cong(x, y, m)
    ensures Cong(HornerFrom(x, subscripts, sizes, v), HornerFrom(y, subscripts, sizes, v), m)
    decreases |subscripts|
  {
    if subscripts != [] {
      var c, s := Eval(sizes[0], v), Eval(subscripts[0], v);
      CongScale(x, y, c, m);
      CongAdd(x * c, y * c, s, s, m);
      HornerSame(x * c + s, y * c + s, subscripts[1..], sizes[1..], v, m);
    }
  }

  lemma PeelOneMore(m: nat, E: Expr, res: Expr, rest: seq<Expr>, sizes: seq<Expr>, from: nat, dropped: Expr, q: Expr, r: Expr)
    requires 0 < from < |sizes| && |rest| == |sizes| - 1 - from && PeeledTo(m, E, res, rest, sizes, from, dropped)
    requires DivisionLaw(m, res, sizes[from - 1], q, r)
    ensures PeeledTo(m, E, q, [r] + rest, sizes, from - 1, dropped)
  {
    var inner := sizes[from - 1..|sizes| - 1];
    assert inner[0] == sizes[from - 1] && inner[1..] == sizes[from..|sizes| - 1] && ([r] + rest)[1..] == rest;
    forall v ensures Divided(Eval(E, v), Eval(sizes[|sizes| - 1], v), HornerFrom(Eval(q, v), [r] + rest, inner, v), Eval(dropped, v), m) {
      var again := Eval(q, v) * Eval(sizes[from - 1], v) + Eval(r, v);
      assert Divided(Eval(res, v), Eval(sizes[from - 1], v), Eval(q, v), Eval(r, v), m);
      HornerSame(again, Eval(res, v), rest, inner[1..], v, m);
      DividedSame(Eval(E, v), Eval(sizes[|sizes| - 1], v), HornerFrom(Eval(res, v), rest, inner[1..], v), Eval(dropped, v),
                  HornerFrom(again, rest, inner[1..], v), Eval(dropped, v), m);
    }
  }

  /** E is, times the last size, the row-major index of the subscripts s: q is that index. The other sizes are
      different unknowns that the subscripts they multiply and the following one do not depend on. */
  ghost predicate BuiltFrom(E: Expr, Sizes: seq<Expr>, s: seq<Expr>, q: Expr)
  {
    && |s| == |Sizes| > 0
    && !Sizes[|Sizes| - 1].Mul? && MultipleOf(E, Sizes[|Sizes| - 1], q)
    && (forall v :: Eval(q, v) == Linearized(s, Sizes, v))
    && (forall j :: 0 <= j < |Sizes| - 1 ==>
          Sizes[j].Unknown? && Plain(E, Sizes[j].name) && Degree(Sizes[|Sizes| - 1], Sizes[j].name) == 0)
    && (forall j, k :: 0 <= j < |Sizes| - 1 && 0 <= k <= j + 1 ==> Degree(s[k], Sizes[j].name) == 0)
    && (forall i, j :: 0 <= i < j < |Sizes| - 1 ==> Sizes[i] != Sizes[j])
  }

  /** With the sizes from i on divided out: what is left is the index of the subscripts before i, the others
      have been found, the innermost first. */
  ghost predicate Recovered(m: nat, res: Expr, found: seq<Expr>, Sizes: seq<Expr>, i: nat, s: seq<Expr>)
    requires |s| == |Sizes| && i < |Sizes| && |found| == |Sizes| - 1 - i
  {
    && (forall v {:trigger Eval(res, v)} :: Cong(Eval(res, v), HornerFrom(Eval(s[0], v), s[1..i + 1], Sizes[..i], v), m))
    && (forall k :: 0 <= k < |found| ==> SameValue(m, found[k], s[|s| - 1 - k]))
    && (forall j :: 0 <= j < i && Sizes[j].Unknown? ==> Plain(res, Sizes[j].name))
  }

  lemma {:induction false} HornerAppend(x: int, subscripts: seq<Expr>, sizes: seq<Expr>, sub: Expr, size: Expr, v: Valuation)
    requires |subscripts| == |sizes|
    ensures HornerFrom(x, subscripts + [sub], sizes + [size], v) == HornerFrom(x, subscripts, sizes, v) * Eval(size, v) + Eval(sub, v)
    decreases |subscripts|
  {
    if subscripts == [] {
      assert (subscripts + [sub])[1..] == [] && (sizes + [size])[1..] == [];
    } else {
      assert (subscripts + [sub])[1..] == subscripts[1..] + [sub] && (sizes + [size])[1..] == sizes[1..] + [size];
      HornerAppend(x * Eval(sizes[0], v) + Eval(subscripts[0], v), subscripts[1..], sizes[1..], sub, size, v);
    }
  }

  lemma {:induction false} HornerAbsent(x: int, subscripts: seq<Expr>, sizes: seq<Expr>, v: Valuation, u: nat, a: int)
    requires |subscripts| == |sizes|
    requires forall k :: 0 <= k < |subscripts| ==> Degree(subscripts[k], u) == 0 && Degree(sizes[k], u) == 0
    ensures HornerFrom(x, subscripts, sizes, At(v, u, a)) == HornerFrom(x, subscripts, sizes, v)
    decreases |subscripts|
  {
    if subscripts != [] {
      AbsentValue(subscripts[0], v, u, a);
      AbsentValue(sizes[0], v, u, a);
      HornerAbsent(x * Eval(sizes[0], v) + Eval(subscripts[0], v), subscripts[1..], sizes[1..], v, u, a);
    }
  }

  lemma AbsentValue(e: Expr, v: Valuation, u: nat, a: int)
    requires Degree(e, u) == 0
    ensures Eval(e, At(v, u, a)) == Eval(e, v)
  {
    AtOwnValue(e, v, u);
    SameWithoutUnknown(e, v, u, v.unknown(u), a);
  }

  /** What is left, where the unknown size is a. */
  lemma LeftAt(m: nat, E: Expr, res: Expr, found: seq<Expr>, Sizes: seq<Expr>, i: nat, s: seq<Expr>, q: Expr, v: Valuation, a: int)
    requires BuiltFrom(E, Sizes, s, q) && 0 < i < |Sizes| && |found| == |Sizes| - 1 - i && Recovered(m, res, found, Sizes, i, s)
    ensures Cong(Eval(res, At(v, Sizes[i - 1].name, a)), HornerFrom(Eval(s[0], v), s[1..i], Sizes[..i - 1], v) * a + Eval(s[i], v), m)
  {
    var u := Sizes[i - 1].name;
    var w := At(v, u, a);
    assert s[1..i + 1] == s[1..i] + [s[i]] && Sizes[..i] == Sizes[..i - 1] + [Sizes[i - 1]];
    HornerAppend(Eval(s[0], w), s[1..i], Sizes[..i - 1], s[i], Sizes[i - 1], w);
    assert Cong(Eval(res, w), HornerFrom(Eval(s[0], w), s[1..i + 1], Sizes[..i], w), m);
    AbsentValue(s[0], v, u, a);
    AbsentValue(s[i], v, u, a);
    forall k | 0 <= k < i - 1
      ensures Degree(s[1..i][k], u) == 0 && Degree(Sizes[..i - 1][k], u) == 0
    {
      assert Sizes[k] != Sizes[i - 1];
    }
    HornerAbsent(Eval(s[0], v), s[1..i], Sizes[..i - 1], v, u, a);
  }

  lemma RecoverOneMore(m: nat, E: Expr, res: Expr, found: seq<Expr>, Sizes: seq<Expr>, i: nat, s: seq<Expr>, q: Expr, Q: Expr, R: Expr)
    requires BuiltFrom(E, Sizes, s, q) && 0 < i < |Sizes| && |found| == |Sizes| - 1 - i && Recovered(m, res, found, Sizes, i, s)
    requires Finds(m, res, Sizes[i - 1], Q, R) && Splits(m, res, Sizes[i - 1].name, Q, R)
    ensures Recovered(m, Q, found + [R], Sizes, i - 1, s)
  {
    var u := Sizes[i - 1].name;
    forall v
      ensures Cong(Eval(Q, v), HornerFrom(Eval(s[0], v), s[1..i], Sizes[..i - 1], v), m) && Cong(Eval(R, v), Eval(s[i], v), m)
    {
      var h, t := HornerFrom(Eval(s[0], v), s[1..i], Sizes[..i - 1], v), Eval(s[i], v);
      LeftAt(m, E, res, found, Sizes, i, s, q, v, 0);
      LeftAt(m, E, res, found, Sizes, i, s, q, v, 1);
      assert SplitsAt(m, res, u, Q, R, v);
      CongAdd(Eval(res, At(v, u, 1)), h * 1 + t, Eval(res, At(v, u, 0)), h * 0 + t, m);
    }
    forall j | 0 <= j < i - 1 && Sizes[j].Unknown?
      ensures Plain(Q, Sizes[j].name)
    {
      assert Sizes[j] != Sizes[i - 1] && Degree(Sizes[i - 1], Sizes[j].name) == 0;
    }
    assert |s| - 1 - |found| == i;
  }

  /** Round trip: the subscripts, one per size, linearize back to the expression up to the one dropped
      remainder of the element size; if that remainder is a recurrence, nothing is produced at all. */
  method ComputeAccessFunctions(SE: ScalarEvolution, E: Expr, Sizes: seq<Expr>)
    returns (subscripts: seq<Expr>, sizes: seq<Expr>, ghost dropped: Expr)
    requires Trusted(SE) && AllAdmissible(E, Sizes)
    ensures |subscripts| == |sizes|
    ensures sizes == if Sizes == [] || dropped.AddRec? then [] else Sizes
    ensures sizes != [] ==>
              forall v :: Divided(Eval(E, v), Eval(sizes[|sizes| - 1], v), Linearized(subscripts, sizes, v), Eval(dropped, v), SE.modulus)
    ensures Canonical(SE) ==> forall s, q {:trigger BuiltFrom(E, Sizes, s, q)} :: BuiltFrom(E, Sizes, s, q) ==>
              sizes == Sizes && dropped == Zero && |subscripts| == |s| && forall k :: 0 <= k < |s| ==> SameValue(SE.modulus, subscripts[k], s[k])
  {
    subscripts, sizes, dropped := [], Sizes, Zero;
    if Sizes == [] {
      return;
    }
    var last := |Sizes| - 1;
    var res, r := Divide(SE, E, Sizes[last]);
    dropped := r;
    if Canonical(SE) {
      LastSizeFound(SE.modulus, E, Sizes, res, r);
    }
    if r.AddRec? {
      return [], [], dropped;
    }
    LastSizePeeled(SE.modulus, E, res, Sizes, dropped);
    var found;
    res, found := DivideBySizes(SE, E, Sizes, res, dropped);
    ReverseAppend(found, res);
    subscripts := Reverse(found + [res]);
    FullyPeeled(SE.modulus, E, res, Reverse(found), Sizes, dropped);
    if Canonical(SE) {
      AllFound(SE.modulus, E, res, found, Sizes, dropped, subscripts);
    }
  }

  /** Divide by all sizes but the last: what is left is the outermost subscript, the remainders are the others,
      the innermost first. */
  method DivideBySizes(SE: ScalarEvolution, ghost E: Expr, Sizes: seq<Expr>, quotient: Expr, ghost dropped: Expr) returns (res: Expr, found: seq<Expr>)
    requires Trusted(SE) && AllAdmissible(E, Sizes) && Sizes != [] && NoHigherDegree(quotient, E)
    requires PeeledTo(SE.modulus, E, quotient, [], Sizes, |Sizes| - 1, dropped)
    requires Canonical(SE) ==> RecoveredFromAll(SE.modulus, E, quotient, [], Sizes, |Sizes| - 1, dropped)
    ensures |found| == |Sizes| - 1
    ensures PeeledTo(SE.modulus, E, res, Reverse(found), Sizes, 0, dropped)
    ensures Canonical(SE) ==> RecoveredFromAll(SE.modulus, E, res, found, Sizes, 0, dropped)
  {
    res, found := quotient, [];
    var i := |Sizes| - 1;
    while i > 0
      invariant 0 <= i < |Sizes| && |found| == |Sizes| - 1 - i
      invariant NoHigherDegree(res, E)
      invariant PeeledTo(SE.modulus, E, res, Reverse(found), Sizes, i, dropped)
      invariant Canonical(SE) ==> RecoveredFromAll(SE.modulus, E, res, found, Sizes, i, dropped)
    {
      i := i - 1;
      StaysAdmissible(E, res, Sizes[i]);
      var q, rem := Divide(SE, res, Sizes[i]);
      PeelOneMore(SE.modulus, E, res, Reverse(found), Sizes, i + 1, dropped, q, rem);
      ReverseAppend(found, rem);
      if Canonical(SE) {
        SizeFound(SE.modulus, E, res, found, Sizes, i + 1, dropped, q, rem);
      }
      res := q;
      found := found + [rem];
    }
  }

  /** Whatever subscripts E is built from are being recovered. */
  ghost predicate RecoveredFromAll(m: nat, E: Expr, res: Expr, found: seq<Expr>, Sizes: seq<Expr>, i: nat, dropped: Expr)
    requires i < |Sizes| && |found| == |Sizes| - 1 - i
  {
    forall s, q {:trigger BuiltFrom(E, Sizes, s, q)} :: BuiltFrom(E, Sizes, s, q) ==> dropped == Zero && Recovered(m, res, found, Sizes, i, s)
  }

  lemma LastSizeFound(m: nat, E: Expr, Sizes: seq<Expr>, Q: Expr, R: Expr)
    requires Sizes != [] && Finds(m, E, Sizes[|Sizes| - 1], Q, R)
    ensures RecoveredFromAll(m, E, Q, [], Sizes, |Sizes| - 1, R)
  {
    var last := |Sizes| - 1;
    forall s, q {:trigger BuiltFrom(E, Sizes, s, q)} | BuiltFrom(E, Sizes, s, q)
      ensures R == Zero && Recovered(m, Q, [], Sizes, last, s)
    {
      MultipleIsMultiple(E, Sizes[last], q);
      assert Written(E, Sizes[last], q, Zero) && SameValue(m, Q, q);
      assert s[1..last + 1] == s[1..];
      forall v
        ensures Cong(Eval(Q, v), HornerFrom(Eval(s[0], v), s[1..last + 1], Sizes[..last], v), m)
      {
        assert Eval(q, v) == Linearized(s, Sizes, v);
      }
    }
  }

  lemma SizeFound(m: nat, E: Expr, res: Expr, found: seq<Expr>, Sizes: seq<Expr>, i: nat, dropped: Expr, Q: Expr, R: Expr)
    requires 0 < i < |Sizes| && |found| == |Sizes| - 1 - i && Finds(m, res, Sizes[i - 1], Q, R) && Admissible(res, Sizes[i - 1])
    requires RecoveredFromAll(m, E, res, found, Sizes, i, dropped)
    ensures RecoveredFromAll(m, E, Q, found + [R], Sizes, i - 1, dropped)
  {
    forall s, q {:trigger BuiltFrom(E, Sizes, s, q)} | BuiltFrom(E, Sizes, s, q)
      ensures Recovered(m, Q, found + [R], Sizes, i - 1, s)
    {
      PlainSplits(m, res, Sizes[i - 1].name, Q, R);
      RecoverOneMore(m, E, res, found, Sizes, i, s, q, Q, R);
    }
  }

  lemma {:induction false} ReverseAt(es: seq<Expr>, k: nat)
    requires k < |es|
    ensures Reverse(es)[k] == es[|es| - 1 - k]
  {
    if k < |es| - 1 {
      ReverseAt(es[1..], k);
    }
  }

  lemma AllFound(m: nat, E: Expr, res: Expr, found: seq<Expr>, Sizes: seq<Expr>, dropped: Expr, subscripts: seq<Expr>)
    requires Sizes != [] && |found| == |Sizes| - 1 && subscripts == [res] + Reverse(found)
    requires RecoveredFromAll(m, E, res, found, Sizes, 0, dropped)
    ensures forall s, q {:trigger BuiltFrom(E, Sizes, s, q)} :: BuiltFrom(E, Sizes, s, q) ==>
              dropped == Zero && |subscripts| == |s| && forall k :: 0 <= k < |s| ==> SameValue(m, subscripts[k], s[k])
  {
    forall s, q {:trigger BuiltFrom(E, Sizes, s, q)} | BuiltFrom(E, Sizes, s, q)
      ensures forall k :: 0 <= k < |s| ==> SameValue(m, subscripts[k], s[k])
    {
      forall k | 0 <= k < |s|
        ensures SameValue(m, subscripts[k], s[k])
      {
        if k > 0 {
          ReverseAt(found, k - 1);
          assert SameValue(m, found[|found| - k], s[|s| - 1 - (|found| - k)]);
        }
      }
    }
  }

  lemma LastSizePeeled(m: nat, E: Expr, res: Expr, sizes: seq<Expr>, dropped: Expr)
    requires sizes != [] && DivisionLaw(m, E, sizes[|sizes| - 1], res, dropped)
    ensures PeeledTo(m, E, res, [], sizes, |sizes| - 1, dropped)
  {
  }

  lemma FullyPeeled(m: nat, E: Expr, res: Expr, rest: seq<Expr>, sizes: seq<Expr>, dropped: Expr)
    requires sizes != [] && |rest| == |sizes| - 1 && PeeledTo(m, E, res, rest, sizes, 0, dropped)
    ensures forall v :: Divided(Eval(E, v), Eval(sizes[|sizes| - 1], v), Linearized([res] + rest, sizes, v), Eval(dropped, v), m)
  {
    assert ([res] + rest)[1..] == rest;
    forall v ensures Divided(Eval(E, v), Eval(sizes[|sizes| - 1], v), Linearized([res] + rest, sizes, v), Eval(dropped, v), m) {
      assert Linearized([res] + rest, sizes, v) == HornerFrom(Eval(res, v), rest, sizes[0..|sizes| - 1], v);
    }
  }
}
