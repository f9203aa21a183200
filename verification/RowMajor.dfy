/** The delinearization of row-major accesses: from subscripts and sizes to the byte offset and back, with any
    builder that keeps forms; and a builder that does. */
module RowMajor {
  import opened Congruence
  import opened DivisionForms
  import opened ScevDivision
  import opened ScevExpr

  // ----- a row-major access -----

  function Unknowns(names: seq<nat>): (es: seq<Expr>)
    ensures |es| == |names| && forall k :: 0 <= k < |es| ==> es[k] == Unknown(names[k])
  {
    seq(|names|, k requires 0 <= k < |names| => Unknown(names[k]))
  }

  /** Subscript s[0] times all sizes, s[1] times all but the first, and so on; and every term times c. */
  function Terms(c: Expr, names: seq<nat>, s: seq<Expr>): (ts: seq<Expr>)
    requires |s| == |names| + 1
    ensures |ts| == |s|
    ensures forall k :: 0 <= k < |ts| ==> ts[k] == Mul([c] + Unknowns(names[k..]) + [s[k]])
    decreases names
  {
    var first := Mul([c] + Unknowns(names) + [s[0]]);
    if names == [] then [first] else [first] + Terms(c, names[1..], s[1..])
  }

  function RowMajorOffset(c: Expr, names: seq<nat>, s: seq<Expr>): Expr
    requires |s| == |names| + 1
  {
    Add(Terms(c, names, s))
  }

  lemma {:induction false} ProductOfConcat(a: seq<Expr>, b: seq<Expr>, v: Valuation)
    ensures Product(a + b, v) == Product(a, v) * Product(b, v)
  {
    if a == [] {
      assert a + b == b;
    } else {
      assert (a + b)[1..] == a[1..] + b;
      ProductOfConcat(a[1..], b, v);
      assert Eval(a[0], v) * (Product(a[1..], v) * Product(b, v)) == (Eval(a[0], v) * Product(a[1..], v)) * Product(b, v);
    }
  }

  lemma TermValue(names: seq<nat>, e: Expr, v: Valuation)
    ensures Eval(Mul([One] + Unknowns(names) + [e]), v) == Eval(e, v) * Product(Unknowns(names), v)
  {
    SingleOperand(One);
    SingleOperand(e);
    ProductOfConcat([One], Unknowns(names), v);
    ProductOfConcat([One] + Unknowns(names), [e], v);
    assert Eval(One, v) == 1;
  }

  /** The terms add up to the linearized index. */
  lemma {:induction false} TermsAreHorner(names: seq<nat>, s: seq<Expr>, x: int, v: Valuation)
    requires |s| == |names|
    ensures HornerFrom(x, s, Unknowns(names), v) == x * Product(Unknowns(names), v) + (if s == [] then 0 else Sum(Terms(One, names[1..], s), v))
    decreases names
  {
    if names != [] {
      var z, rest := v.unknown(names[0]), Product(Unknowns(names[1..]), v);
      assert Unknowns(names)[1..] == Unknowns(names[1..]);
      TermsAreHorner(names[1..], s[1..], x * z + Eval(s[0], v), v);
      TermValue(names[1..], s[0], v);
      var first := Mul([One] + Unknowns(names[1..]) + [s[0]]);
      if names[1..] == [] {
        assert Terms(One, names[1..], s) == [first];
        SingleOperand(first);
      } else {
        assert Terms(One, names[1..], s)[1..] == Terms(One, names[1..][1..], s[1..]);
      }
      assert (x * z + Eval(s[0], v)) * rest == x * (z * rest) + Eval(s[0], v) * rest;
    }
  }

  lemma IndexValue(names: seq<nat>, s: seq<Expr>, c: Expr, v: Valuation)
    requires |s| == |names| + 1
    ensures Eval(RowMajorOffset(One, names, s), v) == Linearized(s, Unknowns(names) + [c], v)
  {
    var first := Mul([One] + Unknowns(names) + [s[0]]);
    TermValue(names, s[0], v);
    TermsAreHorner(names, s[1..], Eval(s[0], v), v);
    assert (Unknowns(names) + [c])[..|names|] == Unknowns(names);
    if names == [] {
      assert Terms(One, names, s) == [first];
      SingleOperand(first);
    } else {
      assert Terms(One, names, s)[1..] == Terms(One, names[1..], s[1..]);
    }
  }

  // ----- its forms -----

  /** The sizes are different and no subscript depends on any of them. */
  ghost predicate Independent(names: seq<nat>, s: seq<Expr>)
  {
    && (forall i, j :: 0 <= i < j < |names| ==> names[i] != names[j])
    && (forall j, k :: 0 <= j < |names| && 0 <= k < |s| ==> Degree(s[k], names[j]) == 0)
  }

  lemma {:induction false} DegreeOfConcat(a: seq<Expr>, b: seq<Expr>, u: nat)
    ensures SumDegree(a + b, u) == SumDegree(a, u) + SumDegree(b, u)
  {
    if a == [] {
      assert a + b == b;
    } else {
      assert (a + b)[1..] == a[1..] + b;
      DegreeOfConcat(a[1..], b, u);
    }
  }

  lemma {:induction false} DegreeOfUnknowns(names: seq<nat>, u: nat)
    requires forall i, j :: 0 <= i < j < |names| ==> names[i] != names[j]
    ensures SumDegree(Unknowns(names), u) == if u in names then 1 else 0
  {
    if names != [] {
      assert Unknowns(names)[1..] == Unknowns(names[1..]) && names == [names[0]] + names[1..];
      DegreeOfUnknowns(names[1..], u);
    }
  }

  lemma TermDegree(c: int, names: seq<nat>, e: Expr, u: nat)
    requires (forall i, j :: 0 <= i < j < |names| ==> names[i] != names[j]) && Degree(e, u) == 0
    ensures Degree(Mul([Const(c)] + Unknowns(names) + [e]), u) == if u in names then 1 else 0
  {
    SingleOperand(Const(c));
    SingleOperand(e);
    DegreeOfConcat([Const(c)], Unknowns(names), u);
    DegreeOfConcat([Const(c)] + Unknowns(names), [e], u);
    DegreeOfUnknowns(names, u);
  }

  lemma TermIsPlain(c: int, names: seq<nat>, e: Expr, u: nat)
    requires (forall i, j :: 0 <= i < j < |names| ==> names[i] != names[j]) && Degree(e, u) == 0
    ensures Plain(Mul([Const(c)] + Unknowns(names) + [e]), u)
  {
    var ops := [Const(c)] + Unknowns(names) + [e];
    TermDegree(c, names, e, u);
    if u in names {
      var k :| 0 <= k < |names| && names[k] == u;
      assert ops[k + 1] == Unknown(u);
    }
  }

  lemma {:induction false} LargestDegree(es: seq<Expr>, u: nat, d: nat)
    requires forall k :: 0 <= k < |es| ==> Degree(es[k], u) <= d
    ensures MaxDegree(es, u) <= d
  {
    if es != [] {
      LargestDegree(es[1..], u, d);
    }
  }

  lemma OffsetForms(c: int, names: seq<nat>, s: seq<Expr>, u: nat)
    requires |s| == |names| + 1 && Independent(names, s) && u in names
    ensures Plain(RowMajorOffset(Const(c), names, s), u) && Degree(RowMajorOffset(Const(c), names, s), u) <= 1
  {
    var ts := Terms(Const(c), names, s);
    forall k | 0 <= k < |ts|
      ensures Plain(ts[k], u) && Degree(ts[k], u) <= 1
    {
      assert forall i, j :: 0 <= i < j < |names[k..]| ==> names[k..][i] != names[k..][j];
      TermDegree(c, names[k..], s[k], u);
      TermIsPlain(c, names[k..], s[k], u);
    }
    LargestDegree(ts, u, 1);
  }

  lemma OffsetIsMultiple(c: int, names: seq<nat>, s: seq<Expr>)
    requires |s| == |names| + 1 && c != 0
    ensures MultipleOf(RowMajorOffset(Const(c), names, s), Const(c), RowMajorOffset(One, names, s))
  {
    var ts, qs := Terms(Const(c), names, s), Terms(One, names, s);
    forall k | 0 <= k < |ts|
      ensures MultipleOf(ts[k], Const(c), qs[k])
    {
      var ops := [Const(c)] + Unknowns(names[k..]) + [s[k]];
      assert ts[k] == Mul(ops) && qs[k].ops == [One] + Unknowns(names[k..]) + [s[k]] == ops[0 := One];
      assert MultipleOf(ops[0], Const(c), qs[k].ops[0]) && qs[k].ops == ops[0 := qs[k].ops[0]];
    }
  }

  lemma OffsetIsBuilt(c: int, names: seq<nat>, s: seq<Expr>)
    requires |s| == |names| + 1 && c != 0 && Independent(names, s)
    ensures AllAdmissible(RowMajorOffset(Const(c), names, s), Unknowns(names) + [Const(c)])
    ensures BuiltFrom(RowMajorOffset(Const(c), names, s), Unknowns(names) + [Const(c)], s, RowMajorOffset(One, names, s))
  {
    var E, Sizes := RowMajorOffset(Const(c), names, s), Unknowns(names) + [Const(c)];
    OffsetIsMultiple(c, names, s);
    forall v ensures Eval(RowMajorOffset(One, names, s), v) == Linearized(s, Sizes, v) {
      IndexValue(names, s, Const(c), v);
    }
    forall j | 0 <= j < |names|
      ensures Plain(E, Sizes[j].name) && Degree(E, Sizes[j].name) <= 1
    {
      assert names[j] in names;
      OffsetForms(c, names, s, names[j]);
    }
  }

  /** Round trip: the subscripts of any row-major access with elements of c bytes come back, with their values,
      from its byte offset and its sizes. */
  method DelinearizeRowMajor(SE: ScalarEvolution, c: int, names: seq<nat>, s: seq<Expr>) returns (subscripts: seq<Expr>)
    requires Trusted(SE) && Canonical(SE) && |s| == |names| + 1 && c != 0 && Independent(names, s)
    ensures |subscripts| == |s|
    ensures forall k, v: Valuation :: 0 <= k < |s| ==> Cong(Eval(subscripts[k], v), Eval(s[k], v), SE.modulus)
  {
    var E, Sizes := RowMajorOffset(Const(c), names, s), Unknowns(names) + [Const(c)];
    OffsetIsBuilt(c, names, s);
    var sizes;
    ghost var dropped;
    subscripts, sizes, dropped := ComputeAccessFunctions(SE, E, Sizes);
    assert forall k :: 0 <= k < |s| ==> SameValue(SE.modulus, subscripts[k], s[k]);
  }

  // ----- sums and products over a denominator -----

  function Times(D: Expr, cofactors: seq<Expr>): (es: seq<Expr>)
    ensures |es| == |cofactors| && forall k :: 0 <= k < |es| ==> es[k] == Mul([D, cofactors[k]])
  {
    seq(|cofactors|, k requires 0 <= k < |cofactors| => Mul([D, cofactors[k]]))
  }

  lemma {:induction false} SumOfConcat(a: seq<Expr>, b: seq<Expr>, v: Valuation)
    ensures Sum(a + b, v) == Sum(a, v) + Sum(b, v)
  {
    if a == [] {
      assert a + b == b;
    } else {
      assert (a + b)[1..] == a[1..] + b;
      SumOfConcat(a[1..], b, v);
    }
  }

  lemma {:induction false} TimesOne(cofactors: seq<Expr>, v: Valuation)
    ensures Sum(Times(One, cofactors), v) == Sum(cofactors, v)
  {
    if cofactors != [] {
      assert Times(One, cofactors)[1..] == Times(One, cofactors[1..]);
      var pair := [One, cofactors[0]];
      assert pair[0] == One && pair[1..] == [cofactors[0]];
      SingleOperand(cofactors[0]);
      assert Eval(Mul(pair), v) == Eval(One, v) * Product([cofactors[0]], v) == Eval(cofactors[0], v);
      assert Times(One, cofactors)[0] == Mul(pair);
      TimesOne(cofactors[1..], v);
    }
  }

  lemma SumIsWritten(D: Expr, cofactors: seq<Expr>, rests: seq<Expr>)
    requires (D.Const? && D != One) || D.Unknown?
    requires forall k :: 0 <= k < |rests| ==> rests[k].Unknown? && rests[k] != D
    ensures Written(Add(Times(D, cofactors) + rests), D, Add(Times(One, cofactors) + Zeros(|rests|)), Add(Zeros(|cofactors|) + rests))
  {
    var ops, qs, rs := Times(D, cofactors) + rests, Times(One, cofactors) + Zeros(|rests|), Zeros(|cofactors|) + rests;
    forall k | 0 <= k < |ops|
      ensures Written(ops[k], D, qs[k], rs[k])
    {
      if k < |cofactors| {
        assert ops[k].ops[0] == D && qs[k].ops[0] == One;
        assert MultipleOf(ops[k].ops[0], D, qs[k].ops[0]) && qs[k].ops == ops[k].ops[0 := qs[k].ops[0]];
        assert MultipleOf(ops[k], D, qs[k]);
      } else {
        assert ops[k] == rests[k - |cofactors|] && IsRest(ops[k], D);
      }
    }
  }

  /** A sum of multiples of a constant or an unknown, and of other unknowns: the quotient is the sum of the
      cofactors, the remainder the sum of the others. */
  method DivideSum(SE: ScalarEvolution, D: Expr, cofactors: seq<Expr>, rests: seq<Expr>) returns (Q: Expr, R: Expr)
    requires Trusted(SE) && Canonical(SE) && ((D.Const? && D != One) || D.Unknown?)
    requires Admissible(Add(Times(D, cofactors) + rests), D)
    requires forall k :: 0 <= k < |rests| ==> rests[k].Unknown? && rests[k] != D
    ensures forall v: Valuation :: Cong(Eval(Q, v), Sum(cofactors, v), SE.modulus) && Cong(Eval(R, v), Sum(rests, v), SE.modulus)
  {
    Q, R := Divide(SE, Add(Times(D, cofactors) + rests), D);
    SumFound(SE.modulus, D, cofactors, rests, Q, R);
  }

  lemma SumFound(m: nat, D: Expr, cofactors: seq<Expr>, rests: seq<Expr>, Q: Expr, R: Expr)
    requires (D.Const? && D != One) || D.Unknown?
    requires forall k :: 0 <= k < |rests| ==> rests[k].Unknown? && rests[k] != D
    requires Finds(m, Add(Times(D, cofactors) + rests), D, Q, R)
    ensures forall v: Valuation :: Cong(Eval(Q, v), Sum(cofactors, v), m) && Cong(Eval(R, v), Sum(rests, v), m)
  {
    var q, r := Add(Times(One, cofactors) + Zeros(|rests|)), Add(Zeros(|cofactors|) + rests);
    SumIsWritten(D, cofactors, rests);
    assert SameValue(m, Q, q) && SameValue(m, R, r);
    forall v: Valuation
      ensures Eval(q, v) == Sum(cofactors, v) && Eval(r, v) == Sum(rests, v)
    {
      TimesOne(cofactors, v);
      ZerosAddNothing(Zeros(|rests|), v);
      ZerosAddNothing(Zeros(|cofactors|), v);
      SumOfConcat(Times(One, cofactors), Zeros(|rests|), v);
      SumOfConcat(Zeros(|cofactors|), rests, v);
    }
  }

  /** A product over a product of unknowns among its operands leaves nothing. */
  method DivideProduct(SE: ScalarEvolution, names: seq<nat>, e: Expr) returns (Q: Expr, R: Expr)
    requires Trusted(SE) && Canonical(SE) && Independent(names, [e])
    ensures R == Zero
    ensures forall v: Valuation :: Cong(Product(Unknowns(names), v) * Eval(e, v), Eval(Q, v) * Product(Unknowns(names), v), SE.modulus)
  {
    var N, D := Mul(Unknowns(names) + [e]), Mul(Unknowns(names));
    FactorsAmongOperands(names, e);
    Q, R := Divide(SE, N, D);
    forall v: Valuation
      ensures Cong(Product(Unknowns(names), v) * Eval(e, v), Eval(Q, v) * Product(Unknowns(names), v), SE.modulus)
    {
      ProductAppend(Unknowns(names), e, v);
      assert Divided(Eval(N, v), Eval(D, v), Eval(Q, v), Eval(R, v), SE.modulus);
    }
  }

  lemma {:induction false} EachAdmissible(N: Expr, names: seq<nat>)
    requires forall j :: 0 <= j < |names| ==> Degree(N, names[j]) <= 1
    ensures AdmissibleAll(N, Unknowns(names))
  {
    if names != [] {
      assert Unknowns(names)[1..] == Unknowns(names[1..]);
      EachAdmissible(N, names[1..]);
    }
  }

  lemma FactorsAmongOperands(names: seq<nat>, e: Expr)
    requires Independent(names, [e])
    ensures var N := Mul(Unknowns(names) + [e]);
            FactorsFound(N, Unknowns(names)) && Admissible(N, Mul(Unknowns(names)))
  {
    var ops := Unknowns(names) + [e];
    var N := Mul(ops);
    forall j | 0 <= j < |names|
      ensures Degree(N, names[j]) <= 1 && IsMultiple(N, Unknown(names[j]))
    {
      assert [e][0] == e && Degree([e][0], names[j]) == 0;
      DegreeOfUnknowns(names, names[j]);
      DegreeOfConcat(Unknowns(names), [e], names[j]);
      SingleOperand(e);
      assert IsMultiple(ops[j], Unknown(names[j]));
    }
    EachAdmissible(N, names);
  }

  // ----- a builder that keeps forms -----

  predicate AllZeros(es: seq<Expr>)
  {
    forall k :: 0 <= k < |es| ==> es[k] == Zero
  }

  /** It folds zeros and differences of equal expressions, and nothing else. */
  function ZeroFolding(m: nat): ScalarEvolution
  {
    PlainEvolution(m).(
      getAdd := es => if AllZeros(es) then Zero else Add(es),
      getMinus := (a, b) => if a == b then Zero else Add([a, Mul([Const(-1), b])]),
      getAddRec := (a, b, l: nat) => if a == Zero && b == Zero then Zero else AddRec(a, b, l))
  }

  lemma {:induction false} SubstituteNothing(e: Expr, u: nat, c: int)
    requires Degree(e, u) == 0
    ensures Substitute(e, u, c) == e
    decreases e, 0
  {
    match e
    case Const(_) =>
    case Unknown(_) =>
    case Add(ops) => SubstituteNowhere(ops, u, c);
    case Mul(ops) => SubstituteNowhere(ops, u, c);
    case AddRec(start, step, _) =>
      SubstituteNothing(start, u, c);
      SubstituteNothing(step, u, c);
  }

  lemma {:induction false} SubstituteNowhere(es: seq<Expr>, u: nat, c: int)
    ensures MaxDegree(es, u) == 0 || SumDegree(es, u) == 0 ==> SubstituteAll(es, u, c) == es
    decreases es
  {
    if es != [] && (MaxDegree(es, u) == 0 || SumDegree(es, u) == 0) {
      SubstituteNothing(es[0], u, c);
      SubstituteNowhere(es[1..], u, c);
    }
  }

  lemma {:induction false} SubstitutedOperand(es: seq<Expr>, u: nat, c: int, k: nat)
    requires k < |es|
    ensures |SubstituteAll(es, u, c)| == |es| && SubstituteAll(es, u, c)[k] == Substitute(es[k], u, c)
  {
    if k > 0 {
      SubstitutedOperand(es[1..], u, c, k - 1);
    } else if |es| > 1 {
      SubstitutedOperand(es[1..], u, c, 0);
    }
  }

  lemma {:induction false} SubstituteKeepsMultiple(e: Expr, u: nat, c: int, w: nat)
    requires w != u && IsMultiple(e, Unknown(w))
    ensures IsMultiple(Substitute(e, u, c), Unknown(w))
  {
    match e
    case Const(_) =>
    case Unknown(_) =>
    case Add(ops) =>
      var qs := SubstituteAll(ops, u, c);
      if ops != [] {
        SubstitutedOperand(ops, u, c, 0);
      }
      forall k | 0 <= k < |qs| ensures IsMultiple(qs[k], Unknown(w)) {
        SubstitutedOperand(ops, u, c, k);
        SubstituteKeepsMultiple(ops[k], u, c, w);
      }
    case Mul(ops) =>
      var k :| 0 <= k < |ops| && IsMultiple(ops[k], Unknown(w));
      SubstitutedOperand(ops, u, c, k);
      SubstituteKeepsMultiple(ops[k], u, c, w);
    case AddRec(start, step, _) =>
      SubstituteKeepsMultiple(start, u, c, w);
      SubstituteKeepsMultiple(step, u, c, w);
  }

  lemma {:induction false} SubstituteKeepsPlain(e: Expr, u: nat, c: int, w: nat)
    requires w != u && Plain(e, w)
    ensures Plain(Substitute(e, u, c), w)
  {
    match e
    case Const(_) =>
    case Unknown(_) =>
    case Add(ops) =>
      var qs := SubstituteAll(ops, u, c);
      if ops != [] {
        SubstitutedOperand(ops, u, c, 0);
      }
      forall k | 0 <= k < |qs| ensures Plain(qs[k], w) {
        SubstitutedOperand(ops, u, c, k);
        SubstituteKeepsPlain(ops[k], u, c, w);
      }
    case Mul(ops) =>
      if Degree(e, w) == 0 {
        SubstituteDegree(e, u, c, w);
      } else {
        var k :| 0 <= k < |ops| && ops[k] == Unknown(w);
        SubstitutedOperand(ops, u, c, k);
      }
    case AddRec(start, step, _) =>
      SubstituteKeepsPlain(start, u, c, w);
      SubstituteKeepsPlain(step, u, c, w);
  }

  lemma ZeroFoldingDifference(m: nat, e: Expr, u: nat, diff: Expr)
    requires Simplified(ZeroFolding(m), e, u, diff)
    ensures diff == Zero
  {
    var rest := ZeroFolding(m).rewrite(e, u, 0);
    if e != rest {
      PlainMinus(m, e, rest);
    }
  }

  lemma ZeroFoldingIsCanonical(m: nat)
    ensures Canonical(ZeroFolding(m))
  {
    var SE := ZeroFolding(m);
    forall e, u {:trigger SE.rewrite(e, u, 0)} | Degree(e, u) == 0
      ensures SE.rewrite(e, u, 0) == e
    {
      SubstituteNothing(e, u, 0);
    }
    assert FoldsZeros(SE);
    ZeroFoldingKeepsMultiples(m);
    ZeroFoldingKeepsPlain(m);
  }

  lemma ZeroFoldingKeepsMultiples(m: nat)
    ensures KeepsMultiples(ZeroFolding(m))
  {
    var SE := ZeroFolding(m);
    forall e, u: nat, c, w: nat {:trigger IsMultiple(SE.rewrite(e, u, c), Unknown(w))} | w != u && IsMultiple(e, Unknown(w))
      ensures IsMultiple(SE.rewrite(e, u, c), Unknown(w))
    {
      SubstituteKeepsMultiple(e, u, c, w);
    }
    forall e, u: nat, diff, w: nat {:trigger Simplified(SE, e, u, diff), IsMultiple(diff, Unknown(w))} | Simplified(SE, e, u, diff)
      ensures IsMultiple(diff, Unknown(w))
    {
      ZeroFoldingDifference(m, e, u, diff);
    }
  }

  lemma ZeroFoldingKeepsPlain(m: nat)
    ensures KeepsPlain(ZeroFolding(m))
  {
    var SE := ZeroFolding(m);
    forall e, u: nat, c, w: nat {:trigger Plain(SE.rewrite(e, u, c), w)} | w != u && Plain(e, w)
      ensures Plain(SE.rewrite(e, u, c), w)
    {
      SubstituteKeepsPlain(e, u, c, w);
    }
    forall e, u: nat, diff, w: nat {:trigger Simplified(SE, e, u, diff), Plain(diff, w)} | Simplified(SE, e, u, diff)
      ensures Plain(diff, w)
    {
      ZeroFoldingDifference(m, e, u, diff);
    }
  }

  /** The assumptions on the builder can be met together, in every modulus. */
  lemma ZeroFoldingIsTrusted(m: nat)
    ensures Trusted(ZeroFolding(m)) && Canonical(ZeroFolding(m)) && ZeroFolding(m).modulus == m
  {
    ZeroFoldingIsCanonical(m);
    ZeroFoldingKeepsValues(m);
    ZeroFoldingKeepsDegrees(m);
    var SE := ZeroFolding(m);
    forall e, u: nat {:trigger SE.getMinus(e, SE.rewrite(e, u, 0))} | Size(SE.getMinus(e, SE.rewrite(e, u, 0))) <= Size(e)
      ensures SE.rewrite(SE.getMinus(e, SE.rewrite(e, u, 0)), u, 0) == Zero
    {
      ZeroFoldingDifference(m, e, u, SE.getMinus(e, SE.rewrite(e, u, 0)));
    }
  }

  lemma ZeroFoldingValues(m: nat, v: Valuation)
    ensures forall es :: Eval(ZeroFolding(m).getAdd(es), v) == Sum(es, v)
    ensures forall a, b :: Eval(ZeroFolding(m).getMinus(a, b), v) == Eval(a, v) - Eval(b, v)
    ensures forall a, b, l :: Eval(ZeroFolding(m).getAddRec(a, b, l), v) == Eval(a, v) + v.iteration(l) * Eval(b, v)
  {
    forall es ensures Eval(ZeroFolding(m).getAdd(es), v) == Sum(es, v) {
      if AllZeros(es) {
        ZerosAddNothing(es, v);
      }
    }
    forall a, b ensures Eval(ZeroFolding(m).getMinus(a, b), v) == Eval(a, v) - Eval(b, v) {
      if a != b {
        PlainMinus(m, a, b);
      }
    }
    forall a, b, l: nat ensures Eval(ZeroFolding(m).getAddRec(a, b, l), v) == Eval(a, v) + v.iteration(l) * Eval(b, v) {
      assert v.iteration(l) * 0 == 0;
    }
  }

  lemma ZeroFoldingKeepsValues(m: nat)
    ensures KeepsValues(ZeroFolding(m))
  {
    var SE := ZeroFolding(m);
    forall es, v {:trigger Eval(SE.getAdd(es), v)} | true
      ensures Eval(SE.getAdd(es), v) == Sum(es, v)
    {
      ZeroFoldingValues(m, v);
    }
    forall a, b, v {:trigger Eval(SE.getMinus(a, b), v)} | true
      ensures Eval(SE.getMinus(a, b), v) == Eval(a, v) - Eval(b, v)
    {
      ZeroFoldingValues(m, v);
    }
    forall a, b, l: nat, v {:trigger Eval(SE.getAddRec(a, b, l), v)} | true
      ensures Eval(SE.getAddRec(a, b, l), v) == Eval(a, v) + v.iteration(l) * Eval(b, v)
    {
      ZeroFoldingValues(m, v);
    }
    forall e, u: nat, c, v {:trigger Eval(SE.rewrite(e, u, c), v)} | true
      ensures Eval(SE.rewrite(e, u, c), v) == Eval(e, At(v, u, c))
    {
      SubstituteValue(e, u, c, v);
    }
  }

  lemma ZeroFoldingKeepsDegrees(m: nat)
    ensures KeepsDegrees(ZeroFolding(m))
  {
    var SE := ZeroFolding(m);
    forall a, b, u: nat {:trigger Degree(SE.getMinus(a, b), u)} | true
      ensures Degree(SE.getMinus(a, b), u) <= Max(Degree(a, u), Degree(b, u))
    {
      if a != b {
        PlainMinus(m, a, b);
      }
    }
    forall e, n: nat, c, u: nat {:trigger Degree(SE.rewrite(e, n, c), u)} | true
      ensures Degree(SE.rewrite(e, n, c), u) <= Degree(e, u)
    {
      SubstituteDegree(e, n, c, u);
    }
  }
}
