/** The comparison at the header of a counted loop, and when it bounds the values of the counter. */
module HeaderBounds {
  import opened MachineInt

  /** The header comparison of the loop governing a subscript. */
  datatype HeaderTest = HeaderTest(comparison: Predicate, exitOnFalse: bool, conditionIsLHS: bool)

  /** Non-strict comparisons are replaced by strict ones with the operands exchanged. */
  function Normalized(t: HeaderTest): HeaderTest
  {
    if t.comparison == ULE || t.comparison == SLE then HeaderTest(UGT, t.exitOnFalse, !t.conditionIsLHS)
    else if t.comparison == UGE || t.comparison == SGE then HeaderTest(ULT, t.exitOnFalse, !t.conditionIsLHS)
    else t
  }

  predicate UpperBounded(t: HeaderTest)
  {
    var n := Normalized(t);
    || (!n.exitOnFalse && n.comparison == EQ) || (n.exitOnFalse && n.comparison == NE)
    || (n.exitOnFalse && !n.conditionIsLHS && (n.comparison == ULT || n.comparison == SLT))
    || (n.exitOnFalse && n.conditionIsLHS && (n.comparison == UGT || n.comparison == SGT))
  }

  /** Read off the comparison as it is written: equalities that exit when they hold, inequalities that exit when
      they do not, and, exiting when they do not hold, the variable below or at the bound, written either way. */
  lemma UpperBoundedIff(t: HeaderTest)
    ensures UpperBounded(t) <==>
            || (t.comparison == EQ && !t.exitOnFalse)
            || (t.comparison == NE && t.exitOnFalse)
            || (t.exitOnFalse && !t.conditionIsLHS && t.comparison in {ULT, ULE, SLT, SLE})
            || (t.exitOnFalse && t.conditionIsLHS && t.comparison in {UGT, UGE, SGT, SGE})
  {
  }

  /** The loop goes on: the comparison has the value that does not exit. */
  predicate Stays(t: HeaderTest, iv: int, bound: int, m: int)
  {
    t.exitOnFalse == if t.conditionIsLHS then Compare(t.comparison, bound, iv, m) else Compare(t.comparison, iv, bound, m)
  }

  datatype Kind = Strict | Loose | Equality

  function KindOf(t: HeaderTest): Kind
  {
    match t.comparison
    case EQ => Equality
    case NE => Equality
    case UGE => Loose
    case ULE => Loose
    case SGE => Loose
    case SLE => Loose
    case UGT => Strict
    case ULT => Strict
    case SGT => Strict
    case SLT => Strict
  }

  /** How the comparison reads a value. */
  function View(t: HeaderTest, x: int, m: int): int
  {
    match t.comparison
    case SGT => Signed(x, m)
    case SGE => Signed(x, m)
    case SLT => Signed(x, m)
    case SLE => Signed(x, m)
    case _ => x
  }

  predicate Below(kind: Kind, x: int, n: int)
  {
    match kind
    case Strict => x < n
    case Loose => x <= n
    case Equality => x != n
  }

  /** What an accepted comparison lets through: exchanging the operands of a non-strict comparison does
      not make it strict. */
  lemma AcceptedTestMeans(t: HeaderTest, iv: int, bound: int, m: int)
    requires UpperBounded(t)
    ensures Stays(t, iv, bound, m) <==> Below(KindOf(t), View(t, iv, m), View(t, bound, m))
  {
  }

  ghost predicate Entered(kind: Kind, start: int, step: int, n: int, k: nat)
  {
    forall j: nat :: j <= k ==> Below(kind, start + j * step, n)
  }

  /** Every iteration entered has its subscript in [0, n). */
  ghost predicate InBounds(kind: Kind, start: int, step: int, n: int)
  {
    forall k: nat {:trigger Entered(kind, start, step, n, k)} :: Entered(kind, start, step, n, k) ==> 0 <= start + k * step < n
  }

  /** Whether the values start, start + step, ... meet n. */
  predicate Meets(start: int, step: int, n: int)
    requires step >= 0
  {
    start <= n && if step == 0 then start == n else (n - start) % step == 0
  }

  /** The accepted subscript is in bounds exactly when it starts there or the loop is not entered, and, for
      a non-strict comparison, it skips the size, or, for an equality, it does not. */
  predicate BoundIsReal(kind: Kind, start: int, step: int, n: int)
    requires step >= 0
  {
    match kind
    case Strict => start >= n || start >= 0
    case Loose => start > n || (start >= 0 && !Meets(start, step, n))
    case Equality => start == n || (0 <= start < n && (step == 0 || Meets(start, step, n)))
  }

  lemma StepsGrow(start: int, step: int, j: nat, k: nat)
    requires step >= 0 && j <= k
    ensures start + j * step <= start + k * step
  {
    assert (k - j) * step >= 0;
    assert k * step - j * step == (k - j) * step;
  }

  lemma MeetsAt(start: int, step: int, n: int) returns (k: nat)
    requires step >= 0 && Meets(start, step, n)
    ensures start + k * step == n
  {
    if step == 0 {
      k := 0;
    } else {
      k := (n - start) / step;
      assert n - start == step * ((n - start) / step) + (n - start) % step;
      assert step * k == k * step;
    }
  }

  lemma MeetsIff(start: int, step: int, n: int, k: nat)
    requires step >= 0 && start + k * step == n
    ensures Meets(start, step, n)
  {
    if step > 0 {
      DivModUnique(n - start, step, k, 0);
      assert k * step >= 0;
    } else {
      assert k * step == 0;
    }
  }

  lemma StrictBound(start: int, step: int, n: int)
    requires step >= 0
    ensures InBounds(Strict, start, step, n) <==> BoundIsReal(Strict, start, step, n)
  {
    if BoundIsReal(Strict, start, step, n) {
      forall k: nat {:trigger Entered(Strict, start, step, n, k)} | Entered(Strict, start, step, n, k)
        ensures 0 <= start + k * step < n
      {
        assert Below(Strict, start + 0 * step, n) && Below(Strict, start + k * step, n);
        StepsGrow(start, step, 0, k);
      }
    } else {
      assert 0 * step == 0;
      assert Entered(Strict, start, step, n, 0);
    }
  }

  lemma LooseBound(start: int, step: int, n: int)
    requires step >= 0
    ensures InBounds(Loose, start, step, n) <==> BoundIsReal(Loose, start, step, n)
  {
    if BoundIsReal(Loose, start, step, n) {
      forall k: nat {:trigger Entered(Loose, start, step, n, k)} | Entered(Loose, start, step, n, k)
        ensures 0 <= start + k * step < n
      {
        assert Below(Loose, start + 0 * step, n) && Below(Loose, start + k * step, n);
        StepsGrow(start, step, 0, k);
        if start + k * step == n {
          MeetsIff(start, step, n, k);
        }
      }
    } else if start < 0 {
      assert 0 * step == 0;
      assert Entered(Loose, start, step, n, 0);
    } else {
      var k := MeetsAt(start, step, n);
      forall j: nat | j <= k ensures Below(Loose, start + j * step, n) {
        StepsGrow(start, step, j, k);
      }
      assert Entered(Loose, start, step, n, k);
    }
  }

  lemma EqualityBound(start: int, step: int, n: int)
    requires step >= 0
    ensures InBounds(Equality, start, step, n) <==> BoundIsReal(Equality, start, step, n)
  {
    assert 0 * step == 0;
    if BoundIsReal(Equality, start, step, n) {
      forall k: nat {:trigger Entered(Equality, start, step, n, k)} | Entered(Equality, start, step, n, k)
        ensures 0 <= start + k * step < n
      {
        assert Below(Equality, start + 0 * step, n) && Below(Equality, start + k * step, n);
        StepsGrow(start, step, 0, k);
        if start < n && step > 0 {
          var end := MeetsAt(start, step, n);
          assert end <= k ==> Below(Equality, start + end * step, n);
          StepsGrow(start, step, k, end);
        } else {
          assert k * step == 0 || start == n;
        }
      }
    } else if start < 0 || start > n {
      assert Entered(Equality, start, step, n, 0);
    } else {
      NeverEquals(start, step, n);
    }
  }

  lemma NeverEquals(start: int, step: int, n: int)
    requires step > 0 && start < n && !Meets(start, step, n)
    ensures !InBounds(Equality, start, step, n)
  {
    var k: nat := n - start;
    forall j: nat | j <= k ensures Below(Equality, start + j * step, n) {
      if start + j * step == n {
        MeetsIff(start, step, n, j);
      }
    }
    AtLeastFactor(step, k);
    assert step * k == k * step;
    assert Entered(Equality, start, step, n, k);
  }

  lemma BoundIsRealIff(kind: Kind, start: int, step: int, n: int)
    requires step >= 0
    ensures InBounds(kind, start, step, n) <==> BoundIsReal(kind, start, step, n)
  {
    match kind
    case Strict => StrictBound(start, step, n);
    case Loose => LooseBound(start, step, n);
    case Equality => EqualityBound(start, step, n);
  }

  /** Read back from its machine word, the test compares the values themselves. */
  lemma AcceptedTestOfValues(t: HeaderTest, x: int, n: int, m: int)
    requires m > 0 && UpperBounded(t) && View(t, Wrap(x, m), m) == x && View(t, Wrap(n, m), m) == n
    ensures Stays(t, Wrap(x, m), Wrap(n, m), m) <==> Below(KindOf(t), x, n)
  {
    AcceptedTestMeans(t, Wrap(x, m), Wrap(n, m), m);
  }

  /** `for (i = 0; i <= n; ++i)` is accepted for an inner dimension of n elements, and reaches n. */
  lemma LooseTestIsAccepted(n: nat)
    ensures UpperBounded(HeaderTest(SLE, true, false)) && KindOf(HeaderTest(SLE, true, false)) == Loose
    ensures !InBounds(Loose, 0, 1, n)
  {
    BoundIsRealIff(Loose, 0, 1, n);
  }
}
