/** Reduction of a loop-carried variable: private copies, the generated reduction loop, and the
    equality of parallel and sequential execution. */
module ParallelReduction {
  import opened ChunkedIv
  import opened MachineInt
  import opened Options
  import opened ReducibleUpdates

  // ----- the reducing operators as commutative monoids -----

  predicate IsReducing(R: Op)
  {
    R == Add || R == Mul || R == Or || R == And
  }

  /** The true neutral element of a reducing operator at width w. */
  function Unit(w: nat, R: Op): (r: nat)
    requires w > 0
    ensures r < Pow2(w)
  {
    if R == Mul then 1 else if R == And then Pow2(w) - 1 else 0
  }

  lemma WrapMul(x: int, y: int, m: int)
    requires m > 0
    ensures Wrap(Wrap(x, m) * y, m) == Wrap(x * y, m)
  {
    var q, r := x / m, x % m;
    assert x == q * m + r;
    assert x * y == r * y + (q * y) * m;
    WrapShift(r * y, q * y, m);
  }

  lemma Associates(w: nat, R: Op, a: nat, b: nat, c: nat)
    requires IsReducing(R) && a < Pow2(w) && b < Pow2(w) && c < Pow2(w)
    ensures ApplyOp(w, R, ApplyOp(w, R, a, b), c) == ApplyOp(w, R, a, ApplyOp(w, R, b, c))
  {
    match R {
      case Add => AddAssociates(a, b, c, Pow2(w));
      case Mul => MulAssociates(a, b, c, Pow2(w));
      case Or => BitOrAssociates(a, b, c);
      case And => BitAndAssociates(a, b, c);
    }
  }

  lemma AddAssociates(a: int, b: int, c: int, m: int)
    requires m > 0
    ensures Wrap(Wrap(a + b, m) + c, m) == Wrap(a + Wrap(b + c, m), m)
  {
    BothWrapTotal(a, c, a + b, b + c, m);
  }

  lemma BothWrapTotal(a: int, c: int, left: int, right: int, m: int)
    requires m > 0 && left + c == a + right
    ensures Wrap(Wrap(left, m) + c, m) == Wrap(a + Wrap(right, m), m)
  {
    WrapAdd(left, c, m);
    WrapAddOnRight(a, right, m);
  }

  lemma WrapAddOnRight(a: int, y: int, m: int)
    requires m > 0
    ensures Wrap(a + Wrap(y, m), m) == Wrap(a + y, m)
  {
    WrapAdd(y, a, m);
    assert a + Wrap(y, m) == Wrap(y, m) + a;
  }

  lemma MulAssociates(a: int, b: int, c: int, m: int)
    requires m > 0
    ensures Wrap(Wrap(a * b, m) * c, m) == Wrap(a * Wrap(b * c, m), m)
  {
    WrapMul(a * b, c, m);
    WrapMul(b * c, a, m);
    assert (a * b) * c == (b * c) * a;
    assert Wrap(b * c, m) * a == a * Wrap(b * c, m);
  }

  lemma Commutes(w: nat, R: Op, a: nat, b: nat)
    requires IsReducing(R) && a < Pow2(w) && b < Pow2(w)
    ensures ApplyOp(w, R, a, b) == ApplyOp(w, R, b, a)
  {
    OperatorCommutes(w, R, a, b);
  }

  lemma UnitIsNeutral(w: nat, R: Op, a: nat)
    requires w > 0 && IsReducing(R) && a < Pow2(w)
    ensures ApplyOp(w, R, a, Unit(w, R)) == a && ApplyOp(w, R, Unit(w, R), a) == a
  {
    WrapInRange(a, Pow2(w));
    BitAndAllOnes(w, a);
    BitOrCommutes(a, 0);
    assert a * 1 == a && 1 * a == a;
    Commutes(w, R, a, Unit(w, R));
  }

  /** The table's identity is the neutral element, except for And above width 1. */
  lemma TableIdentity(w: nat, op: Op)
    requires w > 0 && op != Xor
    ensures OpIdentity(op) < Pow2(w)
    ensures OpIdentity(op) == Unit(w, IntegerReducingOperator(op).value) <==> op != And || w == 1
  {
    if w > 1 {
      assert Pow2(w) == 2 * Pow2(w - 1);
      assert Pow2(w - 1) == 2 * Pow2(w - 2);
    }
  }

  lemma SwapLast(w: nat, R: Op, a: nat, b: nat, c: nat)
    requires IsReducing(R) && a < Pow2(w) && b < Pow2(w) && c < Pow2(w)
    ensures ApplyOp(w, R, ApplyOp(w, R, a, b), c) == ApplyOp(w, R, ApplyOp(w, R, a, c), b)
  {
    Associates(w, R, a, b, c);
    Associates(w, R, a, c, b);
    Commutes(w, R, b, c);
  }

  // ----- products of values -----

  ghost predicate AllFit(w: nat, s: seq<nat>)
  {
    forall i :: 0 <= i < |s| ==> s[i] < Pow2(w)
  }

  ghost function Product(w: nat, R: Op, s: seq<nat>): (r: nat)
    requires w > 0 && AllFit(w, s)
    ensures r < Pow2(w)
  {
    if s == [] then Unit(w, R) else ApplyOp(w, R, Product(w, R, s[..|s| - 1]), s[|s| - 1])
  }

  /** Combining one factor with v combines the whole product with v. */
  lemma {:induction false} ProductUpdate(w: nat, R: Op, s: seq<nat>, i: nat, v: nat)
    requires w > 0 && IsReducing(R) && AllFit(w, s) && i < |s| && v < Pow2(w)
    ensures Product(w, R, s[i := ApplyOp(w, R, s[i], v)]) == ApplyOp(w, R, Product(w, R, s), v)
  {
    var front, last := s[..|s| - 1], s[|s| - 1];
    var t := s[i := ApplyOp(w, R, s[i], v)];
    if i == |s| - 1 {
      assert t[..|t| - 1] == front;
      Associates(w, R, Product(w, R, front), last, v);
    } else {
      ProductUpdate(w, R, front, i, v);
      assert t[..|t| - 1] == front[i := ApplyOp(w, R, front[i], v)];
      SwapLast(w, R, Product(w, R, front), v, last);
    }
  }

  // ----- what the loop does to the variable -----

  /** u is a run-time instance of the instruction s: same operator, variable in the same places. */
  predicate InstanceOf(u: Update, s: Update)
  {
    u.op == s.op && (u.lhs.Internal? <==> s.lhs.Internal?) && (u.rhs.Internal? <==> s.rhs.Internal?)
  }

  /** The arithmetic updates of a variable that passes the checks and uses itself once per update. */
  ghost predicate Reducible(instructions: seq<Update>)
  {
    instructions != [] && PairwiseReducible(instructions)
    && forall i :: 0 <= i < |instructions| ==> CombinesOnce(instructions[i]) && instructions[i].op != Xor
  }

  /** work[i] lists the updates executed, in order, by iteration i. */
  ghost predicate Performs(w: nat, instructions: seq<Update>, work: seq<seq<Update>>)
  {
    forall i, j :: 0 <= i < |work| && 0 <= j < |work[i]| ==>
      Fits(w, work[i][j]) && exists k :: 0 <= k < |instructions| && InstanceOf(work[i][j], instructions[k])
  }

  /** All updates combine the variable with R. */
  ghost predicate Combines(w: nat, R: Op, us: seq<Update>)
  {
    IsReducing(R) && forall j :: 0 <= j < |us| ==>
      Fits(w, us[j]) && Compatible(us[j], us[j]) && CombinesOnce(us[j]) && us[j].op != Xor
      && IntegerReducingOperator(us[j].op).value == R
  }

  ghost predicate AllCombine(w: nat, R: Op, work: seq<seq<Update>>)
  {
    forall i :: 0 <= i < |work| ==> Combines(w, R, work[i])
  }

  lemma ReducibleCombines(w: nat, instructions: seq<Update>, r: nat, work: seq<seq<Update>>)
    requires Reducible(instructions) && r < |instructions| && Performs(w, instructions, work)
    ensures AllCombine(w, IntegerReducingOperator(instructions[r].op).value, work)
  {
    forall i, j | 0 <= i < |work| && 0 <= j < |work[i]|
      ensures Compatible(work[i][j], work[i][j]) && CombinesOnce(work[i][j]) && work[i][j].op != Xor
      ensures IntegerReducingOperator(work[i][j].op) == IntegerReducingOperator(instructions[r].op)
    {
      var k :| 0 <= k < |instructions| && InstanceOf(work[i][j], instructions[k]);
      OneReducingOperator(instructions, k, r);
      assert Compatible(instructions[k], instructions[k]);
    }
  }

  function RunUpdates(w: nat, us: seq<Update>, x: nat): (r: nat)
    requires x < Pow2(w) && forall j :: 0 <= j < |us| ==> Fits(w, us[j])
    ensures r < Pow2(w)
  {
    if us == [] then x else Apply(w, us[|us| - 1], RunUpdates(w, us[..|us| - 1], x))
  }

  /** The sequential loop. */
  function RunAll(w: nat, work: seq<seq<Update>>, x: nat): (r: nat)
    requires x < Pow2(w) && forall i, j :: 0 <= i < |work| && 0 <= j < |work[i]| ==> Fits(w, work[i][j])
    ensures r < Pow2(w)
  {
    if work == [] then x else RunUpdates(w, work[|work| - 1], RunAll(w, work[..|work| - 1], x))
  }

  /** x := x + v, for a value v from outside. */
  predicate Adds(u: Update)
  {
    u.op == Add && u.lhs.Internal? && u.rhs.External?
  }

  function SumOfValues(us: seq<Update>): nat
    requires forall j :: 0 <= j < |us| ==> Adds(us[j])
  {
    if us == [] then 0 else
    assert Adds(us[|us| - 1]);
    SumOfValues(us[..|us| - 1]) + us[|us| - 1].rhs.value
  }

  function SumOfWork(work: seq<seq<Update>>): nat
    requires forall i, j :: 0 <= i < |work| && 0 <= j < |work[i]| ==> Adds(work[i][j])
  {
    if work == [] then 0 else SumOfWork(work[..|work| - 1]) + SumOfValues(work[|work| - 1])
  }

  lemma {:induction false} UpdatesAddUp(w: nat, us: seq<Update>, x: nat)
    requires x < Pow2(w) && forall j :: 0 <= j < |us| ==> Fits(w, us[j]) && Adds(us[j])
    ensures RunUpdates(w, us, x) == Wrap(x + SumOfValues(us), Pow2(w))
  {
    if us == [] {
      WrapInRange(x, Pow2(w));
    } else {
      var front, v := us[..|us| - 1], us[|us| - 1].rhs.value;
      UpdatesAddUp(w, front, x);
      WrapAdd(x + SumOfValues(front), v, Pow2(w));
    }
  }

  /** A loop of such additions computes the sum, in the arithmetic of its width. */
  lemma {:induction false} AdditionsAddUp(w: nat, work: seq<seq<Update>>, init: nat)
    requires init < Pow2(w) && forall i, j :: 0 <= i < |work| && 0 <= j < |work[i]| ==> Fits(w, work[i][j]) && Adds(work[i][j])
    ensures RunAll(w, work, init) == Wrap(init + SumOfWork(work), Pow2(w))
  {
    if work == [] {
      WrapInRange(init, Pow2(w));
    } else {
      var front, us := work[..|work| - 1], work[|work| - 1];
      AdditionsAddUp(w, front, init);
      UpdatesAddUp(w, us, RunAll(w, front, init));
      WrapAdd(init + SumOfWork(front), SumOfValues(us), Pow2(w));
    }
  }

  ghost function Effects(w: nat, us: seq<Update>): (s: seq<nat>)
    requires forall j :: 0 <= j < |us| ==> Fits(w, us[j])
    ensures |s| == |us| && AllFit(w, s)
  {
    seq(|us|, j requires 0 <= j < |us| => Effect(w, us[j]))
  }

  ghost function Total(w: nat, R: Op, us: seq<Update>): (r: nat)
    requires w > 0 && Combines(w, R, us)
    ensures r < Pow2(w)
  {
    Product(w, R, Effects(w, us))
  }

  /** A sequence of updates combines the variable with the product of their effects. */
  lemma {:induction false} RunIsTotal(w: nat, R: Op, us: seq<Update>, x: nat)
    requires w > 0 && Combines(w, R, us) && x < Pow2(w)
    ensures RunUpdates(w, us, x) == ApplyOp(w, R, x, Total(w, R, us))
  {
    if us == [] {
      UnitIsNeutral(w, R, x);
    } else {
      var front, last := us[..|us| - 1], us[|us| - 1];
      RunIsTotal(w, R, front, x);
      UpdateIsCombination(w, last, RunUpdates(w, front, x));
      assert Effects(w, us)[..|us| - 1] == Effects(w, front);
      Associates(w, R, x, Total(w, R, front), Effect(w, last));
    }
  }

  ghost function TotalOfAll(w: nat, R: Op, work: seq<seq<Update>>): (r: nat)
    requires w > 0 && AllCombine(w, R, work)
    ensures r < Pow2(w)
  {
    if work == [] then Unit(w, R)
    else ApplyOp(w, R, TotalOfAll(w, R, work[..|work| - 1]), Total(w, R, work[|work| - 1]))
  }

  lemma {:induction false} RunAllIsTotal(w: nat, R: Op, work: seq<seq<Update>>, x: nat)
    requires w > 0 && IsReducing(R) && AllCombine(w, R, work) && x < Pow2(w)
    ensures RunAll(w, work, x) == ApplyOp(w, R, x, TotalOfAll(w, R, work))
  {
    if work == [] {
      UnitIsNeutral(w, R, x);
    } else {
      var front, last := work[..|work| - 1], work[|work| - 1];
      RunAllIsTotal(w, R, front, x);
      RunIsTotal(w, R, last, RunAll(w, front, x));
      Associates(w, R, x, TotalOfAll(w, R, front), Total(w, R, last));
    }
  }

  // ----- private copies -----

  /** The private copy of core c after it ran its share of the iterations, in order. */
  function PrivateCopy(w: nat, work: seq<seq<Update>>, assign: seq<nat>, c: nat, start: nat): (r: nat)
    requires |assign| == |work| && start < Pow2(w)
    requires forall i, j :: 0 <= i < |work| && 0 <= j < |work[i]| ==> Fits(w, work[i][j])
    ensures r < Pow2(w)
  {
    if work == [] then start
    else
      var before := PrivateCopy(w, work[..|work| - 1], assign[..|work| - 1], c, start);
      if assign[|work| - 1] == c then RunUpdates(w, work[|work| - 1], before) else before
  }

  /** The product of each core's updates. */
  ghost function CoreTotals(w: nat, R: Op, work: seq<seq<Update>>, assign: seq<nat>, N: nat): (s: seq<nat>)
    requires w > 0 && AllCombine(w, R, work) && |assign| == |work| && forall i :: 0 <= i < |assign| ==> assign[i] < N
    ensures |s| == N && AllFit(w, s)
  {
    if work == [] then seq(N, i => Unit(w, R))
    else
      var before := CoreTotals(w, R, work[..|work| - 1], assign[..|work| - 1], N);
      var c := assign[|work| - 1];
      before[c := ApplyOp(w, R, before[c], Total(w, R, work[|work| - 1]))]
  }

  lemma {:induction false} CoreTotalsMultiply(w: nat, R: Op, work: seq<seq<Update>>, assign: seq<nat>, N: nat)
    requires w > 0 && IsReducing(R) && AllCombine(w, R, work) && |assign| == |work|
    requires forall i :: 0 <= i < |assign| ==> assign[i] < N
    ensures Product(w, R, CoreTotals(w, R, work, assign, N)) == TotalOfAll(w, R, work)
  {
    if work == [] {
      UnitsMultiply(w, R, N);
    } else {
      var front := work[..|work| - 1];
      var before := CoreTotals(w, R, front, assign[..|work| - 1], N);
      CoreTotalsMultiply(w, R, front, assign[..|work| - 1], N);
      ProductUpdate(w, R, before, assign[|work| - 1], Total(w, R, work[|work| - 1]));
    }
  }

  lemma {:induction false} UnitsMultiply(w: nat, R: Op, N: nat)
    requires w > 0 && IsReducing(R)
    ensures Product(w, R, seq(N, i => Unit(w, R))) == Unit(w, R)
  {
    if N > 0 {
      UnitsMultiply(w, R, N - 1);
      assert seq(N, i => Unit(w, R))[..N - 1] == seq(N - 1, i => Unit(w, R));
      UnitIsNeutral(w, R, Unit(w, R));
    }
  }

  lemma {:induction false} PrivateCopyIsTotal(w: nat, R: Op, work: seq<seq<Update>>, assign: seq<nat>, N: nat, c: nat, start: nat)
    requires w > 0 && IsReducing(R) && AllCombine(w, R, work) && |assign| == |work| && c < N && start < Pow2(w)
    requires forall i :: 0 <= i < |assign| ==> assign[i] < N
    ensures PrivateCopy(w, work, assign, c, start) == ApplyOp(w, R, start, CoreTotals(w, R, work, assign, N)[c])
  {
    if work == [] {
      UnitIsNeutral(w, R, start);
    } else {
      var front := work[..|work| - 1];
      var before := CoreTotals(w, R, front, assign[..|work| - 1], N);
      PrivateCopyIsTotal(w, R, front, assign[..|work| - 1], N, c, start);
      if assign[|work| - 1] == c {
        RunIsTotal(w, R, work[|work| - 1], PrivateCopy(w, front, assign[..|work| - 1], c, start));
        Associates(w, R, start, before[c], Total(w, R, work[|work| - 1]));
      }
    }
  }

  ghost function PrivateCopies(w: nat, work: seq<seq<Update>>, assign: seq<nat>, N: nat, start: nat): (s: seq<nat>)
    requires |assign| == |work| && start < Pow2(w)
    requires forall i, j :: 0 <= i < |work| && 0 <= j < |work[i]| ==> Fits(w, work[i][j])
    ensures |s| == N && AllFit(w, s)
  {
    seq(N, c requires 0 <= c < N => PrivateCopy(w, work, assign, c, start))
  }

  // ----- the generated reduction loop -----

  ghost function Reduce(w: nat, R: Op, init: nat, copies: seq<nat>): (r: nat)
    requires init < Pow2(w) && AllFit(w, copies)
    ensures r < Pow2(w)
  {
    if copies == [] then init else ApplyOp(w, R, Reduce(w, R, init, copies[..|copies| - 1]), copies[|copies| - 1])
  }

  /** A task of the parallel loop leaves its private copy at the start of its own cache line. */
  method StorePrivateCopy(memory: array<nat>, valuesInCacheLine: nat, taskInstance: nat, copy: nat)
    requires taskInstance * valuesInCacheLine < memory.Length
    modifies memory
    ensures memory[..] == old(memory[..])[taskInstance * valuesInCacheLine := copy]
  {
    var reduceIndAligned := taskInstance * valuesInCacheLine;
    memory[reduceIndAligned] := copy;
  }

  method LoadPrivateCopy(memory: array<nat>, valuesInCacheLine: nat, i: nat) returns (copy: nat)
    requires i * valuesInCacheLine < memory.Length
    ensures copy == memory[i * valuesInCacheLine]
  {
    var offset := i * valuesInCacheLine;
    copy := memory[offset];
  }

  lemma SlotInRange(valuesInCacheLine: nat, threads: nat, i: nat)
    requires i < threads && valuesInCacheLine > 0
    ensures i * valuesInCacheLine < threads * valuesInCacheLine
  {
    AtLeastFactor(threads - i, valuesInCacheLine);
    assert (threads - i) * valuesInCacheLine == threads * valuesInCacheLine - i * valuesInCacheLine;
  }

  /** Cache lines of different tasks are different. */
  lemma SlotsApart(valuesInCacheLine: nat, i: nat, j: nat)
    requires i != j && valuesInCacheLine > 0
    ensures i * valuesInCacheLine != j * valuesInCacheLine
  {
    if i < j {
      SlotInRange(valuesInCacheLine, j, i);
    } else {
      SlotInRange(valuesInCacheLine, i, j);
    }
  }

  /** Fold the private copies onto the initial value: whatever the tasks have left at the starts of their cache
      lines is what is folded, in the order of the tasks. The loop tests its condition at the end, so at least
      one copy is always folded. */
  method ReduceLiveOutVariables(w: nat, R: Op, initialValue: nat, memory: array<nat>, valuesInCacheLine: nat, threads: nat, ghost copies: seq<nat>)
    returns (accumulated: nat)
    requires threads > 0 && valuesInCacheLine > 0 && threads * valuesInCacheLine <= memory.Length
    requires initialValue < Pow2(w) && |copies| == threads && AllFit(w, copies)
    requires forall c: nat :: c < threads && c * valuesInCacheLine < memory.Length ==> memory[c * valuesInCacheLine] == copies[c]
    ensures accumulated == Reduce(w, R, initialValue, copies)
  {
    accumulated := initialValue;
    var iv := 0;
    var more := true;
    while more
      invariant 0 <= iv <= threads && accumulated < Pow2(w)
      invariant accumulated == Reduce(w, R, initialValue, copies[..iv])
      invariant more <==> iv < threads
      decreases threads - iv
    {
      SlotInRange(valuesInCacheLine, threads, iv);
      var privateCurrentCopy := LoadPrivateCopy(memory, valuesInCacheLine, iv);
      assert privateCurrentCopy == copies[iv];
      accumulated := ApplyOp(w, R, accumulated, privateCurrentCopy);
      assert copies[..iv + 1][..iv] == copies[..iv];
      iv := iv + 1;
      more := iv < threads;
    }
    assert copies[..threads] == copies;
  }

  lemma {:induction false} ReduceIsProduct(w: nat, R: Op, init: nat, copies: seq<nat>)
    requires w > 0 && IsReducing(R) && init < Pow2(w) && AllFit(w, copies)
    ensures Reduce(w, R, init, copies) == ApplyOp(w, R, init, Product(w, R, copies))
  {
    if copies == [] {
      UnitIsNeutral(w, R, init);
    } else {
      var front := copies[..|copies| - 1];
      ReduceIsProduct(w, R, init, front);
      Associates(w, R, init, Product(w, R, front), copies[|copies| - 1]);
    }
  }

  // ----- parallel equals sequential -----

  /** Whatever the split of the iterations over the cores, folding neutral-started private copies
      onto the initial value gives the sequential result. */
  lemma ReductionEqualsSequential(w: nat, instructions: seq<Update>, r: nat, work: seq<seq<Update>>, assign: seq<nat>, N: nat, init: nat)
    requires w > 0 && Reducible(instructions) && r < |instructions| && Performs(w, instructions, work)
    requires |assign| == |work| && (forall i :: 0 <= i < |assign| ==> assign[i] < N) && init < Pow2(w)
    requires instructions[r].op != And || w == 1
    ensures OpIdentity(instructions[r].op) < Pow2(w)
    ensures Reduce(w, IntegerReducingOperator(instructions[r].op).value, init,
                   PrivateCopies(w, work, assign, N, OpIdentity(instructions[r].op)))
            == RunAll(w, work, init)
  {
    var R, start := IntegerReducingOperator(instructions[r].op).value, OpIdentity(instructions[r].op);
    TableIdentity(w, instructions[r].op);
    ReducibleCombines(w, instructions, r, work);
    var totals := CoreTotals(w, R, work, assign, N);
    var copies := PrivateCopies(w, work, assign, N, start);
    forall c | 0 <= c < N ensures copies[c] == totals[c] {
      PrivateCopyIsTotal(w, R, work, assign, N, c, start);
      UnitIsNeutral(w, R, totals[c]);
    }
    assert copies == totals;
    CoreTotalsMultiply(w, R, work, assign, N);
    ReduceIsProduct(w, R, init, copies);
    RunAllIsTotal(w, R, work, init);
  }

  lemma {:induction false} MaskedProduct(w: nat, totals: seq<nat>, copies: seq<nat>)
    requires w > 0 && AllFit(w, totals) && |copies| == |totals| > 0
    requires forall c :: 0 <= c < |copies| ==> copies[c] == BitAnd(1, totals[c])
    ensures AllFit(w, copies)
    ensures Product(w, And, copies) == Product(w, And, totals) % 2
  {
    forall c | 0 <= c < |copies| ensures copies[c] < Pow2(w) {
      BitAndOne(totals[c]);
      assert Pow2(w) == 2 * Pow2(w - 1);
    }
    var n := |copies| - 1;
    BitAndOne(totals[n]);
    if n == 0 {
      assert copies[..0] == [] && totals[..0] == [];
      UnitIsNeutral(w, And, copies[0]);
      UnitIsNeutral(w, And, totals[0]);
    } else {
      MaskedProduct(w, totals[..n], copies[..n]);
      BitAndStep(Product(w, And, totals[..n]), totals[n]);
      BitAndStep(Product(w, And, copies[..n]), copies[n]);
    }
  }

  /** For And the private copies start at 1, so the reduction computes the lowest bit only: it agrees
      with the sequential result exactly when that result is 0 or 1. */
  lemma AndReducesToLowestBit(w: nat, instructions: seq<Update>, r: nat, work: seq<seq<Update>>, assign: seq<nat>, N: nat, init: nat)
    requires w > 0 && N > 0 && Reducible(instructions) && r < |instructions| && Performs(w, instructions, work)
    requires |assign| == |work| && (forall i :: 0 <= i < |assign| ==> assign[i] < N) && init < Pow2(w)
    requires instructions[r].op == And
    ensures OpIdentity(And) < Pow2(w)
    ensures Reduce(w, And, init, PrivateCopies(w, work, assign, N, OpIdentity(And))) == RunAll(w, work, init) % 2
    ensures Reduce(w, And, init, PrivateCopies(w, work, assign, N, OpIdentity(And))) == RunAll(w, work, init)
            <==> RunAll(w, work, init) < 2
  {
    TableIdentity(w, And);
    ReducibleCombines(w, instructions, r, work);
    var totals := CoreTotals(w, And, work, assign, N);
    var copies := PrivateCopies(w, work, assign, N, 1);
    forall c | 0 <= c < N ensures copies[c] == BitAnd(1, totals[c]) {
      PrivateCopyIsTotal(w, And, work, assign, N, c, 1);
    }
    MaskedProduct(w, totals, copies);
    CoreTotalsMultiply(w, And, work, assign, N);
    ReduceIsProduct(w, And, init, copies);
    RunAllIsTotal(w, And, work, init);
    var total := TotalOfAll(w, And, work);
    BitAndStep(init, total);
    BitAndOne(BitAnd(init, total));
    BitAndOne(total);
    BitAndAssociates(init, total, 1);
  }

  /** If these iterations are performed, by N cores as assigned, then the reduction gives the sequential value. */
  ghost predicate Agrees(w: nat, instructions: seq<Update>, op: Op, work: seq<seq<Update>>, assign: seq<nat>, N: nat, init: nat)
    requires op != Xor
  {
    OpIdentity(op) < Pow2(w) && init < Pow2(w) && Performs(w, instructions, work)
    && |assign| == |work| && (forall i :: 0 <= i < |assign| ==> assign[i] < N)
    ==> Reduce(w, IntegerReducingOperator(op).value, init, PrivateCopies(w, work, assign, N, OpIdentity(op))) == RunAll(w, work, init)
  }

  /** For a list of updates that passes the checks, with an operator whose table entry is neutral: parallel
      equals sequential for all iterations, splits and initial values if and only if every update uses
      the variable once or is a bitwise operator. */
  lemma ReductionCorrectIffUsedOnce(w: nat, instructions: seq<Update>, r: nat)
    requires w >= 2 && r < |instructions| && PairwiseReducible(instructions)
    requires instructions[r].op != Xor && instructions[r].op != And
    ensures (forall work, assign, N: nat, init: nat :: Agrees(w, instructions, instructions[r].op, work, assign, N, init))
            <==> forall i :: 0 <= i < |instructions| ==> CombinesOnce(instructions[i])
  {
    var op := instructions[r].op;
    forall i | 0 <= i < |instructions|
      ensures instructions[i].op != Xor
    {
      assert Compatible(instructions[i], instructions[r]);
    }
    if forall i :: 0 <= i < |instructions| ==> CombinesOnce(instructions[i]) {
      forall work, assign, N: nat, init: nat
        ensures Agrees(w, instructions, op, work, assign, N, init)
      {
        if OpIdentity(op) < Pow2(w) && init < Pow2(w) && Performs(w, instructions, work)
           && |assign| == |work| && (forall i :: 0 <= i < |assign| ==> assign[i] < N)
        {
          ReductionEqualsSequential(w, instructions, r, work, assign, N, init);
        }
      }
    } else {
      var i :| 0 <= i < |instructions| && !CombinesOnce(instructions[i]);
      assert Compatible(instructions[i], instructions[r]);
      OneReducingOperator(instructions, i, r);
      UsedTwiceDisagrees(w, instructions, i, op);
    }
  }

  /** x + x, in one iteration from 1, is 2; its private copy stays 0 and adds up to 1. In the same way
      x * x from 2 is 4, but its private copy stays 1. */
  lemma UsedTwiceDisagrees(w: nat, instructions: seq<Update>, i: nat, op: Op)
    requires w >= 2 && i < |instructions| && op != Xor && op != And
    requires Compatible(instructions[i], instructions[i]) && !CombinesOnce(instructions[i]) && instructions[i].op != Xor
    requires IntegerReducingOperator(op) == IntegerReducingOperator(instructions[i].op)
    requires OpIdentity(op) == OpIdentity(instructions[i].op)
    ensures !Agrees(w, instructions, op, [[instructions[i]]], [0], 1, if instructions[i].op == Add then 1 else 2)
  {
    var u := instructions[i];
    assert u.op == Add || u.op == Mul;
    var R, start, init: nat := IntegerReducingOperator(op).value, OpIdentity(op), if u.op == Add then 1 else 2;
    var work, assign: seq<nat> := [[u]], [0];
    SmallResidues(w, 1);
    assert init < Pow2(w) by {
      assert Pow2(w) == 2 * Pow2(w - 1) && Pow2(w - 1) == 2 * Pow2(w - 2);
    }
    assert InstanceOf(u, instructions[i]);
    assert Performs(w, instructions, work);
    OneIteration(w, u, assign, start, init, R);
  }

  lemma OneIteration(w: nat, u: Update, assign: seq<nat>, start: nat, init: nat, R: Op)
    requires Fits(w, u) && assign == [0] && start < Pow2(w) && init < Pow2(w)
    ensures Reduce(w, R, init, PrivateCopies(w, [[u]], assign, 1, start)) == ApplyOp(w, R, init, Apply(w, u, start))
    ensures RunAll(w, [[u]], init) == Apply(w, u, init)
  {
    OneRunAll(w, [u], init);
    OneRun(w, u, init);
    OnePrivateCopy(w, [u], assign, start);
    OneRun(w, u, start);
    OneCopy(w, R, init, PrivateCopies(w, [[u]], assign, 1, start));
  }

  lemma OneCopy(w: nat, R: Op, init: nat, copies: seq<nat>)
    requires init < Pow2(w) && AllFit(w, copies) && |copies| == 1
    ensures Reduce(w, R, init, copies) == ApplyOp(w, R, init, copies[0])
  {
    assert copies[..0] == [];
  }

  lemma OnePrivateCopy(w: nat, us: seq<Update>, assign: seq<nat>, start: nat)
    requires start < Pow2(w) && assign == [0] && forall j :: 0 <= j < |us| ==> Fits(w, us[j])
    ensures PrivateCopy(w, [us], assign, 0, start) == RunUpdates(w, us, start)
  {
    assert [us][..0] == [] && assign[..0] == [];
  }

  lemma OneRunAll(w: nat, us: seq<Update>, x: nat)
    requires x < Pow2(w) && forall j :: 0 <= j < |us| ==> Fits(w, us[j])
    ensures RunAll(w, [us], x) == RunUpdates(w, us, x)
  {
    assert [us][..0] == [];
  }

  lemma OneRun(w: nat, u: Update, x: nat)
    requires Fits(w, u) && x < Pow2(w)
    ensures RunUpdates(w, [u], x) == Apply(w, u, x)
  {
    assert [u][..0] == [];
  }

  /** For And the parallel value is right for all iterations and splits if and only if the initial value is
      0 or 1, which at width 1 it always is. */
  lemma AndCorrectIffInitialBit(w: nat, instructions: seq<Update>, r: nat, init: nat)
    requires w > 0 && Reducible(instructions) && r < |instructions| && instructions[r].op == And && init < Pow2(w)
    ensures (forall work, assign, N: nat :: Agrees(w, instructions, And, work, assign, N, init)) <==> init < 2
  {
    if init < 2 {
      forall work, assign, N: nat
        ensures Agrees(w, instructions, And, work, assign, N, init)
      {
        if Performs(w, instructions, work) && |assign| == |work| && (forall i :: 0 <= i < |assign| ==> assign[i] < N) {
          InitialBitAgrees(w, instructions, r, work, assign, N, init);
        }
      }
    } else {
      EmptyLoopMasks(w, instructions, init);
    }
  }

  lemma InitialBitAgrees(w: nat, instructions: seq<Update>, r: nat, work: seq<seq<Update>>, assign: seq<nat>, N: nat, init: nat)
    requires w > 0 && Reducible(instructions) && r < |instructions| && Performs(w, instructions, work)
    requires |assign| == |work| && (forall i :: 0 <= i < |assign| ==> assign[i] < N) && init < Pow2(w) && init < 2
    requires instructions[r].op == And
    ensures Agrees(w, instructions, And, work, assign, N, init)
  {
    TableIdentity(w, And);
    if N > 0 {
      AndReducesToLowestBit(w, instructions, r, work, assign, N, init);
      StaysBit(w, instructions, r, work, init);
    } else {
      NoCores(w, work, assign, init);
    }
  }

  lemma StaysBit(w: nat, instructions: seq<Update>, r: nat, work: seq<seq<Update>>, init: nat)
    requires w > 0 && Reducible(instructions) && r < |instructions| && Performs(w, instructions, work)
    requires init < Pow2(w) && init < 2 && instructions[r].op == And
    ensures RunAll(w, work, init) < 2
  {
    ReducibleCombines(w, instructions, r, work);
    RunAllIsTotal(w, And, work, init);
    BitAndOne(TotalOfAll(w, And, work));
  }

  lemma NoCores(w: nat, work: seq<seq<Update>>, assign: seq<nat>, init: nat)
    requires |assign| == |work| && (forall i :: 0 <= i < |assign| ==> assign[i] < 0)
    requires init < Pow2(w) && 1 < Pow2(w) && forall i, j :: 0 <= i < |work| && 0 <= j < |work[i]| ==> Fits(w, work[i][j])
    ensures Reduce(w, And, init, PrivateCopies(w, work, assign, 0, 1)) == RunAll(w, work, init)
  {
    if |assign| > 0 {
      SomeCore(assign, 0);
    }
    assert PrivateCopies(w, work, assign, 0, 1) == [];
  }

  lemma SomeCore(assign: seq<nat>, N: nat)
    requires |assign| > 0 && forall i :: 0 <= i < |assign| ==> assign[i] < N
    ensures N > 0
  {
    assert assign[0] < N;
  }

  /** Without any iteration the private copy is 1, and masks the initial value. */
  lemma EmptyLoopMasks(w: nat, instructions: seq<Update>, init: nat)
    requires w > 0 && 2 <= init < Pow2(w)
    ensures !Agrees(w, instructions, And, [], [], 1, init)
  {
    TableIdentity(w, And);
    var copies := PrivateCopies(w, [], [], 1, 1);
    assert copies[0] == PrivateCopy(w, [], [], 0, 1) == 1;
    OneCopy(w, And, init, copies);
    BitAndOne(init);
  }

  // ----- the DOALL loop -----

  /** What core c of N computes: it starts from the identity and runs its passes in order. */
  function RunPasses(w: nat, work: seq<seq<Update>>, N: nat, C: nat, c: nat, start: nat, K: nat): (r: nat)
    requires C > 0 && start < Pow2(w)
    requires forall i, j :: 0 <= i < |work| && 0 <= j < |work[i]| ==> Fits(w, work[i][j])
    requires forall k :: 0 <= k < K ==> Logical(c, k, N, C) < |work|
    ensures r < Pow2(w)
  {
    if K == 0 then start
    else RunUpdates(w, work[Logical(c, K - 1, N, C)], RunPasses(w, work, N, C, c, start, K - 1))
  }

  ghost function ChunkAssignment(T: nat, N: nat, C: nat): (s: seq<nat>)
    requires N > 0 && C > 0
    ensures |s| == T && forall j :: 0 <= j < T ==> s[j] == CoreOf(j, N, C) && s[j] < N
  {
    seq(T, j requires 0 <= j < T => CoreOf(j, N, C))
  }

  /** The passes of a core are its iterations of the chunked assignment, in order. */
  lemma {:induction false} PassesArePrivateCopy(w: nat, work: seq<seq<Update>>, N: nat, C: nat, c: nat, start: nat, n: nat) returns (k: nat)
    requires c < N && C > 0 && start < Pow2(w) && n <= |work|
    requires forall i, j :: 0 <= i < |work| && 0 <= j < |work[i]| ==> Fits(w, work[i][j])
    ensures Logical(c, k, N, C) >= n && (forall i :: 0 <= i < k ==> Logical(c, i, N, C) < n)
    ensures RunPasses(w, work, N, C, c, start, k) == PrivateCopy(w, work[..n], ChunkAssignment(n, N, C), c, start)
  {
    if n == 0 {
      k := 0;
    } else {
      k := PassesArePrivateCopy(w, work, N, C, c, start, n - 1);
      assert work[..n][..n - 1] == work[..n - 1];
      assert ChunkAssignment(n, N, C)[..n - 1] == ChunkAssignment(n - 1, N, C);
      NextOfCore(c, k, n - 1, N, C);
      if CoreOf(n - 1, N, C) == c {
        LogicalNext(c, k, N, C);
        k := k + 1;
      }
    }
  }

  /** The first pass at or after iteration n is at n exactly when n belongs to the core. */
  lemma NextOfCore(c: nat, k: nat, n: nat, N: nat, C: nat)
    requires c < N && C > 0
    requires Logical(c, k, N, C) >= n && forall i :: 0 <= i < k ==> Logical(c, i, N, C) < n
    ensures CoreOf(n, N, C) == c <==> Logical(c, k, N, C) == n
  {
    CoreOfLogical(c, k, N, C);
    if CoreOf(n, N, C) == c {
      LogicalOfCore(n, N, C);
      var p := PassOf(n, N, C);
      if k < p {
        LogicalNext(c, k, N, C);
        LogicalMonotone(c, k + 1, p, N, C);
      }
    }
  }

  /** What core c of the generated loop does: it leaves after K passes and not earlier, and pass k finds
      the IV value of iteration Logical(c, k) of the sequential loop, which has T iterations. */
  ghost predicate CoreRuns(lp: DoallLoop, T: nat, N: nat, C: nat, c: nat, K: nat)
    requires lp.half > 0 && N > 0 && C > 0
  {
    && CoreLeavesAfter(lp, N, C, c, K)
    && forall k: nat :: k < K ==>
         && !CoreLeavesAfter(lp, N, C, c, k)
         && AfterPasses(lp.start + c * C * lp.step, lp.step, (N - 1) * C * lp.step, C, lp.Modulus(), k).iv == lp.Iv(Logical(c, k, N, C))
         && Logical(c, k, N, C) < T
  }

  lemma CoreRunsUntilOvershoot(lp: DoallLoop, T: nat, N: nat, C: nat, c: nat)
    requires lp.Valid() && c < N && ChunkCounts(lp, N, C) && NoExitBefore(lp, T) && ExitsAt(lp, Overshoot(T, N, C, c))
    ensures CoreRuns(lp, T, N, C, c, FirstPass(T, N, C, c))
  {
    CoreLeaves(lp, T, N, C, c);
    CoreVisits(lp, N, C, c, T, FirstPass(T, N, C, c));
  }

  /** The private copies of the generated cores, when each runs up to its overshoot. */
  ghost function ChunkedCopies(w: nat, work: seq<seq<Update>>, N: nat, C: nat, start: nat): (s: seq<nat>)
    requires N > 0 && C > 0 && start < Pow2(w)
    requires forall i, j :: 0 <= i < |work| && 0 <= j < |work[i]| ==> Fits(w, work[i][j])
    requires forall c: nat, k: nat :: c < N && k < FirstPass(|work|, N, C, c) ==> Logical(c, k, N, C) < |work|
    ensures |s| == N && AllFit(w, s)
  {
    seq(N, c requires 0 <= c < N => RunPasses(w, work, N, C, c, start, FirstPass(|work|, N, C, c)))
  }

  lemma PassesBelow(T: nat, N: nat, C: nat)
    requires N > 0 && C > 0
    ensures forall c: nat, k: nat :: c < N && k < FirstPass(T, N, C, c) ==> Logical(c, k, N, C) < T
  {
    forall c: nat, k: nat | c < N && k < FirstPass(T, N, C, c)
      ensures Logical(c, k, N, C) < T
    {
      FirstPassReaches(T, N, C, c);
      LogicalMonotone(c, k, FirstPass(T, N, C, c) - 1, N, C);
    }
  }

  lemma ChunkedCopiesArePrivate(w: nat, work: seq<seq<Update>>, N: nat, C: nat, start: nat)
    requires N > 0 && C > 0 && start < Pow2(w)
    requires forall i, j :: 0 <= i < |work| && 0 <= j < |work[i]| ==> Fits(w, work[i][j])
    requires forall c: nat, k: nat :: c < N && k < FirstPass(|work|, N, C, c) ==> Logical(c, k, N, C) < |work|
    ensures ChunkedCopies(w, work, N, C, start) == PrivateCopies(w, work, ChunkAssignment(|work|, N, C), N, start)
  {
    var assign := ChunkAssignment(|work|, N, C);
    forall c | 0 <= c < N
      ensures RunPasses(w, work, N, C, c, start, FirstPass(|work|, N, C, c)) == PrivateCopy(w, work, assign, c, start)
    {
      FirstPassReaches(|work|, N, C, c);
      CoreRunsItsShare(N, C, FirstPass(|work|, N, C, c), w, work, c, start);
    }
    assert ChunkedCopies(w, work, N, C, start) == PrivateCopies(w, work, assign, N, start);
  }

  /** Parallel equals sequential for a chunked loop with a reduced variable. If the widened exit test
      fails in every sequential iteration and holds where the cores overshoot, then every core of the
      generated loop leaves, has run its iterations, and the folded private copies are the sequential
      value. */
  lemma ChunkedLoopEqualsSequential(lp: DoallLoop, N: nat, C: nat,
                                    w: nat, instructions: seq<Update>, r: nat, work: seq<seq<Update>>, init: nat)
    requires lp.Valid() && N > 0 && ChunkCounts(lp, N, C)
    requires NoExitBefore(lp, |work|) && OvershootsExit(lp, |work|, N, C)
    requires w > 0 && Reducible(instructions) && r < |instructions| && Performs(w, instructions, work) && init < Pow2(w)
    requires instructions[r].op != And || w == 1
    ensures OpIdentity(instructions[r].op) < Pow2(w)
    ensures forall c: nat :: c < N ==> CoreRuns(lp, |work|, N, C, c, FirstPass(|work|, N, C, c))
    ensures forall c: nat, k: nat :: c < N && k < FirstPass(|work|, N, C, c) ==> Logical(c, k, N, C) < |work|
    ensures Reduce(w, IntegerReducingOperator(instructions[r].op).value, init,
                   ChunkedCopies(w, work, N, C, OpIdentity(instructions[r].op)))
            == RunAll(w, work, init)
  {
    TableIdentity(w, instructions[r].op);
    forall c: nat | c < N
      ensures CoreRuns(lp, |work|, N, C, c, FirstPass(|work|, N, C, c))
    {
      assert ExitsAt(lp, Overshoot(|work|, N, C, c));
      CoreRunsUntilOvershoot(lp, |work|, N, C, c);
    }
    PassesBelow(|work|, N, C);
    ChunkedCopiesArePrivate(w, work, N, C, OpIdentity(instructions[r].op));
    ReductionEqualsSequential(w, instructions, r, work, ChunkAssignment(|work|, N, C), N, init);
  }

  /** The same under a check on the loop alone: a sign-compatible exit test other than NE, and no
      wrap-around up to N - 1 chunks past the trip count. */
  lemma ParallelLoopEqualsSequential(lp: DoallLoop, N: nat, C: nat,
                                     w: nat, instructions: seq<Update>, r: nat, work: seq<seq<Update>>, init: nat)
    requires lp.Valid() && N > 0 && C > 0
    requires TripCount(lp, |work|) && SignCompatible(lp.exit, lp.step > 0) && lp.exit != NE
    requires NoWrap(lp, IsSigned(lp.exit), |work| + (N - 1) * C)
    requires w > 0 && Reducible(instructions) && r < |instructions| && Performs(w, instructions, work) && init < Pow2(w)
    requires instructions[r].op != And || w == 1
    ensures ChunkCounts(lp, N, C) && OpIdentity(instructions[r].op) < Pow2(w)
    ensures forall c: nat :: c < N ==> CoreRuns(lp, |work|, N, C, c, FirstPass(|work|, N, C, c))
    ensures forall c: nat, k: nat :: c < N && k < FirstPass(|work|, N, C, c) ==> Logical(c, k, N, C) < |work|
    ensures Reduce(w, IntegerReducingOperator(instructions[r].op).value, init,
                   ChunkedCopies(w, work, N, C, OpIdentity(instructions[r].op)))
            == RunAll(w, work, init)
  {
    ChunkFits(lp, IsSigned(lp.exit), |work|, N, C);
    DoallCoversLoop(lp, |work|, N, C);
    CoversIffOvershootsExit(lp, |work|, N, C);
    ChunkedLoopEqualsSequential(lp, N, C, w, instructions, r, work, init);
  }

  /** N - 1 chunks without wrap-around: a chunk is shorter than the range, unless there is only one core. */
  lemma ChunkFits(lp: DoallLoop, signed: bool, T: nat, N: nat, C: nat)
    requires lp.Valid() && N > 0 && C > 0 && NoWrap(lp, signed, T + (N - 1) * C)
    ensures ChunkCounts(lp, N, C)
  {
    if N > 1 {
      AtLeastFactor(N - 1, C);
      var far: nat := if lp.step > 0 then lp.step else -lp.step;
      AtLeastFactor(far, C);
      assert Value(lp, signed, C) - Value(lp, signed, 0) == C * lp.step;
      assert far * C == if lp.step > 0 then C * lp.step else -(C * lp.step);
    }
  }

  /** A core that stops at its first iteration past the work has done its share. */
  lemma CoreRunsItsShare(N: nat, C: nat, K: nat, w: nat, work: seq<seq<Update>>, c: nat, start: nat)
    requires c < N && C > 0 && start < Pow2(w)
    requires forall i, j :: 0 <= i < |work| && 0 <= j < |work[i]| ==> Fits(w, work[i][j])
    requires Logical(c, K, N, C) >= |work| && forall k :: 0 <= k < K ==> Logical(c, k, N, C) < |work|
    ensures RunPasses(w, work, N, C, c, start, K) == PrivateCopy(w, work, ChunkAssignment(|work|, N, C), c, start)
  {
    var k := PassesArePrivateCopy(w, work, N, C, c, start, |work|);
    assert work[..|work|] == work;
  }

  // ----- the private copies in memory -----

  /** The tasks named in `finished` have stored their copies, and nobody has written to their lines since. */
  ghost predicate Stored(memory: seq<nat>, valuesInCacheLine: nat, copies: seq<nat>, finished: seq<nat>)
  {
    forall c: nat {:trigger c in finished} :: c in finished && c < |copies| ==>
      c * valuesInCacheLine < |memory| && memory[c * valuesInCacheLine] == copies[c]
  }

  lemma StoredOneMore(memory: seq<nat>, valuesInCacheLine: nat, copies: seq<nat>, finished: seq<nat>, c: nat)
    requires Stored(memory, valuesInCacheLine, copies, finished) && valuesInCacheLine > 0
    requires c < |copies| && c * valuesInCacheLine < |memory|
    ensures Stored(memory[c * valuesInCacheLine := copies[c]], valuesInCacheLine, copies, finished + [c])
  {
    var after := memory[c * valuesInCacheLine := copies[c]];
    forall d: nat {:trigger d in finished + [c]} | d in finished + [c] && d < |copies|
      ensures d * valuesInCacheLine < |after| && after[d * valuesInCacheLine] == copies[d]
    {
      if d != c {
        assert d in finished;
        SlotsApart(valuesInCacheLine, d, c);
      }
    }
  }

  /** Every core runs its iterations from the start value and stores its private copy, in whatever order they
      finish. */
  method RunTasks(w: nat, work: seq<seq<Update>>, assign: seq<nat>, N: nat, start: nat, memory: array<nat>, valuesInCacheLine: nat, order: seq<nat>)
    requires |assign| == |work| && start < Pow2(w)
    requires forall i, j :: 0 <= i < |work| && 0 <= j < |work[i]| ==> Fits(w, work[i][j])
    requires valuesInCacheLine > 0 && N * valuesInCacheLine <= memory.Length
    requires forall c :: 0 <= c < N <==> c in order
    modifies memory
    ensures forall c: nat :: c < N && c * valuesInCacheLine < memory.Length ==>
              memory[c * valuesInCacheLine] == PrivateCopy(w, work, assign, c, start)
  {
    ghost var copies := PrivateCopies(w, work, assign, N, start);
    for k := 0 to |order|
      invariant Stored(memory[..], valuesInCacheLine, copies, order[..k])
    {
      var c := order[k];
      assert c in order && order[..k + 1] == order[..k] + [c];
      SlotInRange(valuesInCacheLine, N, c);
      StoredOneMore(memory[..], valuesInCacheLine, copies, order[..k], c);
      var copy := PrivateCopy(w, work, assign, c, start);
      StorePrivateCopy(memory, valuesInCacheLine, c, copy);
    }
    assert order[..|order|] == order;
    forall c: nat | c < N && c * valuesInCacheLine < memory.Length
      ensures memory[c * valuesInCacheLine] == PrivateCopy(w, work, assign, c, start)
    {
      assert c in order && memory[..][c * valuesInCacheLine] == copies[c];
    }
  }

  /** A parallel reduction from end to end: the cores run their iterations from the table identity and store
      their private copies, and the copies are folded. It computes what the sequential loop computes. */
  method ReduceInParallel(w: nat, ghost instructions: seq<Update>, ghost r: nat, op: Op, work: seq<seq<Update>>, assign: seq<nat>, N: nat,
                          init: nat, memory: array<nat>, valuesInCacheLine: nat, order: seq<nat>) returns (accumulated: nat)
    requires w > 0 && Reducible(instructions) && Performs(w, instructions, work) && init < Pow2(w)
    requires r < |instructions| && instructions[r].op == op && (op != And || w == 1)
    requires N > 0 && |assign| == |work| && forall i :: 0 <= i < |assign| ==> assign[i] < N
    requires valuesInCacheLine > 0 && N * valuesInCacheLine <= memory.Length
    requires forall c :: 0 <= c < N <==> c in order
    modifies memory
    ensures accumulated == RunAll(w, work, init)
  {
    ReductionEqualsSequential(w, instructions, r, work, assign, N, init);
    RunTasks(w, work, assign, N, OpIdentity(op), memory, valuesInCacheLine, order);
    ghost var copies := PrivateCopies(w, work, assign, N, OpIdentity(op));
    accumulated := ReduceLiveOutVariables(w, IntegerReducingOperator(op).value, init, memory, valuesInCacheLine, N, copies);
  }

  /** The same for the generated chunked loop: when every core leaves at its overshoot and has stored what its
      passes computed, the fold is what the sequential loop computes. */
  method ReduceChunkedLoop(ghost lp: DoallLoop, ghost C: nat, w: nat, ghost instructions: seq<Update>, ghost r: nat, op: Op,
                           ghost work: seq<seq<Update>>, N: nat, init: nat, memory: array<nat>, valuesInCacheLine: nat) returns (accumulated: nat)
    requires lp.Valid() && N > 0 && C > 0
    requires TripCount(lp, |work|) && SignCompatible(lp.exit, lp.step > 0) && lp.exit != NE
    requires NoWrap(lp, IsSigned(lp.exit), |work| + (N - 1) * C)
    requires w > 0 && Reducible(instructions) && Performs(w, instructions, work) && init < Pow2(w)
    requires r < |instructions| && instructions[r].op == op && (op != And || w == 1)
    requires valuesInCacheLine > 0 && N * valuesInCacheLine <= memory.Length
    requires forall c: nat, K: nat {:trigger CoreRuns(lp, |work|, N, C, c, K)} ::
               c < N && c * valuesInCacheLine < memory.Length && CoreRuns(lp, |work|, N, C, c, K) && OpIdentity(op) < Pow2(w) ==>
                 memory[c * valuesInCacheLine] == RunPasses(w, work, N, C, c, OpIdentity(op), K)
    ensures accumulated == RunAll(w, work, init)
  {
    ParallelLoopEqualsSequential(lp, N, C, w, instructions, r, work, init);
    ghost var copies := ChunkedCopies(w, work, N, C, OpIdentity(op));
    accumulated := ReduceLiveOutVariables(w, IntegerReducingOperator(op).value, init, memory, valuesInCacheLine, N, copies);
  }
}
