/** Two accesses of one array in rows of different length, which the disjointness decision accepts. */
module DifferentExtents {
  import opened DisjointAccesses
  import opened Disjointness
  import opened HeaderBounds
  import opened MachineInt
  import opened MixedRadix
  import opened Options
  import opened SubscriptMatching

  function Number(n: int): Scev
  {
    Constant(64, n)
  }

  function Counter(l: nat): Scev
  {
    AddRec(l, Number(0), Number(1))
  }

  function CounterVariable(l: nat): InductionVariable
  {
    InductionVariable(l, Number(0), Number(1), map[l := 0])
  }

  /** for i { for (j = 0; j < e; ++j) ...; for (k = 0; k < f; ++k) ... } */
  ghost predicate IsTwoInnerLoops(nest: LoopNest, e: int, f: int)
  {
    && nest.root == 0
    && (forall k: nat {:trigger k in nest.insts} :: (k in nest.insts <==> k < 3) && (k < 3 ==> nest.insts[k] == Inst(OtherOp, [])))
    && (forall k: nat {:trigger k in nest.ivs} :: (k in nest.ivs <==> k < 3) && (k < 3 ==> nest.ivs[k] == CounterVariable(k)))
    && (forall k: nat {:trigger k in nest.scevOf} :: (k in nest.scevOf <==> k < 3) && (k < 3 ==> nest.scevOf[k] == Counter(k)))
    && (forall k: nat {:trigger k in nest.governing} :: (k in nest.governing <==> k in {1, 2})
          && (k in {1, 2} ==> nest.governing[k] == Attribution(k, Number(if k == 1 then e else f), HeaderTest(SLT, true, false))))
  }

  lemma TwoInnerLoops(e: int, f: int) returns (nest: LoopNest)
    ensures IsTwoInnerLoops(nest, e, f)
  {
    var test := HeaderTest(SLT, true, false);
    nest := LoopNest(0, map[0 := Inst(OtherOp, []), 1 := Inst(OtherOp, []), 2 := Inst(OtherOp, [])], {0, 1, 2}, k => 0,
                     map[0 := CounterVariable(0), 1 := CounterVariable(1), 2 := CounterVariable(2)],
                     map[0 := Counter(0), 1 := Counter(1), 2 := Counter(2)],
                     map[1 := Attribution(1, Number(e), test), 2 := Attribution(2, Number(f), test)]);
  }

  /** The access [i][j], in rows of n elements, where loop l counts j. */
  function RowAccess(l: nat, n: int): MemoryAccessSpace
  {
    MemoryAccessSpace(0, [Counter(0), Counter(l)], [Number(n), Number(8)], [Some(Match(0, 0)), Some(Match(l, l))])
  }

  /** The point in iteration i of the root loop and iteration j of loop l. */
  function PointAt(i: nat, l: nat, j: nat): Point
  {
    Point(k => 0, k => if k == 0 then i else if k == l then j else 0)
  }

  lemma TwoInnerLoopsIsValid(nest: LoopNest, e: int, f: int)
    requires IsTwoInnerLoops(nest, e, f)
    ensures ValidNest(nest)
  {
    forall iv | iv in nest.ivs
      ensures WellFormed(IvCode(nest, iv))
    {
      NoOperands(IvCode(nest, iv));
    }
    forall l | l in nest.governing
      ensures nest.governing[l].iv in nest.ivs && nest.ivs[nest.governing[l].iv].loop == l
    {
      assert nest.governing[l].iv == l && l in nest.ivs;
    }
  }

  lemma NoOperands(code: Code)
    requires forall n {:trigger n in code.insts} :: n in code.insts ==> code.insts[n] == Inst(OtherOp, [])
    ensures WellFormed(code)
  {
  }

  lemma CountersAreRight(nest: LoopNest, e: nat, f: nat, p: Point)
    requires IsTwoInnerLoops(nest, e, f) && ValidNest(nest)
    ensures ScevIsRight(nest, p)
  {
    forall iv, inst {:trigger SingleChain(IvCode(nest, iv), inst)} |
      iv in nest.ivs && nest.ivs[iv].loop == nest.root && inst in nest.scevOf && SingleChain(IvCode(nest, iv), inst)
      ensures Eval(nest.scevOf[inst], p) == Value(IvCode(nest, iv), inst, PhiValue(nest, iv, p))
    {
      CounterOf(nest, e, f, iv);
      CounterOf(nest, e, f, inst);
      OnlyTheRootCounter(nest, e, f, inst);
    }
    forall iv, inst | iv in nest.ivs && inst in nest.ivs[iv].insts && inst in nest.scevOf && StripCast(nest.scevOf[inst]).AddRec?
      ensures StripCast(nest.scevOf[inst]).loop == nest.ivs[iv].loop
    {
      CounterOf(nest, e, f, iv);
    }
  }

  lemma OnlyTheRootCounter(nest: LoopNest, e: nat, f: nat, inst: nat)
    requires IsTwoInnerLoops(nest, e, f) && ValidNest(nest) && 0 in nest.ivs && inst < 3
    requires SingleChain(IvCode(nest, 0), inst)
    ensures inst == 0
  {
    CounterOf(nest, e, f, 0);
    CounterOf(nest, e, f, inst);
  }

  lemma CountersAreBelow(nest: LoopNest, e: nat, f: nat, p: Point)
    requires IsTwoInnerLoops(nest, e, f) && ValidNest(nest)
    requires p.iteration(1) < e && p.iteration(2) < f
    ensures IterationsEntered(nest, p)
  {
    UnitStepsBelow(e, p.iteration(1));
    UnitStepsBelow(f, p.iteration(2));
  }

  lemma UnitStepsBelow(n: int, k: nat)
    requires k < n
    ensures Entered(Strict, 0, 1, n, k)
  {
  }

  lemma CounterValue(l: nat, p: Point)
    ensures Eval(Counter(l), p) == p.iteration(l)
  {
    assert Eval(Number(0), p) == 0 && Eval(Number(1), p) == 1;
    assert p.iteration(l) * 1 == p.iteration(l);
  }

  /** The offset of [i][j] in rows of n is i * n + j. */
  lemma RowOffset(l: nat, n: int, p: Point)
    ensures |RowAccess(l, n).subscripts| == |RowAccess(l, n).sizes|
    ensures Offset(RowAccess(l, n), p) == p.iteration(0) * n + p.iteration(l)
  {
    var space := RowAccess(l, n);
    var s, e := EvalAll(space.subscripts, p), Extents(space, p);
    CounterValue(0, p);
    CounterValue(l, p);
    assert s[0] == p.iteration(0) && s[1] == p.iteration(l) && s[1..] == [p.iteration(l)];
    assert e[0] == n && e == [n];
    FlattenRow(s[0], p.iteration(l), n);
  }

  /** The lookups for loop l of the nest. */
  lemma CounterOf(nest: LoopNest, e: nat, f: nat, l: nat)
    requires IsTwoInnerLoops(nest, e, f) && l < 3
    ensures l in nest.insts && l in nest.ivs && nest.ivs[l] == CounterVariable(l) && l in nest.scevOf && nest.scevOf[l] == Counter(l)
    ensures l > 0 ==> l in nest.governing && nest.governing[l] == Attribution(l, Number(if l == 1 then e else f), HeaderTest(SLT, true, false))
  {
  }

  lemma InnerOfRow(nest: LoopNest, e: nat, f: nat, l: nat, n: nat, p: Point)
    requires IsTwoInnerLoops(nest, e, f) && ValidNest(nest) && 0 < l < 3 && n == (if l == 1 then e else f)
    ensures DimensionAccepted(nest, Some(Match(l, l)), Number(n)) && RealBound(nest, Some(Match(l, l)), Number(n), p)
  {
    CounterOf(nest, e, f, l);
  }

  lemma RootOfRow(nest: LoopNest, e: nat, f: nat, p: Point)
    requires IsTwoInnerLoops(nest, e, f) && ValidNest(nest)
    ensures ValidMatch(nest, Match(0, 0)) && RootOneToOne(nest, Some(Match(0, 0))) && InjectiveRoot(nest, Match(0, 0), p)
  {
    CounterOf(nest, e, f, 0);
  }

  lemma RowIsAccepted(nest: LoopNest, e: nat, f: nat, l: nat, n: nat, space: MemoryAccessSpace, p: Point)
    requires IsTwoInnerLoops(nest, e, f) && ValidNest(nest) && 0 < l < 3 && n == (if l == 1 then e else f)
    requires space == RowAccess(l, n)
    ensures ValidSpace(nest, space) && NonOverlapping(nest, space) && RealBounds(nest, space, p)
  {
    CounterOf(nest, e, f, l);
    RootOfRow(nest, e, f, p);
    InnerOfRow(nest, e, f, l, n, p);
    RowFields(nest, l, n, space);
    assert RootOneToOne(nest, space.subscriptIVs[0]);
  }

  lemma RowIsRight(nest: LoopNest, e: nat, f: nat, l: nat, n: nat, space: MemoryAccessSpace, p: Point)
    requires IsTwoInnerLoops(nest, e, f) && ValidNest(nest) && 0 < l < 3 && space == RowAccess(l, n) && ValidSpace(nest, space)
    ensures RightMatches(nest, space) && InjectiveRoots(nest, space, p)
  {
    CounterOf(nest, e, f, l);
    CounterOf(nest, e, f, 0);
    RowFields(nest, l, n, space);
    RowRoots(nest, e, f, l, space, p);
  }

  lemma RowRoots(nest: LoopNest, e: nat, f: nat, l: nat, space: MemoryAccessSpace, p: Point)
    requires IsTwoInnerLoops(nest, e, f) && ValidNest(nest) && 0 < l < 3 && ValidSpace(nest, space)
    requires |space.subscriptIVs| == 2 && space.subscriptIVs[0] == Some(Match(0, 0)) && space.subscriptIVs[1] == Some(Match(l, l))
    ensures InjectiveRoots(nest, space, p)
  {
    CounterOf(nest, e, f, l);
    assert !RootOneToOne(nest, space.subscriptIVs[1]);
    RootOfRow(nest, e, f, p);
  }

  lemma RowFields(nest: LoopNest, l: nat, n: nat, space: MemoryAccessSpace)
    requires space == RowAccess(l, n)
    ensures |space.subscripts| == 2 && space.subscripts[0] == Counter(0) && space.subscripts[1] == Counter(l)
    ensures |space.sizes| == 2 && space.sizes[0] == Number(n) && space.sizes[1] == Number(8)
    ensures |space.subscriptIVs| == 2 && space.subscriptIVs[0] == Some(Match(0, 0)) && space.subscriptIVs[1] == Some(Match(l, l))
  {
  }

  lemma RowsAreEquivalent(nest: LoopNest, e: nat, f: nat, space1: MemoryAccessSpace, space2: MemoryAccessSpace)
    requires IsTwoInnerLoops(nest, e, f) && space1 == RowAccess(1, e) && space2 == RowAccess(2, f)
    requires ValidSpace(nest, space1) && ValidSpace(nest, space2)
    ensures EquivalentForTopLoop(nest, space1, space2)
  {
    CounterOf(nest, e, f, 0);
    CounterOf(nest, e, f, 1);
    CounterOf(nest, e, f, 2);
  }

  lemma OneInvocation(nest: LoopNest, e: nat, f: nat, p: Point, q: Point)
    requires IsTwoInnerLoops(nest, e, f)
    ensures SameInvocation(nest, p, q)
  {
  }

  /** The pass answers yes for the two accesses and, the extents aside, its answer can be relied on at the two
      points; yet they are in different iterations of the root loop and at the same address. */
  ghost predicate AcceptedButMeet(nest: LoopNest, space1: MemoryAccessSpace, space2: MemoryAccessSpace, p: Point, q: Point)
  {
    && ValidNest(nest) && ValidSpace(nest, space1) && ValidSpace(nest, space2)
    && NonOverlapping(nest, space1) && NonOverlapping(nest, space2) && EquivalentForTopLoop(nest, space1, space2)
    && SoundAt(nest, space1, p) && SoundAt(nest, space2, q) && SameInvocation(nest, p, q) && InjectiveRoots(nest, space1, p)
    && |space1.subscripts| == |space1.sizes| && |space2.subscripts| == |space2.sizes|
    && p.iteration(nest.root) != q.iteration(nest.root) && Address(space1, p) == Address(space2, q)
  }

  lemma RowsMeet(nest: LoopNest, e: nat, f: nat, space1: MemoryAccessSpace, space2: MemoryAccessSpace, p: Point, q: Point)
    requires 0 < e < f && IsTwoInnerLoops(nest, e, f) && ValidNest(nest) && space1 == RowAccess(1, e) && space2 == RowAccess(2, f)
    requires p.iteration(0) == 1 && p.iteration(1) == 0 && p.iteration(2) == 0
    requires q.iteration(0) == 0 && q.iteration(1) == 0 && q.iteration(2) == e
    requires p.unknown(0) == q.unknown(0)
    ensures AcceptedButMeet(nest, space1, space2, p, q)
  {
    CountersAreRight(nest, e, f, p);
    CountersAreRight(nest, e, f, q);
    CountersAreBelow(nest, e, f, p);
    CountersAreBelow(nest, e, f, q);
    RowIsAccepted(nest, e, f, 1, e, space1, p);
    RowIsAccepted(nest, e, f, 2, f, space2, q);
    RowIsRight(nest, e, f, 1, e, space1, p);
    RowIsRight(nest, e, f, 2, f, space2, q);
    RowsAreEquivalent(nest, e, f, space1, space2);
    OneInvocation(nest, e, f, p, q);
    RowOffset(1, e, p);
    RowOffset(2, f, q);
    assert nest.root == 0;
  }

  /** The decision does not compare extents: for any e < f, [i][j] in rows of e and [i][k] in rows of f are
      accepted, and row 1 of the first starts inside row 0 of the second. */
  lemma ExtentsMustAgree(e: nat, f: nat) returns (nest: LoopNest)
    requires 0 < e < f
    ensures AcceptedButMeet(nest, RowAccess(1, e), RowAccess(2, f), PointAt(1, 1, 0), PointAt(0, 2, e))
  {
    nest := TwoInnerLoops(e, f);
    TwoInnerLoopsIsValid(nest, e, f);
    RowsMeet(nest, e, f, RowAccess(1, e), RowAccess(2, f), PointAt(1, 1, 0), PointAt(0, 2, e));
  }
}
