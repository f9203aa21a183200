/** A subscript that is matched with the cast of another loop's counter, which the disjointness decision
    accepts. */
module WrongMatches {
  import opened DifferentExtents
  import opened DisjointAccesses
  import opened Disjointness
  import opened HeaderBounds
  import opened MixedRadix
  import opened Options
  import opened SubscriptMatching

  /** for (i = 0; ...; ++i) { (long) i; for (j = 0; ...; ++j) a[j]; } where only i is an induction variable.
      The cast of i counts among its instructions. */
  ghost predicate IsCastNest(nest: LoopNest)
  {
    && nest.root == 0 && nest.included == {0, 1} && nest.governing == map[]
    && nest.insts.Keys == {0, 1} && nest.insts[0] == Inst(OtherOp, []) && nest.insts[1] == Inst(CastOp, [Computed(0)])
    && nest.ivs.Keys == {0} && nest.ivs[0] == InductionVariable(0, Number(0), Number(1), map[0 := 0, 1 := 0])
    && nest.scevOf.Keys == {0, 1} && nest.scevOf[0] == Counter(0) && nest.scevOf[1] == Cast(Counter(0))
  }

  lemma CastNest() returns (nest: LoopNest)
    ensures IsCastNest(nest)
  {
    nest := LoopNest(0, map[0 := Inst(OtherOp, []), 1 := Inst(CastOp, [Computed(0)])], {0, 1}, k => 0,
                     map[0 := InductionVariable(0, Number(0), Number(1), map[0 := 0, 1 := 0])],
                     map[0 := Counter(0), 1 := Cast(Counter(0))], map[]);
  }

  function CastIndex(): seq<Entry>
  {
    [Entry(Counter(0), Match(0, 0)), Entry(Cast(Counter(0)), Match(1, 0))]
  }

  /** a[j], with the match that the search gives it. */
  function InnerAccess(): MemoryAccessSpace
  {
    MemoryAccessSpace(0, [Counter(1)], [Number(8)], [SearchBoth(CastIndex(), [], Counter(1))])
  }

  lemma CastNestIsValid(nest: LoopNest)
    requires IsCastNest(nest)
    ensures ValidNest(nest)
  {
  }

  lemma CastIndexIsIndex(nest: LoopNest)
    requires IsCastNest(nest)
    ensures IndexesVariables(nest, CastIndex())
  {
    var entries := CastIndex();
    assert entries[0].scev == Counter(0) && entries[1].scev == Cast(Counter(0));
    assert HasKey(entries, nest.scevOf[0]) && HasKey(entries, nest.scevOf[1]);
  }

  /** The walk passes the counter of the other loop and stops at its cast. */
  lemma FindsTheCast()
    ensures SearchBoth(CastIndex(), [], Counter(1)) == Some(Match(1, 0))
    ensures !SearchIsRight(CastIndex(), [], Counter(1))
  {
    var entries := CastIndex();
    assert entries[0].scev == Counter(0) && entries[1].scev == Cast(Counter(0));
    assert !StopsAt(entries[0].scev, Counter(1)) && StopsAt(entries[1].scev, Counter(1));
    assert FirstStop(entries, Counter(1)) == 1;
  }

  lemma InnerFields(space: MemoryAccessSpace)
    requires space == InnerAccess()
    ensures space.base == 0 && |space.subscripts| == 1 && space.subscripts[0] == Counter(1)
    ensures |space.sizes| == 1 && space.sizes[0] == Number(8)
    ensures |space.subscriptIVs| == 1 && space.subscriptIVs[0] == Some(Match(1, 0))
  {
    FindsTheCast();
  }

  lemma CastIsRight(nest: LoopNest, p: Point)
    requires IsCastNest(nest) && ValidNest(nest)
    ensures ScevIsRight(nest, p) && IterationsEntered(nest, p)
  {
    CounterValue(0, p);
    forall iv, inst {:trigger SingleChain(IvCode(nest, iv), inst)} |
      iv in nest.ivs && nest.ivs[iv].loop == nest.root && inst in nest.scevOf && SingleChain(IvCode(nest, iv), inst)
      ensures Eval(nest.scevOf[inst], p) == Value(IvCode(nest, iv), inst, PhiValue(nest, iv, p))
    {
      assert iv == 0 && inst in {0, 1};
      CastValue(nest, inst, p);
    }
  }

  lemma CastValue(nest: LoopNest, inst: nat, p: Point)
    requires IsCastNest(nest) && inst in {0, 1}
    ensures Eval(nest.scevOf[inst], p) == Value(IvCode(nest, 0), inst, PhiValue(nest, 0, p))
  {
    CounterValue(0, p);
    assert Eval(Number(0), p) == 0 && Eval(Number(1), p) == 1;
    assert Eval(Cast(Counter(0)), p) == Eval(Counter(0), p);
  }

  lemma InnerIsAccepted(nest: LoopNest, space: MemoryAccessSpace, p: Point)
    requires IsCastNest(nest) && ValidNest(nest) && space == InnerAccess()
    ensures ValidSpace(nest, space) && NonOverlapping(nest, space) && RealBounds(nest, space, p) && InjectiveRoots(nest, space, p)
  {
    InnerFields(space);
    assert RootOneToOne(nest, space.subscriptIVs[0]);
  }

  lemma InnerAddress(space: MemoryAccessSpace, p: Point)
    requires space == InnerAccess()
    ensures |space.subscripts| == |space.sizes| == 1 && Address(space, p) == p.unknown(0) + p.iteration(1) * 8
  {
    InnerFields(space);
    CounterValue(1, p);
    var s := EvalAll(space.subscripts, p);
    assert s[0] == p.iteration(1) && s[1..] == [] && Extents(space, p) == [];
  }

  /** The pass records the access, so that it is disjoint from itself, and everything but the match is in
      order at the two points; yet they are in different iterations of the root loop and at one address. */
  ghost predicate RecordedButMeets(nest: LoopNest, space: MemoryAccessSpace, p: Point, q: Point)
  {
    && ValidNest(nest) && ValidSpace(nest, space) && NonOverlapping(nest, space)
    && RealAt(nest, space, p) && RealAt(nest, space, q) && SameInvocation(nest, p, q)
    && InjectiveRoots(nest, space, p) && ExtentsAgree(nest, space, space, p, q)
    && |space.subscripts| == |space.sizes|
    && p.iteration(nest.root) != q.iteration(nest.root) && Address(space, p) == Address(space, q)
  }

  lemma InnerMeets(nest: LoopNest, space: MemoryAccessSpace, p: Point, q: Point)
    requires IsCastNest(nest) && ValidNest(nest) && space == InnerAccess()
    requires p.iteration(0) != q.iteration(0) && p.iteration(1) == q.iteration(1) && p.unknown(0) == q.unknown(0)
    ensures RecordedButMeets(nest, space, p, q)
  {
    CastIsRight(nest, p);
    CastIsRight(nest, q);
    InnerIsAccepted(nest, space, p);
    InnerIsAccepted(nest, space, q);
    InnerFields(space);
    assert Extents(space, p) == [] && Extents(space, q) == [];
    InnerAddress(space, p);
    InnerAddress(space, q);
  }

  /** An index that the pass builds, a search that goes wrong in it, and the decision it leads to: a[j] is
      taken for different elements in different iterations of i. */
  lemma CastMatchIsWrong() returns (nest: LoopNest)
    ensures IndexesVariables(nest, CastIndex()) && !SearchIsRight(CastIndex(), [], Counter(1))
    ensures InnerAccess().subscriptIVs == [SearchBoth(CastIndex(), [], Counter(1))]
    ensures RecordedButMeets(nest, InnerAccess(), PointAt(0, 1, 0), PointAt(1, 1, 0))
  {
    nest := CastNest();
    CastNestIsValid(nest);
    CastIndexIsIndex(nest);
    FindsTheCast();
    InnerMeets(nest, InnerAccess(), PointAt(0, 1, 0), PointAt(1, 1, 0));
  }
}
