/** The decision that two memory accesses never meet in different iterations of the root loop: from the
    expressions of their subscripts to the bytes they touch. */
module DisjointAccesses {
  import opened Disjointness
  import opened Graph
  import opened HeaderBounds
  import opened MachineInt
  import opened MixedRadix
  import opened Options
  import opened SubscriptMatching

  // ----- the bound on inner subscripts -----

  function StripCast(s: Scev): Scev
  {
    if s.Cast? then s.operand else s
  }

  predicate IsNonNegativeConstant(s: Scev)
  {
    s.Constant? && s.value >= 0
  }

  /** The subscript of an inner dimension passes the check against the size of that dimension: it evolves
      as the variable that governs its loop, which ends by an accepted comparison with that size. */
  predicate DimensionAccepted(nest: LoopNest, found: Option<Match>, size: Scev)
  {
    found.Some? && found.value.iv in nest.ivs && found.value.inst in nest.scevOf &&
    var iv, subscript := nest.ivs[found.value.iv], StripCast(nest.scevOf[found.value.inst]);
    && found.value.inst in iv.insts && subscript.AddRec?
    && ScevsMatch(subscript.start, iv.start) && ScevsMatch(subscript.step, iv.step)
    && iv.loop in nest.governing && nest.governing[iv.loop].iv == found.value.iv
    && IsNonNegativeConstant(subscript.step)
    && UpperBounded(nest.governing[iv.loop].test) && StripCast(nest.governing[iv.loop].condition) == StripCast(size)
  }

  predicate InnerAccepted(nest: LoopNest, space: MemoryAccessSpace)
  {
    && 0 < |space.subscriptIVs| == |space.sizes|
    && forall k :: 1 <= k < |space.sizes| ==> DimensionAccepted(nest, space.subscriptIVs[k], space.sizes[k - 1])
  }

  method IsInnerDimensionSubscriptsBounded(nest: LoopNest, space: MemoryAccessSpace) returns (bounded: bool)
    requires ValidNest(nest) && ValidSpace(nest, space)
    ensures bounded <==> InnerAccepted(nest, space)
  {
    if |space.subscriptIVs| == 0 || |space.subscriptIVs| != |space.sizes| {
      return false;
    }
    for i := 1 to |space.sizes|
      invariant forall k :: 1 <= k < i ==> DimensionAccepted(nest, space.subscriptIVs[k], space.sizes[k - 1])
    {
      var size := space.sizes[i - 1];
      if space.subscriptIVs[i].None? {
        return false;
      }
      var found := space.subscriptIVs[i].value;
      var iv := nest.ivs[found.iv];
      var subscript := StripCast(nest.scevOf[found.inst]);
      if found.inst in iv.insts && subscript.AddRec? {
        if ScevsMatch(subscript.start, iv.start) && ScevsMatch(subscript.step, iv.step) {
          if iv.loop in nest.governing && nest.governing[iv.loop].iv == found.iv {
            var attr := nest.governing[iv.loop];
            if IsNonNegativeConstant(subscript.step) && UpperBounded(attr.test) {
              if StripCast(attr.condition) == StripCast(size) {
                continue;
              }
            }
          }
        }
      }
      return false;
    }
    return true;
  }

  // ----- the accesses recorded by the pass -----

  /** The subscript belongs to a variable of the root loop, or passes the one-to-one check from one. */
  ghost predicate RootOneToOne(nest: LoopNest, found: Option<Match>)
    requires ValidNest(nest) && (found.Some? ==> ValidMatch(nest, found.value))
  {
    found.Some? && nest.ivs[found.value.iv].loop == nest.root
    && (found.value.inst in nest.ivs[found.value.iv].insts || AllLookOneToOne(IvCode(nest, found.value.iv), found.value.inst))
  }

  ghost predicate NonOverlapping(nest: LoopNest, space: MemoryAccessSpace)
    requires ValidNest(nest) && ValidSpace(nest, space)
  {
    InnerAccepted(nest, space) && exists r :: 0 <= r < |space.subscriptIVs| && RootOneToOne(nest, space.subscriptIVs[r])
  }

  /** Which accesses are recorded, read off the nest: as many matches as sizes, every inner one an instruction of
      the variable that governs its loop, evolving as that variable with a constant step that is not negative,
      in a loop that ends by an accepted comparison with the size one position before; and some match of the root
      loop that belongs to its variable or is computed from it by accepted operations. */
  lemma RecordedIff(nest: LoopNest, space: MemoryAccessSpace)
    requires ValidNest(nest) && ValidSpace(nest, space)
    ensures NonOverlapping(nest, space) <==>
            && 0 < |space.subscriptIVs| == |space.sizes|
            && (forall k :: 1 <= k < |space.sizes| ==>
                  && space.subscriptIVs[k].Some?
                  && var found := space.subscriptIVs[k].value;
                  && found.inst in nest.ivs[found.iv].insts
                  && EvolvesAs(nest.scevOf[found.inst], nest.ivs[found.iv])
                  && GovernedUpTo(nest, found.iv, space.sizes[k - 1]))
            && exists r :: 0 <= r < |space.subscriptIVs| && space.subscriptIVs[r].Some? &&
                 var found := space.subscriptIVs[r].value;
                 nest.ivs[found.iv].loop == nest.root
                 && (found.inst in nest.ivs[found.iv].insts
                     || forall n: nat :: ReachesEq(Uses(IvCode(nest, found.iv)), found.inst, n) && n !in nest.ivs[found.iv].insts ==>
                          n in nest.insts && nest.insts[n].opcode != OtherOp && NotAnInstruction !in nest.insts[n].operands)
  {
    forall k | 1 <= k < |space.sizes| && |space.subscriptIVs| == |space.sizes|
      ensures DimensionAccepted(nest, space.subscriptIVs[k], space.sizes[k - 1]) <==>
              && space.subscriptIVs[k].Some?
              && var found := space.subscriptIVs[k].value;
              && found.inst in nest.ivs[found.iv].insts
              && EvolvesAs(nest.scevOf[found.inst], nest.ivs[found.iv])
              && GovernedUpTo(nest, found.iv, space.sizes[k - 1])
    {
    }
    forall r | 0 <= r < |space.subscriptIVs| && space.subscriptIVs[r].Some?
      ensures RootOneToOne(nest, space.subscriptIVs[r]) <==>
              var found := space.subscriptIVs[r].value;
              nest.ivs[found.iv].loop == nest.root
              && (found.inst in nest.ivs[found.iv].insts
                  || forall n: nat :: ReachesEq(Uses(IvCode(nest, found.iv)), found.inst, n) && n !in nest.ivs[found.iv].insts ==>
                       n in nest.insts && nest.insts[n].opcode != OtherOp && NotAnInstruction !in nest.insts[n].operands)
    {
    }
  }

  /** A recurrence, possibly under a cast, with the start and the constant, not negative step of the variable. */
  predicate EvolvesAs(s: Scev, iv: InductionVariable)
  {
    var rec := if s.Cast? then s.operand else s;
    rec.AddRec? && ScevsMatch(rec.start, iv.start) && ScevsMatch(rec.step, iv.step) && rec.step.Constant? && rec.step.value >= 0
  }

  predicate GovernedUpTo(nest: LoopNest, iv: nat, size: Scev)
    requires iv in nest.ivs
  {
    var l := nest.ivs[iv].loop;
    && l in nest.governing && nest.governing[l].iv == iv && UpperBounded(nest.governing[l].test)
    && StripCast(nest.governing[l].condition) == StripCast(size)
  }

  method IsRootOneToOne(nest: LoopNest, found: Match) returns (isOneToOne: bool)
    requires ValidNest(nest) && ValidMatch(nest, found)
    ensures isOneToOne <==> RootOneToOne(nest, Some(found))
  {
    if nest.ivs[found.iv].loop != nest.root {
      return false;
    }
    if found.inst in nest.ivs[found.iv].insts {
      return true;
    }
    isOneToOne := IsOneToOneFunctionOnIV(IvCode(nest, found.iv), found.inst);
  }

  /** Whether the pass records the access as non-overlapping between iterations of the root loop. */
  method IdentifyNonOverlapping(nest: LoopNest, space: MemoryAccessSpace) returns (recorded: bool)
    requires ValidNest(nest) && ValidSpace(nest, space)
    ensures recorded <==> NonOverlapping(nest, space)
  {
    if |space.subscriptIVs| == 0 || |space.subscriptIVs| != |space.sizes| {
      return false;
    }
    var bounded := IsInnerDimensionSubscriptsBounded(nest, space);
    if !bounded {
      return false;
    }
    recorded := HasRootOneToOne(nest, space.subscriptIVs);
  }

  /** At least one subscript evolves one-to-one with the root loop. */
  method HasRootOneToOne(nest: LoopNest, subscriptIVs: seq<Option<Match>>) returns (atLeastOne: bool)
    requires ValidNest(nest) && forall k :: 0 <= k < |subscriptIVs| && subscriptIVs[k].Some? ==> ValidMatch(nest, subscriptIVs[k].value)
    ensures atLeastOne <==> exists k :: 0 <= k < |subscriptIVs| && RootOneToOne(nest, subscriptIVs[k])
  {
    atLeastOne := false;
    for idx := 0 to |subscriptIVs|
      invariant atLeastOne <==> exists k :: 0 <= k < idx && RootOneToOne(nest, subscriptIVs[k])
    {
      if subscriptIVs[idx].None? {
        continue;
      }
      var isOneToOne := IsRootOneToOne(nest, subscriptIVs[idx].value);
      if !isOneToOne {
        continue;
      }
      assert RootOneToOne(nest, subscriptIVs[idx]);
      atLeastOne := true;
    }
  }

  ghost predicate SameRootSubscript(nest: LoopNest, space1: MemoryAccessSpace, space2: MemoryAccessSpace, idx: nat)
    requires ValidSpace(nest, space1) && ValidSpace(nest, space2) && idx < |space1.subscriptIVs| && idx < |space2.subscriptIVs|
  {
    var found1, found2 := space1.subscriptIVs[idx], space2.subscriptIVs[idx];
    && found1.Some? && found2.Some?
    && (nest.ivs[found1.value.iv].loop == nest.root <==> nest.ivs[found2.value.iv].loop == nest.root)
    && (nest.ivs[found1.value.iv].loop == nest.root ==> space1.subscripts[idx] == space2.subscripts[idx])
  }

  ghost predicate EquivalentForTopLoop(nest: LoopNest, space1: MemoryAccessSpace, space2: MemoryAccessSpace)
    requires ValidSpace(nest, space1) && ValidSpace(nest, space2)
  {
    && 0 < |space1.subscriptIVs| == |space2.subscriptIVs|
    && forall k :: 0 <= k < |space1.subscriptIVs| ==> SameRootSubscript(nest, space1, space2, k)
  }

  method IsMemoryAccessSpaceEquivalentForTopLoopIVSubscript(nest: LoopNest, space1: MemoryAccessSpace, space2: MemoryAccessSpace)
    returns (equivalent: bool)
    requires ValidSpace(nest, space1) && ValidSpace(nest, space2)
    ensures equivalent <==> EquivalentForTopLoop(nest, space1, space2)
  {
    if |space1.subscriptIVs| == 0 || |space1.subscriptIVs| != |space2.subscriptIVs| {
      return false;
    }
    for idx := 0 to |space1.subscriptIVs|
      invariant forall k :: 0 <= k < idx ==> SameRootSubscript(nest, space1, space2, k)
    {
      ghost var same := SameRootSubscript(nest, space1, space2, idx);
      var found1, found2 := space1.subscriptIVs[idx], space2.subscriptIVs[idx];
      if found1.None? || found2.None? {
        return false;
      }
      var loop1, loop2 := nest.ivs[found1.value.iv].loop, nest.ivs[found2.value.iv].loop;
      if (nest.root == loop1) != (nest.root == loop2) {
        return false;
      }
      if nest.root == loop1 && space1.subscripts[idx] != space2.subscripts[idx] {
        return false;
      }
    }
    return true;
  }

  // ----- what a point of an execution guarantees -----

  ghost predicate RightMatches(nest: LoopNest, space: MemoryAccessSpace)
  {
    |space.subscripts| == |space.subscriptIVs|
    && forall k :: 0 <= k < |space.subscripts| && space.subscriptIVs[k].Some? ==> RightMatch(nest, space.subscripts[k], space.subscriptIVs[k].value)
  }

  /** Scalar evolution is right at this point about instructions computed from root variables, and gives an
      instruction of an induction variable a recurrence over that variable's loop. */
  ghost predicate ScevIsRight(nest: LoopNest, p: Point)
    requires ValidNest(nest)
  {
    && (forall iv, inst {:trigger SingleChain(IvCode(nest, iv), inst)} ::
          iv in nest.ivs && nest.ivs[iv].loop == nest.root && inst in nest.scevOf && SingleChain(IvCode(nest, iv), inst) ==>
            Eval(nest.scevOf[inst], p) == Value(IvCode(nest, iv), inst, PhiValue(nest, iv, p)))
    && (forall iv, inst :: iv in nest.ivs && inst in nest.ivs[iv].insts && inst in nest.scevOf && StripCast(nest.scevOf[inst]).AddRec? ==>
          StripCast(nest.scevOf[inst]).loop == nest.ivs[iv].loop)
  }

  /** Every loop with an accepted comparison has entered the iteration that it is in. */
  ghost predicate IterationsEntered(nest: LoopNest, p: Point)
    requires ValidNest(nest)
  {
    forall l {:trigger nest.governing[l]} :: l in nest.governing && UpperBounded(nest.governing[l].test) ==>
      var iv := nest.ivs[nest.governing[l].iv];
      Entered(KindOf(nest.governing[l].test), Eval(iv.start, p), Eval(iv.step, p), Eval(nest.governing[l].condition, p), p.iteration(l))
  }

  /** The comparison that bounds an inner subscript is a real bound. */
  ghost predicate RealBound(nest: LoopNest, found: Option<Match>, size: Scev, p: Point)
    requires ValidNest(nest) && DimensionAccepted(nest, found, size)
  {
    var iv := nest.ivs[found.value.iv];
    Eval(iv.step, p) >= 0 && BoundIsReal(KindOf(nest.governing[iv.loop].test), Eval(iv.start, p), Eval(iv.step, p), Eval(size, p))
  }

  ghost predicate RealBounds(nest: LoopNest, space: MemoryAccessSpace, p: Point)
    requires ValidNest(nest) && InnerAccepted(nest, space)
  {
    forall k :: 1 <= k < |space.sizes| ==> RealBound(nest, space.subscriptIVs[k], space.sizes[k - 1], p)
  }

  lemma StrippedValue(s: Scev, p: Point)
    ensures Eval(StripCast(s), p) == Eval(s, p)
  {
  }

  lemma MatchedValue(a: Scev, b: Scev, p: Point)
    requires ScevsMatch(a, b)
    ensures Eval(a, p) == Eval(b, p)
  {
  }

  /** An accepted inner subscript with a real bound stays in its dimension. */
  lemma AcceptedInRange(nest: LoopNest, subscript: Scev, found: Option<Match>, size: Scev, p: Point)
    requires ValidNest(nest) && ScevIsRight(nest, p) && IterationsEntered(nest, p)
    requires DimensionAccepted(nest, found, size) && RealBound(nest, found, size, p) && RightMatch(nest, subscript, found.value)
    ensures 0 <= Eval(subscript, p) < Eval(size, p)
  {
    var iv := nest.ivs[found.value.iv];
    var attr := nest.governing[iv.loop];
    var own := StripCast(nest.scevOf[found.value.inst]);
    MatchHasValue(nest, subscript, found.value, p);
    StrippedValue(nest.scevOf[found.value.inst], p);
    MatchedValue(own.start, iv.start, p);
    MatchedValue(own.step, iv.step, p);
    assert own.loop == iv.loop;
    StrippedValue(attr.condition, p);
    StrippedValue(size, p);
    var start, step, n, k := Eval(iv.start, p), Eval(iv.step, p), Eval(size, p), p.iteration(iv.loop);
    assert Entered(KindOf(attr.test), start, step, n, k);
    BoundIsRealIff(KindOf(attr.test), start, step, n);
    assert Eval(subscript, p) == start + k * step;
  }

  lemma InnerInRange(nest: LoopNest, space: MemoryAccessSpace, p: Point)
    requires ValidNest(nest) && ScevIsRight(nest, p) && IterationsEntered(nest, p)
    requires InnerAccepted(nest, space) && RealBounds(nest, space, p) && RightMatches(nest, space)
    ensures InRange(EvalAll(space.subscripts, p)[1..], Extents(space, p))
  {
    var s, e := EvalAll(space.subscripts, p), Extents(space, p);
    forall k | 0 <= k < |e|
      ensures 0 <= s[1..][k] < e[k]
    {
      assert DimensionAccepted(nest, space.subscriptIVs[k + 1], space.sizes[k]);
      assert RealBound(nest, space.subscriptIVs[k + 1], space.sizes[k], p);
      AcceptedInRange(nest, space.subscripts[k + 1], space.subscriptIVs[k + 1], space.sizes[k], p);
    }
  }

  /** The one-to-one check was right about a root subscript: one in-loop operand per operation, no
      multiplication by zero, and a variable that moves. */
  ghost predicate InjectiveRoot(nest: LoopNest, m: Match, p: Point)
    requires ValidNest(nest) && ValidMatch(nest, m)
  {
    var code := IvCode(nest, m.iv);
    SingleChain(code, m.inst) && NoZeroMultiplier(code, m.inst) && Eval(nest.ivs[m.iv].step, p) != 0
  }

  /** Two points of one invocation of the root loop. */
  ghost predicate SameInvocation(nest: LoopNest, p: Point, q: Point)
  {
    forall iv :: iv in nest.ivs && nest.ivs[iv].loop == nest.root ==>
      Eval(nest.ivs[iv].start, p) == Eval(nest.ivs[iv].start, q) && Eval(nest.ivs[iv].step, p) == Eval(nest.ivs[iv].step, q)
  }

  lemma RootSubscriptsDiffer(nest: LoopNest, subscript: Scev, m: Match, p: Point, q: Point)
    requires ValidNest(nest) && ValidMatch(nest, m) && nest.ivs[m.iv].loop == nest.root && RightMatch(nest, subscript, m)
    requires ScevIsRight(nest, p) && ScevIsRight(nest, q) && SameInvocation(nest, p, q) && InjectiveRoot(nest, m, p)
    requires p.iteration(nest.root) != q.iteration(nest.root)
    ensures Eval(subscript, p) != Eval(subscript, q)
  {
    var code := IvCode(nest, m.iv);
    MatchHasValue(nest, subscript, m, p);
    MatchHasValue(nest, subscript, m, q);
    OneToOneIff(code, m.inst);
    DistinctIvValues(Eval(nest.ivs[m.iv].step, p), p.iteration(nest.root), q.iteration(nest.root));
    assert Eval(subscript, p) == Value(code, m.inst, PhiValue(nest, m.iv, p));
    assert Eval(subscript, q) == Value(code, m.inst, PhiValue(nest, m.iv, q));
  }

  lemma DistinctIvValues(step: int, t1: nat, t2: nat)
    requires step != 0 && t1 != t2
    ensures t1 * step != t2 * step
  {
    NonzeroProduct(t1 - t2, step);
    assert t1 * step - t2 * step == (t1 - t2) * step;
  }

  // ----- disjointness -----

  /** Scalar evolution is right, the loops are where they can be, the inner bounds are real. */
  ghost predicate RealAt(nest: LoopNest, space: MemoryAccessSpace, p: Point)
    requires ValidNest(nest) && InnerAccepted(nest, space)
  {
    ScevIsRight(nest, p) && IterationsEntered(nest, p) && RealBounds(nest, space, p)
  }

  /** What an access needs at one point, beyond being recorded: also its subscripts are matched with the
      right instructions. */
  ghost predicate SoundAt(nest: LoopNest, space: MemoryAccessSpace, p: Point)
    requires ValidNest(nest) && InnerAccepted(nest, space)
  {
    RightMatches(nest, space) && RealAt(nest, space, p)
  }

  /** The root subscripts that make the pass record the access are one-to-one. */
  ghost predicate InjectiveRoots(nest: LoopNest, space: MemoryAccessSpace, p: Point)
    requires ValidNest(nest) && ValidSpace(nest, space)
  {
    forall r :: 0 <= r < |space.subscriptIVs| && RootOneToOne(nest, space.subscriptIVs[r]) ==> InjectiveRoot(nest, space.subscriptIVs[r].value, p)
  }

  /** Where a root subscript is, the extents of the two accesses agree. */
  ghost predicate ExtentsAgree(nest: LoopNest, space1: MemoryAccessSpace, space2: MemoryAccessSpace, p: Point, q: Point)
    requires ValidNest(nest) && ValidSpace(nest, space1) && InnerAccepted(nest, space1) && InnerAccepted(nest, space2)
  {
    forall r :: 0 <= r < |space1.subscriptIVs| && r < |space2.subscriptIVs| && RootOneToOne(nest, space1.subscriptIVs[r]) ==>
      ExtentsAgreeAt(Extents(space1, p), Extents(space2, q), r)
  }

  /** Two points of one invocation of the root loop at which the answer of the pass can be relied on. */
  ghost predicate Trusted(nest: LoopNest, space1: MemoryAccessSpace, space2: MemoryAccessSpace, p: Point, q: Point)
    requires ValidNest(nest) && ValidSpace(nest, space1) && ValidSpace(nest, space2)
    requires InnerAccepted(nest, space1) && InnerAccepted(nest, space2)
  {
    && SoundAt(nest, space1, p) && SoundAt(nest, space2, q) && SameInvocation(nest, p, q)
    && InjectiveRoots(nest, space1, p) && ExtentsAgree(nest, space1, space2, p, q)
  }

  /** In different iterations of the root loop the accesses touch different elements. */
  ghost predicate NeverMeet(nest: LoopNest, space1: MemoryAccessSpace, space2: MemoryAccessSpace)
    requires ValidNest(nest) && ValidSpace(nest, space1) && ValidSpace(nest, space2)
    requires InnerAccepted(nest, space1) && InnerAccepted(nest, space2)
  {
    forall p: Point, q: Point {:trigger Trusted(nest, space1, space2, p, q)} ::
      Trusted(nest, space1, space2, p, q) && p.iteration(nest.root) != q.iteration(nest.root) ==>
        Offset(space1, p) != Offset(space2, q)
  }

  lemma DisjointBetweenIterations(nest: LoopNest, space1: MemoryAccessSpace, space2: MemoryAccessSpace)
    requires ValidNest(nest) && ValidSpace(nest, space1) && ValidSpace(nest, space2)
    requires NonOverlapping(nest, space1) && NonOverlapping(nest, space2)
    requires space1 == space2 || EquivalentForTopLoop(nest, space1, space2)
    ensures NeverMeet(nest, space1, space2)
  {
    var r :| 0 <= r < |space1.subscriptIVs| && RootOneToOne(nest, space1.subscriptIVs[r]);
    assert space1 != space2 ==> SameRootSubscript(nest, space1, space2, r);
    forall p: Point, q: Point | Trusted(nest, space1, space2, p, q) && p.iteration(nest.root) != q.iteration(nest.root)
      ensures Offset(space1, p) != Offset(space2, q)
    {
      InnerInRange(nest, space1, p);
      InnerInRange(nest, space2, q);
      RootSubscriptsDiffer(nest, space1.subscripts[r], space1.subscriptIVs[r].value, p, q);
      DifferentSubscriptsDifferentOffsets(EvalAll(space1.subscripts, p), Extents(space1, p), EvalAll(space2.subscripts, q), Extents(space2, q), r);
    }
  }

  lemma DifferentSubscriptsDifferentOffsets(s: seq<int>, extents1: seq<int>, t: seq<int>, extents2: seq<int>, r: nat)
    requires |s| == |extents1| + 1 == |t| == |extents2| + 1 && InRange(s[1..], extents1) && InRange(t[1..], extents2)
    requires r < |s| && s[r] != t[r] && ExtentsAgreeAt(extents1, extents2, r)
    ensures Flatten(s[0], s[1..], extents1) != Flatten(t[0], t[1..], extents2)
  {
    assert s == [s[0]] + s[1..] && t == [t[0]] + t[1..];
    NeverMeetIff(extents1, extents2, r);
    assert !MeetAt(s[0], s[1..], extents1, t[0], t[1..], extents2, r);
  }

  /** Different elements of one array are different bytes. */
  lemma DifferentOffsetsDifferentBytes(space1: MemoryAccessSpace, space2: MemoryAccessSpace, p: Point, q: Point)
    requires 0 < |space1.subscripts| == |space1.sizes| && 0 < |space2.subscripts| == |space2.sizes|
    requires p.unknown(space1.base) == q.unknown(space2.base) && ElementSize(space1, p) == ElementSize(space2, q) > 0
    requires Offset(space1, p) != Offset(space2, q)
    ensures Address(space1, p) + ElementSize(space1, p) <= Address(space2, q)
            || Address(space2, q) + ElementSize(space2, q) <= Address(space1, p)
  {
    var a, b, size := Offset(space1, p), Offset(space2, q), ElementSize(space1, p);
    AtLeastFactor(if a < b then b - a else a - b, size);
    assert (b - a) * size == b * size - a * size && (a - b) * size == a * size - b * size;
  }

  predicate BytesApart(space1: MemoryAccessSpace, space2: MemoryAccessSpace, p: Point, q: Point)
    requires 0 < |space1.subscripts| == |space1.sizes| && 0 < |space2.subscripts| == |space2.sizes|
  {
    || Address(space1, p) + ElementSize(space1, p) <= Address(space2, q)
    || Address(space2, q) + ElementSize(space2, q) <= Address(space1, p)
  }

  /** The elements are equally large and, where a root subscript is, the bases agree. */
  ghost predicate BasesAgree(nest: LoopNest, space1: MemoryAccessSpace, space2: MemoryAccessSpace, p: Point, q: Point)
    requires ValidNest(nest) && ValidSpace(nest, space1) && InnerAccepted(nest, space1) && InnerAccepted(nest, space2)
  {
    && ElementSize(space1, p) == ElementSize(space2, q) > 0
    && forall r :: 0 <= r < |space1.subscriptIVs| && RootOneToOne(nest, space1.subscriptIVs[r]) && AllPositive(Extents(space1, p)) ==>
         BasesAgreeAt(Extents(space1, p), r, ElementSize(space1, p), q.unknown(space2.base) - p.unknown(space1.base))
  }

  /** In different iterations of the root loop the accesses touch different bytes. */
  ghost predicate NeverOverlap(nest: LoopNest, space1: MemoryAccessSpace, space2: MemoryAccessSpace)
    requires ValidNest(nest) && ValidSpace(nest, space1) && ValidSpace(nest, space2)
    requires InnerAccepted(nest, space1) && InnerAccepted(nest, space2)
  {
    forall p: Point, q: Point {:trigger Trusted(nest, space1, space2, p, q)} ::
      Trusted(nest, space1, space2, p, q) && BasesAgree(nest, space1, space2, p, q) && p.iteration(nest.root) != q.iteration(nest.root) ==>
        BytesApart(space1, space2, p, q)
  }

  lemma BytesDisjointBetweenIterations(nest: LoopNest, space1: MemoryAccessSpace, space2: MemoryAccessSpace)
    requires ValidNest(nest) && ValidSpace(nest, space1) && ValidSpace(nest, space2)
    requires NonOverlapping(nest, space1) && NonOverlapping(nest, space2)
    requires space1 == space2 || EquivalentForTopLoop(nest, space1, space2)
    ensures NeverOverlap(nest, space1, space2)
  {
    var r :| 0 <= r < |space1.subscriptIVs| && RootOneToOne(nest, space1.subscriptIVs[r]);
    assert space1 != space2 ==> SameRootSubscript(nest, space1, space2, r);
    forall p: Point, q: Point {:trigger Trusted(nest, space1, space2, p, q)} |
      Trusted(nest, space1, space2, p, q) && BasesAgree(nest, space1, space2, p, q) && p.iteration(nest.root) != q.iteration(nest.root)
      ensures BytesApart(space1, space2, p, q)
    {
      BytesDisjointAt(nest, space1, space2, p, q, r);
    }
  }

  lemma BytesDisjointAt(nest: LoopNest, space1: MemoryAccessSpace, space2: MemoryAccessSpace, p: Point, q: Point, r: nat)
    requires ValidNest(nest) && ValidSpace(nest, space1) && ValidSpace(nest, space2)
    requires InnerAccepted(nest, space1) && InnerAccepted(nest, space2) && |space1.subscripts| == |space2.subscripts|
    requires r < |space1.subscripts| && RootOneToOne(nest, space1.subscriptIVs[r]) && space1.subscripts[r] == space2.subscripts[r]
    requires Trusted(nest, space1, space2, p, q) && BasesAgree(nest, space1, space2, p, q)
    requires p.iteration(nest.root) != q.iteration(nest.root)
    ensures BytesApart(space1, space2, p, q)
  {
    InnerInRange(nest, space1, p);
    InnerInRange(nest, space2, q);
    RootSubscriptsDiffer(nest, space1.subscripts[r], space1.subscriptIVs[r].value, p, q);
    DifferentSubscriptsDifferentBytes(space1, space2, p, q, r);
  }

  lemma DifferentSubscriptsDifferentBytes(space1: MemoryAccessSpace, space2: MemoryAccessSpace, p: Point, q: Point, r: nat)
    requires 0 < |space1.subscripts| == |space1.sizes| == |space2.subscripts| == |space2.sizes| && r < |space1.subscripts|
    requires InRange(EvalAll(space1.subscripts, p)[1..], Extents(space1, p)) && InRange(EvalAll(space2.subscripts, q)[1..], Extents(space2, q))
    requires Eval(space1.subscripts[r], p) != Eval(space2.subscripts[r], q) && ExtentsAgreeAt(Extents(space1, p), Extents(space2, q), r)
    requires ElementSize(space1, p) == ElementSize(space2, q) > 0
    requires AllPositive(Extents(space1, p)) ==>
               BasesAgreeAt(Extents(space1, p), r, ElementSize(space1, p), q.unknown(space2.base) - p.unknown(space1.base))
    ensures BytesApart(space1, space2, p, q)
  {
    var size := ElementSize(space1, p);
    var distance := q.unknown(space2.base) - p.unknown(space1.base);
    SubscriptsApart(EvalAll(space1.subscripts, p), Extents(space1, p), EvalAll(space2.subscripts, q), Extents(space2, q), r, size, distance);
    ApartAddresses(Offset(space1, p), Offset(space2, q), size, p.unknown(space1.base), q.unknown(space2.base));
  }

  // ----- the analysis object -----

  /** The space has got its matches, and nothing else of it has changed. */
  ghost predicate GotMatches(nest: LoopNest, before: MemoryAccessSpace, space: MemoryAccessSpace)
  {
    ValidSpace(nest, space) && space == before.(subscriptIVs := space.subscriptIVs)
  }

  /** Every search for a subscript of the space stops right. */
  predicate SearchesAreRight(ivEntries: seq<Entry>, derivedEntries: seq<Entry>, space: MemoryAccessSpace)
  {
    forall k :: 0 <= k < |space.subscripts| ==> SearchIsRight(ivEntries, derivedEntries, space.subscripts[k])
  }

  method MatchSubscripts(nest: LoopNest, ivEntries: seq<Entry>, derivedEntries: seq<Entry>, space: MemoryAccessSpace)
    returns (matched: MemoryAccessSpace)
    requires ValidEntries(nest, ivEntries) && ValidEntries(nest, derivedEntries) && space.subscriptIVs == []
    ensures GotMatches(nest, space, matched)
    ensures forall k :: 0 <= k < |space.subscripts| ==> matched.subscriptIVs[k] == SearchBoth(ivEntries, derivedEntries, space.subscripts[k])
    ensures RightMatches(nest, matched) <==> SearchesAreRight(ivEntries, derivedEntries, space)
  {
    var subscriptIVs: seq<Option<Match>> := [];
    for k := 0 to |space.subscripts|
      invariant |subscriptIVs| == k
      invariant forall j :: 0 <= j < k && subscriptIVs[j].Some? ==> ValidMatch(nest, subscriptIVs[j].value)
      invariant forall j :: 0 <= j < k ==>
                  subscriptIVs[j] == SearchBoth(ivEntries, derivedEntries, space.subscripts[j])
                  && (IsRight(nest, space.subscripts[j], subscriptIVs[j]) <==> SearchIsRight(ivEntries, derivedEntries, space.subscripts[j]))
    {
      MatchIsRightIff(nest, ivEntries, derivedEntries, space.subscripts[k]);
      var found := FindCorrespondingIVForSubscript(nest, ivEntries, derivedEntries, space.subscripts[k]);
      subscriptIVs := subscriptIVs + [found];
    }
    matched := space.(subscriptIVs := subscriptIVs);
  }

  /** A space is named by the one instruction that computes its address. */
  class LoopIterationDomainSpaceAnalysis {
    const nest: LoopNest
    var accessSpaces: map<nat, MemoryAccessSpace>
    var accessSpaceByInstruction: map<nat, nat>
    var nonOverlappingAccessesBetweenIterations: set<nat>

    ghost predicate Valid()
      reads this
    {
      && ValidNest(nest)
      && (forall a :: a in accessSpaces ==> ValidSpace(nest, accessSpaces[a]))
      && (forall i :: i in accessSpaceByInstruction ==> accessSpaceByInstruction[i] in accessSpaces)
      && (forall a :: a in nonOverlappingAccessesBetweenIterations <==> a in accessSpaces && NonOverlapping(nest, accessSpaces[a]))
    }

    constructor (nest: LoopNest, ivEntries: seq<Entry>, derivedEntries: seq<Entry>, spaces: map<nat, MemoryAccessSpace>, byInstruction: map<nat, nat>)
      requires ValidNest(nest) && ValidEntries(nest, ivEntries) && ValidEntries(nest, derivedEntries)
      requires forall a :: a in spaces ==> spaces[a].subscriptIVs == []
      requires forall i :: i in byInstruction ==> byInstruction[i] in spaces
      ensures Valid() && this.nest == nest
      ensures ivEntries == [] ==> accessSpaces == map[] && accessSpaceByInstruction == map[]
      ensures ivEntries != [] ==> accessSpaces.Keys == spaces.Keys && accessSpaceByInstruction == byInstruction
      ensures forall a :: a in accessSpaces ==> a in spaces && GotMatches(nest, spaces[a], accessSpaces[a])
      ensures forall a :: a in accessSpaces ==> (RightMatches(nest, accessSpaces[a]) <==> SearchesAreRight(ivEntries, derivedEntries, accessSpaces[a]))
    {
      this.nest := nest;
      accessSpaces := map[];
      accessSpaceByInstruction := map[];
      nonOverlappingAccessesBetweenIterations := {};
      new;
      if ivEntries == [] {
        return;
      }
      accessSpaces := spaces;
      accessSpaceByInstruction := byInstruction;
      IdentifyIVForMemoryAccessSubscripts(ivEntries, derivedEntries);
      IdentifyNonOverlappingAccessesBetweenIterationsAcrossOneLoopInvocation();
    }

    /** Every space gets one match, or none, for each of its subscripts. */
    method IdentifyIVForMemoryAccessSubscripts(ivEntries: seq<Entry>, derivedEntries: seq<Entry>)
      requires ValidEntries(nest, ivEntries) && ValidEntries(nest, derivedEntries)
      requires forall a :: a in accessSpaces ==> accessSpaces[a].subscriptIVs == []
      modifies this`accessSpaces
      ensures accessSpaces.Keys == old(accessSpaces.Keys)
      ensures forall a :: a in accessSpaces ==> GotMatches(nest, old(accessSpaces)[a], accessSpaces[a])
      ensures forall a :: a in accessSpaces ==> (RightMatches(nest, accessSpaces[a]) <==> SearchesAreRight(ivEntries, derivedEntries, accessSpaces[a]))
    {
      var todo := accessSpaces.Keys;
      while todo != {}
        invariant todo <= accessSpaces.Keys == old(accessSpaces.Keys)
        invariant forall a :: a in todo ==> accessSpaces[a] == old(accessSpaces)[a]
        invariant forall a :: a in accessSpaces && a !in todo ==> GotMatches(nest, old(accessSpaces)[a], accessSpaces[a])
        invariant forall a :: a in accessSpaces && a !in todo ==>
                    (RightMatches(nest, accessSpaces[a]) <==> SearchesAreRight(ivEntries, derivedEntries, accessSpaces[a]))
      {
        var a :| a in todo;
        var matched := MatchSubscripts(nest, ivEntries, derivedEntries, accessSpaces[a]);
        accessSpaces := accessSpaces[a := matched];
        todo := todo - {a};
      }
    }

    method IdentifyNonOverlappingAccessesBetweenIterationsAcrossOneLoopInvocation()
      requires ValidNest(nest) && forall a :: a in accessSpaces ==> ValidSpace(nest, accessSpaces[a])
      requires nonOverlappingAccessesBetweenIterations == {}
      modifies this`nonOverlappingAccessesBetweenIterations
      ensures forall a :: a in nonOverlappingAccessesBetweenIterations <==> a in accessSpaces && NonOverlapping(nest, accessSpaces[a])
    {
      var todo := accessSpaces.Keys;
      while todo != {}
        invariant todo <= accessSpaces.Keys
        invariant forall a :: a in nonOverlappingAccessesBetweenIterations <==>
                                a in accessSpaces && a !in todo && NonOverlapping(nest, accessSpaces[a])
      {
        var a :| a in todo;
        var recorded := IdentifyNonOverlapping(nest, accessSpaces[a]);
        if recorded {
          nonOverlappingAccessesBetweenIterations := nonOverlappingAccessesBetweenIterations + {a};
        }
        todo := todo - {a};
      }
    }

    /** When the answer is yes, the two instructions touch different elements in different iterations of the
        root loop, wherever the answer can be relied on, and different bytes if also the bases agree. Two
        spaces are the same only if they are one. */
    method AreInstructionsAccessingDisjointMemoryLocationsBetweenIterations(from: Option<nat>, to: Option<nat>) returns (disjoint: bool)
      requires Valid()
      ensures disjoint ==>
                && from.Some? && to.Some? && from.value in accessSpaceByInstruction && to.value in accessSpaceByInstruction
                && var space1, space2 := accessSpaces[accessSpaceByInstruction[from.value]], accessSpaces[accessSpaceByInstruction[to.value]];
                && NonOverlapping(nest, space1) && NonOverlapping(nest, space2)
                && NeverMeet(nest, space1, space2) && NeverOverlap(nest, space1, space2)
      ensures from.Some? && to.Some? && from.value in accessSpaceByInstruction && to.value in accessSpaceByInstruction ==>
                var a, b := accessSpaceByInstruction[from.value], accessSpaceByInstruction[to.value];
                disjoint <==> NonOverlapping(nest, accessSpaces[a]) && NonOverlapping(nest, accessSpaces[b])
                              && (a == b || EquivalentForTopLoop(nest, accessSpaces[a], accessSpaces[b]))
    {
      if from.None? || to.None? || from.value !in accessSpaceByInstruction || to.value !in accessSpaceByInstruction {
        return false;
      }
      var a, b := accessSpaceByInstruction[from.value], accessSpaceByInstruction[to.value];
      if a !in nonOverlappingAccessesBetweenIterations {
        return false;
      }
      if b !in nonOverlappingAccessesBetweenIterations {
        return false;
      }
      if a == b {
        disjoint := true;
      } else {
        disjoint := IsMemoryAccessSpaceEquivalentForTopLoopIVSubscript(nest, accessSpaces[a], accessSpaces[b]);
      }
      if disjoint {
        DisjointBetweenIterations(nest, accessSpaces[a], accessSpaces[b]);
        BytesDisjointBetweenIterations(nest, accessSpaces[a], accessSpaces[b]);
      }
    }
  }
}
