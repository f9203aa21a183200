/** Two accesses of different arrays that share memory, which the disjointness decision accepts. */
module DifferentBases {
  import opened DifferentExtents
  import opened DisjointAccesses
  import opened Disjointness
  import opened MixedRadix
  import opened Options
  import opened SubscriptMatching

  /** The access a[i], i being the root counter, of eight-byte elements. */
  function PlainAccess(base: nat): MemoryAccessSpace
  {
    MemoryAccessSpace(base, [Counter(0)], [Number(8)], [Some(Match(0, 0))])
  }

  /** The point in iteration i, array 1 being `distance` bytes after array 0. */
  function PointWithBases(i: nat, distance: int): Point
  {
    Point(k => if k == 1 then distance else 0, k => if k == 0 then i else 0)
  }

  lemma PlainFields(base: nat, space: MemoryAccessSpace)
    requires space == PlainAccess(base)
    ensures space.base == base && |space.subscripts| == 1 && space.subscripts[0] == Counter(0)
    ensures |space.sizes| == 1 && space.sizes[0] == Number(8)
    ensures |space.subscriptIVs| == 1 && space.subscriptIVs[0] == Some(Match(0, 0))
  {
  }

  lemma PlainIsSound(nest: LoopNest, base: nat, space: MemoryAccessSpace, p: Point)
    requires IsTwoInnerLoops(nest, 1, 1) && ValidNest(nest) && space == PlainAccess(base)
    requires p.iteration(1) == 0 && p.iteration(2) == 0
    ensures ValidSpace(nest, space) && NonOverlapping(nest, space) && SoundAt(nest, space, p) && InjectiveRoots(nest, space, p)
  {
    PlainFields(base, space);
    CounterOf(nest, 1, 1, 0);
    RootOfRow(nest, 1, 1, p);
    CountersAreRight(nest, 1, 1, p);
    CountersAreBelow(nest, 1, 1, p);
    assert RootOneToOne(nest, space.subscriptIVs[0]);
  }

  lemma PlainAddress(base: nat, space: MemoryAccessSpace, p: Point)
    requires space == PlainAccess(base)
    ensures |space.subscripts| == |space.sizes| == 1 && ElementSize(space, p) == 8
    ensures Address(space, p) == p.unknown(base) + p.iteration(0) * 8
  {
    PlainFields(base, space);
    CounterValue(0, p);
    var s := EvalAll(space.subscripts, p);
    assert s[0] == p.iteration(0) && s[1..] == [] && Extents(space, p) == [];
  }

  /** The pass answers yes for the two accesses and, the bases aside, its answer can be relied on at the two
      points; yet they are in different iterations of the root loop and touch a common byte. */
  ghost predicate AcceptedButOverlap(nest: LoopNest, space1: MemoryAccessSpace, space2: MemoryAccessSpace, p: Point, q: Point)
  {
    && ValidNest(nest) && ValidSpace(nest, space1) && ValidSpace(nest, space2)
    && NonOverlapping(nest, space1) && NonOverlapping(nest, space2) && EquivalentForTopLoop(nest, space1, space2)
    && Trusted(nest, space1, space2, p, q)
    && |space1.subscripts| == |space1.sizes| && |space2.subscripts| == |space2.sizes|
    && p.iteration(nest.root) != q.iteration(nest.root) && !BytesApart(space1, space2, p, q)
  }

  lemma PlainAccessesOverlap(nest: LoopNest, space1: MemoryAccessSpace, space2: MemoryAccessSpace, p: Point, q: Point, distance: int)
    requires IsTwoInnerLoops(nest, 1, 1) && ValidNest(nest) && space1 == PlainAccess(0) && space2 == PlainAccess(1)
    requires p.iteration(1) == 0 && p.iteration(2) == 0 && q.iteration(1) == 0 && q.iteration(2) == 0
    requires q.unknown(1) - p.unknown(0) == distance && p.iteration(0) != q.iteration(0)
    requires -8 < (p.iteration(0) - q.iteration(0)) * 8 - distance < 8
    ensures AcceptedButOverlap(nest, space1, space2, p, q)
  {
    PlainFields(0, space1);
    PlainFields(1, space2);
    PlainIsSound(nest, 0, space1, p);
    PlainIsSound(nest, 1, space2, q);
    OneInvocation(nest, 1, 1, p, q);
    PlainAddress(0, space1, p);
    PlainAddress(1, space2, q);
    assert SameRootSubscript(nest, space1, space2, 0);
    assert Extents(space1, p) == [] && Extents(space2, q) == [];
    assert ExtentsAgree(nest, space1, space2, p, q);
    assert nest.root == 0;
  }

  /** The decision does not compare bases: however far apart two arrays start, a[i] and b[i] are accepted, and
      some element of the one shares a byte with another element of the other. */
  lemma BasesMustAgree(distance: int) returns (nest: LoopNest, i: nat, j: nat)
    requires distance != 0
    ensures AcceptedButOverlap(nest, PlainAccess(0), PlainAccess(1), PointWithBases(i, distance), PointWithBases(j, distance))
  {
    var d := NearestElement(8, distance);
    i, j := if d > 0 then d else 0, if d > 0 then 0 else -d;
    nest := TwoInnerLoops(1, 1);
    TwoInnerLoopsIsValid(nest, 1, 1);
    PlainAccessesOverlap(nest, PlainAccess(0), PlainAccess(1), PointWithBases(i, distance), PointWithBases(j, distance), distance);
  }
}
