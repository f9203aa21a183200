/** Queries about the partition graph and the merges built from them. */
module SccPartitioner {
  import opened Graph
  import opened Options
  import opened PartitionSpec
  import opened SccPartition

  ghost function Power(b: nat, e: nat): (r: nat)
    ensures b > 0 ==> r > 0
  {
    if e == 0 then 1 else b * Power(b, e - 1)
  }

  /** Bounds the number of walks that end in s: every parent has fewer ancestors than s. */
  ghost function WalkBound(E: Edges, S: set<Node>, s: SetId): (r: nat)
    ensures r > 0
  {
    Power(|S| + 1, |AncestorsIn(E, S, s)|)
  }

  ghost function StepBound(E: Edges, S: set<Node>, s: SetId): nat
  {
    if |AncestorsIn(E, S, s)| == 0 then 0 else Power(|S| + 1, |AncestorsIn(E, S, s)| - 1)
  }

  ghost function QueueBound(E: Edges, S: set<Node>, queue: seq<SetId>): nat
  {
    if queue == [] then 0 else WalkBound(E, S, queue[0]) + QueueBound(E, S, queue[1..])
  }

  lemma {:induction false} QueueBoundAppend(E: Edges, S: set<Node>, queue: seq<SetId>, s: SetId)
    ensures QueueBound(E, S, queue + [s]) == QueueBound(E, S, queue) + WalkBound(E, S, s)
  {
    if queue == [] {
      assert queue + [s] == [s];
    } else {
      assert (queue + [s])[1..] == queue[1..] + [s];
      QueueBoundAppend(E, S, queue[1..], s);
    }
  }

  lemma {:induction false} PowerMono(b: nat, d: nat, e: nat)
    requires b > 0 && d <= e
    ensures Power(b, d) <= Power(b, e)
    decreases e
  {
    if d < e {
      PowerMono(b, d, e - 1);
      assert Power(b, e - 1) <= b * Power(b, e - 1);
    }
  }

  lemma ParentBound(E: Edges, S: set<Node>, parent: SetId, s: SetId)
    requires Acyclic(E) && Within(E, S) && (parent, s) in E
    ensures WalkBound(E, S, parent) <= StepBound(E, S, s)
    ensures WalkBound(E, S, s) == (|S| + 1) * StepBound(E, S, s)
  {
    AncestorsGrow(E, S, parent, s);
    PowerMono(|S| + 1, |AncestorsIn(E, S, parent)|, |AncestorsIn(E, S, s)| - 1);
  }

  class SccdagPartitioner {
    const partition: SccdagPartition

    ghost predicate Valid()
      reads this, partition
    {
      partition.Valid() && Acyclic(partition.edges)
    }

    constructor (partition: SccdagPartition)
      requires partition.Valid() && Acyclic(partition.edges)
      ensures this.partition == partition && Valid()
    {
      this.partition := partition;
    }

    /** Search upwards without a visited set; it ends because the graph has no cycle. */
    method IsAncestor(parentTarget: SetId, target: SetId) returns (found: bool)
      requires Valid()
      ensures found <==> Reaches(partition.edges, parentTarget, target)
    {
      var E := partition.edges;
      ghost var S := partition.nodes.Keys;
      partition.EdgesWithin();
      var queue := [target];
      while queue != []
        invariant forall s :: s in queue ==> ReachesEq(E, s, target)
        invariant Reaches(E, parentTarget, target) ==> exists s :: s in queue && Reaches(E, parentTarget, s)
        decreases QueueBound(E, S, queue)
      {
        var s := queue[0];
        var rest := queue[1..];
        var incoming := set e | e in E && e.1 == s :: e.0;
        assert forall a :: (a, s) in E ==> a in incoming by {
          forall a | (a, s) in E ensures a in incoming {
            assert (a, s).1 == s;
          }
        }
        found, queue := EnqueueParents(E, S, rest, s, incoming, parentTarget);
        if found {
          EdgeReaches(E, parentTarget, s);
          ReachesTrans(E, parentTarget, s, target);
          return true;
        }
        forall a | a in incoming ensures ReachesEq(E, a, target) {
          EdgeReaches(E, a, s);
          ReachesTrans(E, a, s, target);
        }
        PoppedBound(E, S, s, incoming);
        if Reaches(E, parentTarget, s) {
          var c := ReachesLast(E, parentTarget, s);
          assert c in queue;
        }
      }
      return false;
    }

    method GetParentChildPair(setA: SetId, setB: SetId) returns (pair: Option<(SetId, SetId)>)
      requires Valid()
      ensures pair.None? <==> !Reaches(partition.edges, setA, setB) && !Reaches(partition.edges, setB, setA)
      ensures pair.Some? ==> (pair.value == (setA, setB) || pair.value == (setB, setA))
                             && Reaches(partition.edges, pair.value.0, pair.value.1)
    {
      var ab := IsAncestor(setA, setB);
      if ab {
        return Some((setA, setB));
      }
      var ba := IsAncestor(setB, setA);
      return if ba then Some((setB, setA)) else None;
    }

    method GetDescendants(s: SetId) returns (descendants: set<SetId>)
      requires partition.Valid()
      ensures forall c: Node :: c in descendants <==> Reaches(partition.edges, s, c)
    {
      partition.EdgesWithin();
      descendants := DescendantsOf(partition.edges, partition.nodes.Keys, s);
    }

    method GetAncestors(s: SetId) returns (ancestors: set<SetId>)
      requires partition.Valid()
      ensures forall c: Node :: c in ancestors <==> Reaches(partition.edges, c, s)
    {
      partition.EdgesWithin();
      ancestors := AncestorsOf(partition.edges, partition.nodes.Keys, s);
    }

    /** Whether merging the two sets would leave a cycle in the graph. */
    method IsMergeIntroducingCycle(setA: SetId, setB: SetId) returns (cyclic: bool)
      requires Valid() && setA in partition.nodes && setB in partition.nodes
      ensures cyclic <==> !Acyclic(Contract(partition.edges, {setA, setB}, partition.nextSet))
    {
      ghost var E := partition.edges;
      NextSetUnused();
      MergeCyclicIffBetween(E, setA, setB, partition.nextSet);
      var parentChild := GetParentChildPair(setA, setB);
      if parentChild.None? {
        NothingBetween(E, setA, setB);
        return false;
      }
      var descendants := GetDescendants(parentChild.value.0);
      var ancestors := GetAncestors(parentChild.value.1);
      var overlap := descendants * ancestors;
      OverlapIsBetween(E, parentChild.value.0, parentChild.value.1, overlap);
      cyclic := |overlap| > 0;
      if cyclic {
        var c :| c in overlap;
        assert Between(E, setA, setB, c);
      }
    }

    /** Exactly the sets that a collapse would fuse after merging the two sets. */
    method GetCycleIntroducedByMerging(setA: SetId, setB: SetId) returns (fused: set<SetId>)
      requires Valid() && setA in partition.nodes && setB in partition.nodes
      ensures forall c :: c in partition.nodes ==>
                (c in fused <==> SameScc(Contract(partition.edges, {setA, setB}, partition.nextSet),
                                         Image({setA, setB}, partition.nextSet, c), partition.nextSet))
      ensures fused <= partition.nodes.Keys
    {
      ghost var E, m := partition.edges, partition.nextSet;
      NextSetUnused();
      partition.EdgesWithin();
      forall c | c in partition.nodes && c != setA && c != setB
        ensures SameScc(Contract(E, {setA, setB}, m), c, m) <==> Between(E, setA, setB, c)
      {
        CycleIsBetween(E, setA, setB, m, c);
      }
      var parentChild := GetParentChildPair(setA, setB);
      if parentChild.None? {
        NothingBetween(E, setA, setB);
        return {setA, setB};
      }
      var descendants := GetDescendants(parentChild.value.0);
      var ancestors := GetAncestors(parentChild.value.1);
      var overlap := descendants * ancestors;
      OverlapIsBetween(E, parentChild.value.0, parentChild.value.1, overlap);
      fused := overlap + {parentChild.value.0} + {parentChild.value.1};
      forall c | c in overlap ensures c in partition.nodes {
        var d := ReachesFirst(E, c, parentChild.value.1);
      }
    }

    lemma NextSetUnused()
      requires partition.Valid()
      ensures forall u: Node, v: Node :: (u, v) in partition.edges ==> u != partition.nextSet && v != partition.nextSet
      ensures partition.nextSet !in partition.nodes
    {
      partition.EdgesWithin();
    }

    /** Merge two sets; the representative member is taken before the merge replaces the sets. */
    method MergePair(setA: SetId, setB: SetId) returns (mergedSet: SetId)
      requires Valid() && setA in partition.nodes && setB in partition.nodes
      modifies partition
      ensures Valid()
      ensures LeastMerge(old(partition.sccToSet), partition.depends, {setA, setB}, partition.sccToSet)
      ensures forall x :: x in old(partition.sccToSet) && old(partition.sccToSet)[x] in {setA, setB} ==>
                          x in partition.sccToSet && partition.sccToSet[x] == mergedSet
    {
      MembersNonEmpty(partition.sccToSet, setA);
      var anyScc :| anyScc in partition.nodes[setA];
      partition.MergeSetsAndCollapseResultingCycles({setA, setB});
      mergedSet := partition.sccToSet[anyScc];
    }

    /** Merge all requested pairs. The result is the finest acyclic partition that joins them,
        so it does not depend on the order in which the pairs are visited. */
    method MergeAllPairs(pairs: set<(Scc, Scc)>)
      requires Valid()
      requires forall a, b :: (a, b) in pairs ==> a in partition.sccToSet && b in partition.sccToSet
      modifies partition
      ensures Valid()
      ensures LeastForPairs(old(partition.sccToSet), partition.depends, pairs, partition.sccToSet)
    {
      ghost var p := partition.sccToSet;
      var rest := pairs;
      while rest != {}
        invariant rest <= pairs
        invariant Valid()
        invariant LeastForPairs(p, partition.depends, pairs - rest, partition.sccToSet)
        decreases rest
      {
        var pair :| pair in rest;
        assert (pair.0, pair.1) in pairs;
        ghost var done, q := pairs - rest, partition.sccToSet;
        rest := rest - {pair};
        assert done + {(pair.0, pair.1)} == pairs - rest;
        var setProducer := partition.sccToSet[pair.0];
        var setConsumer := partition.sccToSet[pair.1];
        if setProducer == setConsumer {
          LeastForPairAlreadyJoined(p, partition.depends, done, q, pair.0, pair.1);
          continue;
        }
        partition.MergeSetsAndCollapseResultingCycles({setProducer, setConsumer});
        LeastForOneMorePair(p, partition.depends, done, q, pair.0, pair.1, partition.sccToSet);
      }
      assert pairs - rest == pairs;
    }
  }

  /** Popping a node pays for pushing all its parents. */
  lemma PoppedBound(E: Edges, S: set<Node>, s: SetId, parents: set<SetId>)
    requires Acyclic(E) && Within(E, S)
    requires forall a :: a in parents ==> (a, s) in E
    ensures |parents| * StepBound(E, S, s) < WalkBound(E, S, s)
  {
    if parents != {} {
      var a :| a in parents;
      ParentBound(E, S, a, s);
      SubsetSize(parents, S);
      var step := StepBound(E, S, s);
      assert |parents| * step <= |S| * step < (|S| + 1) * step;
    }
  }

  /** Push the parents of s, unless the target is among them. */
  method EnqueueParents(ghost E: Edges, ghost S: set<Node>, queue: seq<SetId>, s: SetId, incoming: set<SetId>, parentTarget: SetId)
    returns (found: bool, longer: seq<SetId>)
    requires Acyclic(E) && Within(E, S)
    requires forall a :: a in incoming ==> (a, s) in E
    ensures found <==> parentTarget in incoming
    ensures !found ==> forall a :: a in longer <==> a in queue || a in incoming
    ensures QueueBound(E, S, longer) <= QueueBound(E, S, queue) + |incoming| * StepBound(E, S, s)
  {
    longer := queue;
    var rest := incoming;
    ghost var step := StepBound(E, S, s);
    ghost var pushed := 0;
    while rest != {}
      invariant rest <= incoming && pushed + |rest| == |incoming|
      invariant parentTarget !in incoming - rest
      invariant forall a :: a in longer <==> a in queue || a in incoming - rest
      invariant QueueBound(E, S, longer) <= QueueBound(E, S, queue) + pushed * step
      decreases rest
    {
      var parent :| parent in rest;
      if parent == parentTarget {
        FewerSteps(pushed, |incoming|, step);
        return true, longer;
      }
      ParentBound(E, S, parent, s);
      QueueBoundAppend(E, S, longer, parent);
      longer := longer + [parent];
      rest := rest - {parent};
      OneMoreStep(pushed, step);
      pushed := pushed + 1;
    }
    found := false;
  }

  lemma OneMoreStep(n: nat, step: nat)
    ensures (n + 1) * step == n * step + step
  {
  }

  lemma FewerSteps(n: nat, most: nat, step: nat)
    requires n <= most
    ensures n * step <= most * step
  {
  }

  /** When neither set is above the other, nothing lies between them. */
  lemma NothingBetween(E: Edges, a: SetId, b: SetId)
    requires !Reaches(E, a, b) && !Reaches(E, b, a)
    ensures forall c :: c != a && c != b ==> !Between(E, a, b, c)
  {
    forall c | Between(E, a, b, c) ensures false {
      if Reaches(E, a, c) && Reaches(E, c, b) {
        ReachesTrans(E, a, c, b);
      } else {
        ReachesTrans(E, b, c, a);
      }
    }
  }

  /** When one set is above the other, what lies between them lies below the one and above the other. */
  lemma OverlapIsBetween(E: Edges, parent: SetId, child: SetId, overlap: set<SetId>)
    requires Acyclic(E) && Reaches(E, parent, child)
    requires forall c: Node :: c in overlap <==> Reaches(E, parent, c) && Reaches(E, c, child)
    ensures forall c :: c in overlap <==> Between(E, parent, child, c)
    ensures forall c :: Between(E, parent, child, c) <==> Between(E, child, parent, c)
    ensures forall c :: c in overlap ==> c != parent && c != child
  {
    forall c | Reaches(E, child, c) && Reaches(E, c, parent) ensures false {
      ReachesTrans(E, child, c, parent);
      ReachesTrans(E, child, parent, child);
    }
  }
}
