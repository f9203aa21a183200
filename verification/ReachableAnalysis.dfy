/** The reachability analysis built on the backward engine, for a whole function and within one
    iteration of a loop. */
module ReachableAnalysis {
  import opened Graph
  import opened Options
  import opened DataFlowEquations
  import opened DataFlowEngine

  /** GEN[i] = {i} if i passes the filter; IN[i] = GEN[i] + OUT[i]; OUT takes in IN of every successor
      except the barrier. */
  function Reachable(filter: Inst -> bool, barrier: Option<Inst>): BackwardAnalysis
  {
    BackwardAnalysis(
      i => if filter(i) then {i} else {},
      i => {},
      (i, gen, kill, out) => gen + out,
      (succ, ins) => if barrier == Some(succ) then {} else ins)
  }

  /** The flow edges that do not step onto the barrier. */
  ghost function StepsAround(f: Function, barrier: Option<Inst>): Edges
    requires WellFormed(f)
  {
    set e | e in FlowEdges(f) && barrier != Some(e.1)
  }

  ghost function ReachableFrom(f: Function, filter: Inst -> bool, barrier: Option<Inst>, i: Inst): set<Inst>
    requires WellFormed(f)
  {
    set j: Node | j in Insts(f) && filter(j) && Reaches(StepsAround(f, barrier), i, j)
  }

  lemma FlowsWithin(f: Function, i: Inst, j: Inst)
    requires WellFormed(f) && Flows(f, i, j)
    ensures i in Insts(f) && j in Insts(f)
  {
  }

  lemma ReachableIsSolvable(f: Function, filter: Inst -> bool, barrier: Option<Inst>)
    requires WellFormed(f)
    ensures Monotone(BackwardEquations(Reachable(filter, barrier)))
    ensures Bounded(f, BackwardEquations(Reachable(filter, barrier)), Insts(f))
  {
  }

  /** Any solution contains what a walk around the barrier reaches. */
  lemma {:induction false} SolutionHoldsWalks(f: Function, filter: Inst -> bool, barrier: Option<Inst>, outs: Facts, ins: Facts, i: Inst, j: Inst, n: nat)
    requires WellFormed(f) && Solves(f, Backward, BackwardEquations(Reachable(filter, barrier)), outs, ins)
    requires n > 0 && Walk(StepsAround(f, barrier), i, j, n) && filter(j)
    ensures j in Get(outs, i)
    decreases n
  {
    var eq := BackwardEquations(Reachable(filter, barrier));
    var c: Node :| (i, c) in StepsAround(f, barrier) && Walk(StepsAround(f, barrier), c, j, n - 1);
    assert (i, c) in FlowEdges(f) && barrier != Some(c);
    assert Flows(f, i, c) && DependsOn(f, Backward, i, c);
    assert eq.edge(i, c, Get(ins, c)) == Get(ins, c);
    assert eq.node(c, Get(outs, c)) <= Get(ins, c);
    if n > 1 {
      SolutionHoldsWalks(f, filter, barrier, outs, ins, c, j, n - 1);
    }
  }

  ghost function ReachOuts(f: Function, filter: Inst -> bool, barrier: Option<Inst>): Facts
    requires WellFormed(f)
  {
    map i | i in Insts(f) :: ReachableFrom(f, filter, barrier, i)
  }

  ghost function ReachIns(f: Function, filter: Inst -> bool, barrier: Option<Inst>): Facts
    requires WellFormed(f)
  {
    map i | i in Insts(f) :: ReachableFrom(f, filter, barrier, i) + if filter(i) then {i} else {}
  }

  lemma ReachedAfterStep(f: Function, filter: Inst -> bool, barrier: Option<Inst>, i: Inst, c: Inst)
    requires WellFormed(f) && (i, c) in FlowEdges(f) && barrier != Some(c)
    ensures ReachableFrom(f, filter, barrier, c) + (if filter(c) then {c} else {}) <= ReachableFrom(f, filter, barrier, i)
  {
    var E := StepsAround(f, barrier);
    assert (i, c) in E;
    EdgeReaches(E, i, c);
    forall j | j in ReachableFrom(f, filter, barrier, c)
      ensures j in ReachableFrom(f, filter, barrier, i)
    {
      ReachesTrans(E, i, c, j);
    }
  }

  /** Reachability itself solves the equations. */
  lemma ReachabilitySolves(f: Function, filter: Inst -> bool, barrier: Option<Inst>)
    requires WellFormed(f)
    ensures Solves(f, Backward, BackwardEquations(Reachable(filter, barrier)), ReachOuts(f, filter, barrier), ReachIns(f, filter, barrier))
  {
    var eq := BackwardEquations(Reachable(filter, barrier));
    var outs, ins := ReachOuts(f, filter, barrier), ReachIns(f, filter, barrier);
    forall i: Node, c: Node | DependsOn(f, Backward, i, c)
      ensures eq.edge(i, c, Get(ins, c)) <= Get(outs, i)
    {
      FlowsWithin(f, i, c);
      if barrier != Some(c) {
        ReachedAfterStep(f, filter, barrier, i, c);
      }
    }
  }

  /** The least solution is exactly reachability by one or more steps. */
  lemma LeastIsReachability(f: Function, filter: Inst -> bool, barrier: Option<Inst>, outs: Facts, ins: Facts)
    requires WellFormed(f) && Least(f, Backward, BackwardEquations(Reachable(filter, barrier)), map[], map[], outs, ins)
    ensures forall i :: i in Insts(f) ==> Get(outs, i) == ReachableFrom(f, filter, barrier, i)
  {
    ReachabilitySolves(f, filter, barrier);
    var R := ReachOuts(f, filter, barrier);
    assert Leq(map[], R) && Leq(map[], ReachIns(f, filter, barrier));
    assert Leq(outs, R);
    forall i | i in Insts(f)
      ensures Get(outs, i) == ReachableFrom(f, filter, barrier, i)
    {
      forall j | j in ReachableFrom(f, filter, barrier, i)
        ensures j in Get(outs, i)
      {
        var n: nat :| n > 0 && Walk(StepsAround(f, barrier), i, j, n);
        SolutionHoldsWalks(f, filter, barrier, outs, ins, i, j, n);
      }
    }
  }

  method RunReachability(f: Function, filter: Inst -> bool, barrier: Option<Inst>) returns (df: DataFlowResult)
    requires WellFormed(f)
    ensures fresh(df)
    ensures forall i :: i in Insts(f) ==> Get(df.outs, i) == ReachableFrom(f, filter, barrier, i)
  {
    ReachableIsSolvable(f, filter, barrier);
    df := ApplyBackward(f, Reachable(filter, barrier), Insts(f));
    LeastIsReachability(f, filter, barrier, df.outs, df.ins);
  }

  /** OUT(i) = the instructions passing the filter that can run after i. */
  method RunReachableAnalysis(f: Function, filter: Inst -> bool) returns (df: DataFlowResult)
    requires WellFormed(f)
    ensures fresh(df)
    ensures forall i :: i in Insts(f) ==>
              Get(df.outs, i) == set j: Node | j in Insts(f) && filter(j) && Reaches(FlowEdges(f), i, j)
  {
    df := RunReachability(f, filter, None);
    assert StepsAround(f, None) == FlowEdges(f);
  }

  /** OUT(i) = the instructions that can run after i without stepping onto the header's first instruction. */
  method ComputeReachabilityFromInstructions(f: Function, header: nat) returns (df: DataFlowResult)
    requires WellFormed(f) && header < |f.blocks|
    ensures fresh(df)
    ensures forall i :: i in Insts(f) ==>
              Get(df.outs, i) == ReachableFrom(f, j => true, Some(First(f, header)), i)
    ensures forall i :: i in Insts(f) ==> First(f, header) !in Get(df.outs, i)
    ensures forall i, j :: i in Insts(f) && (i, j) in FlowEdges(f) && j != First(f, header) ==> j in Get(df.outs, i)
    ensures forall i, j, k :: i in Insts(f) && j in Get(df.outs, i) && (j, k) in FlowEdges(f) && k != First(f, header) ==> k in Get(df.outs, i)
    ensures forall i, k :: i in Insts(f) && k in Get(df.outs, i) ==>
              exists j :: (j == i || j in Get(df.outs, i)) && (j, k) in FlowEdges(f)
  {
    df := RunReachability(f, j => true, Some(First(f, header)));
    forall i | i in Insts(f)
      ensures First(f, header) !in Get(df.outs, i)
      ensures forall j :: (i, j) in FlowEdges(f) && j != First(f, header) ==> j in Get(df.outs, i)
      ensures forall j, k :: j in Get(df.outs, i) && (j, k) in FlowEdges(f) && k != First(f, header) ==> k in Get(df.outs, i)
      ensures forall k :: k in Get(df.outs, i) ==> exists j :: (j == i || j in Get(df.outs, i)) && (j, k) in FlowEdges(f)
    {
      AroundHeader(f, header, i);
    }
  }

  /** What is reached around the header: never the header itself, every step that does not enter it, and nothing
      but by such steps. */
  lemma AroundHeader(f: Function, header: nat, i: Inst)
    requires WellFormed(f) && header < |f.blocks| && i in Insts(f)
    ensures var h, reached := First(f, header), ReachableFrom(f, j => true, Some(First(f, header)), i);
            && h !in reached
            && (forall j :: (i, j) in FlowEdges(f) && j != h ==> j in reached)
            && (forall j, k :: j in reached && (j, k) in FlowEdges(f) && k != h ==> k in reached)
            && (forall k :: k in reached ==> exists j :: (j == i || j in reached) && (j, k) in FlowEdges(f))
  {
    var h := First(f, header);
    var E := StepsAround(f, Some(h));
    var reached := ReachableFrom(f, j => true, Some(h), i);
    forall k | k in reached
      ensures k != h && exists j :: (j == i || j in reached) && (j, k) in FlowEdges(f)
    {
      var j := ReachesLast(E, i, k);
      assert (j, k) in FlowEdges(f) && k != h;
    }
    forall j | (i, j) in FlowEdges(f) && j != h
      ensures j in reached
    {
      EdgeReaches(E, i, j);
    }
    forall j, k | j in reached && (j, k) in FlowEdges(f) && k != h
      ensures k in reached
    {
      EdgeReaches(E, j, k);
      ReachesTrans(E, i, j, k);
    }
  }

  /** Nothing that runs after i in the same iteration is lost: an instruction outside OUT(i) is reached
      from i only by passing through the header. */
  lemma {:induction false} OnlyThroughHeader(f: Function, header: nat, i: Inst, j: Inst, n: nat)
    requires WellFormed(f) && header < |f.blocks| && j in Insts(f)
    requires n > 0 && Walk(FlowEdges(f), i, j, n) && j !in ReachableFrom(f, k => true, Some(First(f, header)), i)
    ensures ReachesEq(FlowEdges(f), i, First(f, header)) && ReachesEq(FlowEdges(f), First(f, header), j)
    decreases n
  {
    var h := First(f, header);
    var E := StepsAround(f, Some(h));
    var c: Node :| (i, c) in FlowEdges(f) && Walk(FlowEdges(f), c, j, n - 1);
    EdgeReaches(FlowEdges(f), i, c);
    if c == h {
      assert n > 1 ==> Reaches(FlowEdges(f), c, j);
    } else {
      assert (i, c) in E;
      EdgeReaches(E, i, c);
      if Reaches(E, c, j) {
        ReachesTrans(E, i, c, j);
      }
      assert n > 1;
      OnlyThroughHeader(f, header, c, j, n - 1);
      ReachesTrans(FlowEdges(f), i, c, h);
    }
  }
}
