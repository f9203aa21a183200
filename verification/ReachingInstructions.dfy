/** What the forward engine computes for a client that generates, passes on and kills: the instructions that
    reach another one without being killed on the way. */
module ReachingInstructions {
  import opened Graph
  import opened Options
  import opened DataFlowEquations
  import opened DataFlowEngine

  /** OUT[i] = {i} + IN[i] without what i kills; IN takes in OUT of every predecessor. */
  function Reaching(kill: Inst -> set<Inst>): ForwardAnalysis
  {
    ForwardAnalysis(
      i => {i},
      kill,
      i => {},
      i => {},
      (i, pred, outs) => outs,
      (i, gen, killed, ins) => gen + (ins - killed))
  }

  /** The flow edges along which i is passed on: those from i, and those from instructions that do not kill it. */
  ghost function StepsOf(f: Function, kill: Inst -> set<Inst>, i: Inst): Edges
    requires WellFormed(f)
  {
    set e | e in FlowEdges(f) && (e.0 == i || i !in kill(e.0))
  }

  ghost function ReachingAt(f: Function, kill: Inst -> set<Inst>, j: Inst): set<Inst>
    requires WellFormed(f)
  {
    set i: Node | i in Insts(f) && Reaches(StepsOf(f, kill, i), i, j)
  }

  lemma ReachingIsSolvable(f: Function, kill: Inst -> set<Inst>)
    requires WellFormed(f)
    ensures Monotone(ForwardEquations(Reaching(kill)))
    ensures Bounded(f, ForwardEquations(Reaching(kill)), Insts(f))
  {
  }

  /** What has left a is, in any solution, at the end of every walk that passes it on. */
  lemma {:induction false} SolutionPassesOn(f: Function, kill: Inst -> set<Inst>, ins: Facts, outs: Facts, i: Inst, a: Inst, j: Inst, n: nat)
    requires WellFormed(f) && Solves(f, Forward, ForwardEquations(Reaching(kill)), ins, outs)
    requires n > 0 && Walk(StepsOf(f, kill, i), a, j, n) && i in Get(outs, a)
    ensures i in Get(ins, j)
    decreases n
  {
    var eq := ForwardEquations(Reaching(kill));
    var c: Node :| (a, c) in StepsOf(f, kill, i) && Walk(StepsOf(f, kill, i), c, j, n - 1);
    assert (a, c) in FlowEdges(f) && c in Insts(f) && DependsOn(f, Forward, c, a);
    assert eq.edge(c, a, Get(outs, a)) == Get(outs, a) <= Get(ins, c);
    if n > 1 {
      var d: Node :| (c, d) in StepsOf(f, kill, i) && Walk(StepsOf(f, kill, i), d, j, n - 2);
      assert eq.node(c, Get(ins, c)) == {c} + (Get(ins, c) - kill(c)) <= Get(outs, c);
      SolutionPassesOn(f, kill, ins, outs, i, c, j, n - 1);
    }
  }

  ghost function ReachIns(f: Function, kill: Inst -> set<Inst>): Facts
    requires WellFormed(f)
  {
    map j | j in Insts(f) :: ReachingAt(f, kill, j)
  }

  ghost function ReachOuts(f: Function, kill: Inst -> set<Inst>): Facts
    requires WellFormed(f)
  {
    map j | j in Insts(f) :: {j} + (ReachingAt(f, kill, j) - kill(j))
  }

  lemma PassedOn(f: Function, kill: Inst -> set<Inst>, n: Inst, j: Inst)
    requires WellFormed(f) && (n, j) in FlowEdges(f)
    ensures {n} + (ReachingAt(f, kill, n) - kill(n)) <= ReachingAt(f, kill, j)
  {
    forall i | i in {n} + (ReachingAt(f, kill, n) - kill(n))
      ensures i in ReachingAt(f, kill, j)
    {
      var E := StepsOf(f, kill, i);
      assert (n, j) in E;
      EdgeReaches(E, n, j);
      if i != n {
        ReachesTrans(E, i, n, j);
      }
    }
  }

  lemma ReachingSolves(f: Function, kill: Inst -> set<Inst>)
    requires WellFormed(f)
    ensures Solves(f, Forward, ForwardEquations(Reaching(kill)), ReachIns(f, kill), ReachOuts(f, kill))
  {
    var eq := ForwardEquations(Reaching(kill));
    var ins, outs := ReachIns(f, kill), ReachOuts(f, kill);
    forall i: Node, n: Node | DependsOn(f, Forward, i, n)
      ensures eq.edge(i, n, Get(outs, n)) <= Get(ins, i)
    {
      assert Flows(f, n, i) && n in Insts(f) && i in Insts(f) && (n, i) in FlowEdges(f);
      PassedOn(f, kill, n, i);
    }
  }

  /** IN(j) = the instructions from which j can be reached without passing one that kills them. */
  method RunReachingAnalysis(f: Function, kill: Inst -> set<Inst>, appendBB: (seq<nat>, nat) -> seq<nat>) returns (df: DataFlowResult)
    requires WellFormed(f) && Appends(appendBB)
    ensures fresh(df)
    ensures forall j :: j in Insts(f) ==>
              Get(df.ins, j) == set i: Node | i in Insts(f) && Reaches(StepsOf(f, kill, i), i, j)
  {
    ReachingIsSolvable(f, kill);
    ghost var ins0, outs0;
    df, ins0, outs0 := ApplyCustomizableForwardAnalysis(f, Reaching(kill), appendBB, Insts(f));
    LeastIsReaching(f, kill, ins0, outs0, df.ins, df.outs);
  }

  lemma ReachedIsIn(f: Function, kill: Inst -> set<Inst>, ins: Facts, outs: Facts, j: Inst)
    requires WellFormed(f) && Solves(f, Forward, ForwardEquations(Reaching(kill)), ins, outs)
    ensures ReachingAt(f, kill, j) <= Get(ins, j)
  {
    forall i | i in ReachingAt(f, kill, j)
      ensures i in Get(ins, j)
    {
      var n: nat :| n > 0 && Walk(StepsOf(f, kill, i), i, j, n);
      assert ForwardEquations(Reaching(kill)).node(i, Get(ins, i)) <= Get(outs, i);
      SolutionPassesOn(f, kill, ins, outs, i, i, j, n);
    }
  }

  lemma InitiallyNothing(f: Function, m: Facts, n: Facts)
    requires Initial(f, i => {}, m)
    ensures Leq(m, n)
  {
    forall i ensures Get(m, i) <= Get(n, i) {
      assert i in m ==> m[i] == {};
    }
  }

  lemma LeastIsReaching(f: Function, kill: Inst -> set<Inst>, ins0: Facts, outs0: Facts, ins: Facts, outs: Facts)
    requires WellFormed(f) && Least(f, Forward, ForwardEquations(Reaching(kill)), ins0, outs0, ins, outs)
    requires Initial(f, i => {}, ins0) && Initial(f, i => {}, outs0)
    ensures forall j :: j in Insts(f) ==> Get(ins, j) == ReachingAt(f, kill, j)
  {
    ReachingSolves(f, kill);
    InitiallyNothing(f, ins0, ReachIns(f, kill));
    InitiallyNothing(f, outs0, ReachOuts(f, kill));
    assert Leq(ins, ReachIns(f, kill));
    forall j | j in Insts(f)
      ensures Get(ins, j) == ReachingAt(f, kill, j)
    {
      assert Get(ins, j) <= Get(ReachIns(f, kill), j) == ReachingAt(f, kill, j);
      ReachedIsIn(f, kill, ins, outs, j);
    }
  }
}
