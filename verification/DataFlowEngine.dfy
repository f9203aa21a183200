/** The block-level data-flow engines. Both solve instruction-level equations although they look at one
    instruction per block to decide whether anything changed. */
module DataFlowEngine {
  import opened DataFlowEquations

  /** The functions a client passes to the backward engine. */
  datatype BackwardAnalysis = BackwardAnalysis(
    computeGEN: Inst -> set<Value>,
    computeKILL: Inst -> set<Value>,
    computeIN: (Inst, set<Value>, set<Value>, set<Value>) -> set<Value>,
    computeOUT: (Inst, set<Value>) -> set<Value>)

  datatype ForwardAnalysis = ForwardAnalysis(
    computeGEN: Inst -> set<Value>,
    computeKILL: Inst -> set<Value>,
    initializeIN: Inst -> set<Value>,
    initializeOUT: Inst -> set<Value>,
    computeIN: (Inst, Inst, set<Value>) -> set<Value>,
    computeOUT: (Inst, set<Value>, set<Value>, set<Value>) -> set<Value>)

  /** OUT[i] takes in a function of IN of each successor; IN[i] one of GEN[i], KILL[i] and OUT[i]. */
  ghost function BackwardEquations(a: BackwardAnalysis): Equations
  {
    Equations((i, succ, s) => a.computeOUT(succ, s),
              (i, s) => a.computeIN(i, a.computeGEN(i), a.computeKILL(i), s))
  }

  ghost function ForwardEquations(a: ForwardAnalysis): Equations
  {
    Equations((i, pred, s) => a.computeIN(i, pred, s),
              (i, s) => a.computeOUT(i, a.computeGEN(i), a.computeKILL(i), s))
  }

  class DataFlowResult {
    var gens: Facts
    var kills: Facts
    var ins: Facts
    var outs: Facts

    constructor ()
      ensures gens == map[] && kills == map[] && ins == map[] && outs == map[]
    {
      gens, kills, ins, outs := map[], map[], map[], map[];
    }
  }

  /** GEN and KILL hold what the client computes for every instruction. */
  ghost predicate Holds(f: Function, computeGEN: Inst -> set<Value>, computeKILL: Inst -> set<Value>, gens: Facts, kills: Facts)
  {
    forall b, k {:trigger HoldsFor(f.blocks[b].insts[k], computeGEN, computeKILL, gens, kills)} ::
      0 <= b < |f.blocks| && 0 <= k < |f.blocks[b].insts| ==> HoldsFor(f.blocks[b].insts[k], computeGEN, computeKILL, gens, kills)
  }

  ghost predicate HoldsFor(i: Inst, computeGEN: Inst -> set<Value>, computeKILL: Inst -> set<Value>, gens: Facts, kills: Facts)
  {
    Get(gens, i) == computeGEN(i) && Get(kills, i) == computeKILL(i)
  }

  method ComputeGENAndKILL(f: Function, computeGEN: Inst -> set<Value>, computeKILL: Inst -> set<Value>, df: DataFlowResult)
    requires df.gens == map[] && df.kills == map[]
    modifies df`gens, df`kills
    ensures Holds(f, computeGEN, computeKILL, df.gens, df.kills)
  {
    for b := 0 to |f.blocks|
      invariant forall i :: Get(df.gens, i) <= computeGEN(i) && Get(df.kills, i) <= computeKILL(i)
      invariant forall c, k :: 0 <= c < b && 0 <= k < |f.blocks[c].insts| ==> HoldsFor(f.blocks[c].insts[k], computeGEN, computeKILL, df.gens, df.kills)
    {
      var insts := f.blocks[b].insts;
      for k := 0 to |insts|
        invariant forall i :: Get(df.gens, i) <= computeGEN(i) && Get(df.kills, i) <= computeKILL(i)
        invariant forall c, k :: 0 <= c < b && 0 <= k < |f.blocks[c].insts| ==> HoldsFor(f.blocks[c].insts[k], computeGEN, computeKILL, df.gens, df.kills)
        invariant forall l :: 0 <= l < k ==> HoldsFor(insts[l], computeGEN, computeKILL, df.gens, df.kills)
      {
        var i := insts[k];
        df.gens := Insert(df.gens, i, computeGEN(i));
        df.kills := Insert(df.kills, i, computeKILL(i));
      }
    }
  }

  ghost predicate BlocksOf(f: Function, list: seq<nat>)
  {
    forall k :: 0 <= k < |list| ==> list[k] < |f.blocks|
  }

  method PushBack(f: Function, list: seq<nat>, blocks: set<nat>) returns (longer: seq<nat>)
    requires BlocksOf(f, list) && forall b :: b in blocks ==> b < |f.blocks|
    ensures BlocksOf(f, longer)
    ensures forall b :: b in longer <==> b in list || b in blocks
  {
    longer := list;
    var rest := blocks;
    while rest != {}
      invariant rest <= blocks && BlocksOf(f, longer)
      invariant forall b :: b in longer <==> b in list || b in blocks - rest
      decreases rest
    {
      var b :| b in rest;
      rest := rest - {b};
      longer := longer + [b];
    }
  }

  // ----- backward -----

  ghost predicate BackwardReady(f: Function, a: BackwardAnalysis, U: set<Value>, outs: Facts, ins: Facts)
    requires WellFormed(f)
  {
    var eq := BackwardEquations(a);
    Monotone(eq) && Bounded(f, eq, U) && Between(f, Backward, eq, U, map[], map[], outs, ins)
  }

  /** OUT of the terminator takes in IN of the first instruction of every successor block. */
  method FeedTerminator(f: Function, a: BackwardAnalysis, ghost U: set<Value>, df: DataFlowResult, b: nat)
    requires WellFormed(f) && b < |f.blocks| && BackwardReady(f, a, U, df.outs, df.ins)
    modifies df`outs
    ensures BackwardReady(f, a, U, df.outs, df.ins)
    ensures Fed(f, Backward, BackwardEquations(a), b, df.outs, df.ins)
    ensures HeadGrown(f, Backward, b, old(df.outs), df.outs)
  {
    ghost var eq := BackwardEquations(a);
    var inst := Last(f, b);
    var succs := f.blocks[b].succs;
    ghost var sources: set<nat> := {};
    for k := 0 to |succs|
      invariant BackwardReady(f, a, U, df.outs, df.ins)
      invariant HeadGrown(f, Backward, b, old(df.outs), df.outs)
      invariant sources == (set s | s in succs[..k]) && FedFrom(f, Backward, eq, b, sources, df.outs, df.ins)
    {
      assert succs[..k + 1] == succs[..k] + [succs[k]];
      FeedStep(f, Backward, eq, U, map[], map[], b, sources, succs[k], old(df.outs), df.outs, df.ins);
      sources := sources + {succs[k]};
      var successorInst := First(f, succs[k]);
      df.outs := Insert(df.outs, inst, a.computeOUT(successorInst, Get(df.ins, successorInst)));
    }
    assert succs[..|succs|] == succs;
  }

  /** The first m instructions of a block, counted from its terminator, are recomputed. */
  ghost predicate BackwardUnderway(f: Function, a: BackwardAnalysis, U: set<Value>, b: nat, iter: nat, P: Facts, Q: Facts, outs: Facts, ins: Facts)
    requires WellFormed(f) && b < |f.blocks|
  {
    iter < Length(f, b) && Propagating(f, Backward, BackwardEquations(a), U, map[], map[], b, Length(f, b) - iter, P, Q, outs, ins)
  }

  ghost predicate Solvable(f: Function, eq: Equations, U: set<Value>)
  {
    Monotone(eq) && Bounded(f, eq, U)
  }

  lemma BackwardStep(f: Function, a: BackwardAnalysis, U: set<Value>, b: nat, iter: nat, P: Facts, Q: Facts, outs: Facts, ins: Facts)
    requires WellFormed(f) && b < |f.blocks| && 0 < iter && Solvable(f, BackwardEquations(a), U)
    requires BackwardUnderway(f, a, U, b, iter, P, Q, outs, ins)
    ensures iter < |f.blocks[b].insts|
    ensures var i, succI := f.blocks[b].insts[iter - 1], f.blocks[b].insts[iter];
            var outs' := Insert(outs, i, a.computeOUT(succI, Get(ins, succI)));
            var ins' := Insert(ins, i, a.computeIN(i, a.computeGEN(i), a.computeKILL(i), Get(outs', i)));
            BackwardUnderway(f, a, U, b, iter - 1, P, Q, outs', ins')
  {
    var m := Length(f, b) - iter;
    assert At(f, Backward, b, m) == f.blocks[b].insts[iter - 1] && At(f, Backward, b, m - 1) == f.blocks[b].insts[iter];
    PropagateStep(f, Backward, BackwardEquations(a), U, map[], map[], b, m, P, Q, outs, ins);
    assert Length(f, b) - (iter - 1) == m + 1;
  }

  /** From one instruction to the one before it. */
  method MoveUp(f: Function, a: BackwardAnalysis, ghost U: set<Value>, df: DataFlowResult, b: nat, iter: nat, ghost P: Facts, ghost Q: Facts)
    requires WellFormed(f) && b < |f.blocks| && 0 < iter && Holds(f, a.computeGEN, a.computeKILL, df.gens, df.kills)
    requires Solvable(f, BackwardEquations(a), U)
    requires BackwardUnderway(f, a, U, b, iter, P, Q, df.outs, df.ins)
    modifies df`ins, df`outs
    ensures BackwardUnderway(f, a, U, b, iter - 1, P, Q, df.outs, df.ins)
  {
    BackwardStep(f, a, U, b, iter, P, Q, df.outs, df.ins);
    var succI, i := f.blocks[b].insts[iter], f.blocks[b].insts[iter - 1];
    assert HoldsFor(f.blocks[b].insts[iter - 1], a.computeGEN, a.computeKILL, df.gens, df.kills);
    df.outs := Insert(df.outs, i, a.computeOUT(succI, Get(df.ins, succI)));
    df.ins := Insert(df.ins, i, a.computeIN(i, Get(df.gens, i), Get(df.kills, i), Get(df.outs, i)));
  }

  /** Walk a block upwards from its terminator. */
  method PropagateBackward(f: Function, a: BackwardAnalysis, ghost U: set<Value>, df: DataFlowResult, b: nat)
    requires WellFormed(f) && b < |f.blocks| && Holds(f, a.computeGEN, a.computeKILL, df.gens, df.kills)
    requires Solvable(f, BackwardEquations(a), U)
    requires BackwardUnderway(f, a, U, b, |f.blocks[b].insts| - 1, df.outs, df.ins, df.outs, df.ins)
    modifies df`ins, df`outs
    ensures BackwardUnderway(f, a, U, b, 0, old(df.outs), old(df.ins), df.outs, df.ins)
  {
    var iter := |f.blocks[b].insts| - 1;
    while iter != 0
      invariant 0 <= iter < |f.blocks[b].insts|
      invariant BackwardUnderway(f, a, U, b, iter, old(df.outs), old(df.ins), df.outs, df.ins)
    {
      MoveUp(f, a, U, df, b, iter, old(df.outs), old(df.ins));
      iter := iter - 1;
    }
  }

  /** One turn for one block; `propagated` tells whether its predecessors have to be looked at again. */
  method ProcessBackward(f: Function, a: BackwardAnalysis, ghost U: set<Value>, df: DataFlowResult, b: nat, computedOnce: set<nat>)
    returns (propagated: bool)
    requires WellFormed(f) && b < |f.blocks| && Holds(f, a.computeGEN, a.computeKILL, df.gens, df.kills)
    requires BackwardReady(f, a, U, df.outs, df.ins)
    requires b in computedOnce ==> Interior(f, Backward, BackwardEquations(a), b, Length(f, b), df.outs, df.ins)
    modifies df`ins, df`outs
    ensures BackwardReady(f, a, U, df.outs, df.ins)
    ensures Processed(f, Backward, BackwardEquations(a), b, old(df.outs), old(df.ins), df.outs, df.ins, propagated)
    ensures b in computedOnce && propagated ==> Get(df.ins, Last(f, b)) != Get(old(df.ins), Last(f, b))
    ensures b !in computedOnce ==> propagated
  {
    ghost var eq := BackwardEquations(a);
    var inst := Last(f, b);
    assert HoldsFor(f.blocks[b].insts[|f.blocks[b].insts| - 1], a.computeGEN, a.computeKILL, df.gens, df.kills);
    FeedTerminator(f, a, U, df, b);
    var oldSize := |Get(df.ins, inst)|;
    HeadStep(f, Backward, eq, U, map[], map[], b, df.outs, df.ins);
    df.ins := Insert(df.ins, inst, a.computeIN(inst, Get(df.gens, inst), Get(df.kills, inst), Get(df.outs, inst)));
    propagated := |Get(df.ins, inst)| > oldSize || b !in computedOnce;
    ghost var outs1, ins1 := df.outs, df.ins;
    if propagated {
      PropagateBackward(f, a, U, df, b);
      PropagatedIsProcessed(f, Backward, eq, U, map[], map[], b, old(df.outs), old(df.ins), outs1, ins1, df.outs, df.ins);
    } else {
      HeadUnchangedIsProcessed(f, Backward, eq, b, old(df.outs), old(df.ins), outs1, ins1);
    }
  }

  /** Whatever the client's monotone, bounded, grow-only functions are, the engine ends (its list may hold
      a block several times) and returns the least solution of the instruction-level equations. */
  method ApplyBackward(f: Function, a: BackwardAnalysis, ghost U: set<Value>) returns (df: DataFlowResult)
    requires WellFormed(f) && Monotone(BackwardEquations(a)) && Bounded(f, BackwardEquations(a), U)
    ensures fresh(df)
    ensures Least(f, Backward, BackwardEquations(a), map[], map[], df.outs, df.ins)
  {
    df := new DataFlowResult();
    ComputeGENAndKILL(f, a.computeGEN, a.computeKILL, df);
    var workingList: seq<nat> := [];
    for b := 0 to |f.blocks|
      invariant BlocksOf(f, workingList)
      invariant forall c :: c in workingList <==> 0 <= c < b
    {
      workingList := [b] + workingList;
    }
    RunBackward(f, a, U, df, workingList);
  }

  method TurnBackward(f: Function, a: BackwardAnalysis, ghost U: set<Value>, df: DataFlowResult, workingList: seq<nat>, computedOnce: set<nat>)
    returns (longer: seq<nat>, computed: set<nat>)
    requires WellFormed(f) && workingList != [] && BlocksOf(f, workingList)
    requires Holds(f, a.computeGEN, a.computeKILL, df.gens, df.kills) && BackwardReady(f, a, U, df.outs, df.ins)
    requires Settled(f, Backward, BackwardEquations(a), workingList, computedOnce, df.outs, df.ins)
    modifies df`ins, df`outs
    ensures BlocksOf(f, longer) && BackwardReady(f, a, U, df.outs, df.ins)
    ensures Settled(f, Backward, BackwardEquations(a), longer, computed, df.outs, df.ins)
    ensures MissingCount(f, U, df.ins) <= MissingCount(f, U, old(df.ins))
    ensures Remaining(|f.blocks|, computed) <= Remaining(|f.blocks|, computedOnce)
    ensures || MissingCount(f, U, df.ins) < MissingCount(f, U, old(df.ins))
            || Remaining(|f.blocks|, computed) < Remaining(|f.blocks|, computedOnce)
            || |longer| < |workingList|
  {
    var b := workingList[0];
    var propagated := ProcessBackward(f, a, U, df, b, computedOnce);
    longer, computed := workingList[1..], computedOnce;
    if propagated {
      computed := computed + {b};
      longer := PushBack(f, longer, Preds(f, b));
    }
    assert computed == computedOnce + {b};
    Turn(f, Backward, BackwardEquations(a), U, workingList, longer, computedOnce, old(df.outs), old(df.ins), df.outs, df.ins, propagated);
  }

  method RunBackward(f: Function, a: BackwardAnalysis, ghost U: set<Value>, df: DataFlowResult, initialList: seq<nat>)
    requires WellFormed(f) && BlocksOf(f, initialList) && forall b :: 0 <= b < |f.blocks| ==> b in initialList
    requires Holds(f, a.computeGEN, a.computeKILL, df.gens, df.kills) && BackwardReady(f, a, U, df.outs, df.ins)
    modifies df`ins, df`outs
    ensures Least(f, Backward, BackwardEquations(a), map[], map[], df.outs, df.ins)
  {
    var workingList := initialList;
    var computedOnce: set<nat> := {};
    while workingList != []
      invariant BlocksOf(f, workingList)
      invariant Holds(f, a.computeGEN, a.computeKILL, df.gens, df.kills)
      invariant BackwardReady(f, a, U, df.outs, df.ins)
      invariant Settled(f, Backward, BackwardEquations(a), workingList, computedOnce, df.outs, df.ins)
      decreases MissingCount(f, U, df.ins), Remaining(|f.blocks|, computedOnce), |workingList|
    {
      workingList, computedOnce := TurnBackward(f, a, U, df, workingList, computedOnce);
    }
    SettledSolves(f, Backward, BackwardEquations(a), computedOnce, df.outs, df.ins);
  }

  // ----- forward -----

  ghost predicate ForwardReady(f: Function, a: ForwardAnalysis, U: set<Value>, ins0: Facts, outs0: Facts, ins: Facts, outs: Facts)
    requires WellFormed(f)
  {
    var eq := ForwardEquations(a);
    Monotone(eq) && Bounded(f, eq, U) && Between(f, Forward, eq, U, ins0, outs0, ins, outs)
  }

  /** The sets the initialisation functions give, on exactly the instructions of f. */
  ghost predicate Initial(f: Function, init: Inst -> set<Value>, m: Facts)
  {
    && InitialOn(f, init, m)
    && forall b :: 0 <= b < |f.blocks| ==> Covers(f.blocks[b].insts, m)
  }

  ghost predicate InitialOn(f: Function, init: Inst -> set<Value>, m: Facts)
  {
    forall i :: i in m ==> i in Insts(f) && m[i] == init(i)
  }

  ghost predicate Covers(insts: seq<Inst>, m: Facts)
  {
    forall k :: 0 <= k < |insts| ==> insts[k] in m
  }

  lemma InitialInUniverse(f: Function, init: Inst -> set<Value>, m: Facts, U: set<Value>)
    requires Initial(f, init, m) && forall i :: init(i) <= U
    ensures InUniverse(m, U)
  {
  }

  lemma InitialStep(f: Function, init: Inst -> set<Value>, m: Facts, b: nat, k: nat)
    requires b < |f.blocks| && k < |f.blocks[b].insts| && InitialOn(f, init, m)
    ensures InitialOn(f, init, m[f.blocks[b].insts[k] := init(f.blocks[b].insts[k])])
  {
  }

  method InitializeSets(f: Function, a: ForwardAnalysis, df: DataFlowResult)
    requires WellFormed(f) && df.ins == map[] && df.outs == map[]
    modifies df`ins, df`outs
    ensures Initial(f, a.initializeIN, df.ins) && Initial(f, a.initializeOUT, df.outs)
  {
    for b := 0 to |f.blocks|
      invariant InitialOn(f, a.initializeIN, df.ins) && InitialOn(f, a.initializeOUT, df.outs)
      invariant forall c :: 0 <= c < b ==> Covers(f.blocks[c].insts, df.ins) && Covers(f.blocks[c].insts, df.outs)
    {
      InitializeBlock(f, a, df, b);
    }
  }

  method InitializeBlock(f: Function, a: ForwardAnalysis, df: DataFlowResult, b: nat)
    requires b < |f.blocks| && InitialOn(f, a.initializeIN, df.ins) && InitialOn(f, a.initializeOUT, df.outs)
    modifies df`ins, df`outs
    ensures InitialOn(f, a.initializeIN, df.ins) && InitialOn(f, a.initializeOUT, df.outs)
    ensures Covers(f.blocks[b].insts, df.ins) && Covers(f.blocks[b].insts, df.outs)
    ensures old(df.ins.Keys) <= df.ins.Keys && old(df.outs.Keys) <= df.outs.Keys
  {
    var insts := f.blocks[b].insts;
    for k := 0 to |insts|
      invariant InitialOn(f, a.initializeIN, df.ins) && InitialOn(f, a.initializeOUT, df.outs)
      invariant forall l :: 0 <= l < k ==> insts[l] in df.ins && insts[l] in df.outs
      invariant old(df.ins.Keys) <= df.ins.Keys && old(df.outs.Keys) <= df.outs.Keys
    {
      InitialStep(f, a.initializeIN, df.ins, b, k);
      InitialStep(f, a.initializeOUT, df.outs, b, k);
      df.ins := df.ins[insts[k] := a.initializeIN(insts[k])];
      df.outs := df.outs[insts[k] := a.initializeOUT(insts[k])];
    }
  }

  /** IN of the first instruction takes in OUT of the terminator of every predecessor block. */
  method FeedFirst(f: Function, a: ForwardAnalysis, ghost U: set<Value>, ghost ins0: Facts, ghost outs0: Facts, df: DataFlowResult, b: nat)
    requires WellFormed(f) && b < |f.blocks| && ForwardReady(f, a, U, ins0, outs0, df.ins, df.outs)
    modifies df`ins
    ensures ForwardReady(f, a, U, ins0, outs0, df.ins, df.outs)
    ensures Fed(f, Forward, ForwardEquations(a), b, df.ins, df.outs)
    ensures HeadGrown(f, Forward, b, old(df.ins), df.ins)
  {
    ghost var eq := ForwardEquations(a);
    var inst := First(f, b);
    var preds := Preds(f, b);
    var rest := preds;
    while rest != {}
      invariant rest <= preds
      invariant ForwardReady(f, a, U, ins0, outs0, df.ins, df.outs)
      invariant HeadGrown(f, Forward, b, old(df.ins), df.ins)
      invariant FedFrom(f, Forward, eq, b, preds - rest, df.ins, df.outs)
      decreases rest
    {
      var p :| p in rest;
      FeedStep(f, Forward, eq, U, ins0, outs0, b, preds - rest, p, old(df.ins), df.ins, df.outs);
      assert preds - (rest - {p}) == preds - rest + {p};
      rest := rest - {p};
      var predecessorInst := Last(f, p);
      df.ins := Insert(df.ins, inst, a.computeIN(inst, predecessorInst, Get(df.outs, predecessorInst)));
    }
  }

  lemma PropagateForwardStep(f: Function, a: ForwardAnalysis, U: set<Value>, ins0: Facts, outs0: Facts, b: nat, m: nat,
                             P: Facts, Q: Facts, ins: Facts, outs: Facts)
    requires WellFormed(f) && b < |f.blocks| && 0 < m < Length(f, b)
    requires Monotone(ForwardEquations(a)) && Bounded(f, ForwardEquations(a), U)
    requires Propagating(f, Forward, ForwardEquations(a), U, ins0, outs0, b, m, P, Q, ins, outs)
    ensures var i, predI := f.blocks[b].insts[m], f.blocks[b].insts[m - 1];
            var ins' := Insert(ins, i, a.computeIN(i, predI, Get(outs, predI)));
            var outs' := Insert(outs, i, a.computeOUT(i, a.computeGEN(i), a.computeKILL(i), Get(ins', i)));
            Propagating(f, Forward, ForwardEquations(a), U, ins0, outs0, b, m + 1, P, Q, ins', outs')
  {
    PropagateStep(f, Forward, ForwardEquations(a), U, ins0, outs0, b, m, P, Q, ins, outs);
  }

  /** Walk a block downwards from its first instruction. */
  method PropagateForward(f: Function, a: ForwardAnalysis, ghost U: set<Value>, ghost ins0: Facts, ghost outs0: Facts, df: DataFlowResult, b: nat)
    requires WellFormed(f) && b < |f.blocks| && Holds(f, a.computeGEN, a.computeKILL, df.gens, df.kills)
    requires ForwardReady(f, a, U, ins0, outs0, df.ins, df.outs)
    requires NodeHolds(f, Forward, ForwardEquations(a), b, 0, df.ins, df.outs)
    modifies df`ins, df`outs
    ensures Propagating(f, Forward, ForwardEquations(a), U, ins0, outs0, b, Length(f, b), old(df.ins), old(df.outs), df.ins, df.outs)
  {
    ghost var eq := ForwardEquations(a);
    var insts := f.blocks[b].insts;
    var predI := First(f, b);
    var iter := 1;
    while iter != |insts|
      invariant 1 <= iter <= |insts| && predI == insts[iter - 1]
      invariant Propagating(f, Forward, eq, U, ins0, outs0, b, iter, old(df.ins), old(df.outs), df.ins, df.outs)
    {
      PropagateForwardStep(f, a, U, ins0, outs0, b, iter, old(df.ins), old(df.outs), df.ins, df.outs);
      var i := insts[iter];
      assert HoldsFor(f.blocks[b].insts[iter], a.computeGEN, a.computeKILL, df.gens, df.kills);
      df.ins := Insert(df.ins, i, a.computeIN(i, predI, Get(df.outs, predI)));
      df.outs := Insert(df.outs, i, a.computeOUT(i, Get(df.gens, i), Get(df.kills, i), Get(df.ins, i)));
      predI := i;
      iter := iter + 1;
    }
  }

  method ProcessForward(f: Function, a: ForwardAnalysis, ghost U: set<Value>, ghost ins0: Facts, ghost outs0: Facts, df: DataFlowResult, b: nat,
                        alreadyVisited: set<Inst>, ghost done: set<nat>)
    returns (propagated: bool, visited: set<Inst>)
    requires WellFormed(f) && b < |f.blocks| && Holds(f, a.computeGEN, a.computeKILL, df.gens, df.kills)
    requires ForwardReady(f, a, U, ins0, outs0, df.ins, df.outs)
    requires VisitedFirsts(f, done, alreadyVisited)
    requires b in done ==> Interior(f, Forward, ForwardEquations(a), b, Length(f, b), df.ins, df.outs)
    modifies df`ins, df`outs
    ensures ForwardReady(f, a, U, ins0, outs0, df.ins, df.outs)
    ensures Processed(f, Forward, ForwardEquations(a), b, old(df.ins), old(df.outs), df.ins, df.outs, propagated)
    ensures b in done && propagated ==> Get(df.outs, First(f, b)) != Get(old(df.outs), First(f, b))
    ensures b !in done ==> propagated
    ensures VisitedFirsts(f, done + {b}, visited)
  {
    ghost var eq := ForwardEquations(a);
    var inst := First(f, b);
    assert HoldsFor(f.blocks[b].insts[0], a.computeGEN, a.computeKILL, df.gens, df.kills);
    FeedFirst(f, a, U, ins0, outs0, df, b);
    var oldSize := |Get(df.outs, inst)|;
    HeadStep(f, Forward, eq, U, ins0, outs0, b, df.ins, df.outs);
    df.outs := Insert(df.outs, inst, a.computeOUT(inst, Get(df.gens, inst), Get(df.kills, inst), Get(df.ins, inst)));
    propagated := inst !in alreadyVisited || |Get(df.outs, inst)| != oldSize;
    ghost var ins1, outs1 := df.ins, df.outs;
    visited := alreadyVisited;
    VisitedStep(f, done, alreadyVisited, b);
    if propagated {
      visited := visited + {inst};
      PropagateForward(f, a, U, ins0, outs0, df, b);
      PropagatedIsProcessed(f, Forward, eq, U, ins0, outs0, b, old(df.ins), old(df.outs), ins1, outs1, df.ins, df.outs);
    } else {
      HeadUnchangedIsProcessed(f, Forward, eq, b, old(df.ins), old(df.outs), ins1, outs1);
    }
  }

  /** The membership map says how often a block is on the list: once or not at all. */
  ghost predicate Mirrors(f: Function, list: seq<nat>, content: map<nat, bool>)
  {
    && (forall b :: 0 <= b < |f.blocks| ==> b in content)
    && (forall b :: b in content ==> multiset(list)[b] == if content[b] then 1 else 0)
    && (forall b :: b in list ==> b in content)
  }

  /** Queue the successors that are not on the list. */
  method PushSuccessors(f: Function, list: seq<nat>, content: map<nat, bool>, b: nat) returns (longer: seq<nat>, marked: map<nat, bool>)
    requires WellFormed(f) && b < |f.blocks| && BlocksOf(f, list) && Mirrors(f, list, content)
    ensures BlocksOf(f, longer) && Mirrors(f, longer, marked)
    ensures forall c :: c in longer <==> c in list || c in f.blocks[b].succs
  {
    longer, marked := list, content;
    var succs := f.blocks[b].succs;
    for k := 0 to |succs|
      invariant BlocksOf(f, longer) && Mirrors(f, longer, marked)
      invariant forall c :: c in longer <==> c in list || c in succs[..k]
    {
      assert succs[k] in succs && succs[..k + 1] == succs[..k] + [succs[k]];
      if marked[succs[k]] == true {
        assert multiset(longer)[succs[k]] == 1;
        continue;
      }
      longer := longer + [succs[k]];
      marked := marked[succs[k] := true];
    }
    assert succs[..|succs|] == succs;
  }

  /** appendBB may put a block anywhere, but adds it once and nothing else. */
  ghost predicate Appends(appendBB: (seq<nat>, nat) -> seq<nat>)
  {
    forall l: seq<nat>, b: nat :: multiset(appendBB(l, b)) == multiset(l) + multiset{b}
  }

  method InitialList(f: Function, appendBB: (seq<nat>, nat) -> seq<nat>) returns (workingList: seq<nat>, content: map<nat, bool>)
    requires Appends(appendBB)
    ensures BlocksOf(f, workingList) && Mirrors(f, workingList, content)
    ensures forall b :: 0 <= b < |f.blocks| ==> b in workingList
  {
    workingList, content := [], map[];
    for b: nat := 0 to |f.blocks|
      invariant forall c :: c in content <==> 0 <= c < b
      invariant forall c :: c in content ==> content[c]
      invariant forall c {:trigger multiset(workingList)[c]} :: multiset(workingList)[c] == if c in content then 1 else 0
    {
      var longer := appendBB(workingList, b);
      assert multiset(longer) == multiset(workingList) + multiset{b};
      workingList := longer;
      content := content[b := true];
    }
    forall k | 0 <= k < |workingList|
      ensures workingList[k] < |f.blocks|
    {
      assert workingList[k] in multiset(workingList);
    }
    forall b | 0 <= b < |f.blocks|
      ensures b in workingList
    {
      assert multiset(workingList)[b] == 1;
    }
    forall b | b in workingList
      ensures b in content
    {
      assert multiset(workingList)[b] > 0;
    }
  }

  method PopFront(f: Function, list: seq<nat>, content: map<nat, bool>) returns (b: nat, rest: seq<nat>, marked: map<nat, bool>)
    requires list != [] && BlocksOf(f, list) && Mirrors(f, list, content)
    ensures b == list[0] && rest == list[1..]
    ensures BlocksOf(f, rest) && Mirrors(f, rest, marked)
  {
    b := list[0];
    assert list == [b] + list[1..];
    assert multiset(list) == multiset{b} + multiset(list[1..]);
    assert b in list;
    assert content[b] == true;
    rest, marked := list[1..], content[b := false];
  }

  /** Ends with the least solution at or above the initial sets; the assertion on the membership map never fails. */
  method ApplyCustomizableForwardAnalysis(f: Function, a: ForwardAnalysis, appendBB: (seq<nat>, nat) -> seq<nat>, ghost U: set<Value>)
    returns (df: DataFlowResult, ghost ins0: Facts, ghost outs0: Facts)
    requires WellFormed(f) && Monotone(ForwardEquations(a)) && Bounded(f, ForwardEquations(a), U) && Appends(appendBB)
    requires forall i :: a.initializeIN(i) <= U && a.initializeOUT(i) <= U
    ensures fresh(df)
    ensures Initial(f, a.initializeIN, ins0) && Initial(f, a.initializeOUT, outs0)
    ensures Least(f, Forward, ForwardEquations(a), ins0, outs0, df.ins, df.outs)
  {
    ghost var eq := ForwardEquations(a);
    df := new DataFlowResult();
    InitializeSets(f, a, df);
    ins0, outs0 := df.ins, df.outs;
    InitialInUniverse(f, a.initializeIN, ins0, U);
    InitialInUniverse(f, a.initializeOUT, outs0, U);
    ComputeGENAndKILL(f, a.computeGEN, a.computeKILL, df);
    var workingList, workingListContent := InitialList(f, appendBB);
    RunForward(f, a, U, ins0, outs0, df, workingList, workingListContent);
  }

  method TurnForward(f: Function, a: ForwardAnalysis, ghost U: set<Value>, ghost ins0: Facts, ghost outs0: Facts, df: DataFlowResult,
                     workingList: seq<nat>, content: map<nat, bool>, alreadyVisited: set<Inst>, ghost done: set<nat>)
    returns (longer: seq<nat>, marked: map<nat, bool>, visited: set<Inst>)
    requires WellFormed(f) && workingList != [] && BlocksOf(f, workingList) && Mirrors(f, workingList, content)
    requires Holds(f, a.computeGEN, a.computeKILL, df.gens, df.kills) && ForwardReady(f, a, U, ins0, outs0, df.ins, df.outs)
    requires Settled(f, Forward, ForwardEquations(a), workingList, done, df.ins, df.outs) && VisitedFirsts(f, done, alreadyVisited)
    modifies df`ins, df`outs
    ensures BlocksOf(f, longer) && Mirrors(f, longer, marked)
    ensures ForwardReady(f, a, U, ins0, outs0, df.ins, df.outs)
    ensures Settled(f, Forward, ForwardEquations(a), longer, done + {workingList[0]}, df.ins, df.outs)
    ensures VisitedFirsts(f, done + {workingList[0]}, visited)
    ensures MissingCount(f, U, df.outs) <= MissingCount(f, U, old(df.outs))
    ensures Remaining(|f.blocks|, done + {workingList[0]}) <= Remaining(|f.blocks|, done)
    ensures || MissingCount(f, U, df.outs) < MissingCount(f, U, old(df.outs))
            || Remaining(|f.blocks|, done + {workingList[0]}) < Remaining(|f.blocks|, done)
            || |longer| < |workingList|
  {
    var b, rest, unmarked := PopFront(f, workingList, content);
    var propagated;
    propagated, visited := ProcessForward(f, a, U, ins0, outs0, df, b, alreadyVisited, done);
    if propagated {
      longer, marked := PushSuccessors(f, rest, unmarked, b);
    } else {
      longer, marked := rest, unmarked;
    }
    Turn(f, Forward, ForwardEquations(a), U, workingList, longer, done, old(df.ins), old(df.outs), df.ins, df.outs, propagated);
  }

  method RunForward(f: Function, a: ForwardAnalysis, ghost U: set<Value>, ghost ins0: Facts, ghost outs0: Facts, df: DataFlowResult,
                    initialList: seq<nat>, initialContent: map<nat, bool>)
    requires WellFormed(f) && Holds(f, a.computeGEN, a.computeKILL, df.gens, df.kills)
    requires ForwardReady(f, a, U, ins0, outs0, df.ins, df.outs)
    requires BlocksOf(f, initialList) && Mirrors(f, initialList, initialContent)
    requires forall b :: 0 <= b < |f.blocks| ==> b in initialList
    modifies df`ins, df`outs
    ensures Least(f, Forward, ForwardEquations(a), ins0, outs0, df.ins, df.outs)
  {
    ghost var eq := ForwardEquations(a);
    var workingList, workingListContent := initialList, initialContent;
    var alreadyVisited: set<Inst> := {};
    ghost var done: set<nat> := {};
    while workingList != []
      invariant BlocksOf(f, workingList) && Mirrors(f, workingList, workingListContent)
      invariant Holds(f, a.computeGEN, a.computeKILL, df.gens, df.kills)
      invariant ForwardReady(f, a, U, ins0, outs0, df.ins, df.outs)
      invariant Settled(f, Forward, eq, workingList, done, df.ins, df.outs)
      invariant VisitedFirsts(f, done, alreadyVisited)
      decreases MissingCount(f, U, df.outs), Remaining(|f.blocks|, done), |workingList|
    {
      var b := workingList[0];
      workingList, workingListContent, alreadyVisited :=
        TurnForward(f, a, U, ins0, outs0, df, workingList, workingListContent, alreadyVisited, done);
      done := done + {b};
    }
    SettledSolves(f, Forward, eq, done, df.ins, df.outs);
  }

  ghost predicate VisitedFirsts(f: Function, done: set<nat>, visited: set<Inst>)
    requires WellFormed(f)
  {
    forall b :: 0 <= b < |f.blocks| ==> (b in done <==> First(f, b) in visited)
  }

  lemma VisitedStep(f: Function, done: set<nat>, visited: set<Inst>, b: nat)
    requires WellFormed(f) && b < |f.blocks| && VisitedFirsts(f, done, visited)
    ensures VisitedFirsts(f, done + {b}, visited + {First(f, b)})
    ensures First(f, b) in visited ==> visited + {First(f, b)} == visited && done + {b} == done
  {
  }
}
