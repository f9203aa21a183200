/** Instruction-level data-flow equations, and what a block-level worklist has to keep
    so that its final sets are their least solution. Both directions share this module:
    A is the set computed from the neighbours (OUT backward, IN forward) and B the one
    computed from A (IN backward, OUT forward). */
module DataFlowEquations {
  import opened Graph

  type Inst = nat
  type Value = nat
  type Facts = map<Inst, set<Value>>

  datatype Block = Block(insts: seq<Inst>, succs: seq<nat>)
  datatype Function = Function(blocks: seq<Block>)
  datatype Direction = Forward | Backward

  /** What an engine inserts: into A[i] from B[n] of each neighbour n, and into B[i] from A[i]. */
  datatype Equations = Equations(
    edge: (Inst, Inst, set<Value>) -> set<Value>,
    node: (Inst, set<Value>) -> set<Value>)

  function Get(m: Facts, i: Inst): set<Value>
  {
    if i in m then m[i] else {}
  }

  function Insert(m: Facts, i: Inst, added: set<Value>): (r: Facts)
    ensures Get(r, i) == Get(m, i) + added
    ensures forall j :: j != i ==> Get(r, j) == Get(m, j)
  {
    m[i := Get(m, i) + added]
  }

  /** Blocks end in a terminator, every instruction has one position, and successors exist. */
  ghost predicate WellFormed(f: Function)
  {
    && (forall b :: 0 <= b < |f.blocks| ==> f.blocks[b].insts != [])
    && (forall b, s :: 0 <= b < |f.blocks| && s in f.blocks[b].succs ==> s < |f.blocks|)
    && (forall b, c, k, l {:trigger f.blocks[b].insts[k], f.blocks[c].insts[l]} ::
          0 <= b < |f.blocks| && 0 <= c < |f.blocks| && 0 <= k < |f.blocks[b].insts| && 0 <= l < |f.blocks[c].insts| ==>
            (f.blocks[b].insts[k] == f.blocks[c].insts[l] ==> b == c && k == l))
  }

  function Preds(f: Function, b: nat): set<nat>
  {
    set p | 0 <= p < |f.blocks| && b in f.blocks[p].succs
  }

  ghost function Insts(f: Function): set<Inst>
  {
    set b, k | 0 <= b < |f.blocks| && 0 <= k < |f.blocks[b].insts| :: f.blocks[b].insts[k]
  }

  /** From each instruction to those that may run right after it. */
  ghost predicate Flows(f: Function, i: Inst, j: Inst)
    requires WellFormed(f)
  {
    || (exists b, k :: NextInBlock(f, b, k, i, j))
    || (exists b: nat, s: nat :: BlockEdge(f, b, s, i, j))
  }

  ghost predicate BlockEdge(f: Function, b: nat, s: nat, i: Inst, j: Inst)
    requires WellFormed(f)
  {
    b < |f.blocks| && s in f.blocks[b].succs && i == Last(f, b) && j == First(f, s)
  }

  ghost predicate NextInBlock(f: Function, b: int, k: int, i: Inst, j: Inst)
  {
    0 <= b < |f.blocks| && 0 <= k < |f.blocks[b].insts| - 1 && f.blocks[b].insts[k] == i && f.blocks[b].insts[k + 1] == j
  }

  ghost function FlowEdges(f: Function): Edges
    requires WellFormed(f)
  {
    set i, j | i in Insts(f) && j in Insts(f) && Flows(f, i, j) :: (i, j)
  }

  function First(f: Function, b: nat): Inst
    requires WellFormed(f) && b < |f.blocks|
  {
    f.blocks[b].insts[0]
  }

  function Last(f: Function, b: nat): Inst
    requires WellFormed(f) && b < |f.blocks|
  {
    f.blocks[b].insts[|f.blocks[b].insts| - 1]
  }

  // ----- the equations -----

  ghost predicate DependsOn(f: Function, dir: Direction, i: Inst, n: Inst)
    requires WellFormed(f)
  {
    if dir == Forward then Flows(f, n, i) else Flows(f, i, n)
  }

  ghost predicate Solves(f: Function, dir: Direction, eq: Equations, A: Facts, B: Facts)
    requires WellFormed(f)
  {
    && (forall i, n :: DependsOn(f, dir, i, n) ==> eq.edge(i, n, Get(B, n)) <= Get(A, i))
    && (forall i :: i in Insts(f) ==> eq.node(i, Get(A, i)) <= Get(B, i))
  }

  ghost predicate Leq(m: Facts, n: Facts)
  {
    forall i :: Get(m, i) <= Get(n, i)
  }

  /** Every solution at or above the initial sets is at or above A and B. */
  ghost predicate Below(f: Function, dir: Direction, eq: Equations, A0: Facts, B0: Facts, A: Facts, B: Facts)
    requires WellFormed(f)
  {
    forall X: Facts, Y: Facts {:trigger Solves(f, dir, eq, X, Y)} ::
      Solves(f, dir, eq, X, Y) && Leq(A0, X) && Leq(B0, Y) ==> Leq(A, X) && Leq(B, Y)
  }

  /** The least solution at or above the initial sets. */
  ghost predicate Least(f: Function, dir: Direction, eq: Equations, A0: Facts, B0: Facts, A: Facts, B: Facts)
    requires WellFormed(f)
  {
    Solves(f, dir, eq, A, B) && Leq(A0, A) && Leq(B0, B) && Below(f, dir, eq, A0, B0, A, B)
  }

  ghost predicate Monotone(eq: Equations)
  {
    && (forall i, n, X: set<Value>, Y: set<Value> {:trigger eq.edge(i, n, X), eq.edge(i, n, Y)} :: X <= Y ==> eq.edge(i, n, X) <= eq.edge(i, n, Y))
    && (forall i, X: set<Value>, Y: set<Value> {:trigger eq.node(i, X), eq.node(i, Y)} :: X <= Y ==> eq.node(i, X) <= eq.node(i, Y))
  }

  /** The sets never leave a finite universe. */
  ghost predicate Bounded(f: Function, eq: Equations, U: set<Value>)
  {
    && (forall i, n, X: set<Value> {:trigger eq.edge(i, n, X)} :: X <= U ==> eq.edge(i, n, X) <= U)
    && (forall i, X: set<Value> {:trigger eq.node(i, X)} :: i in Insts(f) && X <= U ==> eq.node(i, X) <= U)
  }

  ghost predicate InUniverse(m: Facts, U: set<Value>)
  {
    forall i :: Get(m, i) <= U
  }

  /** What every insertion keeps: at or above the initial sets, at or below every solution, in the universe. */
  ghost predicate Between(f: Function, dir: Direction, eq: Equations, U: set<Value>, A0: Facts, B0: Facts, A: Facts, B: Facts)
    requires WellFormed(f)
  {
    && Leq(A0, A) && Leq(B0, B)
    && InUniverse(A, U) && InUniverse(B, U)
    && Below(f, dir, eq, A0, B0, A, B)
  }

  lemma InsertFromNeighbour(f: Function, dir: Direction, eq: Equations, U: set<Value>, A0: Facts, B0: Facts, A: Facts, B: Facts, i: Inst, n: Inst)
    requires WellFormed(f) && Monotone(eq) && Bounded(f, eq, U) && DependsOn(f, dir, i, n)
    requires Between(f, dir, eq, U, A0, B0, A, B)
    ensures Between(f, dir, eq, U, A0, B0, Insert(A, i, eq.edge(i, n, Get(B, n))), B)
  {
    forall X: Facts, Y: Facts {:trigger Solves(f, dir, eq, X, Y)} | Solves(f, dir, eq, X, Y) && Leq(A0, X) && Leq(B0, Y)
      ensures Leq(Insert(A, i, eq.edge(i, n, Get(B, n))), X)
    {
      assert eq.edge(i, n, Get(B, n)) <= eq.edge(i, n, Get(Y, n)) <= Get(X, i);
    }
  }

  lemma InsertFromSelf(f: Function, dir: Direction, eq: Equations, U: set<Value>, A0: Facts, B0: Facts, A: Facts, B: Facts, i: Inst)
    requires WellFormed(f) && Monotone(eq) && Bounded(f, eq, U) && i in Insts(f)
    requires Between(f, dir, eq, U, A0, B0, A, B)
    ensures Between(f, dir, eq, U, A0, B0, A, Insert(B, i, eq.node(i, Get(A, i))))
  {
    forall X: Facts, Y: Facts {:trigger Solves(f, dir, eq, X, Y)} | Solves(f, dir, eq, X, Y) && Leq(A0, X) && Leq(B0, Y)
      ensures Leq(Insert(B, i, eq.node(i, Get(A, i))), Y)
    {
      assert eq.node(i, Get(A, i)) <= eq.node(i, Get(X, i)) <= Get(Y, i);
    }
  }

  // ----- the equations seen block by block -----

  ghost function Length(f: Function, b: nat): nat
    requires b < |f.blocks|
  {
    |f.blocks[b].insts|
  }

  /** The k-th instruction of a block in the order in which facts travel. */
  ghost function At(f: Function, dir: Direction, b: nat, k: nat): Inst
    requires b < |f.blocks| && k < Length(f, b)
  {
    if dir == Forward then f.blocks[b].insts[k] else f.blocks[b].insts[|f.blocks[b].insts| - 1 - k]
  }

  ghost function Head(f: Function, dir: Direction, b: nat): Inst
    requires WellFormed(f) && b < |f.blocks|
  {
    At(f, dir, b, 0)
  }

  ghost function Tail(f: Function, dir: Direction, b: nat): Inst
    requires WellFormed(f) && b < |f.blocks|
  {
    At(f, dir, b, Length(f, b) - 1)
  }

  /** The blocks whose facts a block takes in. */
  ghost function Feeders(f: Function, dir: Direction, b: nat): set<nat>
    requires b < |f.blocks|
  {
    if dir == Forward then Preds(f, b) else set s | s in f.blocks[b].succs
  }

  ghost predicate NodeHolds(f: Function, dir: Direction, eq: Equations, b: nat, k: nat, A: Facts, B: Facts)
    requires b < |f.blocks| && k < Length(f, b)
  {
    eq.node(At(f, dir, b, k), Get(A, At(f, dir, b, k))) <= Get(B, At(f, dir, b, k))
  }

  ghost predicate LinkHolds(f: Function, dir: Direction, eq: Equations, b: nat, k: nat, A: Facts, B: Facts)
    requires b < |f.blocks| && 0 < k < Length(f, b)
  {
    eq.edge(At(f, dir, b, k), At(f, dir, b, k - 1), Get(B, At(f, dir, b, k - 1))) <= Get(A, At(f, dir, b, k))
  }

  /** The equations of the first m instructions of a block, without the one that looks at other blocks. */
  ghost predicate Interior(f: Function, dir: Direction, eq: Equations, b: nat, m: nat, A: Facts, B: Facts)
    requires b < |f.blocks| && m <= Length(f, b)
  {
    && (forall k :: 0 <= k < m ==> NodeHolds(f, dir, eq, b, k, A, B))
    && (forall k :: 0 < k < m ==> LinkHolds(f, dir, eq, b, k, A, B))
  }

  /** The head of block b has taken in the facts B of its feeders. */
  ghost predicate Fed(f: Function, dir: Direction, eq: Equations, b: nat, A: Facts, B: Facts)
    requires WellFormed(f) && b < |f.blocks|
  {
    FedFrom(f, dir, eq, b, Feeders(f, dir, b), A, B)
  }

  ghost predicate FedFrom(f: Function, dir: Direction, eq: Equations, b: nat, sources: set<nat>, A: Facts, B: Facts)
    requires WellFormed(f) && b < |f.blocks|
  {
    forall s :: s in sources ==> FedBy(f, dir, eq, b, s, A, B)
  }

  ghost predicate FedBy(f: Function, dir: Direction, eq: Equations, b: nat, s: nat, A: Facts, B: Facts)
    requires WellFormed(f) && b < |f.blocks|
  {
    s < |f.blocks| && eq.edge(Head(f, dir, b), Tail(f, dir, s), Get(B, Tail(f, dir, s))) <= Get(A, Head(f, dir, b))
  }

  /** Blocks computed once satisfy their interior equations, and blocks off the list are also fed. */
  ghost predicate Settled(f: Function, dir: Direction, eq: Equations, list: seq<nat>, done: set<nat>, A: Facts, B: Facts)
    requires WellFormed(f)
  {
    forall b :: 0 <= b < |f.blocks| ==>
      && (b in done ==> Interior(f, dir, eq, b, Length(f, b), A, B))
      && (b !in list ==> b in done && Fed(f, dir, eq, b, A, B))
  }

  /** What processing block b does: only its own instructions change, its head is fed, its interior
      equations hold, and when the facts were not propagated no B changed. */
  ghost predicate Processed(f: Function, dir: Direction, eq: Equations, b: nat, A: Facts, B: Facts, A': Facts, B': Facts, propagated: bool)
    requires WellFormed(f) && b < |f.blocks|
  {
    && Leq(A, A') && Leq(B, B')
    && OnlyBlock(f, b, A, A') && OnlyBlock(f, b, B, B')
    && Fed(f, dir, eq, b, A', B)
    && Interior(f, dir, eq, b, Length(f, b), A', B')
    && (!propagated ==> Leq(B', B))
  }

  ghost predicate OnlyBlock(f: Function, b: nat, m: Facts, m': Facts)
    requires b < |f.blocks|
  {
    forall i :: i !in f.blocks[b].insts ==> Get(m', i) == Get(m, i)
  }

  lemma AtInBlock(f: Function, dir: Direction, b: nat, k: nat, c: nat)
    requires WellFormed(f) && b < |f.blocks| && k < Length(f, b) && c < |f.blocks|
    ensures At(f, dir, b, k) in f.blocks[c].insts <==> b == c
    ensures At(f, dir, b, k) in Insts(f)
  {
  }

  lemma LinkDepends(f: Function, dir: Direction, b: nat, k: nat)
    requires WellFormed(f) && b < |f.blocks| && 0 < k < Length(f, b)
    ensures DependsOn(f, dir, At(f, dir, b, k), At(f, dir, b, k - 1))
  {
    if dir == Forward {
      assert NextInBlock(f, b, k - 1, At(f, dir, b, k - 1), At(f, dir, b, k));
    } else {
      assert NextInBlock(f, b, Length(f, b) - 1 - k, At(f, dir, b, k), At(f, dir, b, k - 1));
    }
  }

  lemma FeederDepends(f: Function, dir: Direction, b: nat, s: nat)
    requires WellFormed(f) && b < |f.blocks| && s in Feeders(f, dir, b)
    ensures s < |f.blocks| && DependsOn(f, dir, Head(f, dir, b), Tail(f, dir, s))
  {
    if dir == Forward {
      assert BlockEdge(f, s, b, Tail(f, dir, s), Head(f, dir, b));
    } else {
      assert BlockEdge(f, b, s, Head(f, dir, b), Tail(f, dir, s));
    }
  }

  /** Recomputing one more instruction of the chain extends the interior equations to it. */
  lemma InteriorExtend(f: Function, dir: Direction, eq: Equations, b: nat, m: nat, A: Facts, B: Facts)
    requires WellFormed(f) && b < |f.blocks| && 0 < m < Length(f, b) && Interior(f, dir, eq, b, m, A, B)
    ensures var i := At(f, dir, b, m);
            var n := At(f, dir, b, m - 1);
            var A' := Insert(A, i, eq.edge(i, n, Get(B, n)));
            var B' := Insert(B, i, eq.node(i, Get(A', i)));
            Interior(f, dir, eq, b, m + 1, A', B')
  {
    var i := At(f, dir, b, m);
    var n := At(f, dir, b, m - 1);
    var A' := Insert(A, i, eq.edge(i, n, Get(B, n)));
    var B' := Insert(B, i, eq.node(i, Get(A', i)));
    forall k | 0 <= k < m + 1
      ensures NodeHolds(f, dir, eq, b, k, A', B')
    {
      if k < m {
        DistinctInBlock(f, dir, b, k, m);
        assert NodeHolds(f, dir, eq, b, k, A, B);
      }
    }
    forall k | 0 < k < m + 1
      ensures LinkHolds(f, dir, eq, b, k, A', B')
    {
      DistinctInBlock(f, dir, b, k - 1, m);
      if k < m {
        DistinctInBlock(f, dir, b, k, m);
        assert LinkHolds(f, dir, eq, b, k, A, B);
      }
    }
  }

  lemma DistinctInBlock(f: Function, dir: Direction, b: nat, k: nat, m: nat)
    requires WellFormed(f) && b < |f.blocks| && k < Length(f, b) && m < Length(f, b) && k != m
    ensures At(f, dir, b, k) != At(f, dir, b, m)
  {
  }

  /** A block under way: its first m instructions are recomputed, starting from P and Q, head included. */
  ghost predicate Propagating(f: Function, dir: Direction, eq: Equations, U: set<Value>, A0: Facts, B0: Facts,
                              b: nat, m: nat, P: Facts, Q: Facts, A: Facts, B: Facts)
    requires WellFormed(f) && b < |f.blocks| && m <= Length(f, b)
  {
    && Between(f, dir, eq, U, A0, B0, A, B)
    && Interior(f, dir, eq, b, m, A, B)
    && Grown(f, dir, b, P, A) && Grown(f, dir, b, Q, B)
  }

  /** Facts grew inside block b, its head excepted. */
  ghost predicate Grown(f: Function, dir: Direction, b: nat, m: Facts, m': Facts)
    requires WellFormed(f) && b < |f.blocks|
  {
    Leq(m, m') && OnlyBlock(f, b, m, m') && Get(m', Head(f, dir, b)) == Get(m, Head(f, dir, b))
  }

  lemma GrownStep(f: Function, dir: Direction, b: nat, m: nat, P: Facts, A: Facts, added: set<Value>)
    requires WellFormed(f) && b < |f.blocks| && 0 < m < Length(f, b) && Grown(f, dir, b, P, A)
    ensures Grown(f, dir, b, P, Insert(A, At(f, dir, b, m), added))
  {
    DistinctInBlock(f, dir, b, 0, m);
    AtInBlock(f, dir, b, m, b);
  }

  lemma PropagateStep(f: Function, dir: Direction, eq: Equations, U: set<Value>, A0: Facts, B0: Facts,
                      b: nat, m: nat, P: Facts, Q: Facts, A: Facts, B: Facts)
    requires WellFormed(f) && b < |f.blocks| && 0 < m < Length(f, b) && Monotone(eq) && Bounded(f, eq, U)
    requires Propagating(f, dir, eq, U, A0, B0, b, m, P, Q, A, B)
    ensures var i := At(f, dir, b, m);
            var n := At(f, dir, b, m - 1);
            var A' := Insert(A, i, eq.edge(i, n, Get(B, n)));
            var B' := Insert(B, i, eq.node(i, Get(A', i)));
            Propagating(f, dir, eq, U, A0, B0, b, m + 1, P, Q, A', B')
  {
    var i := At(f, dir, b, m);
    var n := At(f, dir, b, m - 1);
    var A' := Insert(A, i, eq.edge(i, n, Get(B, n)));
    LinkDepends(f, dir, b, m);
    AtInBlock(f, dir, b, m, b);
    InteriorExtend(f, dir, eq, b, m, A, B);
    InsertFromNeighbour(f, dir, eq, U, A0, B0, A, B, i, n);
    InsertFromSelf(f, dir, eq, U, A0, B0, A', B, i);
    GrownStep(f, dir, b, m, P, A, eq.edge(i, n, Get(B, n)));
    GrownStep(f, dir, b, m, Q, B, eq.node(i, Get(A', i)));
  }

  /** Facts grew at the head of block b only. */
  ghost predicate HeadGrown(f: Function, dir: Direction, b: nat, m: Facts, m': Facts)
    requires WellFormed(f) && b < |f.blocks|
  {
    Leq(m, m') && forall i :: i != Head(f, dir, b) ==> Get(m', i) == Get(m, i)
  }

  /** The head takes in one more feeder. */
  lemma FeedStep(f: Function, dir: Direction, eq: Equations, U: set<Value>, A0: Facts, B0: Facts, b: nat, sources: set<nat>, s: nat,
                 P: Facts, A: Facts, B: Facts)
    requires WellFormed(f) && b < |f.blocks| && Monotone(eq) && Bounded(f, eq, U) && s in Feeders(f, dir, b)
    requires Between(f, dir, eq, U, A0, B0, A, B) && HeadGrown(f, dir, b, P, A) && FedFrom(f, dir, eq, b, sources, A, B)
    ensures s < |f.blocks|
    ensures var A' := Insert(A, Head(f, dir, b), eq.edge(Head(f, dir, b), Tail(f, dir, s), Get(B, Tail(f, dir, s))));
            && Between(f, dir, eq, U, A0, B0, A', B) && HeadGrown(f, dir, b, P, A')
            && FedFrom(f, dir, eq, b, sources + {s}, A', B)
  {
    FeederDepends(f, dir, b, s);
    InsertFromNeighbour(f, dir, eq, U, A0, B0, A, B, Head(f, dir, b), Tail(f, dir, s));
    var A' := Insert(A, Head(f, dir, b), eq.edge(Head(f, dir, b), Tail(f, dir, s), Get(B, Tail(f, dir, s))));
    forall q | q in sources + {s}
      ensures FedBy(f, dir, eq, b, q, A', B)
    {
      assert q != s ==> FedBy(f, dir, eq, b, q, A, B);
    }
  }

  /** Recomputing B of the head. Sizes tell whether it changed, because sets only grow. */
  lemma HeadStep(f: Function, dir: Direction, eq: Equations, U: set<Value>, A0: Facts, B0: Facts, b: nat, A: Facts, Q: Facts)
    requires WellFormed(f) && b < |f.blocks| && Monotone(eq) && Bounded(f, eq, U)
    requires Between(f, dir, eq, U, A0, B0, A, Q)
    ensures var h := Head(f, dir, b);
            var B := Insert(Q, h, eq.node(h, Get(A, h)));
            && Between(f, dir, eq, U, A0, B0, A, B)
            && HeadGrown(f, dir, b, Q, B) && NodeHolds(f, dir, eq, b, 0, A, B)
            && |Get(B, h)| >= |Get(Q, h)|
            && (|Get(B, h)| == |Get(Q, h)| <==> Get(B, h) == Get(Q, h))
  {
    var h := Head(f, dir, b);
    AtInBlock(f, dir, b, 0, b);
    InsertFromSelf(f, dir, eq, U, A0, B0, A, Q, h);
    SubsetSize(Get(Q, h), Get(Q, h) + eq.node(h, Get(A, h)));
  }

  /** The head was fed and recomputed, and then the rest of the block. */
  lemma PropagatedIsProcessed(f: Function, dir: Direction, eq: Equations, U: set<Value>, A0: Facts, B0: Facts,
                              b: nat, P: Facts, Q: Facts, A1: Facts, B1: Facts, A: Facts, B: Facts)
    requires WellFormed(f) && b < |f.blocks|
    requires HeadGrown(f, dir, b, P, A1) && HeadGrown(f, dir, b, Q, B1) && Fed(f, dir, eq, b, A1, Q)
    requires Propagating(f, dir, eq, U, A0, B0, b, Length(f, b), A1, B1, A, B)
    ensures Processed(f, dir, eq, b, P, Q, A, B, true)
  {
    AtInBlock(f, dir, b, 0, b);
    forall s | s in Feeders(f, dir, b)
      ensures FedBy(f, dir, eq, b, s, A, Q)
    {
      assert FedBy(f, dir, eq, b, s, A1, Q);
    }
  }

  /** When recomputing the head adds nothing to its B set, the rest of the block needs no recomputation:
      looking at one instruction is enough. */
  lemma HeadUnchangedIsProcessed(f: Function, dir: Direction, eq: Equations, b: nat, P: Facts, Q: Facts, A1: Facts, B1: Facts)
    requires WellFormed(f) && b < |f.blocks| && Interior(f, dir, eq, b, Length(f, b), P, Q)
    requires HeadGrown(f, dir, b, P, A1) && HeadGrown(f, dir, b, Q, B1) && Fed(f, dir, eq, b, A1, Q)
    requires Get(B1, Head(f, dir, b)) == Get(Q, Head(f, dir, b)) && NodeHolds(f, dir, eq, b, 0, A1, B1)
    ensures Processed(f, dir, eq, b, P, Q, A1, B1, false)
  {
    AtInBlock(f, dir, b, 0, b);
    forall k | 0 < k < Length(f, b)
      ensures NodeHolds(f, dir, eq, b, k, A1, B1) && LinkHolds(f, dir, eq, b, k, A1, B1)
    {
      DistinctInBlock(f, dir, b, k, 0);
      assert NodeHolds(f, dir, eq, b, k, P, Q) && LinkHolds(f, dir, eq, b, k, P, Q);
    }
  }

  lemma InteriorElsewhere(f: Function, dir: Direction, eq: Equations, b: nat, c: nat, A: Facts, B: Facts, A': Facts, B': Facts)
    requires WellFormed(f) && b < |f.blocks| && c < |f.blocks| && b != c
    requires OnlyBlock(f, b, A, A') && OnlyBlock(f, b, B, B')
    requires Interior(f, dir, eq, c, Length(f, c), A, B)
    ensures Interior(f, dir, eq, c, Length(f, c), A', B')
  {
    forall k | 0 <= k < Length(f, c)
      ensures NodeHolds(f, dir, eq, c, k, A', B')
    {
      AtInBlock(f, dir, c, k, b);
      assert NodeHolds(f, dir, eq, c, k, A, B);
    }
    forall k | 0 < k < Length(f, c)
      ensures LinkHolds(f, dir, eq, c, k, A', B')
    {
      AtInBlock(f, dir, c, k, b);
      AtInBlock(f, dir, c, k - 1, b);
      assert LinkHolds(f, dir, eq, c, k, A, B);
    }
  }

  /** A block other than b stays fed unless b feeds it and b's facts changed. */
  lemma FedElsewhere(f: Function, dir: Direction, eq: Equations, b: nat, c: nat, A: Facts, B: Facts, B': Facts)
    requires WellFormed(f) && b < |f.blocks| && c < |f.blocks|
    requires OnlyBlock(f, b, B, B') && Leq(B, B') && Fed(f, dir, eq, c, A, B)
    requires b in Feeders(f, dir, c) ==> Leq(B', B)
    ensures Fed(f, dir, eq, c, A, B')
  {
    forall s | s in Feeders(f, dir, c)
      ensures FedBy(f, dir, eq, c, s, A, B')
    {
      assert FedBy(f, dir, eq, c, s, A, B);
      var t := Tail(f, dir, s);
      AtInBlock(f, dir, s, Length(f, s) - 1, b);
      if s == b {
        assert Get(B, t) <= Get(B', t) <= Get(B, t);
      }
      assert Get(B', t) == Get(B, t);
    }
  }

  /** One turn of the worklist keeps the invariant, provided a change is announced to every block fed by b. */
  lemma TurnKeepsSettled(f: Function, dir: Direction, eq: Equations, list: seq<nat>, list': seq<nat>, done: set<nat>,
                         A: Facts, B: Facts, A': Facts, B': Facts, propagated: bool)
    requires WellFormed(f) && list != [] && list[0] < |f.blocks|
    requires Settled(f, dir, eq, list, done, A, B)
    requires Processed(f, dir, eq, list[0], A, B, A', B', propagated)
    requires forall c :: c in list[1..] ==> c in list'
    requires propagated ==> forall c :: 0 <= c < |f.blocks| && list[0] in Feeders(f, dir, c) ==> c in list'
    ensures Settled(f, dir, eq, list', done + {list[0]}, A', B')
  {
    var b := list[0];
    forall c: nat | 0 <= c < |f.blocks|
      ensures c in done + {b} ==> Interior(f, dir, eq, c, Length(f, c), A', B')
      ensures c !in list' ==> c in done + {b} && Fed(f, dir, eq, c, A', B')
    {
      if c != b && c in done {
        InteriorElsewhere(f, dir, eq, b, c, A, B, A', B');
      }
      if c !in list' {
        if c != b {
          assert c !in list;
          FedKept(f, dir, eq, b, c, A, A', B);
        }
        FedElsewhere(f, dir, eq, b, c, A', B, B');
      }
    }
  }

  lemma FedKept(f: Function, dir: Direction, eq: Equations, b: nat, c: nat, A: Facts, A': Facts, B: Facts)
    requires WellFormed(f) && b < |f.blocks| && c < |f.blocks| && b != c
    requires OnlyBlock(f, b, A, A') && Fed(f, dir, eq, c, A, B)
    ensures Fed(f, dir, eq, c, A', B)
  {
    AtInBlock(f, dir, c, 0, b);
    forall s | s in Feeders(f, dir, c)
      ensures FedBy(f, dir, eq, c, s, A', B)
    {
      assert FedBy(f, dir, eq, c, s, A, B);
    }
  }

  /** With an empty list every instruction-level equation holds. */
  lemma SettledSolves(f: Function, dir: Direction, eq: Equations, done: set<nat>, A: Facts, B: Facts)
    requires WellFormed(f) && Settled(f, dir, eq, [], done, A, B)
    ensures Solves(f, dir, eq, A, B)
  {
    forall i, n | DependsOn(f, dir, i, n)
      ensures eq.edge(i, n, Get(B, n)) <= Get(A, i)
    {
      DependenceHolds(f, dir, eq, done, A, B, i, n);
    }
    forall i | i in Insts(f)
      ensures eq.node(i, Get(A, i)) <= Get(B, i)
    {
      var b, k :| 0 <= b < |f.blocks| && 0 <= k < |f.blocks[b].insts| && f.blocks[b].insts[k] == i;
      var m := if dir == Forward then k else Length(f, b) - 1 - k;
      assert b !in [] && Interior(f, dir, eq, b, Length(f, b), A, B);
      assert At(f, dir, b, m) == i && NodeHolds(f, dir, eq, b, m, A, B);
    }
  }

  lemma DependenceHolds(f: Function, dir: Direction, eq: Equations, done: set<nat>, A: Facts, B: Facts, i: Inst, n: Inst)
    requires WellFormed(f) && Settled(f, dir, eq, [], done, A, B) && DependsOn(f, dir, i, n)
    ensures eq.edge(i, n, Get(B, n)) <= Get(A, i)
  {
    var from, to := if dir == Forward then n else i, if dir == Forward then i else n;
    if b, k :| NextInBlock(f, b, k, from, to) {
      var m := if dir == Forward then k + 1 else Length(f, b) - 1 - k;
      assert LinkHolds(f, dir, eq, b, m, A, B);
      assert At(f, dir, b, m) == i && At(f, dir, b, m - 1) == n;
    } else {
      var b: nat, s: nat :| BlockEdge(f, b, s, from, to);
      var c, d := if dir == Forward then s else b, if dir == Forward then b else s;
      assert Head(f, dir, c) == i && Tail(f, dir, d) == n;
      assert d in Feeders(f, dir, c) && c !in [] && FedBy(f, dir, eq, c, d, A, B);
    }
  }

  // ----- termination -----

  /** How many facts are still missing from the B sets of these instructions. */
  ghost function Slack(insts: seq<Inst>, U: set<Value>, B: Facts): nat
  {
    if insts == [] then 0 else |U - Get(B, insts[0])| + Slack(insts[1..], U, B)
  }

  ghost function Listing(blocks: seq<Block>): seq<Inst>
  {
    if blocks == [] then [] else blocks[0].insts + Listing(blocks[1..])
  }

  ghost function MissingCount(f: Function, U: set<Value>, B: Facts): nat
  {
    Slack(Listing(f.blocks), U, B)
  }

  /** How many of the first n blocks were never computed. */
  ghost function Remaining(n: nat, done: set<nat>): nat
  {
    if n == 0 then 0 else (if n - 1 in done then 0 else 1) + Remaining(n - 1, done)
  }

  lemma {:induction false} RemainingShrinks(n: nat, done: set<nat>, b: nat)
    ensures Remaining(n, done + {b}) <= Remaining(n, done)
    ensures b < n && b !in done ==> Remaining(n, done + {b}) < Remaining(n, done)
  {
    if n > 0 {
      RemainingShrinks(n - 1, done, b);
    }
  }

  lemma {:induction false} Listed(blocks: seq<Block>, b: nat, k: nat)
    requires b < |blocks| && k < |blocks[b].insts|
    ensures blocks[b].insts[k] in Listing(blocks)
  {
    if b > 0 {
      Listed(blocks[1..], b - 1, k);
    }
  }

  lemma {:induction false} SlackShrinks(insts: seq<Inst>, U: set<Value>, B: Facts, B': Facts, i: Inst)
    requires Leq(B, B') && InUniverse(B', U)
    ensures Slack(insts, U, B') <= Slack(insts, U, B)
    ensures i in insts && Get(B', i) != Get(B, i) ==> Slack(insts, U, B') < Slack(insts, U, B)
  {
    if insts != [] {
      SlackShrinks(insts[1..], U, B, B', i);
      SubsetSize(U - Get(B', insts[0]), U - Get(B, insts[0]));
      if insts[0] == i && Get(B', i) != Get(B, i) {
        var v :| v in Get(B', i) && v !in Get(B, i);
        assert v in U - Get(B, i) && v !in U - Get(B', i);
      }
    }
  }

  lemma MissingShrinks(f: Function, U: set<Value>, B: Facts, B': Facts, i: Inst)
    requires Leq(B, B') && InUniverse(B', U) && i in Insts(f)
    ensures MissingCount(f, U, B') <= MissingCount(f, U, B)
    ensures Get(B', i) != Get(B, i) ==> MissingCount(f, U, B') < MissingCount(f, U, B)
  {
    var b, k :| 0 <= b < |f.blocks| && 0 <= k < |f.blocks[b].insts| && f.blocks[b].insts[k] == i;
    Listed(f.blocks, b, k);
    SlackShrinks(Listing(f.blocks), U, B, B', i);
  }

  /** A turn keeps the invariant, and if it announced a change of a block computed before, facts were gained. */
  lemma Turn(f: Function, dir: Direction, eq: Equations, U: set<Value>, list: seq<nat>, list': seq<nat>, done: set<nat>,
             A: Facts, B: Facts, A': Facts, B': Facts, propagated: bool)
    requires WellFormed(f) && list != [] && list[0] < |f.blocks| && InUniverse(B', U)
    requires Settled(f, dir, eq, list, done, A, B)
    requires Processed(f, dir, eq, list[0], A, B, A', B', propagated)
    requires forall c :: c in list[1..] ==> c in list'
    requires propagated ==> forall c :: 0 <= c < |f.blocks| && list[0] in Feeders(f, dir, c) ==> c in list'
    ensures Settled(f, dir, eq, list', done + {list[0]}, A', B')
    ensures MissingCount(f, U, B') <= MissingCount(f, U, B)
    ensures Get(B', Head(f, dir, list[0])) != Get(B, Head(f, dir, list[0])) ==> MissingCount(f, U, B') < MissingCount(f, U, B)
    ensures Remaining(|f.blocks|, done + {list[0]}) <= Remaining(|f.blocks|, done)
    ensures list[0] !in done ==> Remaining(|f.blocks|, done + {list[0]}) < Remaining(|f.blocks|, done)
  {
    RemainingShrinks(|f.blocks|, done, list[0]);
    AtInBlock(f, dir, list[0], 0, list[0]);
    TurnKeepsSettled(f, dir, eq, list, list', done, A, B, A', B', propagated);
    MissingShrinks(f, U, B, B', Head(f, dir, list[0]));
  }
}
