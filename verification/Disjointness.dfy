/** Subscripts computed from an induction variable, the check that takes them for one-to-one, and when
    that is right. */
module Disjointness {
  import opened Graph

  // ----- subscripts derived from an induction variable -----

  datatype Opcode = AddOp | SubOp | MulOp | CastOp | OtherOp

  datatype Operand = ConstantInt(value: int) | Computed(id: nat) | NotAnInstruction

  datatype Inst = Inst(opcode: Opcode, operands: seq<Operand>)

  /** The instructions of a function numbered in execution order, which of them the loop includes, the
      instructions of the induction variable (each a fixed distance from its value), and what the
      instructions outside the loop hold. */
  datatype Code = Code(insts: map<nat, Inst>, inLoop: set<nat>, ivInsts: map<nat, int>, outside: nat -> int)

  ghost predicate WellFormed(code: Code)
  {
    && (forall n, k :: n in code.insts && 0 <= k < |code.insts[n].operands| && code.insts[n].operands[k].Computed? ==>
          code.insts[n].operands[k].id in code.insts)
    && (forall n, k :: n in code.insts && n !in code.ivInsts && 0 <= k < |code.insts[n].operands| && InLoopOperand(code, code.insts[n].operands[k]) ==>
          code.insts[n].operands[k].id < n)
    && (forall n :: n in code.insts ==> Arity(code.insts[n]))
  }

  predicate Arity(i: Inst)
  {
    match i.opcode
    case AddOp => |i.operands| == 2
    case SubOp => |i.operands| == 2
    case MulOp => |i.operands| == 2
    case CastOp => |i.operands| == 1
    case OtherOp => true
  }

  predicate InLoopOperand(code: Code, o: Operand)
  {
    o.Computed? && o.id in code.inLoop
  }

  /** Looked at on its own, the instruction passes the check. */
  predicate LooksOneToOne(code: Code, n: nat)
    requires n in code.insts
  {
    code.insts[n].opcode != OtherOp && NotAnInstruction !in code.insts[n].operands
  }

  /** From an instruction to the in-loop instructions it uses; the induction variable is not looked into. */
  ghost function Uses(code: Code): Edges
    requires WellFormed(code)
  {
    set n: Node, m: Node | n in code.insts && n !in code.ivInsts && m in OperandIds(code.insts[n].operands) && m in code.inLoop :: (n, m)
  }

  function OperandIds(operands: seq<Operand>): (ids: set<nat>)
    ensures forall m :: m in ids <==> Computed(m) in operands
  {
    if operands == [] then {}
    else OperandIds(operands[1..]) + if operands[0].Computed? then {operands[0].id} else {}
  }

  /** Every instruction met on the way to the induction variable passes on its own. */
  ghost predicate AllLookOneToOne(code: Code, derived: nat)
    requires WellFormed(code)
  {
    forall n: Node :: ReachesEq(Uses(code), derived, n) && n !in code.ivInsts ==> n in code.insts && LooksOneToOne(code, n)
  }

  method IsOneToOneFunctionOnIV(code: Code, derived: nat) returns (oneToOne: bool)
    requires WellFormed(code) && derived in code.insts
    ensures oneToOne <==> AllLookOneToOne(code, derived)
  {
    var queue: seq<nat> := [derived];
    var visited: set<nat> := {};
    ghost var processed: set<nat> := {};
    while queue != []
      invariant derived in processed || derived in queue
      invariant InInsts(code, queue)
      invariant visited <= code.insts.Keys
      invariant AllReached(code, derived, queue, visited)
      invariant forall n :: n in visited ==> n in processed || n in queue
      invariant SuccessorsVisited(code, processed, visited)
      invariant forall n :: n in processed && n !in code.ivInsts ==> n in code.insts && LooksOneToOne(code, n)
      decreases code.insts.Keys - visited, |queue|
    {
      var inst := queue[0];
      ghost var rest := queue[1..];
      queue := queue[1..];
      assert inst in code.insts && ReachesEq(Uses(code), derived, inst);
      if inst in code.ivInsts {
        processed := processed + {inst};
        continue;
      }
      if !LooksOneToOne(code, inst) {
        return false;
      }
      queue, visited := PushOperands(code, derived, inst, queue, visited);
      processed := processed + {inst};
    }
    VisitedIsAll(code, derived, processed, visited);
    return true;
  }

  ghost predicate InInsts(code: Code, queue: seq<nat>)
  {
    forall k :: 0 <= k < |queue| ==> queue[k] in code.insts
  }

  ghost predicate AllReached(code: Code, derived: nat, queue: seq<nat>, visited: set<nat>)
    requires WellFormed(code)
  {
    && (forall k :: 0 <= k < |queue| ==> ReachesEq(Uses(code), derived, queue[k]))
    && (forall n: Node {:trigger n in visited} :: n in visited ==> ReachesEq(Uses(code), derived, n))
  }

  ghost predicate SuccessorsVisited(code: Code, processed: set<nat>, visited: set<nat>)
    requires WellFormed(code)
  {
    forall n: Node, m: Node {:trigger (n, m) in Uses(code)} :: (n, m) in Uses(code) && n in processed ==> m in visited
  }

  lemma UsesOperand(code: Code, n: nat, m: nat)
    requires WellFormed(code) && n in code.insts && n !in code.ivInsts
    ensures (n, m) in Uses(code) <==> Computed(m) in code.insts[n].operands && m in code.inLoop
  {
  }

  method PushOperands(code: Code, derived: nat, inst: nat, queue: seq<nat>, visited: set<nat>)
    returns (longer: seq<nat>, seen: set<nat>)
    requires WellFormed(code) && inst in code.insts && inst !in code.ivInsts && ReachesEq(Uses(code), derived, inst)
    requires InInsts(code, queue) && visited <= code.insts.Keys && AllReached(code, derived, queue, visited)
    ensures InInsts(code, longer) && visited <= seen <= code.insts.Keys && AllReached(code, derived, longer, seen)
    ensures forall m :: m in longer <==> m in queue || m in seen - visited
    ensures forall m: Node {:trigger (inst, m) in Uses(code)} :: (inst, m) in Uses(code) ==> m in seen
    ensures seen == visited ==> longer == queue
  {
    longer, seen := queue, visited;
    var operands := code.insts[inst].operands;
    for k := 0 to |operands|
      invariant InInsts(code, longer) && visited <= seen <= code.insts.Keys && AllReached(code, derived, longer, seen)
      invariant forall m :: m in longer <==> m in queue || m in seen - visited
      invariant OperandsSeen(code, operands[..k], seen)
      invariant seen == visited ==> longer == queue
    {
      var used := operands[k];
      assert operands[..k + 1] == operands[..k] + [used];
      if !InLoopOperand(code, used) || used.id in seen {
        continue;
      }
      OperandReached(code, derived, inst, k);
      seen := seen + {used.id};
      longer := longer + [used.id];
    }
    assert operands[..|operands|] == operands;
    AllUsesSeen(code, inst, seen);
  }

  ghost predicate OperandsSeen(code: Code, operands: seq<Operand>, seen: set<nat>)
  {
    forall l :: 0 <= l < |operands| && InLoopOperand(code, operands[l]) ==> operands[l].id in seen
  }

  lemma OperandReached(code: Code, derived: nat, inst: nat, k: nat)
    requires WellFormed(code) && inst in code.insts && inst !in code.ivInsts && ReachesEq(Uses(code), derived, inst)
    requires k < |code.insts[inst].operands| && InLoopOperand(code, code.insts[inst].operands[k])
    ensures code.insts[inst].operands[k].id in code.insts && ReachesEq(Uses(code), derived, code.insts[inst].operands[k].id)
  {
    var m := code.insts[inst].operands[k].id;
    assert code.insts[inst].operands[k] == Computed(m);
    UsesOperand(code, inst, m);
    EdgeReaches(Uses(code), inst, m);
    ReachesTrans(Uses(code), derived, inst, m);
  }

  lemma AllUsesSeen(code: Code, inst: nat, seen: set<nat>)
    requires WellFormed(code) && inst in code.insts && inst !in code.ivInsts && OperandsSeen(code, code.insts[inst].operands, seen)
    ensures forall m: Node {:trigger (inst, m) in Uses(code)} :: (inst, m) in Uses(code) ==> m in seen
  {
    var operands := code.insts[inst].operands;
    forall m: Node {:trigger (inst, m) in Uses(code)} | (inst, m) in Uses(code)
      ensures m in seen
    {
      UsesOperand(code, inst, m);
      var l :| 0 <= l < |operands| && operands[l] == Computed(m);
    }
  }

  lemma VisitedIsAll(code: Code, derived: nat, processed: set<nat>, visited: set<nat>)
    requires WellFormed(code) && derived in processed && visited <= processed && SuccessorsVisited(code, processed, visited)
    ensures forall n: Node :: ReachesEq(Uses(code), derived, n) ==> n in processed
  {
    forall a: Node, b: Node | (a, b) in Uses(code) && a in processed
      ensures b in processed
    {
      assert b in visited;
    }
    forall n: Node | ReachesEq(Uses(code), derived, n)
      ensures n in processed
    {
      ReachesClosed(Uses(code), processed, derived, n);
    }
  }

  // ----- what the check misses and what makes it right -----

  function OperandValue(code: Code, o: Operand, x: int, bound: nat): int
    decreases bound, 0
  {
    match o
    case ConstantInt(c) => c
    case NotAnInstruction => 0
    case Computed(m) => if m !in code.inLoop then code.outside(m) else if m < bound then Value(code, m, x) else 0
  }

  /** The value of an instruction in an iteration in which the induction variable is x; casts keep values. */
  function Value(code: Code, n: nat, x: int): int
    decreases n, 1
  {
    if n in code.ivInsts then x + code.ivInsts[n]
    else if n !in code.insts || !Arity(code.insts[n]) then 0
    else
      var ops := code.insts[n].operands;
      match code.insts[n].opcode
      case AddOp => OperandValue(code, ops[0], x, n) + OperandValue(code, ops[1], x, n)
      case SubOp => OperandValue(code, ops[0], x, n) - OperandValue(code, ops[1], x, n)
      case MulOp => OperandValue(code, ops[0], x, n) * OperandValue(code, ops[1], x, n)
      case CastOp => OperandValue(code, ops[0], x, n)
      case OtherOp => 0
  }

  /** Every operation down to the induction variable has exactly one in-loop operand. */
  ghost predicate SingleChain(code: Code, n: nat)
    requires WellFormed(code)
    decreases n
  {
    n in code.ivInsts ||
    (n in code.insts && LooksOneToOne(code, n) &&
     var ops := code.insts[n].operands;
     var first, second := InLoopOperand(code, ops[0]), |ops| == 2 && InLoopOperand(code, ops[1]);
     first != second && SingleChain(code, if first then ops[0].id else ops[1].id))
  }

  /** The check accepts every such chain. */
  lemma {:induction false} ChainsAreAccepted(code: Code, n: nat)
    requires WellFormed(code) && SingleChain(code, n)
    ensures AllLookOneToOne(code, n)
    decreases n
  {
    if n !in code.ivInsts {
      var ops := code.insts[n].operands;
      var next := if InLoopOperand(code, ops[0]) then ops[0].id else ops[1].id;
      ChainsAreAccepted(code, next);
      forall m: Node | ReachesEq(Uses(code), n, m) && m !in code.ivInsts
        ensures m in code.insts && LooksOneToOne(code, m)
      {
        if m != n {
          var c := ReachesFirst(Uses(code), n, m);
          OneOperandUsed(code, n, next, c);
        }
      }
    }
  }

  lemma OneOperandUsed(code: Code, n: nat, next: nat, c: nat)
    requires WellFormed(code) && SingleChain(code, n) && n !in code.ivInsts && (n, c) in Uses(code)
    requires var ops := code.insts[n].operands; next == if InLoopOperand(code, ops[0]) then ops[0].id else ops[1].id
    ensures c == next
  {
    UsesOperand(code, n, c);
    var k :| 0 <= k < |code.insts[n].operands| && code.insts[n].operands[k] == Computed(c);
    assert k == 0 || k == 1;
  }

  /** ... and none of them multiplies by zero. */
  ghost predicate NoZeroMultiplier(code: Code, n: nat)
    requires WellFormed(code) && SingleChain(code, n)
    decreases n
  {
    n in code.ivInsts ||
    (var ops := code.insts[n].operands;
     var first := InLoopOperand(code, ops[0]);
     && (code.insts[n].opcode == MulOp ==> OperandValue(code, if first then ops[1] else ops[0], 0, n) != 0)
     && NoZeroMultiplier(code, if first then ops[0].id else ops[1].id))
  }

  ghost predicate OneToOne(code: Code, n: nat)
  {
    forall x, y {:trigger Value(code, n, x), Value(code, n, y)} :: Value(code, n, x) == Value(code, n, y) ==> x == y
  }

  lemma OutsideIsFixed(code: Code, o: Operand, n: nat, x: int, y: int)
    requires !InLoopOperand(code, o)
    ensures OperandValue(code, o, x, n) == OperandValue(code, o, y, n)
  {
  }

  /** One step of the chain: equal values come from equal operands, unless the multiplier is zero. */
  lemma ChainStep(code: Code, n: nat, x: int, y: int)
    requires WellFormed(code) && SingleChain(code, n) && n !in code.ivInsts
    ensures var ops := code.insts[n].operands;
            var first := InLoopOperand(code, ops[0]);
            var m := if first then ops[0].id else ops[1].id;
            var zero := code.insts[n].opcode == MulOp && OperandValue(code, if first then ops[1] else ops[0], 0, n) == 0;
            && m < n
            && (Value(code, n, x) == Value(code, n, y) <==> Value(code, m, x) == Value(code, m, y) || zero)
  {
    var ops := code.insts[n].operands;
    var first := InLoopOperand(code, ops[0]);
    var m := if first then ops[0].id else ops[1].id;
    if code.insts[n].opcode != CastOp {
      var other := if first then ops[1] else ops[0];
      OutsideIsFixed(code, other, n, x, y);
      OutsideIsFixed(code, other, n, x, 0);
      if code.insts[n].opcode == MulOp {
        EqualProducts(Value(code, m, x), Value(code, m, y), OperandValue(code, other, 0, n));
      }
    }
  }

  lemma EqualProducts(a: int, b: int, c: int)
    ensures a * c == b * c <==> a == b || c == 0
    ensures c * a == c * b <==> a == b || c == 0
  {
    assert a * c - b * c == (a - b) * c;
    if a != b && c != 0 {
      NonzeroProduct(a - b, c);
    }
  }

  lemma NonzeroProduct(d: int, c: int)
    requires d != 0 && c != 0
    ensures d * c != 0
  {
  }

  /** Exactly when the check's answer is right on such a chain: no multiplication by zero. */
  lemma {:induction false} OneToOneIff(code: Code, n: nat)
    requires WellFormed(code) && SingleChain(code, n)
    ensures OneToOne(code, n) <==> NoZeroMultiplier(code, n)
    decreases n
  {
    if n !in code.ivInsts {
      var ops := code.insts[n].operands;
      var first := InLoopOperand(code, ops[0]);
      var m := if first then ops[0].id else ops[1].id;
      OneToOneIff(code, m);
      forall x, y {:trigger Value(code, n, x), Value(code, n, y)} | true
        ensures Value(code, n, x) == Value(code, n, y) <==>
                Value(code, m, x) == Value(code, m, y) ||
                (code.insts[n].opcode == MulOp && OperandValue(code, if first then ops[1] else ops[0], 0, n) == 0)
      {
        ChainStep(code, n, x, y);
      }
      if code.insts[n].opcode == MulOp && OperandValue(code, if first then ops[1] else ops[0], 0, n) == 0 {
        assert Value(code, n, 0) == Value(code, n, 1);
      } else if !OneToOne(code, m) {
        var x, y :| Value(code, m, x) == Value(code, m, y) && x != y;
        assert Value(code, n, x) == Value(code, n, y);
      }
    }
  }

  /** Two instructions: the variable, and its product with itself or with zero. */
  function ProductCode(other: Operand): Code
  {
    Code(map[0 := Inst(OtherOp, []), 1 := Inst(MulOp, [Computed(0), other])], {0, 1}, map[0 := 0], k => 0)
  }

  lemma ProductIsAccepted(other: Operand)
    requires other == Computed(0) || other == ConstantInt(0)
    ensures WellFormed(ProductCode(other)) && AllLookOneToOne(ProductCode(other), 1)
  {
    OnlyTwoReached(ProductCode(other));
  }

  /** A square and a product with zero pass the check but are not one-to-one. */
  lemma CheckAcceptsSquares()
    ensures var code := ProductCode(Computed(0));
            WellFormed(code) && AllLookOneToOne(code, 1) && Value(code, 1, 2) == Value(code, 1, -2)
    ensures var code := ProductCode(ConstantInt(0));
            WellFormed(code) && AllLookOneToOne(code, 1) && Value(code, 1, 2) == Value(code, 1, 3)
  {
    ProductIsAccepted(Computed(0));
    ProductIsAccepted(ConstantInt(0));
  }

  lemma OnlyTwoReached(code: Code)
    requires WellFormed(code) && code.insts.Keys == {0, 1}
    ensures forall n: Node :: ReachesEq(Uses(code), 1, n) ==> n in {0, 1}
  {
    forall n: Node | ReachesEq(Uses(code), 1, n)
      ensures n in {0, 1}
    {
      assert Closed(Uses(code), {0, 1}) by {
        forall a: Node, b: Node | (a, b) in Uses(code)
          ensures b in {0, 1}
        {
          UsesOperand(code, a, b);
        }
      }
      ReachesClosed(Uses(code), {0, 1}, 1, n);
    }
  }
}
