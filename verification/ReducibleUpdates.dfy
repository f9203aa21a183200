/** Integer updates of a loop-carried variable: their arithmetic, the tables of accumulator
    operators, and the checks that decide whether a variable can be reduced. */
module ReducibleUpdates {
  import opened MachineInt
  import opened Options

  datatype Op = Add | Sub | Mul | Or | And | Xor

  /** An operand is the variable itself or a value computed outside it. */
  datatype Operand = Internal | External(value: nat)

  datatype Update = Update(op: Op, lhs: Operand, rhs: Operand)

  function Pow2(w: nat): (r: nat)
    ensures r > 0
  {
    if w == 0 then 1 else 2 * Pow2(w - 1)
  }

  // ----- bitwise operators on naturals -----

  function BitAnd(a: nat, b: nat): nat
  {
    if a == 0 || b == 0 then 0
    else 2 * BitAnd(a / 2, b / 2) + (if a % 2 == 1 && b % 2 == 1 then 1 else 0)
  }

  function BitOr(a: nat, b: nat): nat
  {
    if a == 0 then b else if b == 0 then a
    else 2 * BitOr(a / 2, b / 2) + (if a % 2 == 1 || b % 2 == 1 then 1 else 0)
  }

  function BitXor(a: nat, b: nat): nat
  {
    if a == 0 then b else if b == 0 then a
    else 2 * BitXor(a / 2, b / 2) + (if a % 2 != b % 2 then 1 else 0)
  }

  lemma BitAndStep(a: nat, b: nat)
    ensures BitAnd(a, b) / 2 == BitAnd(a / 2, b / 2)
    ensures BitAnd(a, b) % 2 == if a % 2 == 1 && b % 2 == 1 then 1 else 0
  {
  }

  lemma BitOrStep(a: nat, b: nat)
    ensures BitOr(a, b) / 2 == BitOr(a / 2, b / 2)
    ensures BitOr(a, b) % 2 == if a % 2 == 1 || b % 2 == 1 then 1 else 0
  {
  }

  lemma {:induction false} BitAndCommutes(a: nat, b: nat)
    ensures BitAnd(a, b) == BitAnd(b, a)
  {
    if a != 0 && b != 0 {
      BitAndCommutes(a / 2, b / 2);
    }
  }

  lemma {:induction false} BitOrCommutes(a: nat, b: nat)
    ensures BitOr(a, b) == BitOr(b, a)
  {
    if a != 0 && b != 0 {
      BitOrCommutes(a / 2, b / 2);
    }
  }

  lemma {:induction false} BitAndAssociates(a: nat, b: nat, c: nat)
    ensures BitAnd(BitAnd(a, b), c) == BitAnd(a, BitAnd(b, c))
  {
    if a != 0 && b != 0 && c != 0 {
      BitAndAssociates(a / 2, b / 2, c / 2);
      BitAndStep(a, b);
      BitAndStep(b, c);
      BitAndStep(BitAnd(a, b), c);
      BitAndStep(a, BitAnd(b, c));
    }
  }

  lemma {:induction false} BitOrAssociates(a: nat, b: nat, c: nat)
    ensures BitOr(BitOr(a, b), c) == BitOr(a, BitOr(b, c))
  {
    if a != 0 && b != 0 && c != 0 {
      BitOrAssociates(a / 2, b / 2, c / 2);
      BitOrStep(a, b);
      BitOrStep(b, c);
      BitOrStep(BitOr(a, b), c);
      BitOrStep(a, BitOr(b, c));
    }
  }

  lemma {:induction false} BitwiseBounded(w: nat, a: nat, b: nat)
    requires a < Pow2(w) && b < Pow2(w)
    ensures BitAnd(a, b) < Pow2(w) && BitOr(a, b) < Pow2(w) && BitXor(a, b) < Pow2(w)
  {
    if w > 0 {
      BitwiseBounded(w - 1, a / 2, b / 2);
    }
  }

  /** Masking with 1 keeps the lowest bit. */
  lemma BitAndOne(a: nat)
    ensures BitAnd(1, a) == a % 2 && BitAnd(a, 1) == a % 2
  {
    assert BitAnd(a / 2, 0) == 0 && BitAnd(0, a / 2) == 0;
  }

  // ----- one update -----

  /** Integers of width w. */
  function ApplyOp(w: nat, op: Op, a: nat, b: nat): (r: nat)
    requires a < Pow2(w) && b < Pow2(w)
    ensures r < Pow2(w)
  {
    BitwiseBounded(w, a, b);
    match op
    case Add => Wrap(a + b, Pow2(w))
    case Sub => Wrap(a - b, Pow2(w))
    case Mul => Wrap(a * b, Pow2(w))
    case Or => BitOr(a, b)
    case And => BitAnd(a, b)
    case Xor => BitXor(a, b)
  }

  ghost predicate Fits(w: nat, u: Update)
  {
    (u.lhs.External? ==> u.lhs.value < Pow2(w)) && (u.rhs.External? ==> u.rhs.value < Pow2(w))
  }

  function OperandOf(o: Operand, x: nat): nat
  {
    if o.Internal? then x else o.value
  }

  function Apply(w: nat, u: Update, x: nat): (r: nat)
    requires Fits(w, u) && x < Pow2(w)
    ensures r < Pow2(w)
  {
    ApplyOp(w, u.op, OperandOf(u.lhs, x), OperandOf(u.rhs, x))
  }

  // ----- the checks -----

  function InternalUses(u: Update): nat
  {
    (if u.lhs.Internal? then 1 else 0) + (if u.rhs.Internal? then 1 else 0)
  }

  predicate MayUpdateBeOverride(u: Update)
  {
    InternalUses(u) == 0
  }

  /** What the instruction set says of the operator alone. */
  predicate IsCommutative(op: Op)
  {
    op != Sub
  }

  predicate IsAssociative(op: Op)
  {
    op != Sub
  }

  predicate IsBitwiseLogicOp(op: Op)
  {
    op == Or || op == And || op == Xor
  }

  predicate IsSubTransformableToAdd(u: Update)
  {
    u.op == Sub && u.rhs.External?
  }

  predicate IsTransformablyCommutativeWithSelf(u: Update)
  {
    if MayUpdateBeOverride(u) then false
    else if IsCommutative(u.op) then true
    else IsSubTransformableToAdd(u)
  }

  predicate IsAssociativeWithSelf(u: Update)
  {
    if MayUpdateBeOverride(u) then false
    else if IsAssociative(u.op) then true
    else if u.op == Add then true
    else if u.op == Mul then true
    else IsSubTransformableToAdd(u)
  }

  predicate IsBothUpdatesAddOrSub(u: Update, v: Update)
  {
    (u.op == Add || u.op == Sub) && (v.op == Add || v.op == Sub)
  }

  predicate IsBothUpdatesMul(u: Update, v: Update)
  {
    u.op == Mul && v.op == Mul
  }

  predicate IsBothUpdatesSameBitwiseLogicalOp(u: Update, v: Update)
  {
    IsBitwiseLogicOp(u.op) && IsBitwiseLogicOp(v.op) && u.op == v.op
  }

  predicate IsTransformablyCommutativeWith(u: Update, v: Update)
  {
    if !IsTransformablyCommutativeWithSelf(u) || !IsTransformablyCommutativeWithSelf(v) then false
    else IsBothUpdatesAddOrSub(u, v) || IsBothUpdatesMul(u, v) || IsBothUpdatesSameBitwiseLogicalOp(u, v)
  }

  predicate IsAssociativeWith(u: Update, v: Update)
  {
    if !IsAssociativeWithSelf(u) || !IsAssociativeWithSelf(v) then false
    else IsBothUpdatesAddOrSub(u, v) || IsBothUpdatesMul(u, v) || IsBothUpdatesSameBitwiseLogicalOp(u, v)
  }

  /** The check over all pairs of arithmetic updates, as two nested loops. */
  method AreUpdatesReducible(updates: seq<Update>) returns (reducible: bool)
    ensures reducible <==> updates != [] && PairwiseReducible(updates)
    ensures reducible <==>
              && updates != []
              && (forall u :: u in updates ==> u.lhs.Internal? || u.rhs.Internal?)
              && (|| (forall u :: u in updates ==> u.op == Add || (u.op == Sub && u.rhs.External?))
                  || (forall u :: u in updates ==> u.op == Mul)
                  || (forall u :: u in updates ==> u.op == Or)
                  || (forall u :: u in updates ==> u.op == And)
                  || (forall u :: u in updates ==> u.op == Xor))
  {
    PairwiseReducibleIff(updates);
    if |updates| == 0 {
      return false;
    }
    for i := 0 to |updates|
      invariant forall a, b :: 0 <= a < i && 0 <= b < |updates| ==> Compatible(updates[a], updates[b])
    {
      for j := 0 to |updates|
        invariant forall b :: 0 <= b < j ==> Compatible(updates[i], updates[b])
      {
        if !IsTransformablyCommutativeWith(updates[i], updates[j]) {
          return false;
        }
        if !IsAssociativeWith(updates[i], updates[j]) {
          return false;
        }
      }
    }
    reducible := true;
  }

  predicate Compatible(u: Update, v: Update)
  {
    IsTransformablyCommutativeWith(u, v) && IsAssociativeWith(u, v)
  }

  predicate PairwiseReducible(updates: seq<Update>)
  {
    forall a, b :: 0 <= a < |updates| && 0 <= b < |updates| ==> Compatible(updates[a], updates[b])
  }

  /** Read off operators and operands: every update uses the variable, and all are additions and subtractions
      of outside values, or all multiplications, or all the same bitwise operator. */
  lemma PairwiseReducibleIff(updates: seq<Update>)
    ensures updates != [] && PairwiseReducible(updates) <==>
              && updates != []
              && (forall u :: u in updates ==> u.lhs.Internal? || u.rhs.Internal?)
              && (|| (forall u :: u in updates ==> u.op == Add || (u.op == Sub && u.rhs.External?))
                  || (forall u :: u in updates ==> u.op == Mul)
                  || (forall u :: u in updates ==> u.op == Or)
                  || (forall u :: u in updates ==> u.op == And)
                  || (forall u :: u in updates ==> u.op == Xor))
  {
    if updates != [] && PairwiseReducible(updates) {
      forall u | u in updates
        ensures Compatible(u, u) && Compatible(updates[0], u)
      {
        var k :| 0 <= k < |updates| && updates[k] == u;
        assert Compatible(updates[k], updates[k]) && Compatible(updates[0], updates[k]);
      }
    } else if updates != [] {
      var a, b :| 0 <= a < |updates| && 0 <= b < |updates| && !Compatible(updates[a], updates[b]);
      assert updates[a] in updates && updates[b] in updates;
    }
  }

  // ----- the tables -----

  /** The operator that combines partial results; Xor has no entry. */
  function IntegerReducingOperator(op: Op): Option<Op>
  {
    match op
    case Add => Some(Add)
    case Mul => Some(Mul)
    case Sub => Some(Add)
    case Or => Some(Or)
    case And => Some(And)
    case Xor => None
  }

  /** The value that private copies start from; a missing entry reads as zero. */
  function OpIdentity(op: Op): nat
  {
    match op
    case Add => 0
    case Mul => 1
    case Sub => 0
    case Or => 0
    case And => 1
    case Xor => 0
  }

  /** The value that an update combines the variable with. */
  function Effect(w: nat, u: Update): (r: nat)
    requires Fits(w, u)
    ensures r < Pow2(w)
  {
    if InternalUses(u) == 2 then (if u.op == And then Pow2(w) - 1 else 0)
    else
      var v := if u.lhs.External? then u.lhs.value else u.rhs.value;
      if u.op == Sub then Wrap(-v, Pow2(w)) else v
  }

  /** The update uses the variable once, or is a bitwise operator applied to it twice. */
  predicate CombinesOnce(u: Update)
  {
    InternalUses(u) == 1 || u.op == Or || u.op == And
  }

  lemma SubtractionIsAddition(x: int, v: int, m: int)
    requires m > 0
    ensures Wrap(x - v, m) == Wrap(x + Wrap(-v, m), m)
  {
    WrapAdd(-v, x, m);
  }

  lemma {:induction false} BitwiseWithItself(x: nat)
    ensures BitOr(x, x) == x && BitAnd(x, x) == x
  {
    if x > 0 {
      BitwiseWithItself(x / 2);
    }
  }

  lemma {:induction false} BitAndAllOnes(w: nat, x: nat)
    requires x < Pow2(w)
    ensures BitAnd(x, Pow2(w) - 1) == x
  {
    if w > 0 && x > 0 {
      var ones := Pow2(w) - 1;
      assert ones == 2 * (Pow2(w - 1) - 1) + 1;
      assert ones / 2 == Pow2(w - 1) - 1 && ones % 2 == 1;
      BitAndAllOnes(w - 1, x / 2);
      BitAndStep(x, ones);
    }
  }

  /** An accepted update that uses the variable once acts as the reducing operator of the table. */
  lemma UpdateIsCombination(w: nat, u: Update, x: nat)
    requires Fits(w, u) && x < Pow2(w) && Compatible(u, u) && CombinesOnce(u) && u.op != Xor
    ensures Apply(w, u, x) == ApplyOp(w, IntegerReducingOperator(u.op).value, x, Effect(w, u))
  {
    var v := Effect(w, u);
    if InternalUses(u) == 2 {
      BitwiseWithItself(x);
      BitAndAllOnes(w, x);
      BitOrCommutes(x, 0);
    } else if u.op == Sub {
      SubtractionIsAddition(x, u.rhs.value, Pow2(w));
    } else {
      OperatorCommutes(w, u.op, x, v);
    }
  }

  lemma OperatorCommutes(w: nat, op: Op, x: nat, y: nat)
    requires x < Pow2(w) && y < Pow2(w) && op != Sub && op != Xor
    ensures ApplyOp(w, op, x, y) == ApplyOp(w, op, y, x)
  {
    assert x * y == y * x;
    BitOrCommutes(x, y);
    BitAndCommutes(x, y);
  }

  /** The checks look at operators and at one operand only, so they also accept x + x and x * x.
      From width 2 on, an accepted update can be reduced exactly when it uses the variable once. */
  lemma CombinationIffUsedOnce(w: nat, u: Update)
    requires w >= 2 && Fits(w, u) && Compatible(u, u) && u.op != Xor
    ensures CombinesOnce(u) <==>
            exists e: nat :: e < Pow2(w) && IsCombination(w, u, e)
  {
    assert Pow2(w) == 2 * Pow2(w - 1) && Pow2(w - 1) == 2 * Pow2(w - 2);
    if CombinesOnce(u) {
      forall x: nat | x < Pow2(w)
        ensures Apply(w, u, x) == ApplyOp(w, IntegerReducingOperator(u.op).value, x, Effect(w, u))
      {
        UpdateIsCombination(w, u, x);
      }
      assert IsCombination(w, u, Effect(w, u));
    } else if e: nat :| e < Pow2(w) && IsCombination(w, u, e) {
      assert InternalUses(u) == 2 && (u.op == Add || u.op == Mul);
      if u.op == Add {
        TwiceAddIsNone(w, u, e);
      } else {
        TwiceMulIsNone(w, u, e);
      }
    }
  }

  ghost predicate IsCombination(w: nat, u: Update, e: nat)
    requires Fits(w, u) && u.op != Xor
  {
    e < Pow2(w) && forall x: nat :: x < Pow2(w) ==> Apply(w, u, x) == ApplyOp(w, IntegerReducingOperator(u.op).value, x, e)
  }

  lemma TwiceAddIsNone(w: nat, u: Update, e: nat)
    requires w >= 2 && u == Update(Add, Internal, Internal) && e < Pow2(w)
    ensures !IsCombination(w, u, e)
  {
    SmallResidues(w, e);
    if e == 0 {
      assert Apply(w, u, 1) == Wrap(2, Pow2(w)) && ApplyOp(w, Add, 1, e) == Wrap(1, Pow2(w));
    } else {
      assert Apply(w, u, 0) == Wrap(0, Pow2(w)) && ApplyOp(w, Add, 0, e) == Wrap(e, Pow2(w));
    }
  }

  lemma TwiceMulIsNone(w: nat, u: Update, e: nat)
    requires w >= 2 && u == Update(Mul, Internal, Internal) && e < Pow2(w)
    ensures !IsCombination(w, u, e)
  {
    SmallResidues(w, e);
    if e == 1 {
      assert Apply(w, u, 2) == Wrap(4, Pow2(w)) && ApplyOp(w, Mul, 2, e) == Wrap(2, Pow2(w));
    } else {
      assert Apply(w, u, 1) == Wrap(1, Pow2(w)) && ApplyOp(w, Mul, 1, e) == Wrap(e, Pow2(w));
    }
  }

  lemma SmallResidues(w: nat, e: nat)
    requires w >= 2 && e < Pow2(w)
    ensures Wrap(0, Pow2(w)) == 0 && Wrap(1, Pow2(w)) == 1 && Wrap(2, Pow2(w)) == 2
    ensures Wrap(4, Pow2(w)) != 2 && Wrap(e, Pow2(w)) == e
  {
    assert Pow2(w) == 2 * Pow2(w - 1) && Pow2(w - 1) == 2 * Pow2(w - 2);
    assert Pow2(w) >= 4;
    WrapInRange(0, Pow2(w));
    WrapInRange(1, Pow2(w));
    WrapInRange(2, Pow2(w));
    WrapInRange(e, Pow2(w));
    if Pow2(w) == 4 {
      DivModUnique(4, 4, 1, 0);
    } else {
      WrapInRange(4, Pow2(w));
    }
  }

  /** All updates of an accepted variable share one reducing operator and one identity. */
  lemma OneReducingOperator(updates: seq<Update>, i: nat, j: nat)
    requires PairwiseReducible(updates) && i < |updates| && j < |updates|
    ensures IntegerReducingOperator(updates[i].op) == IntegerReducingOperator(updates[j].op)
    ensures OpIdentity(updates[i].op) == OpIdentity(updates[j].op)
  {
    assert Compatible(updates[i], updates[j]);
  }
}
