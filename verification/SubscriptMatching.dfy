/** Expressions of subscripts, the loop nest around them, and the search for an instruction that has the value
    of a subscript. */
module SubscriptMatching {
  import opened Disjointness
  import opened HeaderBounds
  import opened MixedRadix
  import opened Options

  // ----- expressions, loops and accesses -----

  /** Scalar-evolution expressions. They are unique, so equality of values is equality of pointers. */
  datatype Scev =
    | Constant(width: nat, value: int)
    | Unknown(id: nat)
    | AddRec(loop: nat, start: Scev, step: Scev)
    | Cast(operand: Scev)

  /** The PHI of an induction variable evolves in its loop; every instruction of the variable is a fixed
      distance from the PHI. */
  datatype InductionVariable = InductionVariable(loop: nat, start: Scev, step: Scev, insts: map<nat, int>)

  /** The variable that governs a loop, and the value and the comparison that end it. */
  datatype Attribution = Attribution(iv: nat, condition: Scev, test: HeaderTest)

  /** The loop nest: its root, its instructions and which of them the root loop includes, what the
      instructions outside hold, the induction variables, and what scalar evolution says of instructions. */
  datatype LoopNest = LoopNest(
    root: nat, insts: map<nat, Inst>, included: set<nat>, outside: nat -> int,
    ivs: map<nat, InductionVariable>, scevOf: map<nat, Scev>, governing: map<nat, Attribution>)

  /** An instruction with the value of a subscript, and the variable that it belongs to or is derived from. */
  datatype Match = Match(inst: nat, iv: nat)

  /** The last size is that of an element. */
  datatype MemoryAccessSpace = MemoryAccessSpace(base: nat, subscripts: seq<Scev>, sizes: seq<Scev>, subscriptIVs: seq<Option<Match>>)

  function IvCode(nest: LoopNest, iv: nat): Code
    requires iv in nest.ivs
  {
    Code(nest.insts, nest.included, nest.ivs[iv].insts, nest.outside)
  }

  ghost predicate ValidNest(nest: LoopNest)
  {
    && (forall iv {:trigger iv in nest.ivs} :: iv in nest.ivs ==> WellFormed(IvCode(nest, iv)))
    && (forall l {:trigger l in nest.governing} :: l in nest.governing ==>
          nest.governing[l].iv in nest.ivs && nest.ivs[nest.governing[l].iv].loop == l)
  }

  ghost predicate ValidMatch(nest: LoopNest, m: Match)
  {
    m.inst in nest.insts && m.inst in nest.scevOf && m.iv in nest.ivs
  }

  ghost predicate ValidSpace(nest: LoopNest, space: MemoryAccessSpace)
  {
    && |space.subscripts| == |space.subscriptIVs|
    && forall k :: 0 <= k < |space.subscriptIVs| && space.subscriptIVs[k].Some? ==> ValidMatch(nest, space.subscriptIVs[k].value)
  }

  // ----- what expressions and accesses mean -----

  /** A point of an execution: the values of unknowns, and the iteration that each loop is in. */
  datatype Point = Point(unknown: nat -> int, iteration: nat -> nat)

  function Eval(s: Scev, p: Point): int
  {
    match s
    case Constant(_, value) => value
    case Unknown(id) => p.unknown(id)
    case AddRec(loop, start, step) => Eval(start, p) + p.iteration(loop) * Eval(step, p)
    case Cast(operand) => Eval(operand, p)
  }

  function EvalAll(s: seq<Scev>, p: Point): (v: seq<int>)
    ensures |v| == |s| && forall k :: 0 <= k < |s| ==> v[k] == Eval(s[k], p)
  {
    seq(|s|, k requires 0 <= k < |s| => Eval(s[k], p))
  }

  function Extents(space: MemoryAccessSpace, p: Point): (e: seq<int>)
    requires 0 < |space.sizes|
    ensures |e| == |space.sizes| - 1
  {
    EvalAll(space.sizes[..|space.sizes| - 1], p)
  }

  /** The element that the access touches, counted from the base. */
  function Offset(space: MemoryAccessSpace, p: Point): int
    requires 0 < |space.subscripts| == |space.sizes|
  {
    var s := EvalAll(space.subscripts, p);
    Flatten(s[0], s[1..], Extents(space, p))
  }

  function ElementSize(space: MemoryAccessSpace, p: Point): int
    requires 0 < |space.sizes|
  {
    Eval(space.sizes[|space.sizes| - 1], p)
  }

  function Address(space: MemoryAccessSpace, p: Point): int
    requires 0 < |space.subscripts| == |space.sizes|
  {
    p.unknown(space.base) + Offset(space, p) * ElementSize(space, p)
  }

  function PhiValue(nest: LoopNest, iv: nat, p: Point): int
    requires iv in nest.ivs
  {
    Eval(nest.ivs[iv].start, p) + p.iteration(nest.ivs[iv].loop) * Eval(nest.ivs[iv].step, p)
  }

  // ----- matching subscripts with instructions -----

  predicate ScevsMatch(a: Scev, b: Scev)
  {
    a == b || (a.Constant? && b.Constant? && a.value == b.value)
  }

  predicate SameRecurrence(a: Scev, b: Scev)
  {
    a.AddRec? && b.AddRec? && a.loop == b.loop && ScevsMatch(a.start, b.start) && ScevsMatch(a.step, b.step)
  }

  /** The index from expressions to instructions, in the order in which it is walked. */
  datatype Entry = Entry(scev: Scev, found: Match)

  /** What makes the walk stop at an entry: the comparison is skipped unless the entry is a recurrence. */
  predicate StopsAt(key: Scev, subscript: Scev)
  {
    !key.AddRec? || SameRecurrence(key, subscript)
  }

  /** The first entry for the subscript itself; |entries| if there is none. */
  function FirstKey(entries: seq<Entry>, subscript: Scev): (k: nat)
    ensures k <= |entries| && (k < |entries| ==> entries[k].scev == subscript)
    ensures forall j :: 0 <= j < k ==> entries[j].scev != subscript
  {
    if entries == [] || entries[0].scev == subscript then 0 else 1 + FirstKey(entries[1..], subscript)
  }

  /** The first entry at which the walk stops; |entries| if there is none. */
  function FirstStop(entries: seq<Entry>, subscript: Scev): (k: nat)
    ensures k <= |entries| && (k < |entries| ==> StopsAt(entries[k].scev, subscript))
    ensures forall j :: 0 <= j < k ==> !StopsAt(entries[j].scev, subscript)
  {
    if entries == [] || StopsAt(entries[0].scev, subscript) then 0 else 1 + FirstStop(entries[1..], subscript)
  }

  /** Look the subscript up; failing that, and if it is a recurrence, walk the index. */
  function Search(entries: seq<Entry>, subscript: Scev): Option<Match>
  {
    var key, stop := FirstKey(entries, subscript), FirstStop(entries, subscript);
    if key < |entries| then Some(entries[key].found)
    else if subscript.AddRec? && stop < |entries| then Some(entries[stop].found)
    else None
  }

  /** The instructions of induction variables are searched before those derived from them. */
  function SearchBoth(ivEntries: seq<Entry>, derivedEntries: seq<Entry>, subscript: Scev): Option<Match>
  {
    if subscript.Constant? then None
    else if Search(ivEntries, subscript).Some? then Search(ivEntries, subscript)
    else Search(derivedEntries, subscript)
  }

  method FindInstructionInLoopForScev(entries: seq<Entry>, subscript: Scev) returns (found: Option<Match>)
    ensures found == Search(entries, subscript)
    ensures found.None? <==> forall k :: 0 <= k < |entries| ==>
                               entries[k].scev != subscript && !(subscript.AddRec? && StopsAt(entries[k].scev, subscript))
    ensures found.Some? ==> exists k :: 0 <= k < |entries| && entries[k].found == found.value && FirstFit(entries, subscript, k)
  {
    for k := 0 to |entries|
      invariant forall j :: 0 <= j < k ==> entries[j].scev != subscript
    {
      if entries[k].scev == subscript {
        return Some(entries[k].found);
      }
    }
    if subscript.AddRec? {
      for k := 0 to |entries|
        invariant forall j :: 0 <= j < k ==> !StopsAt(entries[j].scev, subscript)
      {
        var other := entries[k].scev;
        if other.AddRec? {
          if other.loop != subscript.loop {
            continue;
          }
          if !ScevsMatch(subscript.start, other.start) {
            continue;
          }
          if !ScevsMatch(subscript.step, other.step) {
            continue;
          }
        }
        return Some(entries[k].found);
      }
    }
    return None;
  }

  predicate FirstFit(entries: seq<Entry>, subscript: Scev, k: nat)
    requires k < |entries|
  {
    || entries[k].scev == subscript
    || (subscript.AddRec? && StopsAt(entries[k].scev, subscript) && forall j :: 0 <= j < k ==> !StopsAt(entries[j].scev, subscript))
  }

  ghost predicate ValidEntries(nest: LoopNest, entries: seq<Entry>)
  {
    forall k :: 0 <= k < |entries| ==> ValidEntry(nest, entries[k])
  }

  ghost predicate ValidEntry(nest: LoopNest, e: Entry)
  {
    ValidMatch(nest, e.found) && nest.scevOf[e.found.inst] == e.scev
  }

  method FindCorrespondingIVForSubscript(nest: LoopNest, ivEntries: seq<Entry>, derivedEntries: seq<Entry>, subscript: Scev)
    returns (found: Option<Match>)
    requires ValidEntries(nest, ivEntries) && ValidEntries(nest, derivedEntries)
    ensures found == SearchBoth(ivEntries, derivedEntries, subscript)
    ensures found.Some? ==> ValidMatch(nest, found.value) && !subscript.Constant?
    ensures found.Some? ==> (RightMatch(nest, subscript, found.value) <==> SearchIsRight(ivEntries, derivedEntries, subscript))
    ensures found.Some? && OnlyRecurrences(ivEntries) && OnlyRecurrences(derivedEntries) ==> RightMatch(nest, subscript, found.value)
  {
    if subscript.Constant? {
      return None;
    }
    found := FindInstructionInLoopForScev(ivEntries, subscript);
    if found.None? {
      found := FindInstructionInLoopForScev(derivedEntries, subscript);
    }
    MatchIsRightIff(nest, ivEntries, derivedEntries, subscript);
  }

  // ----- when the match is right -----

  /** The matched instruction evolves as the subscript. */
  predicate RightMatch(nest: LoopNest, subscript: Scev, m: Match)
  {
    m.inst in nest.scevOf && (nest.scevOf[m.inst] == subscript || SameRecurrence(nest.scevOf[m.inst], subscript))
  }

  lemma MatchHasValue(nest: LoopNest, subscript: Scev, m: Match, p: Point)
    requires RightMatch(nest, subscript, m)
    ensures Eval(nest.scevOf[m.inst], p) == Eval(subscript, p)
  {
  }

  predicate HasKey(entries: seq<Entry>, subscript: Scev)
  {
    exists k :: 0 <= k < |entries| && entries[k].scev == subscript
  }

  predicate HasSame(entries: seq<Entry>, subscript: Scev)
  {
    exists k :: 0 <= k < |entries| && SameRecurrence(entries[k].scev, subscript)
  }

  /** The walk compares every entry it can stop at. */
  predicate OnlyRecurrences(entries: seq<Entry>)
  {
    forall k :: 0 <= k < |entries| ==> entries[k].scev.AddRec?
  }

  /** The search finds the subscript's own entry, or stops first at one that evolves in the same way, or
      finds nothing. */
  predicate SearchStopsRight(entries: seq<Entry>, subscript: Scev)
  {
    var stop := FirstStop(entries, subscript);
    HasKey(entries, subscript) || !subscript.AddRec? || stop == |entries| || SameRecurrence(entries[stop].scev, subscript)
  }

  predicate SearchIsRight(ivEntries: seq<Entry>, derivedEntries: seq<Entry>, subscript: Scev)
  {
    || subscript.Constant?
    || if Search(ivEntries, subscript).Some? then SearchStopsRight(ivEntries, subscript)
       else SearchStopsRight(derivedEntries, subscript)
  }

  ghost predicate IsRight(nest: LoopNest, subscript: Scev, found: Option<Match>)
  {
    found.Some? ==> RightMatch(nest, subscript, found.value)
  }

  lemma SearchedMatchIsRightIff(nest: LoopNest, entries: seq<Entry>, subscript: Scev)
    requires ValidEntries(nest, entries)
    ensures IsRight(nest, subscript, Search(entries, subscript)) <==> SearchStopsRight(entries, subscript)
    ensures Search(entries, subscript).Some? ==> ValidMatch(nest, Search(entries, subscript).value)
  {
    var key, stop := FirstKey(entries, subscript), FirstStop(entries, subscript);
    if key < |entries| {
      assert ValidEntry(nest, entries[key]);
    } else if subscript.AddRec? && stop < |entries| {
      assert ValidEntry(nest, entries[stop]);
    }
  }

  /** For two indexes in the order in which they are walked: the match found is right, or there is none, if
      and only if the search stops right. */
  lemma MatchIsRightIff(nest: LoopNest, ivEntries: seq<Entry>, derivedEntries: seq<Entry>, subscript: Scev)
    requires ValidEntries(nest, ivEntries) && ValidEntries(nest, derivedEntries)
    ensures IsRight(nest, subscript, SearchBoth(ivEntries, derivedEntries, subscript)) <==> SearchIsRight(ivEntries, derivedEntries, subscript)
    ensures SearchBoth(ivEntries, derivedEntries, subscript).Some? ==> ValidMatch(nest, SearchBoth(ivEntries, derivedEntries, subscript).value)
    ensures OnlyRecurrences(ivEntries) && OnlyRecurrences(derivedEntries) ==> SearchIsRight(ivEntries, derivedEntries, subscript)
  {
    SearchedMatchIsRightIff(nest, ivEntries, subscript);
    SearchedMatchIsRightIff(nest, derivedEntries, subscript);
  }

  // ----- whatever the order of the index -----

  /** The indexes are hash tables: they may be walked in any order. */
  ghost predicate RightInEveryOrder(nest: LoopNest, ivEntries: seq<Entry>, derivedEntries: seq<Entry>, subscript: Scev)
  {
    forall i, d {:trigger SearchBoth(i, d, subscript)} :: multiset(i) == multiset(ivEntries) && multiset(d) == multiset(derivedEntries) ==>
      IsRight(nest, subscript, SearchBoth(i, d, subscript))
  }

  /** What a caller can check: a recurrence has its own entry among the induction variables; or all their
      entries are recurrences and one of them evolves in the same way, or the subscript has its own entry
      among the derived instructions, or all their entries are recurrences too. */
  predicate SafeIndex(ivEntries: seq<Entry>, derivedEntries: seq<Entry>, subscript: Scev)
  {
    subscript.AddRec? ==>
      || HasKey(ivEntries, subscript)
      || (OnlyRecurrences(ivEntries) &&
          (HasSame(ivEntries, subscript) || HasKey(derivedEntries, subscript) || OnlyRecurrences(derivedEntries)))
  }

  lemma SameMembers(a: seq<Entry>, b: seq<Entry>, subscript: Scev)
    requires multiset(a) == multiset(b)
    ensures HasKey(a, subscript) <==> HasKey(b, subscript)
    ensures HasSame(a, subscript) <==> HasSame(b, subscript)
    ensures OnlyRecurrences(a) <==> OnlyRecurrences(b)
    ensures forall nest :: ValidEntries(nest, a) ==> ValidEntries(nest, b)
  {
    MembersIn(a, b, subscript);
    MembersIn(b, a, subscript);
  }

  lemma MembersIn(a: seq<Entry>, b: seq<Entry>, subscript: Scev)
    requires multiset(a) == multiset(b)
    ensures HasKey(a, subscript) ==> HasKey(b, subscript)
    ensures HasSame(a, subscript) ==> HasSame(b, subscript)
    ensures OnlyRecurrences(a) ==> OnlyRecurrences(b)
    ensures forall nest :: ValidEntries(nest, a) ==> ValidEntries(nest, b)
  {
    forall k | 0 <= k < |a|
      ensures exists j :: 0 <= j < |b| && b[j] == a[k]
    {
      assert a[k] in multiset(b);
    }
    forall k | 0 <= k < |b|
      ensures exists j :: 0 <= j < |a| && a[j] == b[k]
    {
      assert b[k] in multiset(a);
    }
  }

  /** A wrong entry can come first. */
  lemma MovedToFront(entries: seq<Entry>, k: nat) returns (moved: seq<Entry>)
    requires k < |entries|
    ensures multiset(moved) == multiset(entries) && |moved| > 0 && moved[0] == entries[k]
  {
    moved := [entries[k]] + entries[..k] + entries[k + 1..];
    assert entries == entries[..k] + [entries[k]] + entries[k + 1..];
  }

  lemma SafeIndexIsRight(nest: LoopNest, i: seq<Entry>, d: seq<Entry>, subscript: Scev)
    requires ValidEntries(nest, i) && ValidEntries(nest, d) && SafeIndex(i, d, subscript)
    ensures IsRight(nest, subscript, SearchBoth(i, d, subscript))
  {
    MatchIsRightIff(nest, i, d, subscript);
  }

  lemma UnsafeIndexIsWrong(nest: LoopNest, ivEntries: seq<Entry>, derivedEntries: seq<Entry>, subscript: Scev)
    requires ValidEntries(nest, ivEntries) && ValidEntries(nest, derivedEntries) && !SafeIndex(ivEntries, derivedEntries, subscript)
    ensures !RightInEveryOrder(nest, ivEntries, derivedEntries, subscript)
  {
    var i, d := ivEntries, derivedEntries;
    if !OnlyRecurrences(ivEntries) {
      var k :| 0 <= k < |ivEntries| && !ivEntries[k].scev.AddRec?;
      i := MovedToFront(ivEntries, k);
    } else {
      var k :| 0 <= k < |derivedEntries| && !derivedEntries[k].scev.AddRec?;
      d := MovedToFront(derivedEntries, k);
    }
    SameMembers(ivEntries, i, subscript);
    SameMembers(derivedEntries, d, subscript);
    MatchIsRightIff(nest, i, d, subscript);
    assert !IsRight(nest, subscript, SearchBoth(i, d, subscript));
  }

  /** For one subscript, whatever the order: the match is right, or there is none, if and only if the index
      is safe for it. An induction-variable entry that is not a recurrence hides even an exact entry among the
      derived instructions. */
  lemma RightInEveryOrderIff(nest: LoopNest, ivEntries: seq<Entry>, derivedEntries: seq<Entry>, subscript: Scev)
    requires ValidEntries(nest, ivEntries) && ValidEntries(nest, derivedEntries)
    ensures RightInEveryOrder(nest, ivEntries, derivedEntries, subscript) <==> SafeIndex(ivEntries, derivedEntries, subscript)
  {
    if SafeIndex(ivEntries, derivedEntries, subscript) {
      forall i, d {:trigger SearchBoth(i, d, subscript)} | multiset(i) == multiset(ivEntries) && multiset(d) == multiset(derivedEntries)
        ensures IsRight(nest, subscript, SearchBoth(i, d, subscript))
      {
        SameMembers(ivEntries, i, subscript);
        SameMembers(derivedEntries, d, subscript);
        SafeIndexIsRight(nest, i, d, subscript);
      }
    } else {
      UnsafeIndexIsWrong(nest, ivEntries, derivedEntries, subscript);
    }
  }

  /** A loop that no indexed recurrence is over. */
  lemma {:induction false} FreshLoop(entries: seq<Entry>) returns (l: nat)
    ensures forall k :: 0 <= k < |entries| && entries[k].scev.AddRec? ==> entries[k].scev.loop < l
  {
    if entries == [] {
      l := 0;
    } else {
      var m := FreshLoop(entries[1..]);
      var first := entries[0].scev;
      l := if first.AddRec? && first.loop >= m then first.loop + 1 else m;
      forall k | 0 <= k < |entries| && entries[k].scev.AddRec?
        ensures entries[k].scev.loop < l
      {
        assert k > 0 ==> entries[k] == entries[1..][k - 1];
      }
    }
  }

  /** For all subscripts: the search is right if and only if both indexes hold only recurrences. */
  lemma RightForAllIff(nest: LoopNest, ivEntries: seq<Entry>, derivedEntries: seq<Entry>)
    requires ValidEntries(nest, ivEntries) && ValidEntries(nest, derivedEntries)
    ensures (forall subscript: Scev :: RightInEveryOrder(nest, ivEntries, derivedEntries, subscript))
            <==> OnlyRecurrences(ivEntries) && OnlyRecurrences(derivedEntries)
  {
    if OnlyRecurrences(ivEntries) && OnlyRecurrences(derivedEntries) {
      forall subscript: Scev
        ensures RightInEveryOrder(nest, ivEntries, derivedEntries, subscript)
      {
        RightInEveryOrderIff(nest, ivEntries, derivedEntries, subscript);
      }
    } else {
      var l := FreshLoop(ivEntries);
      var m := FreshLoop(derivedEntries);
      var unknown := AddRec(l + m, Constant(64, 0), Constant(64, 1));
      RightInEveryOrderIff(nest, ivEntries, derivedEntries, unknown);
      assert !RightInEveryOrder(nest, ivEntries, derivedEntries, unknown);
    }
  }

  // ----- the index of a loop nest -----

  /** The index holds one entry for every expression of an instruction of an induction variable, and no other. */
  ghost predicate IndexesVariables(nest: LoopNest, entries: seq<Entry>)
  {
    && ValidEntries(nest, entries)
    && (forall k :: 0 <= k < |entries| ==> entries[k].found.inst in nest.ivs[entries[k].found.iv].insts)
    && (forall i, j :: 0 <= i < j < |entries| ==> entries[i].scev != entries[j].scev)
    && (forall iv, inst :: iv in nest.ivs && inst in nest.ivs[iv].insts && inst in nest.scevOf ==> HasKey(entries, nest.scevOf[inst]))
  }

  /** It holds only recurrences if and only if all instructions of induction variables are recurrences; a
      cast of one of them, which the pass counts among them, is not. */
  lemma IndexedRecurrencesIff(nest: LoopNest, entries: seq<Entry>)
    requires IndexesVariables(nest, entries)
    ensures OnlyRecurrences(entries) <==>
            forall iv, inst :: iv in nest.ivs && inst in nest.ivs[iv].insts && inst in nest.scevOf ==> nest.scevOf[inst].AddRec?
  {
    if OnlyRecurrences(entries) {
      forall iv, inst | iv in nest.ivs && inst in nest.ivs[iv].insts && inst in nest.scevOf
        ensures nest.scevOf[inst].AddRec?
      {
        assert HasKey(entries, nest.scevOf[inst]);
      }
    } else {
      var k :| 0 <= k < |entries| && !entries[k].scev.AddRec?;
      assert ValidEntry(nest, entries[k]);
    }
  }
}
