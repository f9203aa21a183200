/** HELIX with a single array of locks: mutual exclusion, when it makes progress, and what it does not give. */
module HelixSingleArray {
  import opened Helix

  // ----- one array for all cores -----

  /** With a single array a segment is a critical section: its lock is open or one core is inside. */
  ghost predicate Exclusive(lp: Loop, st: State)
    requires lp.cores > 0
  {
    Shaped(lp, st) && forall s :: 0 <= s < lp.segments ==> ExclusiveIn(lp, st, s)
  }

  ghost predicate ExclusiveIn(lp: Loop, st: State, s: nat)
    requires lp.cores > 0 && Shaped(lp, st)
  {
    && (forall c, d :: 0 <= c < lp.cores && 0 <= d < lp.cores && Inside(lp, st, c, s) && Inside(lp, st, d, s) ==> c == d)
    && ((0, s) in st.unlocked <==> forall c :: 0 <= c < lp.cores ==> !Inside(lp, st, c, s))
  }

  ghost predicate InsideStep(lp: Loop, st: State, st': State, c: nat, s: nat, waits: bool, signals: bool)
    requires lp.cores > 0 && Shaped(lp, st) && Shaped(lp, st')
  {
    forall d {:trigger Inside(lp, st', d, s)} {:trigger Inside(lp, st, d, s)} :: 0 <= d < lp.cores ==>
      (Inside(lp, st', d, s) <==> (d == c && waits) || (Inside(lp, st, d, s) && !(d == c && signals)))
  }

  lemma InsideAfterMove(lp: Loop, st: State, c: nat, d: nat, s: nat)
    requires WellFormed(lp) && Shaped(lp, st) && CanMove(lp, st, c) && d < lp.cores && s < lp.segments
    ensures Shaped(lp, Move(lp, st, c))
    ensures Inside(lp, Move(lp, st, c), d, s) <==>
            (d == c && AtOp(lp, st, c, Wait(s))) || (Inside(lp, st, d, s) && !(d == c && AtOp(lp, st, c, Signal(s))))
  {
    MoveShaped(lp, st, c);
    var st' := Move(lp, st, c);
    var k := st'.iter[d];
    DidAfterMove(lp, st, c, k, Wait(s));
    DidAfterMove(lp, st, c, k, Signal(s));
    var ops := lp.body(st.iter[c]);
    assert OnceEach(ops, lp.segments) && WaitsThenSignals(ops, s);
    if d == c {
      if AtOp(lp, st, c, Wait(s)) {
        NotDoneYet(lp, st, c, Wait(s));
        SignalComesLater(lp, st, c, s);
      }
      if st.pc[c] == |ops| {
        assert ops[..st.pc[c]] == ops;
        assert Mod(k, lp.cores) == c;
      }
    }
  }

  lemma SignalComesLater(lp: Loop, st: State, c: nat, s: nat)
    requires WellFormed(lp) && Shaped(lp, st) && c < lp.cores && AtOp(lp, st, c, Wait(s))
    ensures !Did(lp, st, st.iter[c], Signal(s))
  {
    var ops := lp.body(st.iter[c]);
    assert OnceEach(ops, lp.segments) && WaitsThenSignals(ops, s);
  }

  lemma MoveOnInside(lp: Loop, st: State, c: nat, s: nat)
    requires WellFormed(lp) && Shaped(lp, st) && CanMove(lp, st, c) && s < lp.segments
    ensures Shaped(lp, Move(lp, st, c))
    ensures InsideStep(lp, st, Move(lp, st, c), c, s, AtOp(lp, st, c, Wait(s)), AtOp(lp, st, c, Signal(s)))
  {
    MoveShaped(lp, st, c);
    forall d: nat {:trigger Inside(lp, Move(lp, st, c), d, s)} {:trigger Inside(lp, st, d, s)} | d < lp.cores
      ensures Inside(lp, Move(lp, st, c), d, s) <==>
              (d == c && AtOp(lp, st, c, Wait(s))) || (Inside(lp, st, d, s) && !(d == c && AtOp(lp, st, c, Signal(s))))
    {
      InsideAfterMove(lp, st, c, d, s);
    }
  }

  lemma ExclusiveAfter(lp: Loop, st: State, st': State, c: nat, s: nat, waits: bool, signals: bool)
    requires WellFormed(lp) && !lp.lio && Shaped(lp, st) && Shaped(lp, st') && c < lp.cores && s < lp.segments && ExclusiveIn(lp, st, s)
    requires LocksStep(lp, st, st', c, s, waits, signals) && InsideStep(lp, st, st', c, s, waits, signals)
    requires !(waits && signals)
    requires waits ==> (0, s) in st.unlocked
    requires signals ==> Inside(lp, st, c, s)
    ensures ExclusiveIn(lp, st', s)
  {
    assert Past(lp, c) == 0 == Future(lp, c);
    if waits {
      assert Inside(lp, st', c, s);
    }
  }

  lemma MoveKeepsExclusiveIn(lp: Loop, st: State, c: nat, s: nat)
    requires WellFormed(lp) && !lp.lio && Shaped(lp, st) && CanMove(lp, st, c) && s < lp.segments && ExclusiveIn(lp, st, s)
    ensures Shaped(lp, Move(lp, st, c)) && ExclusiveIn(lp, Move(lp, st, c), s)
  {
    MoveOnLocks(lp, st, c, s);
    MoveOnInside(lp, st, c, s);
    if AtOp(lp, st, c, Signal(s)) {
      NotDoneYet(lp, st, c, Signal(s));
    }
    ExclusiveAfter(lp, st, Move(lp, st, c), c, s, AtOp(lp, st, c, Wait(s)), AtOp(lp, st, c, Signal(s)));
  }

  lemma MoveKeepsExclusive(lp: Loop, st: State, c: nat)
    requires WellFormed(lp) && !lp.lio && Exclusive(lp, st) && CanMove(lp, st, c)
    ensures Exclusive(lp, Move(lp, st, c))
  {
    MoveShaped(lp, st, c);
    forall s | 0 <= s < lp.segments
      ensures ExclusiveIn(lp, Move(lp, st, c), s)
    {
      MoveKeepsExclusiveIn(lp, st, c, s);
    }
  }

  /** With one array, whatever the interleaving, at most one core is inside a segment. */
  lemma {:induction false} SingleArrayExcludes(lp: Loop, st: State, schedule: seq<nat>)
    requires WellFormed(lp) && !lp.lio && Exclusive(lp, st) && Possible(lp, st, schedule)
    ensures Exclusive(lp, After(lp, st, schedule))
    decreases |schedule|
  {
    if schedule != [] {
      MoveKeepsExclusive(lp, st, schedule[0]);
      SingleArrayExcludes(lp, Move(lp, st, schedule[0]), schedule[1..]);
    }
  }

  lemma InitExclusive(lp: Loop)
    requires WellFormed(lp)
    ensures Exclusive(lp, Init(lp))
  {
    var st := Init(lp);
    forall s, c | 0 <= s < lp.segments && 0 <= c < lp.cores
      ensures !Inside(lp, st, c, s)
    {
    }
  }

  // ----- progress with one array -----

  /** An iteration that waits for a segment while it holds others holds only segments of lower rank. */
  ghost predicate WaitsInOrder(ops: seq<Op>, rank: nat -> nat)
  {
    forall m, n :: 0 <= m < n < |ops| && ops[m].Wait? && ops[n].Wait? && Signal(ops[m].segment) !in ops[..n] ==>
      rank(ops[m].segment) < rank(ops[n].segment)
  }

  /** All iterations take their segments in one common order. */
  ghost predicate OneOrder(lp: Loop, rank: nat -> nat)
  {
    forall k: nat {:trigger lp.body(k)} :: k < lp.iterations ==> WaitsInOrder(lp.body(k), rank)
  }

  /** No iteration waits for a segment while it holds another. */
  ghost predicate NoNesting(lp: Loop)
  {
    forall k: nat, m, n :: k < lp.iterations && 0 <= m < n < |lp.body(k)| && lp.body(k)[m].Wait? && lp.body(k)[n].Wait? ==>
      Signal(lp.body(k)[m].segment) in lp.body(k)[..n]
  }

  lemma NoNestingIsOneOrder(lp: Loop, rank: nat -> nat)
    requires NoNesting(lp)
    ensures OneOrder(lp, rank)
  {
  }

  lemma {:induction false} RankBound(rank: nat -> nat, segments: nat) returns (bound: nat)
    ensures forall s: nat :: s < segments ==> rank(s) < bound
  {
    if segments == 0 {
      bound := 0;
    } else {
      var b := RankBound(rank, segments - 1);
      bound := if rank(segments - 1) < b then b else rank(segments - 1) + 1;
    }
  }

  /** A core that cannot move waits for a segment that another core holds. */
  lemma HeldUpBy(lp: Loop, st: State, c: nat) returns (s: nat, d: nat)
    requires WellFormed(lp) && !lp.lio && Exclusive(lp, st) && c < lp.cores && st.iter[c] < lp.iterations && !CanMove(lp, st, c)
    ensures AtOp(lp, st, c, Wait(s)) && s < lp.segments && d < lp.cores && Inside(lp, st, d, s) && st.iter[d] < lp.iterations
  {
    s :| AtOp(lp, st, c, Wait(s)) && (Past(lp, c), s) !in st.unlocked;
    assert Past(lp, c) == 0;
    NotDoneYet(lp, st, c, Wait(s));
    assert ExclusiveIn(lp, st, s);
    d :| d < lp.cores && Inside(lp, st, d, s);
    assert lp.body(st.iter[d])[..st.pc[d]] != [];
  }

  /** What a core inside a segment waits for has a higher rank. */
  lemma HolderWaitsHigher(lp: Loop, st: State, rank: nat -> nat, d: nat, s: nat, t: nat)
    requires WellFormed(lp) && Shaped(lp, st) && OneOrder(lp, rank) && d < lp.cores
    requires Inside(lp, st, d, s) && AtOp(lp, st, d, Wait(t))
    ensures rank(s) < rank(t)
  {
    var ops := lp.body(st.iter[d]);
    assert WaitsInOrder(ops, rank);
    var m :| 0 <= m < st.pc[d] && ops[m] == Wait(s);
  }

  /** From a core that has iterations left, following holders up the ranks leads to one that can move. */
  lemma {:induction false} FollowHolders(lp: Loop, st: State, rank: nat -> nat, bound: nat, c: nat, low: nat) returns (r: nat)
    requires WellFormed(lp) && !lp.lio && Exclusive(lp, st) && OneOrder(lp, rank)
    requires forall s: nat :: s < lp.segments ==> rank(s) < bound
    requires c < lp.cores && st.iter[c] < lp.iterations
    requires forall s: nat :: s < lp.segments && AtOp(lp, st, c, Wait(s)) ==> low <= rank(s)
    ensures r < lp.cores && CanMove(lp, st, r)
    decreases bound - low
  {
    if CanMove(lp, st, c) {
      r := c;
    } else {
      var s, d := HeldUpBy(lp, st, c);
      forall t: nat | t < lp.segments && AtOp(lp, st, d, Wait(t))
        ensures rank(s) + 1 <= rank(t)
      {
        HolderWaitsHigher(lp, st, rank, d, s, t);
      }
      r := FollowHolders(lp, st, rank, bound, d, rank(s) + 1);
    }
  }

  lemma OneOrderSomeCoreMoves(lp: Loop, st: State, rank: nat -> nat) returns (c: nat)
    requires WellFormed(lp) && !lp.lio && Exclusive(lp, st) && OneOrder(lp, rank) && !Finished(lp, st)
    ensures c < lp.cores && CanMove(lp, st, c)
  {
    var bound := RankBound(rank, lp.segments);
    var d: nat :| d < lp.cores && st.iter[d] < lp.iterations;
    c := FollowHolders(lp, st, rank, bound, d, 0);
  }

  /** How many of the first t iterations have entered segment s. */
  ghost function Entered(lp: Loop, st: State, s: nat, t: nat): nat
    requires lp.cores > 0 && Shaped(lp, st)
  {
    if t == 0 then 0 else Entered(lp, st, s, t - 1) + if Did(lp, st, t - 1, Wait(s)) then 1 else 0
  }

  lemma EnteredAfterMove(lp: Loop, st: State, c: nat, s: nat, t: nat)
    requires WellFormed(lp) && Shaped(lp, st) && CanMove(lp, st, c) && s < lp.segments
    ensures Shaped(lp, Move(lp, st, c))
    ensures Entered(lp, Move(lp, st, c), s, t) == Entered(lp, st, s, t) + if st.iter[c] < t && AtOp(lp, st, c, Wait(s)) then 1 else 0
  {
    MoveOnHistory(lp, st, c, s);
    if AtOp(lp, st, c, Wait(s)) {
      NotDoneYet(lp, st, c, Wait(s));
    }
    EnteredAfterStep(lp, st, Move(lp, st, c), st.iter[c], s, t, AtOp(lp, st, c, Wait(s)), AtOp(lp, st, c, Signal(s)));
  }

  lemma {:induction false} EnteredAfterStep(lp: Loop, st: State, st': State, k: nat, s: nat, t: nat, waits: bool, signals: bool)
    requires lp.cores > 0 && Shaped(lp, st) && Shaped(lp, st') && HistoryStep(lp, st, st', k, s, waits, signals)
    requires waits ==> !Did(lp, st, k, Wait(s))
    ensures Entered(lp, st', s, t) == Entered(lp, st, s, t) + if k < t && waits then 1 else 0
    decreases t
  {
    if t > 0 {
      EnteredAfterStep(lp, st, st', k, s, t - 1, waits, signals);
      assert Did(lp, st', t - 1, Wait(s)) <==> Did(lp, st, t - 1, Wait(s)) || (waits && t - 1 == k);
    }
  }

  /** Every entry in the history is one iteration's. */
  lemma {:induction false} RunCountsEntries(lp: Loop, st: State, schedule: seq<nat>, s: nat)
    requires WellFormed(lp) && Shaped(lp, st) && Possible(lp, st, schedule) && s < lp.segments
    requires |st.entries[s]| == Entered(lp, st, s, lp.iterations)
    ensures |After(lp, st, schedule).entries[s]| == Entered(lp, After(lp, st, schedule), s, lp.iterations)
    decreases |schedule|
  {
    if schedule != [] {
      var c := schedule[0];
      MoveOnLocks(lp, st, c, s);
      EnteredAfterMove(lp, st, c, s, lp.iterations);
      RunCountsEntries(lp, Move(lp, st, c), schedule[1..], s);
    }
  }

  lemma {:induction false} NoneEntered(lp: Loop, s: nat, t: nat)
    requires WellFormed(lp)
    ensures Entered(lp, Init(lp), s, t) == 0
  {
    if t > 0 {
      NoneEntered(lp, s, t - 1);
    }
  }

  lemma {:induction false} FinishedEntered(lp: Loop, st: State, s: nat, t: nat)
    requires WellFormed(lp) && Shaped(lp, st) && Finished(lp, st) && t <= lp.iterations
    ensures Entered(lp, st, s, t) == t
  {
    if t > 0 {
      FinishedEntered(lp, st, s, t - 1);
      assert st.iter[Mod(t - 1, lp.cores)] >= lp.iterations;
    }
  }

  /** With one array and one common order every run is finite and can be extended until all iterations
      are done, and then every segment was entered once per iteration. */
  lemma SingleArrayProgress(lp: Loop, schedule: seq<nat>, rank: nat -> nat)
    requires WellFormed(lp) && !lp.lio && OneOrder(lp, rank) && Possible(lp, Init(lp), schedule)
    ensures |schedule| <= TotalWork(lp, lp.iterations)
    ensures |schedule| < TotalWork(lp, lp.iterations) <==> exists c :: CanMove(lp, After(lp, Init(lp), schedule), c)
    ensures |schedule| == TotalWork(lp, lp.iterations) ==>
              forall s :: 0 <= s < lp.segments ==> |After(lp, Init(lp), schedule).entries[s]| == lp.iterations
  {
    var st := After(lp, Init(lp), schedule);
    InitExclusive(lp);
    SingleArrayExcludes(lp, Init(lp), schedule);
    WorkAtStart(lp, lp.iterations);
    StepsAndWork(lp, Init(lp), schedule);
    FinishedIffNoWork(lp, st);
    if !Finished(lp, st) {
      var c := OneOrderSomeCoreMoves(lp, st, rank);
    } else {
      forall s | 0 <= s < lp.segments
        ensures |st.entries[s]| == lp.iterations
      {
        NoneEntered(lp, s, lp.iterations);
        RunCountsEntries(lp, Init(lp), schedule, s);
        FinishedEntered(lp, st, s, lp.iterations);
      }
    }
  }

  /** In particular when no iteration waits for a segment while it holds another. */
  lemma FlatProgress(lp: Loop, schedule: seq<nat>)
    requires WellFormed(lp) && !lp.lio && NoNesting(lp) && Possible(lp, Init(lp), schedule)
    ensures |schedule| <= TotalWork(lp, lp.iterations)
    ensures |schedule| < TotalWork(lp, lp.iterations) <==> exists c :: CanMove(lp, After(lp, Init(lp), schedule), c)
  {
    NoNestingIsOneOrder(lp, s => 0);
    SingleArrayProgress(lp, schedule, s => 0);
  }

  // ----- what one array does not give -----

  /** One array gives no order: the second core may enter first. */
  lemma SingleArrayLosesOrder() returns (lp: Loop, schedule: seq<nat>)
    ensures WellFormed(lp) && !lp.lio && Possible(lp, Init(lp), schedule)
    ensures var st := After(lp, Init(lp), schedule);
            lp.segments == 1 && st.entries[0] == [1]
  {
    lp := Loop(2, 1, 2, false, k => [Wait(0), Signal(0)]);
    schedule := [1];
    var st := Init(lp);
    MoveShaped(lp, st, 1);
    assert Possible(lp, Move(lp, st, 1), schedule[1..]);
  }

  function CrossedSegments(k: nat): seq<Op>
  {
    if k == 0 then [Wait(0), Wait(1), Signal(1), Signal(0)] else [Wait(1), Wait(0), Signal(0), Signal(1)]
  }

  lemma CrossedOnceEach(k: nat)
    ensures OnceEach(CrossedSegments(k), 2)
  {
    var ops := CrossedSegments(k);
    assert ops[if k == 0 then 0 else 1] == Wait(0) && ops[if k == 0 then 1 else 0] == Wait(1);
    assert ops[if k == 0 then 3 else 2] == Signal(0) && ops[if k == 0 then 2 else 3] == Signal(1);
    forall s | 0 <= s < 2
      ensures WaitsThenSignals(ops, s)
    {
    }
  }

  /** Without a common order two cores may wait for each other for ever, in a loop that the ring would
      complete. */
  lemma SingleArrayMayDeadlock() returns (lp: Loop, schedule: seq<nat>)
    ensures WellFormed(lp) && WellFormed(lp.(lio := true)) && !lp.lio && Possible(lp, Init(lp), schedule)
    ensures var st := After(lp, Init(lp), schedule);
            !Finished(lp, st) && forall c :: !CanMove(lp, st, c)
  {
    lp := Loop(2, 2, 2, false, CrossedSegments);
    forall k: nat ensures OnceEach(lp.body(k), 2) {
      CrossedOnceEach(k);
    }
    schedule := [0, 1];
    var st := Init(lp);
    var st1 := FirstWait(lp, st, 0, 0);
    var st2 := FirstWait(lp, st1, 1, 1);
    assert schedule[1..] == [1] && [1][1..] == [];
    assert Possible(lp, st2, []) && Possible(lp, st1, [1]);
    assert After(lp, st1, [1]) == After(lp, st2, []) == st2;
    assert AtOp(lp, st2, 0, Wait(1)) && AtOp(lp, st2, 1, Wait(0));
  }

  lemma FirstWait(lp: Loop, st: State, c: nat, s: nat) returns (st': State)
    requires WellFormed(lp) && !lp.lio && Shaped(lp, st) && c < lp.cores && s < lp.segments
    requires AtOp(lp, st, c, Wait(s)) && (0, s) in st.unlocked
    ensures CanMove(lp, st, c) && st' == Move(lp, st, c) && Shaped(lp, st')
    ensures st'.iter == st.iter && st'.pc == st.pc[c := st.pc[c] + 1] && st'.unlocked == st.unlocked - {(0, s)}
  {
    assert Past(lp, c) == 0;
    MoveShaped(lp, st, c);
    st' := Move(lp, st, c);
  }

  // ----- when cores do block each other -----

  ghost predicate WaitAt(ops: seq<Op>, m: nat, s: nat)
  {
    m < |ops| && ops[m] == Wait(s)
  }

  /** Segment s has been waited for and not signalled before position m. */
  ghost predicate HoldsAt(ops: seq<Op>, m: nat, s: nat)
    requires m <= |ops|
  {
    Wait(s) in ops[..m] && Signal(s) !in ops[..m]
  }

  /** At m1 the first iteration holds s and waits for t, at m2 the second holds t and waits for s, and on the
      way there the second takes nothing that the first holds. */
  ghost predicate CrossesAt(a: seq<Op>, m1: nat, b: seq<Op>, m2: nat, s: nat, t: nat)
  {
    && WaitAt(a, m1, t) && HoldsAt(a, m1, s) && WaitAt(b, m2, s) && HoldsAt(b, m2, t)
    && forall n, u: nat :: 0 <= n < m2 && b[n] == Wait(u) ==> !HoldsAt(a, m1, u)
  }

  /** Two iterations of different cores cross. */
  ghost predicate Crossed(lp: Loop, k1: nat, m1: nat, k2: nat, m2: nat, s: nat, t: nat)
    requires lp.cores > 0
  {
    k1 < lp.iterations && k2 < lp.iterations && Mod(k1, lp.cores) != Mod(k2, lp.cores) && CrossesAt(lp.body(k1), m1, lp.body(k2), m2, s, t)
  }

  ghost predicate HoldsNothing(lp: Loop, st: State, d: nat)
    requires lp.cores > 0 && Shaped(lp, st) && d < lp.cores
  {
    forall u: nat :: !Inside(lp, st, d, u)
  }

  lemma InsideIsHolding(lp: Loop, st: State, d: nat, u: nat)
    requires lp.cores > 0 && Shaped(lp, st) && d < lp.cores
    ensures Inside(lp, st, d, u) <==> HoldsAt(lp.body(st.iter[d]), st.pc[d], u)
  {
  }

  lemma AtStartHoldsNothing(lp: Loop, st: State, d: nat)
    requires lp.cores > 0 && Shaped(lp, st) && d < lp.cores && st.pc[d] == 0
    ensures HoldsNothing(lp, st, d)
  {
  }

  /** What core d holds is not waited for by core c on its way to position m of iteration k. */
  ghost predicate OutOfTheWay(lp: Loop, st: State, d: nat, c: nat, k: nat, m: nat)
    requires lp.cores > 0 && Shaped(lp, st) && d < lp.cores && c < lp.cores && m <= |lp.body(k)|
  {
    HoldsNothing(lp, st, d) || (st.iter[c] == k && forall u: nat :: Inside(lp, st, d, u) ==> Wait(u) !in lp.body(k)[..m])
  }

  ghost predicate Before(lp: Loop, st: State, c: nat, k: nat, m: nat)
    requires lp.cores > 0 && Shaped(lp, st) && c < lp.cores
  {
    st.iter[c] < k || (st.iter[c] == k && st.pc[c] <= m)
  }

  lemma MovesAlone(lp: Loop, st: State, c: nat, k: nat, m: nat)
    requires WellFormed(lp) && !lp.lio && Exclusive(lp, st) && c < lp.cores && k < lp.iterations && m <= |lp.body(k)|
    requires Before(lp, st, c, k, m) && !(st.iter[c] == k && st.pc[c] == m)
    requires forall d: nat {:trigger OutOfTheWay(lp, st, d, c, k, m)} :: d < lp.cores && d != c ==> OutOfTheWay(lp, st, d, c, k, m)
    ensures CanMove(lp, st, c)
  {
    forall u: nat | AtOp(lp, st, c, Wait(u))
      ensures (Past(lp, c), u) in st.unlocked
    {
      NotDoneYet(lp, st, c, Wait(u));
      assert ExclusiveIn(lp, st, u) && Past(lp, c) == 0;
      forall d: nat | d < lp.cores
        ensures !Inside(lp, st, d, u)
      {
        if d != c {
          assert OutOfTheWay(lp, st, d, c, k, m);
          assert st.iter[c] == k ==> lp.body(k)[..m][st.pc[c]] == Wait(u);
        }
      }
    }
  }

  lemma StaysBefore(lp: Loop, st: State, c: nat, k: nat, m: nat)
    requires WellFormed(lp) && Shaped(lp, st) && CanMove(lp, st, c) && Mod(k, lp.cores) == c && m <= |lp.body(k)|
    requires Before(lp, st, c, k, m) && !(st.iter[c] == k && st.pc[c] == m)
    ensures Shaped(lp, Move(lp, st, c)) && Before(lp, Move(lp, st, c), c, k, m)
    ensures forall d :: 0 <= d < lp.cores && d != c ==> Move(lp, st, c).iter[d] == st.iter[d] && Move(lp, st, c).pc[d] == st.pc[d]
  {
    MoveShaped(lp, st, c);
    if st.iter[c] < k < st.iter[c] + lp.cores {
      SameRemainder(k, st.iter[c], lp.cores);
    }
  }

  lemma MoveThen(lp: Loop, st: State, c: nat, rest: seq<nat>)
    requires WellFormed(lp) && Shaped(lp, st) && CanMove(lp, st, c) && Shaped(lp, Move(lp, st, c)) && Possible(lp, Move(lp, st, c), rest)
    ensures Possible(lp, st, [c] + rest) && After(lp, st, [c] + rest) == After(lp, Move(lp, st, c), rest)
  {
    assert ([c] + rest)[1..] == rest;
  }

  /** Run one core, and no other, up to a position of one of its iterations. */
  lemma RunTo(lp: Loop, st: State, c: nat, k: nat, m: nat) returns (schedule: seq<nat>)
    requires WellFormed(lp) && !lp.lio && Exclusive(lp, st) && c < lp.cores && k < lp.iterations && m <= |lp.body(k)|
    requires Mod(k, lp.cores) == c && Before(lp, st, c, k, m)
    requires forall d: nat {:trigger OutOfTheWay(lp, st, d, c, k, m)} :: d < lp.cores && d != c ==> OutOfTheWay(lp, st, d, c, k, m)
    ensures Possible(lp, st, schedule) && Exclusive(lp, After(lp, st, schedule))
    ensures After(lp, st, schedule).iter == st.iter[c := k] && After(lp, st, schedule).pc == st.pc[c := m]
    decreases Work(lp, st, lp.iterations)
  {
    if st.iter[c] == k && st.pc[c] == m {
      schedule := [];
      assert st.iter[c := k] == st.iter && st.pc[c := m] == st.pc;
    } else {
      MovesAlone(lp, st, c, k, m);
      MovedAlone(lp, st, c, k, m, Move(lp, st, c));
      var rest := RunTo(lp, Move(lp, st, c), c, k, m);
      schedule := [c] + rest;
      MoveThen(lp, st, c, rest);
    }
  }

  lemma MovedAlone(lp: Loop, st: State, c: nat, k: nat, m: nat, st': State)
    requires WellFormed(lp) && !lp.lio && Exclusive(lp, st) && CanMove(lp, st, c) && st' == Move(lp, st, c)
    requires m <= |lp.body(k)| && Mod(k, lp.cores) == c && Before(lp, st, c, k, m) && !(st.iter[c] == k && st.pc[c] == m)
    requires forall d: nat {:trigger OutOfTheWay(lp, st, d, c, k, m)} :: d < lp.cores && d != c ==> OutOfTheWay(lp, st, d, c, k, m)
    ensures Exclusive(lp, st') && Before(lp, st', c, k, m) && Work(lp, st', lp.iterations) < Work(lp, st, lp.iterations)
    ensures forall d: nat {:trigger OutOfTheWay(lp, st', d, c, k, m)} :: d < lp.cores && d != c ==> OutOfTheWay(lp, st', d, c, k, m)
    ensures st'.iter[c := k] == st.iter[c := k] && st'.pc[c := m] == st.pc[c := m]
  {
    MoveKeepsExclusive(lp, st, c);
    WorkAfterMove(lp, st, c, lp.iterations);
    StaysBefore(lp, st, c, k, m);
    OnlyMoved(lp, st, c, k, m, st');
    StillOutOfTheWay(lp, st, st', c, k, m);
  }

  lemma OnlyMoved(lp: Loop, st: State, c: nat, k: nat, m: nat, st': State)
    requires lp.cores > 0 && Shaped(lp, st) && Shaped(lp, st') && c < lp.cores
    requires forall d :: 0 <= d < lp.cores && d != c ==> st'.iter[d] == st.iter[d] && st'.pc[d] == st.pc[d]
    ensures st'.iter[c := k] == st.iter[c := k] && st'.pc[c := m] == st.pc[c := m]
  {
  }

  lemma StillOutOfTheWay(lp: Loop, st: State, st': State, c: nat, k: nat, m: nat)
    requires lp.cores > 0 && Shaped(lp, st) && Shaped(lp, st') && c < lp.cores && m <= |lp.body(k)| && Before(lp, st', c, k, m)
    requires st.iter[c] <= st'.iter[c]
    requires forall d :: 0 <= d < lp.cores && d != c ==> st'.iter[d] == st.iter[d] && st'.pc[d] == st.pc[d]
    requires forall d: nat {:trigger OutOfTheWay(lp, st, d, c, k, m)} :: d < lp.cores && d != c ==> OutOfTheWay(lp, st, d, c, k, m)
    ensures forall d: nat {:trigger OutOfTheWay(lp, st', d, c, k, m)} :: d < lp.cores && d != c ==> OutOfTheWay(lp, st', d, c, k, m)
  {
    forall d: nat {:trigger OutOfTheWay(lp, st', d, c, k, m)} | d < lp.cores && d != c
      ensures OutOfTheWay(lp, st', d, c, k, m)
    {
      assert OutOfTheWay(lp, st, d, c, k, m);
      forall u: nat
        ensures Inside(lp, st', d, u) <==> Inside(lp, st, d, u)
      {
        InsideIsHolding(lp, st, d, u);
        InsideIsHolding(lp, st', d, u);
      }
    }
  }

  lemma ThenPossible(lp: Loop, st: State, first: seq<nat>, second: seq<nat>)
    requires WellFormed(lp) && Shaped(lp, st) && Possible(lp, st, first) && Possible(lp, After(lp, st, first), second)
    ensures Possible(lp, st, first + second) && After(lp, st, first + second) == After(lp, After(lp, st, first), second)
  {
    Chained(lp, st, first, After(lp, st, first), second, first + second);
  }

  lemma {:induction false} Chained(lp: Loop, st: State, first: seq<nat>, mid: State, second: seq<nat>, both: seq<nat>)
    requires WellFormed(lp) && Shaped(lp, st) && Shaped(lp, mid) && both == first + second
    requires Possible(lp, st, first) && After(lp, st, first) == mid && Possible(lp, mid, second)
    ensures Possible(lp, st, both) && After(lp, st, both) == After(lp, mid, second)
    decreases |first|, 1
  {
    if first == [] {
      assert both == second;
    } else {
      ChainedRest(lp, st, first, mid, second, both);
    }
  }

  lemma {:induction false} ChainedRest(lp: Loop, st: State, first: seq<nat>, mid: State, second: seq<nat>, both: seq<nat>)
    requires WellFormed(lp) && Shaped(lp, st) && Shaped(lp, mid) && first != [] && both == first + second
    requires Possible(lp, st, first) && After(lp, st, first) == mid && Possible(lp, mid, second)
    ensures Possible(lp, st, both) && After(lp, st, both) == After(lp, mid, second)
    decreases |first|, 0
  {
    var rest, both1 := first[1..], both[1..];
    assert both1 == rest + second && both[0] == first[0];
    var st1 := FirstMove(lp, st, first, both);
    Chained(lp, st1, rest, mid, second, both1);
  }

  /** A schedule, and another one with the same first move. */
  lemma FirstMove(lp: Loop, st: State, schedule: seq<nat>, other: seq<nat>) returns (st1: State)
    requires WellFormed(lp) && Shaped(lp, st) && Possible(lp, st, schedule) && schedule != [] && other != [] && other[0] == schedule[0]
    ensures Shaped(lp, st1) && Possible(lp, st1, schedule[1..]) && After(lp, st, schedule) == After(lp, st1, schedule[1..])
    ensures Possible(lp, st1, other[1..]) ==> Possible(lp, st, other) && After(lp, st, other) == After(lp, st1, other[1..])
  {
    MoveShaped(lp, st, schedule[0]);
    st1 := Move(lp, st, schedule[0]);
  }

  /** Core c1 holds s and waits for t, core c2 holds t and waits for s. */
  ghost predicate BlockEachOther(lp: Loop, st: State, c1: nat, c2: nat, s: nat, t: nat)
    requires lp.cores > 0
  {
    && Exclusive(lp, st) && c1 < lp.cores && c2 < lp.cores && c1 != c2
    && AtOp(lp, st, c1, Wait(t)) && Inside(lp, st, c1, s) && AtOp(lp, st, c2, Wait(s)) && Inside(lp, st, c2, t)
  }

  lemma NeitherMoves(lp: Loop, st: State, c1: nat, c2: nat, s: nat, t: nat)
    requires WellFormed(lp) && !lp.lio && BlockEachOther(lp, st, c1, c2, s, t)
    ensures !CanMove(lp, st, c1) && !CanMove(lp, st, c2) && !Finished(lp, st)
  {
    NotDoneYet(lp, st, c1, Wait(t));
    NotDoneYet(lp, st, c2, Wait(s));
    assert ExclusiveIn(lp, st, s) && ExclusiveIn(lp, st, t);
    assert Past(lp, c1) == 0 == Past(lp, c2);
  }

  lemma StillBlocked(lp: Loop, st: State, c1: nat, c2: nat, s: nat, t: nat, c: nat, st': State)
    requires WellFormed(lp) && !lp.lio && BlockEachOther(lp, st, c1, c2, s, t) && CanMove(lp, st, c) && st' == Move(lp, st, c)
    ensures BlockEachOther(lp, st', c1, c2, s, t) && Work(lp, st', lp.iterations) < Work(lp, st, lp.iterations)
  {
    NeitherMoves(lp, st, c1, c2, s, t);
    MoveKeepsExclusive(lp, st, c);
    WorkAfterMove(lp, st, c, lp.iterations);
    InsideIsHolding(lp, st, c1, s);
    InsideIsHolding(lp, st, c2, t);
    InsideIsHolding(lp, st', c1, s);
    InsideIsHolding(lp, st', c2, t);
  }

  /** ... and they do so for ever, until nobody else can move either. */
  lemma BlockForEver(lp: Loop, st: State, c1: nat, c2: nat, s: nat, t: nat) returns (schedule: seq<nat>)
    requires WellFormed(lp) && !lp.lio && BlockEachOther(lp, st, c1, c2, s, t)
    ensures Possible(lp, st, schedule) && !Finished(lp, After(lp, st, schedule))
    ensures forall c :: !CanMove(lp, After(lp, st, schedule), c)
    decreases Work(lp, st, lp.iterations)
  {
    NeitherMoves(lp, st, c1, c2, s, t);
    if c: nat :| CanMove(lp, st, c) {
      StillBlocked(lp, st, c1, c2, s, t, c, Move(lp, st, c));
      var rest := BlockForEver(lp, Move(lp, st, c), c1, c2, s, t);
      schedule := [c] + rest;
      MoveThen(lp, st, c, rest);
    } else {
      schedule := [];
    }
  }

  /** Bring both cores to the start of their iterations, the first to where it waits, then the second. */
  lemma ReachCrossing(lp: Loop, k1: nat, m1: nat, k2: nat, m2: nat, s: nat, t: nat) returns (schedule: seq<nat>)
    requires WellFormed(lp) && !lp.lio && Crossed(lp, k1, m1, k2, m2, s, t)
    ensures Possible(lp, Init(lp), schedule)
    ensures BlockEachOther(lp, After(lp, Init(lp), schedule), Mod(k1, lp.cores), Mod(k2, lp.cores), s, t)
  {
    var c1, c2 := Mod(k1, lp.cores), Mod(k2, lp.cores);
    InitExclusive(lp);
    var first := ReachStarts(lp, k1, k2);
    var st := After(lp, Init(lp), first);
    var second := ReachWaits(lp, st, k1, m1, k2, m2, s, t);
    ThenPossible(lp, Init(lp), first, second);
    schedule := first + second;
  }

  lemma InitBefore(lp: Loop, k: nat)
    requires WellFormed(lp)
    ensures Before(lp, Init(lp), Mod(k, lp.cores), k, 0)
  {
    var c := Mod(k, lp.cores);
    if k < c {
      SameRemainder(c, k, lp.cores);
    }
  }

  lemma ReachStarts(lp: Loop, k1: nat, k2: nat) returns (schedule: seq<nat>)
    requires WellFormed(lp) && !lp.lio && k1 < lp.iterations && k2 < lp.iterations && Mod(k1, lp.cores) != Mod(k2, lp.cores)
    ensures Possible(lp, Init(lp), schedule) && Exclusive(lp, After(lp, Init(lp), schedule))
    ensures var st := After(lp, Init(lp), schedule);
            st.iter[Mod(k1, lp.cores)] == k1 && st.iter[Mod(k2, lp.cores)] == k2 && forall d :: 0 <= d < lp.cores ==> st.pc[d] == 0
  {
    var c1, c2 := Mod(k1, lp.cores), Mod(k2, lp.cores);
    InitExclusive(lp);
    InitBefore(lp, k1);
    InitBefore(lp, k2);
    AllOutOfTheWay(lp, Init(lp), c1, k1, 0);
    var first := RunTo(lp, Init(lp), c1, k1, 0);
    var st := After(lp, Init(lp), first);
    AllOutOfTheWay(lp, st, c2, k2, 0);
    var second := RunTo(lp, st, c2, k2, 0);
    ThenPossible(lp, Init(lp), first, second);
    schedule := first + second;
  }

  lemma AllOutOfTheWay(lp: Loop, st: State, c: nat, k: nat, m: nat)
    requires lp.cores > 0 && Shaped(lp, st) && c < lp.cores && m <= |lp.body(k)|
    requires forall d :: 0 <= d < lp.cores && d != c ==> st.pc[d] == 0
    ensures forall d: nat {:trigger OutOfTheWay(lp, st, d, c, k, m)} :: d < lp.cores && d != c ==> OutOfTheWay(lp, st, d, c, k, m)
  {
    forall d: nat {:trigger OutOfTheWay(lp, st, d, c, k, m)} | d < lp.cores && d != c
      ensures OutOfTheWay(lp, st, d, c, k, m)
    {
      AtStartHoldsNothing(lp, st, d);
    }
  }

  lemma ReachWaits(lp: Loop, st: State, k1: nat, m1: nat, k2: nat, m2: nat, s: nat, t: nat) returns (schedule: seq<nat>)
    requires WellFormed(lp) && !lp.lio && Crossed(lp, k1, m1, k2, m2, s, t) && Exclusive(lp, st)
    requires st.iter[Mod(k1, lp.cores)] == k1 && st.iter[Mod(k2, lp.cores)] == k2 && forall d :: 0 <= d < lp.cores ==> st.pc[d] == 0
    ensures Possible(lp, st, schedule) && BlockEachOther(lp, After(lp, st, schedule), Mod(k1, lp.cores), Mod(k2, lp.cores), s, t)
  {
    var c1, c2 := Mod(k1, lp.cores), Mod(k2, lp.cores);
    AllOutOfTheWay(lp, st, c1, k1, m1);
    var first := RunTo(lp, st, c1, k1, m1);
    var st1 := After(lp, st, first);
    forall d: nat {:trigger OutOfTheWay(lp, st1, d, c2, k2, m2)} | d < lp.cores && d != c2
      ensures OutOfTheWay(lp, st1, d, c2, k2, m2)
    {
      HolderOutOfTheWay(lp, st1, d, k1, m1, k2, m2, s, t);
    }
    var second := RunTo(lp, st1, c2, k2, m2);
    ThenPossible(lp, st, first, second);
    schedule := first + second;
    InsideIsHolding(lp, After(lp, st, schedule), c1, s);
    InsideIsHolding(lp, After(lp, st, schedule), c2, t);
  }

  lemma HolderOutOfTheWay(lp: Loop, st: State, d: nat, k1: nat, m1: nat, k2: nat, m2: nat, s: nat, t: nat)
    requires WellFormed(lp) && Shaped(lp, st) && Crossed(lp, k1, m1, k2, m2, s, t) && d < lp.cores && d != Mod(k2, lp.cores)
    requires st.iter[Mod(k1, lp.cores)] == k1 && st.pc[Mod(k1, lp.cores)] == m1 && st.iter[Mod(k2, lp.cores)] == k2
    requires d != Mod(k1, lp.cores) ==> st.pc[d] == 0
    ensures OutOfTheWay(lp, st, d, Mod(k2, lp.cores), k2, m2)
  {
    if d != Mod(k1, lp.cores) {
      AtStartHoldsNothing(lp, st, d);
    } else {
      forall u: nat | Inside(lp, st, d, u)
        ensures Wait(u) !in lp.body(k2)[..m2]
      {
        InsideIsHolding(lp, st, d, u);
      }
    }
  }

  /** Two iterations of different cores that take two segments in opposite orders, with no segment around both,
      may block each other for ever, whatever the number of segments. */
  lemma CrossedMayBlock(lp: Loop, k1: nat, m1: nat, k2: nat, m2: nat, s: nat, t: nat) returns (schedule: seq<nat>)
    requires WellFormed(lp) && !lp.lio && Crossed(lp, k1, m1, k2, m2, s, t)
    ensures Possible(lp, Init(lp), schedule) && !NotStuck(lp, After(lp, Init(lp), schedule))
  {
    var first := ReachCrossing(lp, k1, m1, k2, m2, s, t);
    var second := BlockForEver(lp, After(lp, Init(lp), first), Mod(k1, lp.cores), Mod(k2, lp.cores), s, t);
    ThenPossible(lp, Init(lp), first, second);
    schedule := first + second;
  }

  ghost predicate NotStuck(lp: Loop, st: State)
    requires WellFormed(lp) && Shaped(lp, st)
  {
    Finished(lp, st) || exists c :: CanMove(lp, st, c)
  }

  /** With two segments every block is such a crossing. */
  lemma StuckMeansCrossed(lp: Loop, st: State) returns (k1: nat, m1: nat, k2: nat, m2: nat, s: nat, t: nat)
    requires WellFormed(lp) && !lp.lio && lp.segments == 2 && Exclusive(lp, st) && !NotStuck(lp, st)
    ensures Crossed(lp, k1, m1, k2, m2, s, t)
  {
    var c: nat :| c < lp.cores && st.iter[c] < lp.iterations;
    var u, d := HeldUpBy(lp, st, c);
    s := u;
    var v, e := HeldUpBy(lp, st, d);
    t := v;
    var w, f := HeldUpBy(lp, st, e);
    NotDoneYet(lp, st, d, Wait(t));
    NotDoneYet(lp, st, e, Wait(w));
    assert s != t && w != t;
    k1, m1, k2, m2 := st.iter[d], st.pc[d], st.iter[e], st.pc[e];
    InsideIsHolding(lp, st, d, s);
    InsideIsHolding(lp, st, e, t);
    InsideIsHolding(lp, st, d, t);
    OnlyTwoSegments(lp.body(k2), m2, s, t);
  }

  /** Before its wait for s an iteration has waited for t only. */
  lemma OnlyTwoSegments(ops: seq<Op>, m: nat, s: nat, t: nat)
    requires OnceEach(ops, 2) && WaitAt(ops, m, s) && s < 2 && t < 2 && s != t
    ensures forall n, u: nat :: 0 <= n < m && ops[n] == Wait(u) ==> u == t
  {
    forall n, u: nat | 0 <= n < m && ops[n] == Wait(u)
      ensures u == t
    {
      assert ops[n].segment < 2 && WaitsThenSignals(ops, s);
    }
  }

  /** From every state that any interleaving reaches some core can move, until all iterations are done. */
  ghost predicate NeverStuck(lp: Loop)
    requires WellFormed(lp)
  {
    forall schedule {:trigger Possible(lp, Init(lp), schedule)} :: Possible(lp, Init(lp), schedule) ==> NotStuck(lp, After(lp, Init(lp), schedule))
  }

  /** With a single array and two segments: no interleaving gets stuck if and only if no two iterations of
      different cores cross. */
  lemma TwoSegmentsIff(lp: Loop)
    requires WellFormed(lp) && !lp.lio && lp.segments == 2
    ensures NeverStuck(lp) <==> forall k1: nat, m1: nat, k2: nat, m2: nat, s: nat, t: nat :: !Crossed(lp, k1, m1, k2, m2, s, t)
  {
    if k1: nat, m1: nat, k2: nat, m2: nat, s: nat, t: nat :| Crossed(lp, k1, m1, k2, m2, s, t) {
      var schedule := CrossedMayBlock(lp, k1, m1, k2, m2, s, t);
      assert !NeverStuck(lp);
    } else {
      forall schedule {:trigger Possible(lp, Init(lp), schedule)} | Possible(lp, Init(lp), schedule)
        ensures NotStuck(lp, After(lp, Init(lp), schedule))
      {
        InitExclusive(lp);
        SingleArrayExcludes(lp, Init(lp), schedule);
        if !NotStuck(lp, After(lp, Init(lp), schedule)) {
          var k1, m1, k2, m2, s, t := StuckMeansCrossed(lp, After(lp, Init(lp), schedule));
        }
      }
    }
  }
}
