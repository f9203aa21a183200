/** The HELIX ring: iterations are dealt to the cores round robin, and every sequential segment passes
    from core to core through spin locks, one array of locks per core. */
module Helix {
  import opened MachineInt

  datatype Op = Wait(segment: nat) | Signal(segment: nat)

  /** What iteration k executes on the locks, whichever path it takes through the body. */
  datatype Loop = Loop(cores: nat, segments: nat, iterations: nat, lio: bool, body: nat -> seq<Op>)

  /** Per core its iteration and position in it; which locks (array, segment) are open; and, as history,
      the cores that entered each segment and how often it was signalled. */
  datatype State = State(iter: seq<nat>, pc: seq<nat>, unlocked: set<(nat, nat)>, entries: seq<seq<nat>>, signals: seq<nat>)

  /** Each segment is waited for once and signalled once, afterwards, in any order and nesting. */
  ghost predicate OnceEach(ops: seq<Op>, segments: nat)
  {
    && (forall m :: 0 <= m < |ops| ==> ops[m].segment < segments)
    && (forall s :: 0 <= s < segments ==> WaitsThenSignals(ops, s))
  }

  ghost predicate WaitsThenSignals(ops: seq<Op>, s: nat)
  {
    && Wait(s) in ops && Signal(s) in ops
    && (forall m, n :: 0 <= m < |ops| && 0 <= n < |ops| && ops[m] == Wait(s) && ops[n] == Wait(s) ==> m == n)
    && (forall m, n :: 0 <= m < |ops| && 0 <= n < |ops| && ops[m] == Signal(s) && ops[n] == Signal(s) ==> m == n)
    && (forall m, n :: 0 <= m < |ops| && 0 <= n < |ops| && ops[m] == Wait(s) && ops[n] == Signal(s) ==> m < n)
  }

  ghost predicate WellFormed(lp: Loop)
  {
    lp.cores > 0 && forall k: nat {:trigger lp.body(k)} :: OnceEach(lp.body(k), lp.segments)
  }

  /** k % n, by repeated subtraction. */
  function Mod(k: nat, n: nat): (r: nat)
    requires n > 0
    ensures r < n
  {
    if k < n then k else Mod(k - n, n)
  }

  lemma {:induction false} ModIsRemainder(k: nat, n: nat)
    requires n > 0
    ensures Mod(k, n) == k % n
  {
    if k < n {
      DivModUnique(k, n, 0, k);
    } else {
      ModIsRemainder(k - n, n);
      assert k == ((k - n) / n + 1) * n + (k - n) % n;
      DivModUnique(k, n, (k - n) / n + 1, (k - n) % n);
    }
  }

  function Arrays(lp: Loop): nat
  {
    if lp.lio then lp.cores else 1
  }

  function Past(lp: Loop, c: nat): nat
    requires lp.cores > 0
  {
    Mod(c, Arrays(lp))
  }

  function Future(lp: Loop, c: nat): nat
    requires lp.cores > 0
  {
    Mod(c + 1, Arrays(lp))
  }

  // ----- set-up -----

  function InitiallyOpen(segments: nat): set<(nat, nat)>
  {
    set s | 0 <= s < segments :: (0, s)
  }

  /** The dispatcher allocates the arrays, leaves array 0 open, locks the others, and hands every core
      its past and future array. */
  method SetUpSegmentArrays(numCores: nat, numSegments: nat, lio: bool)
    returns (locks: array2<bool>, past: seq<nat>, future: seq<nat>)
    requires numCores >= 1
    ensures fresh(locks) && locks.Length0 == (if lio then numCores else 1) && locks.Length1 == numSegments
    ensures forall a, s :: 0 <= a < locks.Length0 && 0 <= s < numSegments ==> (!locks[a, s] <==> (a, s) in InitiallyOpen(numSegments))
    ensures |past| == numCores && forall c :: 0 <= c < numCores ==> past[c] == Mod(c, locks.Length0)
    ensures |future| == numCores && forall c :: 0 <= c < numCores ==> future[c] == Mod(c + 1, locks.Length0)
  {
    var numOfSSArrays := numCores;
    if !lio {
      numOfSSArrays := 1;
    }
    locks := new bool[numOfSSArrays, numSegments];
    for i := 0 to numOfSSArrays
      invariant forall a, s :: 0 <= a < i && 0 <= s < numSegments ==> (locks[a, s] <==> a > 0)
    {
      for lockID := 0 to numSegments
        invariant forall a, s :: 0 <= a < i && 0 <= s < numSegments ==> (locks[a, s] <==> a > 0)
        invariant forall s :: 0 <= s < lockID ==> (locks[i, s] <==> i > 0)
      {
        locks[i, lockID] := false;
        if i > 0 {
          locks[i, lockID] := true;
        }
      }
    }
    past, future := DealArrays(numCores, numOfSSArrays);
  }

  /** Core i gets arrays i and i + 1, modulo their number. */
  method DealArrays(numCores: nat, arrays: nat) returns (past: seq<nat>, future: seq<nat>)
    requires arrays > 0
    ensures |past| == numCores && forall c :: 0 <= c < numCores ==> past[c] == Mod(c, arrays)
    ensures |future| == numCores && forall c :: 0 <= c < numCores ==> future[c] == Mod(c + 1, arrays)
  {
    past, future := [], [];
    for i := 0 to numCores
      invariant |past| == i && forall c :: 0 <= c < i ==> past[c] == Mod(c, arrays)
      invariant |future| == i && forall c :: 0 <= c < i ==> future[c] == Mod(c + 1, arrays)
    {
      var pastID, futureID := Remainder(i, arrays), Remainder(i + 1, arrays);
      past := past + [pastID];
      future := future + [futureID];
    }
  }

  function Remainder(k: nat, n: nat): (r: nat)
    requires n > 0
    ensures r == Mod(k, n)
  {
    ModIsRemainder(k, n);
    k % n
  }

  // ----- the interleaved steps -----

  ghost function Init(lp: Loop): (st: State)
    requires WellFormed(lp)
    ensures Shaped(lp, st)
  {
    State(seq(lp.cores, c => c), seq(lp.cores, c => 0),
          InitiallyOpen(lp.segments),
          seq(lp.segments, s => []), seq(lp.segments, s => 0))
  }

  ghost predicate Shaped(lp: Loop, st: State)
  {
    && |st.iter| == lp.cores && |st.pc| == lp.cores && |st.entries| == lp.segments && |st.signals| == lp.segments
    && (forall c :: 0 <= c < lp.cores ==> Mod(st.iter[c], lp.cores) == c && st.iter[c] < lp.iterations + lp.cores)
    && (forall c :: 0 <= c < lp.cores ==> st.pc[c] <= |lp.body(st.iter[c])| && (st.iter[c] >= lp.iterations ==> st.pc[c] == 0))
  }

  /** The operation core c executes next, if its iteration has one left. */
  ghost predicate AtOp(lp: Loop, st: State, c: nat, op: Op)
    requires Shaped(lp, st) && c < lp.cores
  {
    st.iter[c] < lp.iterations && st.pc[c] < |lp.body(st.iter[c])| && lp.body(st.iter[c])[st.pc[c]] == op
  }

  /** A core is held up only by a closed lock, and stops after its last iteration. */
  ghost predicate CanMove(lp: Loop, st: State, c: nat)
    requires WellFormed(lp) && Shaped(lp, st)
  {
    c < lp.cores && st.iter[c] < lp.iterations &&
    forall s: nat :: AtOp(lp, st, c, Wait(s)) ==> (Past(lp, c), s) in st.unlocked
  }

  /** HELIX_wait closes the past lock, HELIX_signal opens the future one, and a core at the end of its
      iteration goes on to the next one dealt to it. */
  ghost function Move(lp: Loop, st: State, c: nat): State
    requires WellFormed(lp) && Shaped(lp, st) && CanMove(lp, st, c)
  {
    var ops := lp.body(st.iter[c]);
    if st.pc[c] == |ops| then
      st.(iter := st.iter[c := st.iter[c] + lp.cores], pc := st.pc[c := 0])
    else
      assert OnceEach(lp.body(st.iter[c]), lp.segments);
      match ops[st.pc[c]]
      case Wait(s) =>
        st.(pc := st.pc[c := st.pc[c] + 1], unlocked := st.unlocked - {(Past(lp, c), s)}, entries := st.entries[s := st.entries[s] + [c]])
      case Signal(s) =>
        st.(pc := st.pc[c := st.pc[c] + 1], unlocked := st.unlocked + {(Future(lp, c), s)}, signals := st.signals[s := st.signals[s] + 1])
  }

  lemma MoveShaped(lp: Loop, st: State, c: nat)
    requires WellFormed(lp) && Shaped(lp, st) && CanMove(lp, st, c)
    ensures Shaped(lp, Move(lp, st, c))
  {
  }

  /** Two numbers less than n apart with the same remainder are equal. */
  lemma {:induction false} SameRemainder(k: nat, e: nat, n: nat)
    requires n > 0 && Mod(k, n) == Mod(e, n) && e <= k < e + n
    ensures k == e
    decreases e
  {
    if e >= n {
      SameRemainder(k - n, e - n, n);
    }
  }

  /** A schedule names the core that moves, step after step. */
  ghost predicate Possible(lp: Loop, st: State, schedule: seq<nat>)
    requires WellFormed(lp) && Shaped(lp, st)
    decreases |schedule|
  {
    schedule == [] ||
    (CanMove(lp, st, schedule[0]) && (MoveShaped(lp, st, schedule[0]); Possible(lp, Move(lp, st, schedule[0]), schedule[1..])))
  }

  ghost function After(lp: Loop, st: State, schedule: seq<nat>): (r: State)
    requires WellFormed(lp) && Shaped(lp, st) && Possible(lp, st, schedule)
    ensures Shaped(lp, r)
    decreases |schedule|
  {
    if schedule == [] then st
    else
      MoveShaped(lp, st, schedule[0]);
      After(lp, Move(lp, st, schedule[0]), schedule[1..])
  }

  // ----- history -----

  ghost predicate Did(lp: Loop, st: State, k: nat, op: Op)
    requires lp.cores > 0 && Shaped(lp, st)
  {
    var c := Mod(k, lp.cores);
    k < st.iter[c] || (k == st.iter[c] && op in lp.body(k)[..st.pc[c]])
  }

  ghost predicate Inside(lp: Loop, st: State, c: nat, s: nat)
    requires lp.cores > 0 && Shaped(lp, st) && c < lp.cores
  {
    Did(lp, st, st.iter[c], Wait(s)) && !Did(lp, st, st.iter[c], Signal(s))
  }

  /** A move adds one operation of one iteration to the history, or none at the end of an iteration. */
  lemma DidAfterMove(lp: Loop, st: State, c: nat, k: nat, op: Op)
    requires WellFormed(lp) && Shaped(lp, st) && CanMove(lp, st, c) && op.segment < lp.segments
    ensures Shaped(lp, Move(lp, st, c))
    ensures Did(lp, Move(lp, st, c), k, op) <==> Did(lp, st, k, op) || (k == st.iter[c] && AtOp(lp, st, c, op))
  {
    MoveShaped(lp, st, c);
    var st' := Move(lp, st, c);
    var ops := lp.body(st.iter[c]);
    assert OnceEach(ops, lp.segments) && WaitsThenSignals(ops, op.segment);
    if Mod(k, lp.cores) == c {
      if st.pc[c] == |ops| {
        assert ops[..st.pc[c]] == ops;
        if st.iter[c] <= k < st'.iter[c] {
          SameRemainder(k, st.iter[c], lp.cores);
        }
      } else if k == st.iter[c] {
        assert ops[..st.pc[c] + 1] == ops[..st.pc[c]] + [ops[st.pc[c]]];
      }
    }
  }

  lemma NotDoneYet(lp: Loop, st: State, c: nat, op: Op)
    requires WellFormed(lp) && Shaped(lp, st) && c < lp.cores && AtOp(lp, st, c, op)
    ensures op.segment < lp.segments && !Did(lp, st, st.iter[c], op)
    ensures op.Signal? ==> Did(lp, st, st.iter[c], Wait(op.segment))
  {
    var ops := lp.body(st.iter[c]);
    assert OnceEach(ops, lp.segments) && WaitsThenSignals(ops, op.segment);
    if op.Signal? {
      var m :| 0 <= m < |ops| && ops[m] == Wait(op.segment);
      assert ops[..st.pc[c]][m] == Wait(op.segment);
    }
  }

  // ----- one array per core -----

  /** Iterations enter and leave a segment in order; the only token is the lock of the core whose turn
      it is, or the core inside. */
  ghost predicate InOrder(lp: Loop, st: State, s: nat)
    requires lp.cores > 0 && Shaped(lp, st) && s < lp.segments
  {
    && (forall k: nat :: Did(lp, st, k, Wait(s)) <==> k < |st.entries[s]|)
    && (forall k: nat :: Did(lp, st, k, Signal(s)) <==> k < st.signals[s])
    && (forall k :: 0 <= k < |st.entries[s]| ==> st.entries[s][k] == Mod(k, lp.cores))
    && st.signals[s] <= |st.entries[s]| <= st.signals[s] + 1
    && (forall a :: (a, s) in st.unlocked <==> |st.entries[s]| == st.signals[s] && a == Mod(st.signals[s], lp.cores))
  }

  ghost predicate Ring(lp: Loop, st: State)
    requires lp.cores > 0
  {
    Shaped(lp, st) && forall s :: 0 <= s < lp.segments ==> InOrder(lp, st, s)
  }

  lemma InitRing(lp: Loop)
    requires WellFormed(lp) && lp.lio
    ensures Ring(lp, Init(lp))
  {
    var st := Init(lp);
    forall s, k: nat | 0 <= s < lp.segments
      ensures !Did(lp, st, k, Wait(s)) && !Did(lp, st, k, Signal(s))
    {
      assert !(k < st.iter[Mod(k, lp.cores)]);
    }
  }

  /** The core that finds its lock open is the one whose turn it is. */
  lemma WaitIsInTurn(lp: Loop, st: State, c: nat, s: nat)
    requires WellFormed(lp) && lp.lio && Ring(lp, st) && CanMove(lp, st, c) && AtOp(lp, st, c, Wait(s))
    ensures s < lp.segments && st.iter[c] == |st.entries[s]| == st.signals[s]
  {
    NotDoneYet(lp, st, c, Wait(s));
    assert InOrder(lp, st, s);
    assert (Past(lp, c), s) in st.unlocked && Past(lp, c) == c;
    var k := st.iter[c];
    if k >= lp.cores {
      assert Did(lp, st, k - lp.cores, Wait(s));
    }
    SameRemainder(k, |st.entries[s]|, lp.cores);
  }

  lemma SignalIsInTurn(lp: Loop, st: State, c: nat, s: nat)
    requires WellFormed(lp) && lp.lio && Ring(lp, st) && CanMove(lp, st, c) && AtOp(lp, st, c, Signal(s))
    ensures s < lp.segments && st.iter[c] == st.signals[s] && |st.entries[s]| == st.signals[s] + 1
  {
    NotDoneYet(lp, st, c, Signal(s));
    assert InOrder(lp, st, s);
  }

  /** What a step of core c does to the counters and locks of one segment ... */
  ghost predicate LocksStep(lp: Loop, st: State, st': State, c: nat, s: nat, waits: bool, signals: bool)
    requires lp.cores > 0 && Shaped(lp, st) && Shaped(lp, st') && s < lp.segments
  {
    && st'.entries[s] == st.entries[s] + (if waits then [c] else [])
    && st'.signals[s] == st.signals[s] + (if signals then 1 else 0)
    && forall a {:trigger (a, s) in st'.unlocked} :: (a, s) in st'.unlocked <==>
                 if waits then (a, s) in st.unlocked && a != Past(lp, c)
                 else if signals then (a, s) in st.unlocked || a == Future(lp, c)
                 else (a, s) in st.unlocked
  }

  /** ... and to its history. */
  ghost predicate HistoryStep(lp: Loop, st: State, st': State, k0: nat, s: nat, waits: bool, signals: bool)
    requires lp.cores > 0 && Shaped(lp, st) && Shaped(lp, st')
  {
    && (forall k: nat {:trigger Did(lp, st', k, Wait(s))} :: Did(lp, st', k, Wait(s)) <==> Did(lp, st, k, Wait(s)) || (waits && k == k0))
    && (forall k: nat {:trigger Did(lp, st', k, Signal(s))} :: Did(lp, st', k, Signal(s)) <==> Did(lp, st, k, Signal(s)) || (signals && k == k0))
  }

  lemma MoveOnLocks(lp: Loop, st: State, c: nat, s: nat)
    requires WellFormed(lp) && Shaped(lp, st) && CanMove(lp, st, c) && s < lp.segments
    ensures Shaped(lp, Move(lp, st, c))
    ensures LocksStep(lp, st, Move(lp, st, c), c, s, AtOp(lp, st, c, Wait(s)), AtOp(lp, st, c, Signal(s)))
  {
    MoveShaped(lp, st, c);
  }

  lemma MoveOnHistory(lp: Loop, st: State, c: nat, s: nat)
    requires WellFormed(lp) && Shaped(lp, st) && CanMove(lp, st, c) && s < lp.segments
    ensures Shaped(lp, Move(lp, st, c))
    ensures HistoryStep(lp, st, Move(lp, st, c), st.iter[c], s, AtOp(lp, st, c, Wait(s)), AtOp(lp, st, c, Signal(s)))
  {
    MoveShaped(lp, st, c);
    forall k: nat
      ensures Did(lp, Move(lp, st, c), k, Wait(s)) <==> Did(lp, st, k, Wait(s)) || (AtOp(lp, st, c, Wait(s)) && k == st.iter[c])
      ensures Did(lp, Move(lp, st, c), k, Signal(s)) <==> Did(lp, st, k, Signal(s)) || (AtOp(lp, st, c, Signal(s)) && k == st.iter[c])
    {
      DidAfterMove(lp, st, c, k, Wait(s));
      DidAfterMove(lp, st, c, k, Signal(s));
    }
  }

  lemma OrderAfterWait(lp: Loop, st: State, st': State, c: nat, s: nat)
    requires WellFormed(lp) && lp.lio && Shaped(lp, st) && Shaped(lp, st') && c < lp.cores && s < lp.segments && InOrder(lp, st, s)
    requires st.iter[c] == |st.entries[s]| == st.signals[s]
    requires LocksStep(lp, st, st', c, s, true, false) && HistoryStep(lp, st, st', st.iter[c], s, true, false)
    ensures InOrder(lp, st', s)
  {
  }

  lemma OrderAfterSignal(lp: Loop, st: State, st': State, c: nat, s: nat)
    requires WellFormed(lp) && lp.lio && Shaped(lp, st) && Shaped(lp, st') && c < lp.cores && s < lp.segments && InOrder(lp, st, s)
    requires st.iter[c] == st.signals[s] && |st.entries[s]| == st.signals[s] + 1
    requires LocksStep(lp, st, st', c, s, false, true) && HistoryStep(lp, st, st', st.iter[c], s, false, true)
    ensures InOrder(lp, st', s)
  {
    FutureIsNext(st.signals[s], lp.cores);
  }

  lemma OrderAfterOther(lp: Loop, st: State, st': State, c: nat, s: nat)
    requires WellFormed(lp) && lp.lio && Shaped(lp, st) && Shaped(lp, st') && c < lp.cores && s < lp.segments && InOrder(lp, st, s)
    requires LocksStep(lp, st, st', c, s, false, false) && HistoryStep(lp, st, st', st.iter[c], s, false, false)
    ensures InOrder(lp, st', s)
  {
  }

  lemma MoveKeepsOrder(lp: Loop, st: State, c: nat, s: nat)
    requires WellFormed(lp) && lp.lio && Ring(lp, st) && CanMove(lp, st, c) && s < lp.segments
    ensures Shaped(lp, Move(lp, st, c)) && InOrder(lp, Move(lp, st, c), s)
  {
    MoveOnLocks(lp, st, c, s);
    MoveOnHistory(lp, st, c, s);
    var st' := Move(lp, st, c);
    if AtOp(lp, st, c, Wait(s)) {
      WaitIsInTurn(lp, st, c, s);
      OrderAfterWait(lp, st, st', c, s);
    } else if AtOp(lp, st, c, Signal(s)) {
      SignalIsInTurn(lp, st, c, s);
      OrderAfterSignal(lp, st, st', c, s);
    } else {
      OrderAfterOther(lp, st, st', c, s);
    }
  }

  lemma {:induction false} FutureIsNext(k: nat, n: nat)
    requires n > 0
    ensures Mod(k + 1, n) == Mod(Mod(k, n) + 1, n)
  {
    if k >= n {
      FutureIsNext(k - n, n);
    }
  }

  lemma MoveKeepsRing(lp: Loop, st: State, c: nat)
    requires WellFormed(lp) && lp.lio && Ring(lp, st) && CanMove(lp, st, c)
    ensures Ring(lp, Move(lp, st, c))
  {
    MoveShaped(lp, st, c);
    forall s | 0 <= s < lp.segments
      ensures InOrder(lp, Move(lp, st, c), s)
    {
      MoveKeepsOrder(lp, st, c, s);
    }
  }

  lemma {:induction false} RunKeepsRing(lp: Loop, st: State, schedule: seq<nat>)
    requires WellFormed(lp) && lp.lio && Ring(lp, st) && Possible(lp, st, schedule)
    ensures Ring(lp, After(lp, st, schedule))
    decreases |schedule|
  {
    if schedule != [] {
      MoveKeepsRing(lp, st, schedule[0]);
      RunKeepsRing(lp, Move(lp, st, schedule[0]), schedule[1..]);
    }
  }

  /** Exactly one token per segment: one open lock and nobody inside, or one core inside and all locks closed. */
  ghost predicate OneToken(lp: Loop, st: State, s: nat)
    requires lp.cores > 0 && Shaped(lp, st)
  {
    || (exists a :: OnlyOpen(st, a, s) && forall c :: 0 <= c < lp.cores ==> !Inside(lp, st, c, s))
    || (exists c :: OnlyInside(lp, st, c, s) && forall a :: (a, s) !in st.unlocked)
  }

  ghost predicate OnlyOpen(st: State, a: nat, s: nat)
  {
    forall b :: (b, s) in st.unlocked <==> b == a
  }

  ghost predicate OnlyInside(lp: Loop, st: State, c: nat, s: nat)
    requires lp.cores > 0 && Shaped(lp, st)
  {
    c < lp.cores && forall d :: 0 <= d < lp.cores ==> (Inside(lp, st, d, s) <==> d == c)
  }

  lemma RingHasOneToken(lp: Loop, st: State, s: nat)
    requires WellFormed(lp) && Ring(lp, st) && s < lp.segments
    ensures OneToken(lp, st, s)
  {
    assert InOrder(lp, st, s);
    var g := st.signals[s];
    if |st.entries[s]| == g {
      assert OnlyOpen(st, Mod(g, lp.cores), s);
    } else {
      var c := Mod(g, lp.cores);
      assert Did(lp, st, g, Wait(s)) && !Did(lp, st, g, Signal(s));
      assert st.iter[c] == g;
      forall d | 0 <= d < lp.cores
        ensures Inside(lp, st, d, s) <==> d == c
      {
        if Inside(lp, st, d, s) {
          assert st.iter[d] == g;
        }
      }
      assert OnlyInside(lp, st, c, s);
    }
  }

  /** Safety over whole runs: whatever the interleaving, every segment always has exactly one token, and
      its k-th entry is made by core k mod N. */
  lemma RingSafety(lp: Loop, schedule: seq<nat>, s: nat)
    requires WellFormed(lp) && lp.lio && s < lp.segments && Possible(lp, Init(lp), schedule)
    ensures var st := After(lp, Init(lp), schedule);
            && OneToken(lp, st, s)
            && |st.entries[s]| <= lp.iterations
            && (forall k :: 0 <= k < |st.entries[s]| ==> st.entries[s][k] == k % lp.cores)
  {
    InitRing(lp);
    RunKeepsRing(lp, Init(lp), schedule);
    forall k: nat ensures Mod(k, lp.cores) == k % lp.cores {
      ModIsRemainder(k, lp.cores);
    }
    var st := After(lp, Init(lp), schedule);
    RingHasOneToken(lp, st, s);
    assert InOrder(lp, st, s);
    if |st.entries[s]| > lp.iterations {
      OnlyDealtIterations(lp, st, lp.iterations, Wait(s));
    }
  }

  lemma OnlyDealtIterations(lp: Loop, st: State, k: nat, op: Op)
    requires WellFormed(lp) && Shaped(lp, st) && Did(lp, st, k, op)
    ensures k < lp.iterations
  {
    var c := Mod(k, lp.cores);
    if k < st.iter[c] < k + lp.cores {
      SameRemainder(st.iter[c], k, lp.cores);
    }
  }

  // ----- progress -----

  ghost predicate Finished(lp: Loop, st: State)
    requires Shaped(lp, st)
  {
    forall c :: 0 <= c < lp.cores ==> st.iter[c] >= lp.iterations
  }

  lemma {:induction false} OldestCore(iter: seq<nat>) returns (c: nat)
    requires iter != []
    ensures c < |iter| && forall d :: 0 <= d < |iter| ==> iter[c] <= iter[d]
  {
    if |iter| == 1 {
      c := 0;
    } else {
      var d := OldestCore(iter[1..]);
      c := if iter[0] <= iter[d + 1] then 0 else d + 1;
      forall e | 0 <= e < |iter| ensures iter[c] <= iter[e] {
        if e > 0 {
          assert iter[1..][e - 1] == iter[e];
        }
      }
    }
  }

  /** The core running the oldest iteration is never held up. */
  lemma SomeCoreMoves(lp: Loop, st: State) returns (c: nat)
    requires WellFormed(lp) && lp.lio && Ring(lp, st) && !Finished(lp, st)
    ensures c < lp.cores && CanMove(lp, st, c)
  {
    c := OldestCore(st.iter);
    var k := st.iter[c];
    forall s: nat | AtOp(lp, st, c, Wait(s))
      ensures (Past(lp, c), s) in st.unlocked
    {
      NotDoneYet(lp, st, c, Wait(s));
      assert InOrder(lp, st, s);
      if k > 0 {
        assert k - 1 < st.iter[Mod(k - 1, lp.cores)] by {
          assert k <= st.iter[Mod(k - 1, lp.cores)];
        }
        assert Did(lp, st, k - 1, Wait(s)) && Did(lp, st, k - 1, Signal(s));
      }
      assert |st.entries[s]| == k == st.signals[s];
    }
  }

  ghost function Left(lp: Loop, st: State, k: nat): nat
    requires lp.cores > 0 && Shaped(lp, st)
  {
    var c := Mod(k, lp.cores);
    if k < st.iter[c] then 0 else if k == st.iter[c] then |lp.body(k)| + 1 - st.pc[c] else |lp.body(k)| + 1
  }

  /** The steps left in the first t iterations. */
  ghost function Work(lp: Loop, st: State, t: nat): nat
    requires lp.cores > 0 && Shaped(lp, st)
  {
    if t == 0 then 0 else Work(lp, st, t - 1) + Left(lp, st, t - 1)
  }

  ghost function TotalWork(lp: Loop, t: nat): nat
  {
    if t == 0 then 0 else TotalWork(lp, t - 1) + |lp.body(t - 1)| + 1
  }

  lemma LeftAfterMove(lp: Loop, st: State, c: nat, k: nat)
    requires WellFormed(lp) && Shaped(lp, st) && CanMove(lp, st, c)
    ensures Shaped(lp, Move(lp, st, c))
    ensures Left(lp, Move(lp, st, c), k) == Left(lp, st, k) - if k == st.iter[c] then 1 else 0
  {
    MoveShaped(lp, st, c);
    if Mod(k, lp.cores) == c && st.iter[c] < k < st.iter[c] + lp.cores {
      SameRemainder(k, st.iter[c], lp.cores);
    }
  }

  lemma {:induction false} WorkAfterMove(lp: Loop, st: State, c: nat, t: nat)
    requires WellFormed(lp) && Shaped(lp, st) && CanMove(lp, st, c)
    ensures Shaped(lp, Move(lp, st, c))
    ensures Work(lp, Move(lp, st, c), t) == Work(lp, st, t) - if st.iter[c] < t then 1 else 0
    decreases t
  {
    MoveShaped(lp, st, c);
    if t > 0 {
      WorkAfterMove(lp, st, c, t - 1);
      LeftAfterMove(lp, st, c, t - 1);
    }
  }

  lemma {:induction false} WorkAtStart(lp: Loop, t: nat)
    requires WellFormed(lp)
    ensures Work(lp, Init(lp), t) == TotalWork(lp, t)
  {
    if t > 0 {
      WorkAtStart(lp, t - 1);
      var k := t - 1;
      assert Init(lp).iter[Mod(k, lp.cores)] <= k;
    }
  }

  lemma {:induction false} StepsAndWork(lp: Loop, st: State, schedule: seq<nat>)
    requires WellFormed(lp) && Shaped(lp, st) && Possible(lp, st, schedule)
    ensures |schedule| + Work(lp, After(lp, st, schedule), lp.iterations) == Work(lp, st, lp.iterations)
    decreases |schedule|
  {
    if schedule != [] {
      MoveShaped(lp, st, schedule[0]);
      WorkAfterMove(lp, st, schedule[0], lp.iterations);
      StepsAndWork(lp, Move(lp, st, schedule[0]), schedule[1..]);
    }
  }

  ghost predicate Completed(lp: Loop, st: State, k: nat)
    requires lp.cores > 0 && Shaped(lp, st)
  {
    k < st.iter[Mod(k, lp.cores)]
  }

  lemma {:induction false} NoWorkLeft(lp: Loop, st: State, t: nat)
    requires lp.cores > 0 && Shaped(lp, st) && t <= lp.iterations
    ensures (forall k :: 0 <= k < t ==> Completed(lp, st, k)) <==> Work(lp, st, t) == 0
  {
    if t > 0 {
      NoWorkLeft(lp, st, t - 1);
      assert Completed(lp, st, t - 1) <==> Left(lp, st, t - 1) == 0;
    }
  }

  lemma FinishedIffNoWork(lp: Loop, st: State)
    requires WellFormed(lp) && Shaped(lp, st)
    ensures Finished(lp, st) <==> Work(lp, st, lp.iterations) == 0
  {
    NoWorkLeft(lp, st, lp.iterations);
    if !Finished(lp, st) {
      var c :| 0 <= c < lp.cores && st.iter[c] < lp.iterations;
      assert !Completed(lp, st, st.iter[c]);
    } else {
      forall k | 0 <= k < lp.iterations
        ensures Completed(lp, st, k)
      {
        assert st.iter[Mod(k, lp.cores)] >= lp.iterations;
      }
    }
  }

  /** Every run is finite; it can be extended until all iterations are done, and then every segment was
      entered by the iterations in their sequential order. */
  lemma RingProgress(lp: Loop, schedule: seq<nat>)
    requires WellFormed(lp) && lp.lio && Possible(lp, Init(lp), schedule)
    ensures |schedule| <= TotalWork(lp, lp.iterations)
    ensures |schedule| < TotalWork(lp, lp.iterations) <==> exists c :: CanMove(lp, After(lp, Init(lp), schedule), c)
    ensures |schedule| == TotalWork(lp, lp.iterations) ==>
              forall s :: 0 <= s < lp.segments ==> |After(lp, Init(lp), schedule).entries[s]| == lp.iterations
  {
    var st := After(lp, Init(lp), schedule);
    InitRing(lp);
    RunKeepsRing(lp, Init(lp), schedule);
    WorkAtStart(lp, lp.iterations);
    StepsAndWork(lp, Init(lp), schedule);
    FinishedIffNoWork(lp, st);
    if !Finished(lp, st) {
      var c := SomeCoreMoves(lp, st);
    } else {
      forall s | 0 <= s < lp.segments
        ensures |st.entries[s]| == lp.iterations
      {
        AllEntered(lp, st, s);
      }
    }
  }

  lemma AllEntered(lp: Loop, st: State, s: nat)
    requires WellFormed(lp) && Ring(lp, st) && Finished(lp, st) && s < lp.segments
    ensures |st.entries[s]| == lp.iterations
  {
    assert InOrder(lp, st, s);
    if |st.entries[s]| > lp.iterations {
      OnlyDealtIterations(lp, st, lp.iterations, Wait(s));
    }
    if lp.iterations > 0 {
      assert Did(lp, st, lp.iterations - 1, Wait(s));
    }
  }
}
