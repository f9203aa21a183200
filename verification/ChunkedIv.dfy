/** Chunked induction variables of a DOALL loop: the recurrence that the stepper utility
    generates, the normalised exit test, and the iterations that each core executes. */
module ChunkedIv {
  import opened MachineInt

  // ----- the generated recurrence -----

  /** The values of the IV PHI and of the chunk PHI at the header. */
  datatype CoreState = CoreState(iv: int, chunk: int)

  /** One latch: step both; when the chunk is complete, jump over the chunks of the other cores. */
  function LatchPass(s: CoreState, step: int, chunkStep: int, C: int, m: int): CoreState
    requires m > 0
  {
    var chunkIncrement := Wrap(s.chunk + 1, m);
    var isChunkCompleted := chunkIncrement == C;
    var stepped := Wrap(s.iv + step, m);
    CoreState(if isChunkCompleted then Wrap(stepped + chunkStep, m) else stepped,
              if isChunkCompleted then 0 else chunkIncrement)
  }

  function AfterPasses(start: int, step: int, chunkStep: int, C: int, m: int, k: nat): CoreState
    requires m > 0
  {
    if k == 0 then CoreState(Wrap(start, m), 0)
    else LatchPass(AfterPasses(start, step, chunkStep, C, m, k - 1), step, chunkStep, C, m)
  }

  /** After k latches the IV has made k steps and one chunk step per completed chunk. */
  lemma {:induction false} ClosedForm(start: int, step: int, chunkStep: int, C: nat, m: nat, k: nat)
    requires 0 < C < m
    ensures AfterPasses(start, step, chunkStep, C, m, k) ==
            CoreState(Wrap(start + k * step + (k / C) * chunkStep, m), k % C)
  {
    if k == 0 {
      assert 0 * step == 0 && 0 / C == 0 && 0 * chunkStep == 0;
    } else {
      ClosedForm(start, step, chunkStep, C, m, k - 1);
      NextQuotient(k - 1, C);
      var q := (k - 1) / C;
      LatchPassFrom(start + (k - 1) * step + q * chunkStep, (k - 1) % C, step, chunkStep, C, m);
      assert k * step == (k - 1) * step + step;
      assert (q + 1) * chunkStep == q * chunkStep + chunkStep;
    }
  }

  lemma LatchPassFrom(x: int, r: nat, step: int, chunkStep: int, C: nat, m: nat)
    requires r < C < m
    ensures LatchPass(CoreState(Wrap(x, m), r), step, chunkStep, C, m) ==
            if r + 1 == C then CoreState(Wrap(x + step + chunkStep, m), 0) else CoreState(Wrap(x + step, m), r + 1)
  {
    WrapAdd(x, step, m);
    WrapAdd(x + step, chunkStep, m);
    WrapInRange(r + 1, m);
  }

  lemma NextQuotient(k: nat, C: nat)
    requires C > 0
    ensures k % C + 1 == C ==> (k + 1) / C == k / C + 1 && (k + 1) % C == 0
    ensures k % C + 1 < C ==> (k + 1) / C == k / C && (k + 1) % C == k % C + 1
  {
    if k % C + 1 == C {
      assert (k / C + 1) * C == (k / C) * C + C;
      DivModUnique(k + 1, C, k / C + 1, 0);
    } else {
      DivModUnique(k + 1, C, k / C, k % C + 1);
    }
  }

  // ----- which iteration a core is at -----

  /** The iteration of the sequential loop that core c of N is at after k latches. */
  function Logical(c: nat, k: nat, N: nat, C: nat): nat
    requires C > 0
  {
    ((k / C) * N + c) * C + k % C
  }

  /** The core and the number of latches at which iteration j is reached. */
  function CoreOf(j: nat, N: nat, C: nat): nat
    requires N > 0 && C > 0
  {
    (j / C) % N
  }

  function PassOf(j: nat, N: nat, C: nat): nat
    requires N > 0 && C > 0
  {
    var round: nat := (j / C) / N;
    var offset: nat := j % C;
    round * C + offset
  }

  lemma LogicalOfCore(j: nat, N: nat, C: nat)
    requires N > 0 && C > 0
    ensures CoreOf(j, N, C) < N && Logical(CoreOf(j, N, C), PassOf(j, N, C), N, C) == j
  {
    var a, r := j / C, j % C;
    var q := a / N;
    DivModUnique(q * C + r, C, q, r);
    assert q * N + a % N == a;
    assert a * C + r == j;
  }

  lemma CoreOfLogical(c: nat, k: nat, N: nat, C: nat)
    requires c < N && C > 0
    ensures CoreOf(Logical(c, k, N, C), N, C) == c && PassOf(Logical(c, k, N, C), N, C) == k
  {
    var q, r := k / C, k % C;
    var a := q * N + c;
    DivModUnique(a * C + r, C, a, r);
    DivModUnique(a, N, q, c);
    assert q * C + r == k;
  }

  lemma LogicalNext(c: nat, k: nat, N: nat, C: nat)
    requires c < N && C > 0
    ensures Logical(c, k, N, C) < Logical(c, k + 1, N, C) <= Logical(c, k, N, C) + 1 + (N - 1) * C
  {
    NextQuotient(k, C);
    var a := (k / C) * N + c;
    AtLeastZero(N - 1, C);
    if k % C + 1 == C {
      assert (k / C + 1) * N == (k / C) * N + N;
      assert (a + N) * C == a * C + N * C;
      assert N * C == (N - 1) * C + C;
    }
  }

  lemma AtLeastZero(a: nat, b: nat)
    ensures a * b >= 0
  {
  }

  lemma {:induction false} LogicalMonotone(c: nat, i: nat, k: nat, N: nat, C: nat)
    requires c < N && C > 0 && i <= k
    ensures Logical(c, i, N, C) <= Logical(c, k, N, C)
    decreases k - i
  {
    if i < k {
      LogicalNext(c, i, N, C);
      LogicalMonotone(c, i + 1, k, N, C);
    }
  }

  // ----- the loop and its exit test -----

  /** A loop over start, start + step, ... that leaves when exit(iv, bound) holds at the header. */
  datatype DoallLoop = DoallLoop(half: nat, start: int, step: int, bound: int, exit: Predicate)
  {
    ghost predicate Valid()
    {
      half > 0 && 0 <= start < 2 * half && 0 <= bound < 2 * half && step != 0
    }

    function Modulus(): nat
    {
      2 * half
    }

    function Iv(j: nat): int
      requires half > 0
    {
      Wrap(start + j * step, Modulus())
    }
  }

  /** The chunk counter counts up to the chunk size; a single core never jumps, whatever it counts to. */
  predicate ChunkCounts(lp: DoallLoop, N: nat, C: nat)
  {
    0 < C && (C < lp.Modulus() || N == 1)
  }

  /** Core c starts c chunks further on and jumps over the chunks of the N - 1 other cores:
      its IV is then always that of the sequential iteration it is at. */
  lemma CoreIv(lp: DoallLoop, c: nat, k: nat, N: nat, C: nat)
    requires lp.Valid() && c < N && ChunkCounts(lp, N, C)
    ensures AfterPasses(lp.start + c * C * lp.step, lp.step, (N - 1) * C * lp.step, C, lp.Modulus(), k).iv
            == lp.Iv(Logical(c, k, N, C))
  {
    if C < lp.Modulus() {
      ClosedForm(lp.start + c * C * lp.step, lp.step, (N - 1) * C * lp.step, C, lp.Modulus(), k);
      CorePosition(lp.start, k, c, N, C, lp.step);
    } else {
      assert c * C * lp.step == 0 && (N - 1) * C * lp.step == 0;
      WithoutJumps(lp.start, lp.step, C, lp.Modulus(), k, lp.start + k * lp.step);
      CoreOfOne(k, C);
    }
  }

  lemma {:induction false} WithoutJumps(start: int, step: int, C: int, m: nat, k: nat, x: int)
    requires m > 0 && x == start + k * step
    ensures AfterPasses(start, step, 0, C, m, k).iv == Wrap(x, m)
  {
    if k == 0 {
      assert 0 * step == 0;
    } else {
      OneStepBack(start, step, k, x);
      WithoutJumps(start, step, C, m, k - 1, x - step);
      PassWithoutJump(AfterPasses(start, step, 0, C, m, k - 1), x - step, step, C, m);
    }
  }

  lemma OneStepBack(start: int, step: int, k: int, x: int)
    requires x == start + k * step
    ensures x - step == start + (k - 1) * step
  {
  }

  lemma PassWithoutJump(s: CoreState, x: int, step: int, C: int, m: nat)
    requires m > 0 && s.iv == Wrap(x, m)
    ensures LatchPass(s, step, 0, C, m).iv == Wrap(x + step, m)
  {
    WrapAdd(x, step, m);
    WrapInRange(Wrap(x + step, m), m);
  }

  lemma CoreOfOne(k: nat, C: nat)
    requires C > 0
    ensures Logical(0, k, 1, C) == k
  {
    assert (k / C) * C + k % C == k;
  }

  lemma CorePosition(start: int, k: nat, c: nat, N: nat, C: nat, step: int)
    requires c < N && C > 0
    ensures start + c * C * step + k * step + (k / C) * ((N - 1) * C * step) == start + Logical(c, k, N, C) * step
  {
    SumOfSteps(k, k / C, k % C, c, N, C, step);
  }

  lemma SumOfSteps(k: int, q: int, r: int, c: int, N: int, C: int, step: int)
    requires k == q * C + r
    ensures c * C * step + k * step + q * ((N - 1) * C * step) == ((q * N + c) * C + r) * step
  {
    var u := C * step;
    assert c * C * step == c * u;
    assert (q * C + r) * step == q * u + r * step;
    assert (N - 1) * C * step == (N - 1) * u;
    assert q * ((N - 1) * u) == q * N * u - q * u;
    assert ((q * N + c) * C + r) * step == (q * N + c) * u + r * step;
    assert (q * N + c) * u == q * N * u + c * u;
  }

  /** The exit test widened so that it also catches jumping past the bound. */
  function NonStrictPredicate(exit: Predicate, stepPositive: bool): Predicate
  {
    if exit == EQ then (if stepPositive then UGE else ULE) else exit
  }

  /** What the source asserts: leave when less only if stepping down, leave when greater only if stepping up. */
  predicate SignCompatible(exit: Predicate, stepPositive: bool)
  {
    match exit
    case EQ => true
    case NE => true
    case SLE => !stepPositive
    case SLT => !stepPositive
    case ULT => !stepPositive
    case ULE => !stepPositive
    case _ => stepPositive
  }

  predicate ExitsAt(lp: DoallLoop, j: nat)
    requires lp.half > 0
  {
    Compare(NonStrictPredicate(lp.exit, lp.step > 0), lp.Iv(j), lp.bound, lp.Modulus())
  }

  /** The sequential loop runs the iterations 0 .. T - 1. */
  ghost predicate TripCount(lp: DoallLoop, T: nat)
    requires lp.half > 0
  {
    && Compare(lp.exit, lp.Iv(T), lp.bound, lp.Modulus())
    && forall j :: 0 <= j < T ==> !Compare(lp.exit, lp.Iv(j), lp.bound, lp.Modulus())
  }

  /** Up to H the widened test holds exactly from iteration T on. */
  ghost predicate ExitsFrom(lp: DoallLoop, T: nat, H: nat)
    requires lp.half > 0
  {
    forall j :: 0 <= j <= H ==> (ExitsAt(lp, j) <==> j >= T)
  }

  predicate IsSigned(p: Predicate)
  {
    p == SGT || p == SGE || p == SLT || p == SLE
  }

  function Value(lp: DoallLoop, signed: bool, j: int): int
  {
    (if signed then Signed(lp.start, lp.Modulus()) else lp.start) + j * lp.step
  }

  /** The first H steps stay in the signed, or in the unsigned, range. */
  ghost predicate NoWrap(lp: DoallLoop, signed: bool, H: nat)
  {
    forall j :: 0 <= j <= H ==>
      if signed then 0 <= lp.half + Value(lp, true, j) < lp.Modulus() else 0 <= Value(lp, false, j) < lp.Modulus()
  }

  lemma IvIsValue(lp: DoallLoop, signed: bool, H: nat, j: nat)
    requires lp.Valid() && NoWrap(lp, signed, H) && j <= H
    ensures signed ==> Signed(lp.Iv(j), lp.Modulus()) == Value(lp, true, j)
    ensures !signed ==> lp.Iv(j) == Value(lp, false, j)
  {
    var v := Value(lp, signed, j);
    if signed {
      SignedOfWrap(v, lp.half);
      if 2 * lp.start >= lp.Modulus() {
        WrapShift(v, 1, lp.Modulus());
      }
    } else {
      WrapInRange(v, lp.Modulus());
    }
  }

  /** Along the direction of the step the values only move away. */
  lemma ValueOrder(lp: DoallLoop, signed: bool, i: nat, j: nat)
    requires i <= j
    ensures lp.step > 0 ==> Value(lp, signed, i) <= Value(lp, signed, j)
    ensures lp.step < 0 ==> Value(lp, signed, i) >= Value(lp, signed, j)
    ensures lp.step != 0 && i < j ==> Value(lp, signed, i) != Value(lp, signed, j)
  {
    var d: nat := j - i;
    assert j * lp.step == i * lp.step + d * lp.step;
    if lp.step > 0 {
      AtLeastZero(d, lp.step);
      if d > 0 { AtLeastFactor(d, lp.step); }
    } else if lp.step < 0 {
      AtLeastZero(d, -lp.step);
      if d > 0 { AtLeastFactor(d, -lp.step); }
      assert d * (-lp.step) == -(d * lp.step);
    }
  }

  /** A sign-compatible ordered exit test, once true, stays true. */
  lemma OrderedExits(lp: DoallLoop, T: nat, H: nat)
    requires lp.Valid() && SignCompatible(lp.exit, lp.step > 0) && lp.exit != NE && lp.exit != EQ
    requires NoWrap(lp, IsSigned(lp.exit), H) && TripCount(lp, T) && T <= H
    ensures ExitsFrom(lp, T, H)
  {
    var signed := IsSigned(lp.exit);
    IvIsValue(lp, signed, H, T);
    forall j | 0 <= j <= H
      ensures ExitsAt(lp, j) <==> j >= T
    {
      if j >= T {
        IvIsValue(lp, signed, H, j);
        ValueOrder(lp, signed, T, j);
      }
    }
  }

  /** An equality exit, reached without unsigned wrap-around, may be widened to >= or <=. */
  lemma EqualityExits(lp: DoallLoop, T: nat, H: nat)
    requires lp.Valid() && lp.exit == EQ && NoWrap(lp, false, H) && TripCount(lp, T) && T <= H
    ensures ExitsFrom(lp, T, H)
  {
    IvIsValue(lp, false, H, T);
    forall j | 0 <= j <= H
      ensures ExitsAt(lp, j) <==> j >= T
    {
      IvIsValue(lp, false, H, j);
      if j >= T {
        ValueOrder(lp, false, T, j);
      } else {
        ValueOrder(lp, false, j, T);
      }
    }
  }

  /** For a signed loop that reaches its bound without signed wrap-around, the widened test agrees
      with the equality test exactly when start and bound have the same sign. */
  lemma EqualityExitIffSameSign(lp: DoallLoop, T: nat)
    requires lp.Valid() && lp.exit == EQ && NoWrap(lp, true, T)
    requires Value(lp, true, T) == Signed(lp.bound, lp.Modulus())
    ensures TripCount(lp, T)
    ensures ExitsFrom(lp, T, T) <==> (Signed(lp.start, lp.Modulus()) < 0 <==> Signed(lp.bound, lp.Modulus()) < 0)
  {
    var m := lp.Modulus();
    forall j | 0 <= j <= T
      ensures Signed(lp.Iv(j), m) == Value(lp, true, j)
      ensures lp.Iv(j) == lp.bound <==> j == T
    {
      IvIsValue(lp, true, T, j);
      ValueOrder(lp, true, j, T);
    }
    var sameSign := Signed(lp.start, m) < 0 <==> Signed(lp.bound, m) < 0;
    assert Value(lp, true, 0) == Signed(lp.start, m);
    forall j | 0 <= j <= T
      ensures sameSign ==> (ExitsAt(lp, j) <==> j >= T)
    {
      ValueOrder(lp, true, 0, j);
      ValueOrder(lp, true, j, T);
    }
    if !sameSign {
      ValueOrder(lp, true, 0, T);
      assert ExitsAt(lp, 0);
    }
  }

  /** A concrete signed loop, from -1 to 1 in eight bits, that the widened test skips altogether. */
  lemma EqualityExitAcrossZero()
    ensures var lp := DoallLoop(128, 255, 1, 1, EQ);
            lp.Valid() && TripCount(lp, 2) && ExitsAt(lp, 0)
  {
    var lp := DoallLoop(128, 255, 1, 1, EQ);
    assert lp.Iv(0) == 255 && lp.Iv(1) == 0 && lp.Iv(2) == 1;
  }

  // ----- which iterations are executed -----

  /** Core c runs the body after k latches: no exit test before or at that point succeeded. */
  ghost predicate Executes(lp: DoallLoop, N: nat, C: nat, c: nat, k: nat)
    requires lp.half > 0 && C > 0
  {
    forall i :: 0 <= i <= k ==> !ExitsAt(lp, Logical(c, i, N, C))
  }

  /** The pass in which core c is, for the first time, at or past iteration T. */
  function FirstPass(T: nat, N: nat, C: nat, c: nat): nat
    requires N > 0 && C > 0
  {
    var chunk: nat, offset: nat := T / C, T % C;
    var round: nat := chunk / N;
    if chunk % N == c then round * C + offset
    else if chunk % N < c then round * C
    else (round + 1) * C
  }

  lemma LogicalAt(q: nat, r: nat, c: nat, N: nat, C: nat)
    requires r < C
    ensures Logical(c, q * C + r, N, C) == (q * N + c) * C + r
  {
    DivModUnique(q * C + r, C, q, r);
  }

  /** A chunk before chunk b ends where b starts, or earlier. */
  lemma ChunkEnds(a: int, b: int, C: nat)
    requires a < b
    ensures a * C + C <= b * C
  {
    AtLeastFactor(b - a, C);
    assert (b - a) * C == b * C - a * C;
  }

  lemma FirstPassReaches(T: nat, N: nat, C: nat, c: nat)
    requires c < N && C > 0
    ensures T <= Logical(c, FirstPass(T, N, C, c), N, C) <= T + (N - 1) * C
    ensures FirstPass(T, N, C, c) > 0 ==> Logical(c, FirstPass(T, N, C, c) - 1, N, C) < T
  {
    var a: nat, r: nat := T / C, T % C;
    var q: nat, p: nat := a / N, a % N;
    assert a == q * N + p && T == a * C + r;
    PassReaches(T, N, C, c, q, p, r, FirstPass(T, N, C, c));
    if FirstPass(T, N, C, c) > 0 {
      PassBefore(T, N, C, c, q, p, r, FirstPass(T, N, C, c));
    }
  }

  lemma PassReaches(T: nat, N: nat, C: nat, c: nat, q: nat, p: nat, r: nat, k: nat)
    requires c < N && C > 0 && p < N && r < C && T == (q * N + p) * C + r
    requires k == if p == c then q * C + r else if p < c then q * C else (q + 1) * C
    ensures T <= Logical(c, k, N, C) <= T + (N - 1) * C
  {
    AtLeastZero(N - 1, C);
    if p == c {
      LogicalAt(q, r, c, N, C);
    } else {
      var round := if p < c then q else q + 1;
      LogicalAt(round, 0, c, N, C);
      assert (q + 1) * N == q * N + N;
      ChunkEnds(q * N + p, round * N + c, C);
      ChunkSpan(q * N + p, round * N + c, N - 1, C);
    }
  }

  lemma ChunkSpan(a: int, b: int, d: int, C: nat)
    requires b - a <= d
    ensures b * C <= a * C + d * C
  {
    AtLeastZero(d - (b - a), C);
    assert (d - (b - a)) * C == d * C - b * C + a * C;
  }

  lemma PassBefore(T: nat, N: nat, C: nat, c: nat, q: nat, p: nat, r: nat, k: nat)
    requires c < N && C > 0 && p < N && r < C && T == (q * N + p) * C + r && k > 0
    requires k == if p == c then q * C + r else if p < c then q * C else (q + 1) * C
    ensures Logical(c, k - 1, N, C) < T
  {
    if p == c && r > 0 {
      LogicalAt(q, r - 1, c, N, C);
    } else {
      assert q == 0 ==> q * C == 0;
      EndsBefore(if p > c then q else q - 1, q * N + p, N, C, c, k);
    }
  }

  /** The last pass in a chunk that comes before chunk a is before that chunk. */
  lemma EndsBefore(last: nat, a: nat, N: nat, C: nat, c: nat, k: nat)
    requires C > 0 && last * N + c < a && k == (last + 1) * C
    ensures k > 0 && Logical(c, k - 1, N, C) < a * C
  {
    LastPassOfChunk(last, N, C, c, last * N + c);
    assert k - 1 == last * C + (C - 1);
    ChunkEnds(last * N + c, a, C);
  }

  lemma LastPassOfChunk(q: nat, N: nat, C: nat, c: nat, own: nat)
    requires C > 0 && own == q * N + c
    ensures Logical(c, q * C + (C - 1), N, C) == own * C + C - 1
  {
    LogicalAt(q, C - 1, c, N, C);
  }

  /** The first iteration at or past T that core c visits. */
  function Overshoot(T: nat, N: nat, C: nat, c: nat): nat
    requires N > 0 && C > 0
  {
    Logical(c, FirstPass(T, N, C, c), N, C)
  }

  /** The widened test fails in every iteration that the sequential loop runs. */
  ghost predicate NoExitBefore(lp: DoallLoop, T: nat)
    requires lp.half > 0
  {
    forall j: nat :: j < T ==> !ExitsAt(lp, j)
  }

  /** The widened test holds where each core first finds itself at or past T. */
  ghost predicate OvershootsExit(lp: DoallLoop, T: nat, N: nat, C: nat)
    requires lp.half > 0 && N > 0 && C > 0
  {
    forall c: nat :: c < N ==> ExitsAt(lp, Overshoot(T, N, C, c))
  }

  /** Every core executes exactly the iterations below T among those it visits. */
  ghost predicate CoversLoop(lp: DoallLoop, T: nat, N: nat, C: nat)
    requires lp.half > 0 && C > 0
  {
    forall c: nat, k: nat :: c < N ==> (Executes(lp, N, C, c, k) <==> Logical(c, k, N, C) < T)
  }

  /** A core that leaves where it overshoots executes its iterations below T and no other. */
  lemma ExecutesIffBelow(lp: DoallLoop, T: nat, N: nat, C: nat, c: nat, k: nat)
    requires lp.half > 0 && c < N && C > 0 && NoExitBefore(lp, T) && ExitsAt(lp, Overshoot(T, N, C, c))
    ensures Executes(lp, N, C, c, k) <==> Logical(c, k, N, C) < T
    ensures Executes(lp, N, C, c, k) <==> k < FirstPass(T, N, C, c)
  {
    var K := FirstPass(T, N, C, c);
    FirstPassReaches(T, N, C, c);
    if k < K {
      LogicalMonotone(c, k, K - 1, N, C);
      forall i | 0 <= i <= k
        ensures !ExitsAt(lp, Logical(c, i, N, C))
      {
        LogicalMonotone(c, i, k, N, C);
      }
    } else {
      LogicalMonotone(c, K, k, N, C);
      assert ExitsAt(lp, Logical(c, K, N, C));
    }
  }

  /** For every exit predicate, chunk size and number of cores: the cores cover exactly the iterations
      below T if and only if the widened test fails in all of them and holds at the N overshoots. */
  lemma CoversIffOvershootsExit(lp: DoallLoop, T: nat, N: nat, C: nat)
    requires lp.half > 0 && N > 0 && C > 0
    ensures CoversLoop(lp, T, N, C) <==> NoExitBefore(lp, T) && OvershootsExit(lp, T, N, C)
  {
    if NoExitBefore(lp, T) && OvershootsExit(lp, T, N, C) {
      forall c: nat, k: nat | c < N
        ensures Executes(lp, N, C, c, k) <==> Logical(c, k, N, C) < T
      {
        ExecutesIffBelow(lp, T, N, C, c, k);
      }
    }
    if CoversLoop(lp, T, N, C) {
      forall j: nat | j < T
        ensures !ExitsAt(lp, j)
      {
        LogicalOfCore(j, N, C);
        assert Executes(lp, N, C, CoreOf(j, N, C), PassOf(j, N, C));
      }
      forall c: nat | c < N
        ensures ExitsAt(lp, Overshoot(T, N, C, c))
      {
        CoveredCoreExits(lp, T, N, C, c);
      }
    }
  }

  lemma CoveredCoreExits(lp: DoallLoop, T: nat, N: nat, C: nat, c: nat)
    requires lp.half > 0 && c < N && C > 0 && CoversLoop(lp, T, N, C)
    ensures ExitsAt(lp, Overshoot(T, N, C, c))
  {
    var K := FirstPass(T, N, C, c);
    FirstPassReaches(T, N, C, c);
    assert !Executes(lp, N, C, c, K);
    assert K > 0 ==> Executes(lp, N, C, c, K - 1);
  }

  /** Then every iteration below T is executed, by one core and in one of its passes only, no other is,
      and each core leaves its loop after FirstPass passes. */
  lemma CoversExactlyOnce(lp: DoallLoop, T: nat, N: nat, C: nat)
    requires lp.half > 0 && N > 0 && C > 0 && CoversLoop(lp, T, N, C)
    ensures forall j: nat :: j < T <==> Executes(lp, N, C, CoreOf(j, N, C), PassOf(j, N, C))
    ensures forall c: nat, k: nat :: c < N && Executes(lp, N, C, c, k) ==>
              Logical(c, k, N, C) < T && c == CoreOf(Logical(c, k, N, C), N, C) && k == PassOf(Logical(c, k, N, C), N, C)
    ensures forall c: nat, k: nat :: c < N ==> (Executes(lp, N, C, c, k) <==> k < FirstPass(T, N, C, c))
  {
    CoversIffOvershootsExit(lp, T, N, C);
    forall j: nat
      ensures j < T <==> Executes(lp, N, C, CoreOf(j, N, C), PassOf(j, N, C))
    {
      LogicalOfCore(j, N, C);
    }
    forall c: nat, k: nat | c < N
      ensures Executes(lp, N, C, c, k) <==> k < FirstPass(T, N, C, c)
      ensures c == CoreOf(Logical(c, k, N, C), N, C) && k == PassOf(Logical(c, k, N, C), N, C)
    {
      ExecutesIffBelow(lp, T, N, C, c, k);
      CoreOfLogical(c, k, N, C);
    }
  }

  // ----- the condition for each kind of exit -----

  /** An ordered exit test, which is not widened: only the overshoots matter. */
  lemma OrderedCoversIff(lp: DoallLoop, T: nat, N: nat, C: nat)
    requires lp.half > 0 && N > 0 && C > 0 && lp.exit != EQ && TripCount(lp, T)
    ensures CoversLoop(lp, T, N, C) <==> OvershootsExit(lp, T, N, C)
  {
    CoversIffOvershootsExit(lp, T, N, C);
  }

  /** An equality exit of a loop that reaches its bound without unsigned wrap-around: only the
      overshoots matter. */
  lemma EqualityCoversIff(lp: DoallLoop, T: nat, N: nat, C: nat)
    requires lp.Valid() && N > 0 && C > 0 && lp.exit == EQ && NoWrap(lp, false, T) && TripCount(lp, T)
    ensures CoversLoop(lp, T, N, C) <==> OvershootsExit(lp, T, N, C)
  {
    EqualityExits(lp, T, T);
    CoversIffOvershootsExit(lp, T, N, C);
  }

  /** An equality exit of a loop that reaches its bound without signed wrap-around: start and bound
      must also have the same sign. */
  lemma SignedEqualityCoversIff(lp: DoallLoop, T: nat, N: nat, C: nat)
    requires lp.Valid() && N > 0 && C > 0 && lp.exit == EQ && NoWrap(lp, true, T)
    requires Value(lp, true, T) == Signed(lp.bound, lp.Modulus())
    ensures TripCount(lp, T)
    ensures CoversLoop(lp, T, N, C) <==>
            (Signed(lp.start, lp.Modulus()) < 0 <==> Signed(lp.bound, lp.Modulus()) < 0) && OvershootsExit(lp, T, N, C)
  {
    EqualityExitIffSameSign(lp, T);
    CoversIffOvershootsExit(lp, T, N, C);
    assert ExitsAt(lp, T);
    assert ExitsFrom(lp, T, T) <==> NoExitBefore(lp, T);
  }

  predicate StartsOffBound(lp: DoallLoop, C: nat, c: nat)
    requires lp.half > 0
  {
    lp.Iv(c * C) != lp.bound
  }

  /** A not-equal exit, whatever wraps: the loop has one iteration or none, and no core but the first
      may start on the bound; with chunks of one, the second iteration of the first core counts too. */
  lemma NotEqualCoversIff(lp: DoallLoop, T: nat, N: nat, C: nat)
    requires lp.Valid() && N > 0 && C > 0 && lp.exit == NE && TripCount(lp, T)
    ensures T == if lp.Iv(0) == lp.bound then 1 else 0
    ensures CoversLoop(lp, T, N, C) <==>
            (forall c: nat :: 0 < c < N ==> StartsOffBound(lp, C, c)) && (T == 1 && C == 1 ==> lp.Iv(N) != lp.bound)
  {
    TripCountOfNotEqual(lp, T);
    CoversIffOvershootsExit(lp, T, N, C);
    NotEqualOvershootsExit(lp, T, N, C);
  }

  lemma NotEqualOvershootsExit(lp: DoallLoop, T: nat, N: nat, C: nat)
    requires lp.half > 0 && N > 0 && C > 0 && lp.exit == NE && T <= 1 && lp.Iv(T) != lp.bound
    ensures OvershootsExit(lp, T, N, C) <==>
            (forall c: nat :: 0 < c < N ==> StartsOffBound(lp, C, c)) && (T == 1 && C == 1 ==> lp.Iv(N) != lp.bound)
  {
    assert 0 * C == 0;
    assert T == 0 ==> StartsOffBound(lp, C, 0);
    forall c: nat | c < N
      ensures ExitsAt(lp, Overshoot(T, N, C, c)) <==>
              if c > 0 || T == 0 then StartsOffBound(lp, C, c) else lp.Iv(if C > 1 then 1 else N) != lp.bound
    {
      EarlyOvershoot(T, N, C, c);
    }
    assert ExitsAt(lp, Overshoot(T, N, C, 0)) <==> (T == 1 && C == 1 ==> lp.Iv(N) != lp.bound);
    if OvershootsExit(lp, T, N, C) {
      forall c: nat | 0 < c < N
        ensures StartsOffBound(lp, C, c)
      {
        assert ExitsAt(lp, Overshoot(T, N, C, c));
      }
    } else {
      var c: nat :| c < N && !ExitsAt(lp, Overshoot(T, N, C, c));
      if c > 0 {
        assert !StartsOffBound(lp, C, c);
      }
    }
  }

  lemma EarlyOvershoot(T: nat, N: nat, C: nat, c: nat)
    requires c < N && C > 0 && T <= 1
    ensures Overshoot(T, N, C, c) == if c > 0 || T == 0 then c * C else if C > 1 then 1 else N
  {
    var o := Overshoot(T, N, C, c);
    FirstPassReaches(T, N, C, c);
    FirstIteration(c, 0, N, C);
    if c > 0 {
      AtLeastFactor(c, C);
    }
    if FirstPass(T, N, C, c) > 0 {
      assert Logical(c, FirstPass(T, N, C, c) - 1, N, C) < 1;
      FirstIteration(c, FirstPass(T, N, C, c) - 1, N, C);
      if C > 1 {
        LogicalAt(0, 1, c, N, C);
      } else {
        LogicalAt(1, 0, c, N, C);
      }
    } else {
      FirstIteration(c, 0, N, C);
    }
  }

  lemma FirstIteration(c: nat, k: nat, N: nat, C: nat)
    requires c < N && C > 0
    ensures Logical(c, k, N, C) < 1 <==> c == 0 && k == 0
    ensures Logical(c, 0, N, C) == c * C
  {
    assert 0 / C == 0 && 0 % C == 0 && 0 * N == 0 && 0 * C == 0;
    CoreOfLogical(c, k, N, C);
    CoreOfLogical(0, 0, N, C);
  }

  lemma TripCountOfNotEqual(lp: DoallLoop, T: nat)
    requires lp.Valid() && lp.exit == NE && TripCount(lp, T)
    ensures T == if lp.Iv(0) == lp.bound then 1 else 0
  {
    if T >= 2 {
      assert !Compare(NE, lp.Iv(0), lp.bound, lp.Modulus()) && !Compare(NE, lp.Iv(1), lp.bound, lp.Modulus());
      ConstantIv(lp, T);
    }
  }

  /** An IV that does not change in its first step never does. */
  lemma {:induction false} ConstantIv(lp: DoallLoop, j: nat)
    requires lp.Valid() && lp.Iv(1) == lp.Iv(0)
    ensures lp.Iv(j) == lp.Iv(0)
  {
    if j > 0 {
      ConstantIv(lp, j - 1);
      var m := lp.Modulus();
      assert lp.start + j * lp.step == lp.start + (j - 1) * lp.step + lp.step;
      WrapAdd(lp.start + (j - 1) * lp.step, lp.step, m);
      WrapAdd(lp.start, lp.step, m);
      assert lp.start + 0 * lp.step == lp.start && lp.start + 1 * lp.step == lp.start + lp.step;
      assert Wrap(lp.Iv(j - 1) + lp.step, m) == lp.Iv(j);
      assert Wrap(lp.Iv(0) + lp.step, m) == lp.Iv(1);
    }
  }

  /** A caller's check that suffices for every exit test but NE: nothing wraps up to N - 1 chunks past
      the trip count. */
  lemma DoallCoversLoop(lp: DoallLoop, T: nat, N: nat, C: nat)
    requires lp.Valid() && N > 0 && C > 0 && TripCount(lp, T)
    requires SignCompatible(lp.exit, lp.step > 0) && lp.exit != NE
    requires NoWrap(lp, IsSigned(lp.exit), T + (N - 1) * C)
    ensures CoversLoop(lp, T, N, C)
  {
    AtLeastZero(N - 1, C);
    var H := T + (N - 1) * C;
    if lp.exit == EQ {
      EqualityExits(lp, T, H);
    } else {
      OrderedExits(lp, T, H);
    }
    forall c: nat | c < N
      ensures ExitsAt(lp, Overshoot(T, N, C, c))
    {
      FirstPassReaches(T, N, C, c);
    }
    CoversIffOvershootsExit(lp, T, N, C);
  }

  /** Start and bound have the same sign and nothing wraps in the two iterations from 253 to 255, yet
      the second of two cores passes the bound unnoticed: 253 + 3 is 0. */
  lemma EqualityOvershootWraps()
    ensures var lp := DoallLoop(128, 253, 1, 255, EQ);
            lp.Valid() && TripCount(lp, 2) && NoWrap(lp, true, 2) && NoWrap(lp, false, 2) && ExitsFrom(lp, 2, 2)
            && Overshoot(2, 2, 1, 1) == 3 && Executes(lp, 2, 1, 1, FirstPass(2, 2, 1, 1)) && !CoversLoop(lp, 2, 2, 1)
  {
    var lp := DoallLoop(128, 253, 1, 255, EQ);
    assert Signed(lp.start, 256) == -3 && Signed(lp.bound, 256) == -1;
    assert forall j :: Value(lp, true, j) == j - 3 && Value(lp, false, j) == j + 253;
    EqualityExitIffSameSign(lp, 2);
    SecondOfTwoCores();
    assert lp.Iv(3) == 0;
    MissedOvershoot(lp, 2, 2, 1, 1);
  }

  lemma SecondOfTwoCores()
    ensures Overshoot(2, 2, 1, 1) == 3
  {
    assert FirstPass(2, 2, 1, 1) == 1;
    LogicalAt(1, 0, 1, 2, 1);
  }

  /** A core whose overshoot does not leave executes it, so the loop is not covered. */
  lemma MissedOvershoot(lp: DoallLoop, T: nat, N: nat, C: nat, c: nat)
    requires lp.half > 0 && c < N && C > 0 && NoExitBefore(lp, T) && !ExitsAt(lp, Overshoot(T, N, C, c))
    ensures Executes(lp, N, C, c, FirstPass(T, N, C, c)) && !CoversLoop(lp, T, N, C)
  {
    var K := FirstPass(T, N, C, c);
    FirstPassReaches(T, N, C, c);
    forall i | 0 <= i <= K
      ensures !ExitsAt(lp, Logical(c, i, N, C))
    {
      if i < K {
        LogicalMonotone(c, i, K - 1, N, C);
      }
    }
  }

  /** An ordered exit fails in the same way: the loop from 0 to 255 does not wrap, but core 0 jumps
      from 254 to 256, which is 0. */
  lemma OrderedOvershootWraps()
    ensures var lp := DoallLoop(128, 0, 1, 255, UGE);
            lp.Valid() && TripCount(lp, 255) && NoWrap(lp, false, 255)
            && Overshoot(255, 2, 1, 0) == 256 && !ExitsAt(lp, 256) && !CoversLoop(lp, 255, 2, 1)
  {
    var lp := DoallLoop(128, 0, 1, 255, UGE);
    forall j | 0 <= j <= 255
      ensures lp.Iv(j) == j
    {
      WrapInRange(j, 256);
    }
    assert FirstPass(255, 2, 1, 0) == 128;
    LogicalAt(128, 0, 0, 2, 1);
    assert lp.Iv(256) == 0;
    MissedOvershoot(lp, 255, 2, 1, 0);
  }

  /** The generated loop tests its exit at the header: does it succeed after k latches? */
  predicate LeavesAfter(start: int, step: int, chunkStep: int, C: int, m: int, exitTest: Predicate, bound: int, k: nat)
    requires m > 0
  {
    Compare(exitTest, AfterPasses(start, step, chunkStep, C, m, k).iv, bound, m)
  }

  /** The generated loop: header test, body, latch. If the test succeeds after any number of latches,
      the loop ends, at the first such point, and has visited the IV values before it. */
  method RunChunkedLoop(start: int, step: int, chunkStep: int, C: int, m: int, exitTest: Predicate, bound: int)
    returns (visited: seq<int>)
    requires m > 0
    requires exists k: nat :: LeavesAfter(start, step, chunkStep, C, m, exitTest, bound, k)
    ensures LeavesAfter(start, step, chunkStep, C, m, exitTest, bound, |visited|)
    ensures forall k :: 0 <= k < |visited| ==> !LeavesAfter(start, step, chunkStep, C, m, exitTest, bound, k)
                                               && visited[k] == AfterPasses(start, step, chunkStep, C, m, k).iv
  {
    ghost var K: nat :| LeavesAfter(start, step, chunkStep, C, m, exitTest, bound, K);
    var iv, chunk := Wrap(start, m), 0;
    visited := [];
    while !Compare(exitTest, iv, bound, m)
      invariant |visited| <= K
      invariant CoreState(iv, chunk) == AfterPasses(start, step, chunkStep, C, m, |visited|)
      invariant forall k :: 0 <= k < |visited| ==> !LeavesAfter(start, step, chunkStep, C, m, exitTest, bound, k)
                                                   && visited[k] == AfterPasses(start, step, chunkStep, C, m, k).iv
      decreases K - |visited|
    {
      visited := visited + [iv];
      iv, chunk := Latch(iv, chunk, step, chunkStep, C, m);
    }
  }

  /** The code at the end of the latch. */
  method Latch(iv: int, chunk: int, step: int, chunkStep: int, C: int, m: int) returns (nextIv: int, chunkWrap: int)
    requires m > 0
    ensures CoreState(nextIv, chunkWrap) == LatchPass(CoreState(iv, chunk), step, chunkStep, C, m)
  {
    var chunkIncrement := Wrap(chunk + 1, m);
    var isChunkCompleted := chunkIncrement == C;
    chunkWrap := if isChunkCompleted then 0 else chunkIncrement;
    var initialLatchValue := Wrap(iv + step, m);
    var ivOffsetByChunk := Wrap(initialLatchValue + chunkStep, m);
    nextIv := if isChunkCompleted then ivOffsetByChunk else initialLatchValue;
  }

  /** The exit test of core c's generated loop succeeds after k latches. */
  predicate CoreLeavesAfter(lp: DoallLoop, N: nat, C: nat, c: nat, k: nat)
    requires lp.half > 0 && N > 0
  {
    LeavesAfter(lp.start + c * C * lp.step, lp.step, (N - 1) * C * lp.step, C, lp.Modulus(),
                NonStrictPredicate(lp.exit, lp.step > 0), lp.bound, k)
  }

  /** The loop that core c of N runs. If it leaves where it overshoots T, it ends after FirstPass passes
      and has visited, in order, the iterations below T that belong to it. */
  method RunCore(lp: DoallLoop, N: nat, C: nat, c: nat, ghost T: nat) returns (visited: seq<int>)
    requires lp.Valid() && c < N && ChunkCounts(lp, N, C)
    requires NoExitBefore(lp, T) && ExitsAt(lp, Overshoot(T, N, C, c))
    ensures |visited| == FirstPass(T, N, C, c)
    ensures forall k :: 0 <= k < |visited| ==> Logical(c, k, N, C) < T && visited[k] == lp.Iv(Logical(c, k, N, C))
  {
    var start, chunkStep := lp.start + c * C * lp.step, (N - 1) * C * lp.step;
    CoreLeaves(lp, T, N, C, c);
    assert LeavesAfter(start, lp.step, chunkStep, C, lp.Modulus(), NonStrictPredicate(lp.exit, lp.step > 0), lp.bound, FirstPass(T, N, C, c));
    visited := RunChunkedLoop(start, lp.step, chunkStep, C, lp.Modulus(), NonStrictPredicate(lp.exit, lp.step > 0), lp.bound);
    CoreVisits(lp, N, C, c, T, |visited|);
  }

  /** A core that leaves where it overshoots T does so after FirstPass passes of the generated loop, and
      not earlier. */
  lemma CoreLeaves(lp: DoallLoop, T: nat, N: nat, C: nat, c: nat)
    requires lp.Valid() && c < N && ChunkCounts(lp, N, C)
    requires NoExitBefore(lp, T) && ExitsAt(lp, Overshoot(T, N, C, c))
    ensures CoreLeavesAfter(lp, N, C, c, FirstPass(T, N, C, c))
    ensures forall k: nat :: k < FirstPass(T, N, C, c) ==> !CoreLeavesAfter(lp, N, C, c, k) && Logical(c, k, N, C) < T
  {
    CoreIv(lp, c, FirstPass(T, N, C, c), N, C);
    forall k: nat | k < FirstPass(T, N, C, c)
      ensures !CoreLeavesAfter(lp, N, C, c, k) && Logical(c, k, N, C) < T
    {
      CoreIv(lp, c, k, N, C);
      ExecutesIffBelow(lp, T, N, C, c, k);
    }
  }

  /** The first exit of the generated loop is at pass FirstPass, and its IV is that of the iteration. */
  lemma CoreVisits(lp: DoallLoop, N: nat, C: nat, c: nat, T: nat, K: nat)
    requires lp.Valid() && c < N && ChunkCounts(lp, N, C)
    requires NoExitBefore(lp, T) && ExitsAt(lp, Overshoot(T, N, C, c))
    requires CoreLeavesAfter(lp, N, C, c, K) && forall k: nat :: k < K ==> !CoreLeavesAfter(lp, N, C, c, k)
    ensures K == FirstPass(T, N, C, c)
    ensures forall k: nat :: k < K ==>
              Logical(c, k, N, C) < T
              && lp.Iv(Logical(c, k, N, C)) == AfterPasses(lp.start + c * C * lp.step, lp.step, (N - 1) * C * lp.step, C, lp.Modulus(), k).iv
  {
    CoreLeaves(lp, T, N, C, c);
    forall k: nat | k < K
      ensures lp.Iv(Logical(c, k, N, C)) ==
              AfterPasses(lp.start + c * C * lp.step, lp.step, (N - 1) * C * lp.step, C, lp.Modulus(), k).iv
    {
      CoreIv(lp, c, k, N, C);
    }
  }

  // ----- rewriting the comparison and the branch -----

  datatype Operand = IvOperand | BoundOperand

  class CmpInst {
    var comparison: Predicate
    var left: Operand
    var right: Operand
  }

  class BranchInst {
    var onTrue: nat
    var onFalse: nat
  }

  function OperandValue(o: Operand, iv: int, bound: int): int
  {
    if o == IvOperand then iv else bound
  }

  /** Where the comparison and branch at the end of the header go. */
  function Goes(p: Predicate, left: Operand, right: Operand, onTrue: nat, onFalse: nat, iv: int, bound: int, m: int): nat
  {
    if Compare(p, OperandValue(left, iv, bound), OperandValue(right, iv, bound), m) then onTrue else onFalse
  }

  /** The predicate that, with the IV on the left, is true when the loop is left. */
  function ExitPredicate(p: Predicate, ivOnLeft: bool, exitsOnTrue: bool): Predicate
  {
    var q := if exitsOnTrue then p else InversePredicate(p);
    if ivOnLeft then q else SwappedPredicate(q)
  }

  class LoopGoverningIVUtility {
    var nonStrictPredicate: Predicate
    var flipOperandsToUseNonStrictPredicate: bool
    var flipBrSuccessorsToUseNonStrictPredicate: bool

    constructor (condition: CmpInst, branch: BranchInst, exitBlock: nat, stepPositive: bool)
      requires SignCompatible(ExitPredicate(condition.comparison, condition.left == IvOperand, branch.onTrue == exitBlock), stepPositive)
      ensures nonStrictPredicate ==
              NonStrictPredicate(ExitPredicate(condition.comparison, condition.left == IvOperand, branch.onTrue == exitBlock), stepPositive)
      ensures flipOperandsToUseNonStrictPredicate <==> condition.left != IvOperand
      ensures flipBrSuccessorsToUseNonStrictPredicate <==> branch.onTrue != exitBlock
    {
      var ivOnLeft := condition.left == IvOperand;
      var conditionExitsOnTrue := branch.onTrue == exitBlock;
      var exitPredicate := if conditionExitsOnTrue then condition.comparison else InversePredicate(condition.comparison);
      exitPredicate := if ivOnLeft then exitPredicate else SwappedPredicate(exitPredicate);
      flipOperandsToUseNonStrictPredicate := !ivOnLeft;
      flipBrSuccessorsToUseNonStrictPredicate := !conditionExitsOnTrue;
      match exitPredicate {
        case NE => nonStrictPredicate := exitPredicate;
        case EQ => nonStrictPredicate := if stepPositive then UGE else ULE;
        case SLE => nonStrictPredicate := exitPredicate;
        case SLT => nonStrictPredicate := exitPredicate;
        case ULT => nonStrictPredicate := exitPredicate;
        case ULE => nonStrictPredicate := exitPredicate;
        case _ => nonStrictPredicate := exitPredicate;
      }
    }

    /** Afterwards the branch takes the exit exactly when the widened test holds, whichever way the
        comparison and the branch were written. */
    method UpdateConditionAndBranch(cmpToUpdate: CmpInst, branchInst: BranchInst, exitBlock: nat)
      requires {cmpToUpdate.left, cmpToUpdate.right} == {IvOperand, BoundOperand}
      requires flipOperandsToUseNonStrictPredicate <==> cmpToUpdate.left != IvOperand
      requires flipBrSuccessorsToUseNonStrictPredicate <==> branchInst.onTrue != exitBlock
      requires (branchInst.onTrue == exitBlock) != (branchInst.onFalse == exitBlock)
      modifies cmpToUpdate, branchInst
      ensures {branchInst.onTrue, branchInst.onFalse} == {old(branchInst.onTrue), old(branchInst.onFalse)}
      ensures forall iv: int, bound: int, m: int ::
                Goes(cmpToUpdate.comparison, cmpToUpdate.left, cmpToUpdate.right, branchInst.onTrue, branchInst.onFalse, iv, bound, m) == exitBlock
                <==> Compare(nonStrictPredicate, iv, bound, m)
    {
      if flipOperandsToUseNonStrictPredicate {
        cmpToUpdate.left, cmpToUpdate.right := cmpToUpdate.right, cmpToUpdate.left;
      }
      cmpToUpdate.comparison := nonStrictPredicate;
      if flipBrSuccessorsToUseNonStrictPredicate {
        branchInst.onTrue, branchInst.onFalse := branchInst.onFalse, branchInst.onTrue;
      }
    }
  }

  /** Before the rewrite the branch takes the exit exactly when the exit predicate holds of IV and bound. */
  lemma ExitPredicateIsExit(p: Predicate, left: Operand, right: Operand, onTrue: nat, onFalse: nat, exitBlock: nat,
                            iv: int, bound: int, m: int)
    requires {left, right} == {IvOperand, BoundOperand}
    requires (onTrue == exitBlock) != (onFalse == exitBlock)
    ensures Goes(p, left, right, onTrue, onFalse, iv, bound, m) == exitBlock <==>
            Compare(ExitPredicate(p, left == IvOperand, onTrue == exitBlock), iv, bound, m)
  {
  }
}
