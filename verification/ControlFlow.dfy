/** Control-flow graphs whose blocks transform shared registers, their runs, and what it means
    that one graph is another with extra, silent blocks inserted. */
module ControlFlow {

  type Label = nat
  type Instr = nat
  type State = map<nat, int>

  datatype Terminator =
    | Br(target: Label)
    | CondBr(cond: nat, onTrue: Label, onFalse: Label)
    | Switch(selector: nat, cases: seq<Label>)
    | Ret

  datatype Block = Block(body: seq<Instr>, term: Terminator)

  type Cfg = map<Label, Block>

  /** What instructions and terminator conditions compute; nothing is assumed about it. */
  datatype Machine = Machine(
    exec: (Instr, State) -> State,
    test: (nat, State) -> bool,
    select: (nat, State) -> nat)

  datatype Config = At(block: Label, st: State) | Halted(st: State)

  function Targets(t: Terminator): seq<Label>
  {
    match t
    case Br(target) => [target]
    case CondBr(_, a, b) => [a, b]
    case Switch(_, cases) => cases
    case Ret => []
  }

  function WithTargets(t: Terminator, ts: seq<Label>): (r: Terminator)
    requires |ts| == |Targets(t)|
    ensures Targets(r) == ts
  {
    match t
    case Br(_) => Br(ts[0])
    case CondBr(c, _, _) => CondBr(c, ts[0], ts[1])
    case Switch(s, _) => Switch(s, ts)
    case Ret => Ret
  }

  /** The same terminator up to where it goes. */
  ghost predicate SameShape(t: Terminator, u: Terminator)
  {
    |Targets(t)| == |Targets(u)| && WithTargets(t, Targets(u)) == u
  }

  ghost predicate ClosedCfg(cfg: Cfg)
  {
    forall l, i :: l in cfg && 0 <= i < |Targets(cfg[l].term)| ==> Targets(cfg[l].term)[i] in cfg
  }

  ghost predicate InCfg(cfg: Cfg, c: Config)
  {
    c.At? ==> c.block in cfg
  }

  ghost function RunBody(M: Machine, body: seq<Instr>, s: State): State
  {
    if body == [] then s else RunBody(M, body[1..], M.exec(body[0], s))
  }

  /** Which of its targets a terminator takes. */
  ghost function Choice(M: Machine, t: Terminator, s: State): (i: nat)
    requires |Targets(t)| > 0
    ensures i < |Targets(t)|
  {
    match t
    case Br(_) => 0
    case CondBr(c, _, _) => if M.test(c, s) then 0 else 1
    case Switch(sel, cases) => M.select(sel, s) % |cases|
    case Ret => 0
  }

  lemma SameShapeSameChoice(M: Machine, t: Terminator, u: Terminator, s: State)
    requires SameShape(t, u) && |Targets(t)| > 0
    ensures Choice(M, t, s) == Choice(M, u, s)
  {
  }

  /** Execute one whole block. */
  ghost function Step(M: Machine, cfg: Cfg, c: Config): (r: Config)
    ensures ClosedCfg(cfg) ==> InCfg(cfg, r)
  {
    if c.Halted? || c.block !in cfg then
      Halted(c.st)
    else
      var b := cfg[c.block];
      var s := RunBody(M, b.body, c.st);
      if Targets(b.term) == [] then Halted(s) else At(Targets(b.term)[Choice(M, b.term, s)], s)
  }

  /** The configurations met in the first n block executions. */
  ghost function Trace(M: Machine, cfg: Cfg, c: Config, n: nat): seq<Config>
    decreases n
  {
    if n == 0 || c.Halted? then [c] else [c] + Trace(M, cfg, Step(M, cfg, c), n - 1)
  }

  // ----- silent blocks -----

  /** Silent blocks of a graph, ranked so that runs through them end. */
  type Silent = map<Label, nat>

  ghost predicate Ranked(cfg: Cfg, sil: Silent)
  {
    forall l, i :: l in sil && l in cfg && 0 <= i < |Targets(cfg[l].term)| && Targets(cfg[l].term)[i] in sil ==>
                   sil[Targets(cfg[l].term)[i]] < sil[l]
  }

  ghost predicate IsSilent(sil: Silent, c: Config)
  {
    c.At? && c.block in sil
  }

  /** Run through silent blocks until a visible configuration. */
  ghost function Settle(M: Machine, cfg: Cfg, sil: Silent, c: Config): (r: Config)
    requires Ranked(cfg, sil)
    ensures !IsSilent(sil, r)
    ensures ClosedCfg(cfg) && InCfg(cfg, c) ==> InCfg(cfg, r)
    decreases if IsSilent(sil, c) then sil[c.block] + 1 else 0
  {
    if IsSilent(sil, c) then Settle(M, cfg, sil, Step(M, cfg, c)) else c
  }

  function Rename(p: map<Label, Label>, l: Label): Label
  {
    if l in p then p[l] else l
  }

  ghost function RenameConfig(p: map<Label, Label>, c: Config): Config
  {
    if c.At? then At(Rename(p, c.block), c.st) else c
  }

  /** A trace without its silent configurations and with the copies renamed to their originals. */
  ghost function View(sil: Silent, p: map<Label, Label>, t: seq<Config>): seq<Config>
  {
    if t == [] then []
    else (if IsSilent(sil, t[0]) then [] else [RenameConfig(p, t[0])]) + View(sil, p, t[1..])
  }

  /** Every visible block of A, followed by the silent blocks after it, acts as its image in B. */
  ghost predicate Erases(M: Machine, A: Cfg, B: Cfg, sil: Silent, p: map<Label, Label>)
  {
    && Ranked(A, sil) && ClosedCfg(A)
    && forall l, s :: l in A && l !in sil ==>
                      RenameConfig(p, Settle(M, A, sil, Step(M, A, At(l, s)))) == Step(M, B, At(Rename(p, l), s))
  }

  ghost predicate ErasesAlways(A: Cfg, B: Cfg, sil: Silent, p: map<Label, Label>)
  {
    forall M :: Erases(M, A, B, sil, p)
  }

  lemma ViewLast(M: Machine, A: Cfg, sil: Silent, p: map<Label, Label>, c: Config, m: nat)
    requires m == 0 || c.Halted?
    ensures View(sil, p, Trace(M, A, c, m)) == if IsSilent(sil, c) then [] else [RenameConfig(p, c)]
  {
    assert Trace(M, A, c, m)[1..] == [];
  }

  lemma ViewStep(M: Machine, A: Cfg, sil: Silent, p: map<Label, Label>, c: Config, m: nat)
    requires m > 0 && c.At?
    ensures var rest := View(sil, p, Trace(M, A, Step(M, A, c), m - 1));
            View(sil, p, Trace(M, A, c, m)) == if IsSilent(sil, c) then rest else [RenameConfig(p, c)] + rest
  {
    assert Trace(M, A, c, m)[1..] == Trace(M, A, Step(M, A, c), m - 1);
  }

  /** One visible step of A, settled, is one step of B. */
  lemma VisibleStep(M: Machine, A: Cfg, B: Cfg, sil: Silent, p: map<Label, Label>, c: Config)
    requires Erases(M, A, B, sil, p) && InCfg(A, c) && c.At? && !IsSilent(sil, c)
    ensures Settle(M, A, sil, c) == c
    ensures RenameConfig(p, Settle(M, A, sil, Step(M, A, c))) == Step(M, B, RenameConfig(p, c))
  {
    assert c == At(c.block, c.st);
  }

  /** Any prefix of a run of A is, seen through the erasure, a prefix of the run of B. */
  lemma {:induction false} ViewOfRun(M: Machine, A: Cfg, B: Cfg, sil: Silent, p: map<Label, Label>, c: Config, m: nat) returns (n: nat)
    requires Erases(M, A, B, sil, p) && InCfg(A, c)
    ensures ViewsRun(M, A, B, sil, p, c, m, n)
    decreases m
  {
    if m == 0 || c.Halted? {
      n := 0;
      ViewLast(M, A, sil, p, c, m);
    } else {
      var k := ViewOfRun(M, A, B, sil, p, Step(M, A, c), m - 1);
      if IsSilent(sil, c) {
        n := k;
        ViewStep(M, A, sil, p, c, m);
      } else {
        n := AfterVisible(M, A, B, sil, p, c, m, k);
      }
    }
  }

  lemma AfterVisible(M: Machine, A: Cfg, B: Cfg, sil: Silent, p: map<Label, Label>, c: Config, m: nat, k: nat) returns (n: nat)
    requires Erases(M, A, B, sil, p) && InCfg(A, c) && c.At? && !IsSilent(sil, c) && m > 0
    requires ViewsRun(M, A, B, sil, p, Step(M, A, c), m - 1, k)
    ensures ViewsRun(M, A, B, sil, p, c, m, n)
  {
    VisibleStep(M, A, B, sil, p, c);
    if View(sil, p, Trace(M, A, Step(M, A, c), m - 1)) == [] {
      n := 0;
      ViewStep(M, A, sil, p, c, m);
    } else {
      n := k + 1;
      VisibleRunStep(M, A, B, sil, p, c, m - 1, n);
    }
  }

  /** m steps of A from c are seen as n steps of B, or not at all yet. */
  ghost predicate ViewsRun(M: Machine, A: Cfg, B: Cfg, sil: Silent, p: map<Label, Label>, c: Config, m: nat, n: nat)
    requires Ranked(A, sil)
  {
    || (IsSilent(sil, c) && View(sil, p, Trace(M, A, c, m)) == [])
    || View(sil, p, Trace(M, A, c, m)) == Trace(M, B, RenameConfig(p, Settle(M, A, sil, c)), n)
  }

  /** Walking through the silent blocks first does not change the view. */
  lemma {:induction false} ViewThroughSilent(M: Machine, A: Cfg, sil: Silent, p: map<Label, Label>, c: Config, m: nat) returns (k: nat)
    requires Ranked(A, sil)
    ensures View(sil, p, Trace(M, A, c, k)) == View(sil, p, Trace(M, A, Settle(M, A, sil, c), m))
    decreases if IsSilent(sil, c) then sil[c.block] + 1 else 0
  {
    if IsSilent(sil, c) {
      var j := ViewThroughSilent(M, A, sil, p, Step(M, A, c), m);
      k := j + 1;
      ViewStep(M, A, sil, p, c, k);
    } else {
      k := m;
    }
  }

  /** The first m steps of A from c, seen through the erasure, are the first n steps of B. */
  ghost predicate Seen(M: Machine, A: Cfg, B: Cfg, sil: Silent, p: map<Label, Label>, c: Config, m: nat, n: nat)
  {
    View(sil, p, Trace(M, A, c, m)) == Trace(M, B, RenameConfig(p, c), n)
  }

  /** Any prefix of the run of B is the view of some prefix of the run of A. */
  lemma RunHasView(M: Machine, A: Cfg, B: Cfg, sil: Silent, p: map<Label, Label>, c: Config, n: nat) returns (m: nat)
    requires Erases(M, A, B, sil, p) && !IsSilent(sil, c) && InCfg(A, c)
    ensures View(sil, p, Trace(M, A, c, m)) == Trace(M, B, RenameConfig(p, c), n)
  {
    m := RunIsSeen(M, A, B, sil, p, c, n);
  }

  lemma {:induction false} RunIsSeen(M: Machine, A: Cfg, B: Cfg, sil: Silent, p: map<Label, Label>, c: Config, n: nat) returns (m: nat)
    requires Erases(M, A, B, sil, p) && !IsSilent(sil, c) && InCfg(A, c)
    ensures Seen(M, A, B, sil, p, c, m, n)
    decreases n
  {
    if n == 0 || c.Halted? {
      m := 0;
      RunStart(M, A, B, sil, p, c, n);
    } else {
      SettledIsVisible(M, A, B, sil, p, c);
      var j := RunIsSeen(M, A, B, sil, p, Settle(M, A, sil, Step(M, A, c)), n - 1);
      m := RunExtends(M, A, B, sil, p, c, j, n);
    }
  }

  lemma SettledIsVisible(M: Machine, A: Cfg, B: Cfg, sil: Silent, p: map<Label, Label>, c: Config)
    requires Erases(M, A, B, sil, p) && !IsSilent(sil, c) && InCfg(A, c) && c.At?
    ensures !IsSilent(sil, Settle(M, A, sil, Step(M, A, c))) && InCfg(A, Settle(M, A, sil, Step(M, A, c)))
  {
  }

  lemma RunExtends(M: Machine, A: Cfg, B: Cfg, sil: Silent, p: map<Label, Label>, c: Config, j: nat, n: nat) returns (m: nat)
    requires Erases(M, A, B, sil, p) && !IsSilent(sil, c) && InCfg(A, c) && c.At? && n > 0
    requires Seen(M, A, B, sil, p, Settle(M, A, sil, Step(M, A, c)), j, n - 1)
    ensures Seen(M, A, B, sil, p, c, m, n)
  {
    var k := ViewThroughSilent(M, A, sil, p, Step(M, A, c), j);
    m := k + 1;
    VisibleRunStep(M, A, B, sil, p, c, k, n);
  }

  lemma RunStart(M: Machine, A: Cfg, B: Cfg, sil: Silent, p: map<Label, Label>, c: Config, n: nat)
    requires !IsSilent(sil, c) && (n == 0 || c.Halted?)
    ensures Seen(M, A, B, sil, p, c, 0, n)
  {
    ViewLast(M, A, sil, p, c, 0);
  }

  /** A view continued by one visible step of A continues the run of B by one step. */
  lemma VisibleRunStep(M: Machine, A: Cfg, B: Cfg, sil: Silent, p: map<Label, Label>, c: Config, k: nat, n: nat)
    requires Erases(M, A, B, sil, p) && !IsSilent(sil, c) && InCfg(A, c) && c.At? && n > 0
    requires View(sil, p, Trace(M, A, Step(M, A, c), k)) == Trace(M, B, RenameConfig(p, Settle(M, A, sil, Step(M, A, c))), n - 1)
    ensures View(sil, p, Trace(M, A, c, k + 1)) == Trace(M, B, RenameConfig(p, c), n)
  {
    ViewStep(M, A, sil, p, c, k + 1);
    VisibleStep(M, A, B, sil, p, c);
  }

  /** A graph erases to itself when nothing is silent. */
  lemma ErasesSelf(A: Cfg)
    requires ClosedCfg(A)
    ensures ErasesAlways(A, A, map[], map[])
  {
  }

  /** Two graphs that erase, directly or in two steps, to the same graph have the same runs: every
      prefix of a run of the one is, seen through the erasures, a prefix of the run of the other. */
  ghost predicate SameRuns(O: Cfg, silO: Silent, W: Cfg, silW: Silent, p: map<Label, Label>, silS: Silent)
  {
    forall M, e, s :: SameRunsFrom(M, O, silO, W, silW, p, silS, e, s)
  }

  ghost predicate SameRunsFrom(M: Machine, O: Cfg, silO: Silent, W: Cfg, silW: Silent, p: map<Label, Label>, silS: Silent,
                               e: Label, s: State)
  {
    VisibleIn(O, silO, e) && VisibleIn(W, silW, e) && e !in p && e !in silS ==>
      (forall n :: SeenInNew(M, O, silO, W, silW, p, silS, At(e, s), n))
      && (forall m :: SeenInOld(M, O, silO, W, silW, p, silS, At(e, s), m))
  }

  /** What the first n steps of the old graph show is shown by some prefix of the new graph's run. */
  ghost predicate SeenInNew(M: Machine, O: Cfg, silO: Silent, W: Cfg, silW: Silent, p: map<Label, Label>, silS: Silent,
                            c: Config, n: nat)
  {
    exists m: nat :: SameView(M, O, silO, W, silW, p, silS, c, n, m)
  }

  ghost predicate SeenInOld(M: Machine, O: Cfg, silO: Silent, W: Cfg, silW: Silent, p: map<Label, Label>, silS: Silent,
                            c: Config, m: nat)
  {
    exists n: nat :: SameView(M, O, silO, W, silW, p, silS, c, n, m)
  }

  ghost predicate VisibleIn(A: Cfg, sil: Silent, l: Label)
  {
    l in A && l !in sil
  }

  ghost predicate SameView(M: Machine, O: Cfg, silO: Silent, W: Cfg, silW: Silent, p: map<Label, Label>, silS: Silent,
                           c: Config, n: nat, m: nat)
  {
    View(silO, map[], Trace(M, O, c, n)) == View(silS, map[], View(silW, p, Trace(M, W, c, m)))
  }

  lemma RunForward(M: Machine, O: Cfg, C: Cfg, S: Cfg, W: Cfg, silO: Silent, silS: Silent, silW: Silent, p: map<Label, Label>,
                   e: Label, s: State, n: nat) returns (m: nat)
    requires Erases(M, O, C, silO, map[]) && Erases(M, S, C, silS, map[]) && Erases(M, W, S, silW, p)
    requires VisibleIn(O, silO, e) && VisibleIn(W, silW, e) && VisibleIn(S, silS, e) && e !in p
    ensures SameView(M, O, silO, W, silW, p, silS, At(e, s), n, m)
  {
    var k := ViewOfRun(M, O, C, silO, map[], At(e, s), n);
    var j := RunHasView(M, S, C, silS, map[], At(e, s), k);
    m := RunHasView(M, W, S, silW, p, At(e, s), j);
  }

  lemma RunBackward(M: Machine, O: Cfg, C: Cfg, S: Cfg, W: Cfg, silO: Silent, silS: Silent, silW: Silent, p: map<Label, Label>,
                    e: Label, s: State, m: nat) returns (n: nat)
    requires Erases(M, O, C, silO, map[]) && Erases(M, S, C, silS, map[]) && Erases(M, W, S, silW, p)
    requires VisibleIn(O, silO, e) && VisibleIn(W, silW, e) && VisibleIn(S, silS, e) && e !in p
    ensures SameView(M, O, silO, W, silW, p, silS, At(e, s), n, m)
  {
    var j := ViewOfRun(M, W, S, silW, p, At(e, s), m);
    var k := ViewOfRun(M, S, C, silS, map[], At(e, s), j);
    n := RunHasView(M, O, C, silO, map[], At(e, s), k);
  }

  lemma ErasedGraphsSameRuns(O: Cfg, C: Cfg, S: Cfg, W: Cfg, silO: Silent, silS: Silent, silW: Silent, p: map<Label, Label>)
    requires ErasesAlways(O, C, silO, map[]) && ErasesAlways(S, C, silS, map[]) && ErasesAlways(W, S, silW, p)
    requires forall e :: e in W && e !in silW && e !in p ==> e in S
    ensures SameRuns(O, silO, W, silW, p, silS)
  {
    forall M, e, s
      ensures SameRunsFrom(M, O, silO, W, silW, p, silS, e, s)
    {
      if VisibleIn(O, silO, e) && VisibleIn(W, silW, e) && e !in p && e !in silS {
        forall n: nat ensures SeenInNew(M, O, silO, W, silW, p, silS, At(e, s), n) {
          var m := RunForward(M, O, C, S, W, silO, silS, silW, p, e, s, n);
        }
        forall m: nat ensures SeenInOld(M, O, silO, W, silW, p, silS, At(e, s), m) {
          var n := RunBackward(M, O, C, S, W, silO, silS, silW, p, e, s, m);
        }
      }
    }
  }

  // ----- erasure of empty blocks, stated on the text of the graphs -----

  /** Where an edge really leads once empty blocks are skipped. */
  ghost function Resolve(cfg: Cfg, sil: Silent, l: Label): (r: Label)
    requires Ranked(cfg, sil) && EmptyBlocks(cfg, sil)
    ensures r !in sil
    decreases if l in sil then sil[l] + 1 else 0
  {
    if l in sil then Resolve(cfg, sil, Targets(cfg[l].term)[0]) else l
  }

  ghost predicate EmptyBlocks(cfg: Cfg, sil: Silent)
  {
    forall l :: l in sil ==> l in cfg && cfg[l].body == [] && cfg[l].term.Br?
  }

  /** Block for block, A is B up to empty blocks on its edges and renaming. */
  ghost predicate ErasesText(A: Cfg, B: Cfg, sil: Silent, p: map<Label, Label>)
  {
    && Ranked(A, sil) && EmptyBlocks(A, sil) && ClosedCfg(A)
    && forall l :: l in A && l !in sil ==> Rename(p, l) in B && BlockErases(A, B, sil, p, l)
  }

  ghost predicate BlockErases(A: Cfg, B: Cfg, sil: Silent, p: map<Label, Label>, l: Label)
    requires Ranked(A, sil) && EmptyBlocks(A, sil) && l in A && Rename(p, l) in B
  {
    var a, b := A[l], B[Rename(p, l)];
    && a.body == b.body && SameShape(a.term, b.term)
    && forall i :: 0 <= i < |Targets(a.term)| ==>
                   Rename(p, Resolve(A, sil, Targets(a.term)[i])) == Targets(b.term)[i]
  }

  lemma {:induction false} SettleIsResolve(M: Machine, A: Cfg, sil: Silent, l: Label, s: State)
    requires Ranked(A, sil) && EmptyBlocks(A, sil)
    ensures Settle(M, A, sil, At(l, s)) == At(Resolve(A, sil, l), s)
    decreases if l in sil then sil[l] + 1 else 0
  {
    if l in sil {
      assert RunBody(M, A[l].body, s) == s;
      assert Step(M, A, At(l, s)) == At(A[l].term.target, s);
      assert Targets(A[l].term)[0] == A[l].term.target;
      SettleIsResolve(M, A, sil, A[l].term.target, s);
    }
  }

  lemma ErasesTextErases(A: Cfg, B: Cfg, sil: Silent, p: map<Label, Label>)
    requires ErasesText(A, B, sil, p)
    ensures ErasesAlways(A, B, sil, p)
  {
    forall M, l, s | l in A && l !in sil
      ensures RenameConfig(p, Settle(M, A, sil, Step(M, A, At(l, s)))) == Step(M, B, At(Rename(p, l), s))
    {
      assert BlockErases(A, B, sil, p, l);
      var a, b := A[l], B[Rename(p, l)];
      var s' := RunBody(M, a.body, s);
      if Targets(a.term) != [] {
        SameShapeSameChoice(M, a.term, b.term, s');
        SettleIsResolve(M, A, sil, Targets(a.term)[Choice(M, a.term, s')], s');
      }
    }
  }
}
