/** The effect of whilification on a control-flow graph: compress an empty latch, split a
    single-block loop, peel one iteration and make the peeled latch the new header. */
module WhilifySpec {
  import opened ControlFlow
  import opened Options

  /** A loop in simplified form: one preheader, one latch. */
  datatype Loop = Loop(header: Label, preHeader: Label, latch: Label, blocks: set<Label>)

  /** The blocks a whilification adds: the anchors, and the peeled copy of every block (with its inverse). */
  datatype Names = Names(top: Label, bottom: Label, newPreHeader: Label, peel: map<Label, Label>, origin: map<Label, Label>)

  // ----- rewriting the targets of a terminator -----

  function ReplaceFirst(ts: seq<Label>, from: Label, to: Label): (r: seq<Label>)
    ensures |r| == |ts|
    ensures forall i :: 0 <= i < |ts| ==> r[i] == ts[i] || (ts[i] == from && r[i] == to)
  {
    if ts == [] then []
    else if ts[0] == from then [to] + ts[1..]
    else [ts[0]] + ReplaceFirst(ts[1..], from, to)
  }

  lemma {:induction false} ReplaceFirstAt(ts: seq<Label>, from: Label, to: Label, i: int)
    requires 0 <= i < |ts| && ts[i] == from && forall j :: 0 <= j < i ==> ts[j] != from
    ensures ReplaceFirst(ts, from, to)[i] == to
  {
    if i > 0 {
      ReplaceFirstAt(ts[1..], from, to, i - 1);
    }
  }

  function ReplaceAll(ts: seq<Label>, from: Label, to: Label): (r: seq<Label>)
    ensures |r| == |ts|
    ensures forall i :: 0 <= i < |ts| ==> r[i] == if ts[i] == from then to else ts[i]
  {
    seq(|ts|, i requires 0 <= i < |ts| => if ts[i] == from then to else ts[i])
  }

  function RemapAll(ts: seq<Label>, m: map<Label, Label>): (r: seq<Label>)
    ensures |r| == |ts|
    ensures forall i :: 0 <= i < |ts| ==> r[i] == Rename(m, ts[i])
  {
    seq(|ts|, i requires 0 <= i < |ts| => Rename(m, ts[i]))
  }

  function RetargetFirst(t: Terminator, from: Label, to: Label): Terminator
  {
    WithTargets(t, ReplaceFirst(Targets(t), from, to))
  }

  function RetargetAll(t: Terminator, from: Label, to: Label): Terminator
  {
    WithTargets(t, ReplaceAll(Targets(t), from, to))
  }

  function RemapTargets(t: Terminator, m: map<Label, Label>): Terminator
  {
    WithTargets(t, RemapAll(Targets(t), m))
  }

  predicate IsBranch(t: Terminator)
  {
    t.Br? || t.CondBr?
  }

  function TargetsOf(cfg: Cfg, l: Label): seq<Label>
    requires l in cfg
  {
    Targets(cfg[l].term)
  }

  // ----- what the source requires of the loop -----

  /** The loop is entered only by its preheader, at the header, and only the latch returns there. */
  ghost predicate NaturalLoop(cfg: Cfg, lp: Loop)
  {
    && lp.blocks <= cfg.Keys && lp.header in lp.blocks && lp.latch in lp.blocks
    && lp.preHeader in cfg && lp.preHeader !in lp.blocks && cfg[lp.preHeader].term == Br(lp.header)
    && (forall a, t :: a in cfg && a !in lp.blocks && t in TargetsOf(cfg, a) && t in lp.blocks ==> a == lp.preHeader)
    && (forall b {:trigger TargetsOf(cfg, b)} :: b in lp.blocks ==> (lp.header in TargetsOf(cfg, b) <==> b == lp.latch))
  }

  ghost predicate SinglePredecessor(cfg: Cfg, l: Label, p: Label)
  {
    && p in cfg && l in TargetsOf(cfg, p)
    && (forall q :: q in cfg && l in TargetsOf(cfg, q) ==> q == p)
    && (forall i, j :: 0 <= i < j < |TargetsOf(cfg, p)| && TargetsOf(cfg, p)[i] == l ==> TargetsOf(cfg, p)[j] != l)
  }

  /** The latch only jumps back to the header, and p is the one block that enters it. */
  ghost predicate StructuralLatch(cfg: Cfg, latch: Label, p: Label)
  {
    latch in cfg && cfg[latch].body == [] && cfg[latch].term.Br? && SinglePredecessor(cfg, latch, p)
  }

  ghost predicate Exits(cfg: Cfg, blocks: set<Label>, l: Label)
    requires l in cfg
  {
    exists t :: t in TargetsOf(cfg, l) && t !in blocks
  }

  /** No other block of the loop that enters the latch leaves the loop. */
  ghost predicate Appropriate(cfg: Cfg, blocks: set<Label>, latch: Label)
  {
    forall b :: b in cfg && b in blocks && b != latch && latch in TargetsOf(cfg, b) ==> !Exits(cfg, blocks, b)
  }

  ghost predicate PredecessorsBranch(cfg: Cfg, l: Label)
  {
    forall b :: b in cfg && l in TargetsOf(cfg, b) ==> IsBranch(cfg[b].term)
  }

  // ----- step 1: compress a structural latch into its predecessor -----

  function CompressCfg(cfg: Cfg, latch: Label, p: Label): Cfg
    requires latch in cfg && p in cfg && cfg[latch].term.Br?
  {
    cfg[p := Block(cfg[p].body, RetargetFirst(cfg[p].term, latch, cfg[latch].term.target))] - {latch}
  }

  function CompressLoop(lp: Loop, p: Label): Loop
  {
    lp.(latch := p, blocks := lp.blocks - {lp.latch})
  }

  lemma StructuralLatchFacts(cfg: Cfg, lp: Loop, p: Label)
    requires ClosedCfg(cfg) && NaturalLoop(cfg, lp) && StructuralLatch(cfg, lp.latch, p)
    ensures p in lp.blocks && p != lp.latch && lp.latch != lp.header
    ensures cfg[lp.latch].term == Br(lp.header)
  {
    assert lp.header in TargetsOf(cfg, lp.latch);
    assert lp.header in TargetsOf(cfg, lp.preHeader);
  }

  lemma CompressedTargets(cfg: Cfg, latch: Label, p: Label, i: int)
    requires StructuralLatch(cfg, latch, p) && 0 <= i < |TargetsOf(cfg, p)|
    ensures var u := RetargetFirst(cfg[p].term, latch, cfg[latch].term.target);
            Targets(u)[i] == if TargetsOf(cfg, p)[i] == latch then cfg[latch].term.target else TargetsOf(cfg, p)[i]
  {
    var ts := TargetsOf(cfg, p);
    if ts[i] == latch {
      ReplaceFirstAt(ts, latch, cfg[latch].term.target, i);
    }
  }

  /** The graph before compression is the compressed one with the empty latch as a silent block. */
  lemma CompressErases(cfg: Cfg, lp: Loop, p: Label)
    requires ClosedCfg(cfg) && NaturalLoop(cfg, lp) && StructuralLatch(cfg, lp.latch, p)
    ensures ErasesText(cfg, CompressCfg(cfg, lp.latch, p), map[lp.latch := 0], map[])
    ensures ClosedCfg(CompressCfg(cfg, lp.latch, p))
  {
    StructuralLatchFacts(cfg, lp, p);
    var C := CompressCfg(cfg, lp.latch, p);
    var sil: Silent := map[lp.latch := 0];
    forall l | l in cfg && l !in sil
      ensures l in C && BlockErases(cfg, C, sil, map[], l)
    {
      forall i | 0 <= i < |TargetsOf(cfg, l)|
        ensures Resolve(cfg, sil, TargetsOf(cfg, l)[i]) == Targets(C[l].term)[i]
      {
        if l == p {
          CompressedTargets(cfg, lp.latch, p, i);
        } else {
          assert TargetsOf(cfg, l)[i] in TargetsOf(cfg, l);
        }
      }
    }
    CompressStaysClosed(cfg, lp, p);
  }

  lemma CompressStaysClosed(cfg: Cfg, lp: Loop, p: Label)
    requires ClosedCfg(cfg) && NaturalLoop(cfg, lp) && StructuralLatch(cfg, lp.latch, p)
    ensures ClosedCfg(CompressCfg(cfg, lp.latch, p))
  {
    StructuralLatchFacts(cfg, lp, p);
    var C := CompressCfg(cfg, lp.latch, p);
    forall l, i | l in C && 0 <= i < |Targets(C[l].term)|
      ensures Targets(C[l].term)[i] in C
    {
      if l == p {
        CompressedTargets(cfg, lp.latch, p, i);
      } else {
        assert TargetsOf(cfg, l)[i] in TargetsOf(cfg, l);
      }
    }
  }

  /** Compression keeps the loop natural and its other latch predecessors inside the loop. */
  lemma CompressKeepsLoop(cfg: Cfg, lp: Loop, p: Label)
    requires ClosedCfg(cfg) && NaturalLoop(cfg, lp) && StructuralLatch(cfg, lp.latch, p)
    ensures NaturalLoop(CompressCfg(cfg, lp.latch, p), CompressLoop(lp, p))
    ensures Appropriate(cfg, lp.blocks, p) ==> Appropriate(CompressCfg(cfg, lp.latch, p), lp.blocks - {lp.latch}, p)
    ensures Exits(cfg, lp.blocks, p) ==> Exits(CompressCfg(cfg, lp.latch, p), lp.blocks - {lp.latch}, p)
    ensures PredecessorsBranch(cfg, p) && IsBranch(cfg[p].term) ==> PredecessorsBranch(CompressCfg(cfg, lp.latch, p), p)
  {
    StructuralLatchFacts(cfg, lp, p);
    var C := CompressCfg(cfg, lp.latch, p);
    var ts := TargetsOf(cfg, p);
    forall t
      ensures t in TargetsOf(C, p) <==> t == lp.header || (t in ts && t != lp.latch)
    {
      if t in ts && t != lp.latch {
        var i :| 0 <= i < |ts| && ts[i] == t;
        CompressedTargets(cfg, lp.latch, p, i);
      }
      if t == lp.header {
        var i :| 0 <= i < |ts| && ts[i] == lp.latch;
        CompressedTargets(cfg, lp.latch, p, i);
      }
      if t in TargetsOf(C, p) {
        var i :| 0 <= i < |ts| && TargetsOf(C, p)[i] == t;
        CompressedTargets(cfg, lp.latch, p, i);
      }
    }
    forall b | b in C && b != p
      ensures TargetsOf(C, b) == TargetsOf(cfg, b) && lp.latch !in TargetsOf(C, b)
    {
    }
  }

  /** A loop that is appropriate after compression was so before. */
  lemma CompressReflects(cfg: Cfg, lp: Loop, p: Label)
    requires ClosedCfg(cfg) && NaturalLoop(cfg, lp) && StructuralLatch(cfg, lp.latch, p)
    requires Appropriate(CompressCfg(cfg, lp.latch, p), lp.blocks - {lp.latch}, p)
    ensures Appropriate(cfg, lp.blocks, p)
  {
    StructuralLatchFacts(cfg, lp, p);
    var C := CompressCfg(cfg, lp.latch, p);
    forall b | b in cfg && b in lp.blocks && b != p && p in TargetsOf(cfg, b)
      ensures !Exits(cfg, lp.blocks, b)
    {
      if b != lp.latch {
        assert TargetsOf(C, b) == TargetsOf(cfg, b) && !Exits(C, lp.blocks - {lp.latch}, b);
      }
    }
  }

  // ----- step 2: split a single-block loop at its terminator -----

  function SplitCfg(cfg: Cfg, header: Label, newLatch: Label): Cfg
    requires header in cfg
  {
    cfg[header := Block(cfg[header].body, Br(newLatch))][newLatch := Block([], cfg[header].term)]
  }

  function SplitLoop(lp: Loop, newLatch: Label): Loop
  {
    lp.(latch := newLatch, blocks := lp.blocks + {newLatch})
  }

  lemma SplitClosed(cfg: Cfg, header: Label, newLatch: Label)
    requires ClosedCfg(cfg) && header in cfg && newLatch !in cfg
    ensures ClosedCfg(SplitCfg(cfg, header, newLatch))
  {
  }

  /** The split graph is the original one with the new latch as a silent block. */
  lemma SplitErases(M: Machine, cfg: Cfg, header: Label, newLatch: Label)
    requires ClosedCfg(cfg) && header in cfg && newLatch !in cfg
    ensures Erases(M, SplitCfg(cfg, header, newLatch), cfg, map[newLatch := 0], map[])
  {
    SplitClosed(cfg, header, newLatch);
    var S := SplitCfg(cfg, header, newLatch);
    var sil: Silent := map[newLatch := 0];
    assert Ranked(S, sil);
    forall l, s | l in S && l !in sil
      ensures RenameConfig(map[], Settle(M, S, sil, Step(M, S, At(l, s)))) == Step(M, cfg, At(l, s))
    {
      if l == header {
        var s' := RunBody(M, cfg[header].body, s);
        assert Step(M, S, At(header, s)) == At(newLatch, s');
        assert RunBody(M, S[newLatch].body, s') == s';
        assert Step(M, S, At(newLatch, s')) == Step(M, cfg, At(header, s));
      } else {
        assert Step(M, S, At(l, s)) == Step(M, cfg, At(l, s));
      }
    }
  }

  lemma SplitKeepsLoop(cfg: Cfg, lp: Loop, newLatch: Label)
    requires ClosedCfg(cfg) && NaturalLoop(cfg, lp) && lp.header == lp.latch && newLatch !in cfg
    ensures NaturalLoop(SplitCfg(cfg, lp.header, newLatch), SplitLoop(lp, newLatch))
    ensures Appropriate(SplitCfg(cfg, lp.header, newLatch), lp.blocks + {newLatch}, newLatch)
    ensures Exits(cfg, lp.blocks, lp.latch) ==>
              Exits(SplitCfg(cfg, lp.header, newLatch), lp.blocks + {newLatch}, newLatch)
    ensures PredecessorsBranch(SplitCfg(cfg, lp.header, newLatch), newLatch)
  {
    var S := SplitCfg(cfg, lp.header, newLatch);
    forall b | b in cfg && b != lp.header
      ensures TargetsOf(S, b) == TargetsOf(cfg, b) && newLatch !in TargetsOf(S, b)
    {
      assert forall i :: 0 <= i < |TargetsOf(cfg, b)| ==> TargetsOf(cfg, b)[i] in cfg;
    }
    assert TargetsOf(S, lp.header) == [newLatch];
    assert newLatch !in TargetsOf(S, newLatch) by {
      assert forall i :: 0 <= i < |TargetsOf(cfg, lp.header)| ==> TargetsOf(cfg, lp.header)[i] in cfg;
    }
    if t :| t in TargetsOf(cfg, lp.latch) && t !in lp.blocks {
      assert t in TargetsOf(S, newLatch) && t != newLatch;
    }
  }

  // ----- step 3: anchors, peeled copy, and rerouting to the new header -----

  /** The copy of a block before its operands are remapped to the peeled iteration. */
  function ClonedTerm(t: Terminator, b: Label, lp: Loop, n: Names): Terminator
  {
    if b == lp.latch then RetargetFirst(t, lp.header, n.bottom) else t
  }

  ghost predicate FreshNames(cfg: Cfg, lp: Loop, n: Names)
  {
    && n.peel.Keys == lp.blocks
    && n.top !in cfg && n.bottom !in cfg && n.newPreHeader !in cfg
    && n.top != n.bottom && n.bottom != n.newPreHeader && n.top != n.newPreHeader
    && n.top !in n.origin && n.bottom !in n.origin && n.newPreHeader !in n.origin
    && (forall b :: b in n.peel ==> n.peel[b] in n.origin && n.origin[n.peel[b]] == b)
    && (forall l :: l in n.origin ==> l !in cfg && n.origin[l] in n.peel && n.peel[n.origin[l]] == l)
  }

  ghost function Anchors(n: Names): Silent
  {
    map[n.top := 0, n.bottom := 1, n.newPreHeader := 0]
  }

  ghost predicate ReadyToPeel(cfg: Cfg, lp: Loop, n: Names)
  {
    ClosedCfg(cfg) && NaturalLoop(cfg, lp) && lp.header != lp.latch && FreshNames(cfg, lp, n)
  }

  ghost function PeeledBlock(cfg: Cfg, lp: Loop, n: Names, b: Label): Block
    requires b in cfg
  {
    Block(cfg[b].body, RemapTargets(ClonedTerm(cfg[b].term, b, lp, n), n.peel))
  }

  ghost function KeptBlock(cfg: Cfg, lp: Loop, n: Names, l: Label): Block
    requires l in cfg && lp.latch in n.peel
  {
    if l == lp.preHeader then Block(cfg[l].body, Br(n.top))
    else if IsBranch(cfg[l].term) then Block(cfg[l].body, RetargetAll(cfg[l].term, lp.latch, n.peel[lp.latch]))
    else cfg[l]
  }

  /** The whilified graph: anchors, peeled copies, and the old blocks with the latch gone. */
  ghost function WhilifyCfg(cfg: Cfg, lp: Loop, n: Names): Cfg
    requires ReadyToPeel(cfg, lp, n)
  {
    map l | l in cfg.Keys - {lp.latch} + n.origin.Keys + {n.top, n.bottom, n.newPreHeader} ::
      if l == n.top then Block([], Br(n.peel[lp.header]))
      else if l == n.bottom then Block([], Br(n.newPreHeader))
      else if l == n.newPreHeader then Block([], Br(lp.header))
      else if l in n.origin then PeeledBlock(cfg, lp, n, n.origin[l])
      else KeptBlock(cfg, lp, n, l)
  }

  /** The same, block by block. */
  ghost predicate IsWhilified(cfg: Cfg, lp: Loop, n: Names, W: Cfg)
    requires ReadyToPeel(cfg, lp, n)
  {
    && W.Keys == cfg.Keys - {lp.latch} + n.origin.Keys + {n.top, n.bottom, n.newPreHeader}
    && W[n.top] == Block([], Br(n.peel[lp.header]))
    && W[n.bottom] == Block([], Br(n.newPreHeader))
    && W[n.newPreHeader] == Block([], Br(lp.header))
    && (forall b {:trigger PeeledBlock(cfg, lp, n, b)} :: b in lp.blocks ==> W[n.peel[b]] == PeeledBlock(cfg, lp, n, b))
    && (forall l {:trigger KeptBlock(cfg, lp, n, l)} :: l in cfg && l != lp.latch ==> W[l] == KeptBlock(cfg, lp, n, l))
  }

  lemma WhilifyCfgIs(cfg: Cfg, lp: Loop, n: Names)
    requires ReadyToPeel(cfg, lp, n)
    ensures IsWhilified(cfg, lp, n, WhilifyCfg(cfg, lp, n))
  {
    var W := WhilifyCfg(cfg, lp, n);
    forall b {:trigger PeeledBlock(cfg, lp, n, b)} | b in lp.blocks
      ensures W[n.peel[b]] == PeeledBlock(cfg, lp, n, b)
    {
      assert n.origin[n.peel[b]] == b;
    }
    forall l {:trigger KeptBlock(cfg, lp, n, l)} | l in cfg && l != lp.latch
      ensures W[l] == KeptBlock(cfg, lp, n, l)
    {
      assert l !in n.origin;
    }
  }

  lemma AnchorsResolve(cfg: Cfg, lp: Loop, n: Names, W: Cfg)
    requires ReadyToPeel(cfg, lp, n) && IsWhilified(cfg, lp, n, W)
    ensures Ranked(W, Anchors(n)) && EmptyBlocks(W, Anchors(n))
    ensures Resolve(W, Anchors(n), n.top) == n.peel[lp.header]
    ensures Resolve(W, Anchors(n), n.bottom) == lp.header
    ensures Resolve(W, Anchors(n), n.newPreHeader) == lp.header
  {
    var sil := Anchors(n);
    assert n.peel[lp.header] !in sil && lp.header !in sil;
    assert Targets(W[n.top].term) == [n.peel[lp.header]] && Targets(W[n.bottom].term) == [n.newPreHeader]
           && Targets(W[n.newPreHeader].term) == [lp.header];
    assert Ranked(W, sil);
    assert Resolve(W, sil, n.newPreHeader) == lp.header;
  }

  /** A target of a peeled block leads, anchors skipped, to the copy of the original target or to the target itself. */
  lemma PeeledTarget(cfg: Cfg, lp: Loop, n: Names, W: Cfg, b: Label, i: int)
    requires ReadyToPeel(cfg, lp, n) && IsWhilified(cfg, lp, n, W)
    requires Ranked(W, Anchors(n)) && EmptyBlocks(W, Anchors(n))
    requires b in lp.blocks && 0 <= i < |TargetsOf(cfg, b)|
    ensures Targets(PeeledBlock(cfg, lp, n, b).term)[i] in W
    ensures Rename(n.origin, Resolve(W, Anchors(n), Targets(PeeledBlock(cfg, lp, n, b).term)[i])) == TargetsOf(cfg, b)[i]
  {
    AnchorsResolve(cfg, lp, n, W);
    var t := TargetsOf(cfg, b)[i];
    var u := Targets(ClonedTerm(cfg[b].term, b, lp, n))[i];
    var w := Targets(PeeledBlock(cfg, lp, n, b).term)[i];
    assert w == Rename(n.peel, u);
    assert t in cfg;
    if u == n.bottom {
      assert t == lp.header;
    } else {
      assert u == t;
      if t in n.peel {
      } else {
        assert t != lp.latch;
      }
    }
  }

  lemma KeptTarget(cfg: Cfg, lp: Loop, n: Names, W: Cfg, l: Label, i: int)
    requires ReadyToPeel(cfg, lp, n) && IsWhilified(cfg, lp, n, W)
    requires Ranked(W, Anchors(n)) && EmptyBlocks(W, Anchors(n))
    requires l in cfg && l != lp.latch && PredecessorsBranch(cfg, lp.latch) && 0 <= i < |TargetsOf(cfg, l)|
    ensures SameShape(KeptBlock(cfg, lp, n, l).term, cfg[l].term)
    ensures Targets(KeptBlock(cfg, lp, n, l).term)[i] in W
    ensures Rename(n.origin, Resolve(W, Anchors(n), Targets(KeptBlock(cfg, lp, n, l).term)[i])) == TargetsOf(cfg, l)[i]
  {
    AnchorsResolve(cfg, lp, n, W);
    var t := TargetsOf(cfg, l)[i];
    assert t in TargetsOf(cfg, l) && t in cfg && t !in n.origin;
  }

  lemma VisibleBlockErases(cfg: Cfg, lp: Loop, n: Names, W: Cfg, l: Label)
    requires ReadyToPeel(cfg, lp, n) && IsWhilified(cfg, lp, n, W) && PredecessorsBranch(cfg, lp.latch)
    requires Ranked(W, Anchors(n)) && EmptyBlocks(W, Anchors(n))
    requires l in W && l !in Anchors(n)
    ensures Rename(n.origin, l) in cfg && BlockErases(W, cfg, Anchors(n), n.origin, l)
    ensures forall i :: 0 <= i < |Targets(W[l].term)| ==> Targets(W[l].term)[i] in W
  {
    if l in n.origin {
      var b := n.origin[l];
      assert W[l] == PeeledBlock(cfg, lp, n, b);
      forall i | 0 <= i < |TargetsOf(cfg, b)|
        ensures Targets(W[l].term)[i] in W
        ensures Rename(n.origin, Resolve(W, Anchors(n), Targets(W[l].term)[i])) == TargetsOf(cfg, b)[i]
      {
        PeeledTarget(cfg, lp, n, W, b, i);
      }
    } else {
      assert l in cfg && l !in n.origin && W[l] == KeptBlock(cfg, lp, n, l);
      forall i | 0 <= i < |TargetsOf(cfg, l)|
        ensures SameShape(W[l].term, cfg[l].term) && Targets(W[l].term)[i] in W
        ensures Rename(n.origin, Resolve(W, Anchors(n), Targets(W[l].term)[i])) == TargetsOf(cfg, l)[i]
      {
        KeptTarget(cfg, lp, n, W, l, i);
      }
    }
  }

  /** The whilified graph is the graph before it with the anchors as silent blocks and the peeled
      blocks as copies of their originals. */
  lemma WhilifyErases(cfg: Cfg, lp: Loop, n: Names)
    requires ReadyToPeel(cfg, lp, n) && PredecessorsBranch(cfg, lp.latch)
    ensures ErasesText(WhilifyCfg(cfg, lp, n), cfg, Anchors(n), n.origin)
  {
    WhilifyCfgIs(cfg, lp, n);
    IsWhilifiedErases(cfg, lp, n, WhilifyCfg(cfg, lp, n));
  }

  /** Every target of a visible block exists, ... */
  lemma WhilifiedIsClosed(cfg: Cfg, lp: Loop, n: Names, W: Cfg)
    requires ReadyToPeel(cfg, lp, n) && PredecessorsBranch(cfg, lp.latch) && IsWhilified(cfg, lp, n, W)
    ensures ClosedCfg(W)
  {
    AnchorsResolve(cfg, lp, n, W);
    forall l | l in W && l !in Anchors(n)
      ensures forall i :: 0 <= i < |Targets(W[l].term)| ==> Targets(W[l].term)[i] in W
    {
      VisibleBlockErases(cfg, lp, n, W, l);
    }
    assert lp.header in n.peel && n.peel[lp.header] in n.origin.Keys;
  }

  /** ... and every visible block does what its original does. */
  lemma IsWhilifiedErases(cfg: Cfg, lp: Loop, n: Names, W: Cfg)
    requires ReadyToPeel(cfg, lp, n) && PredecessorsBranch(cfg, lp.latch) && IsWhilified(cfg, lp, n, W)
    ensures ErasesText(W, cfg, Anchors(n), n.origin)
  {
    AnchorsResolve(cfg, lp, n, W);
    WhilifiedIsClosed(cfg, lp, n, W);
    forall l | l in W && l !in Anchors(n)
      ensures Rename(n.origin, l) in cfg && BlockErases(W, cfg, Anchors(n), n.origin, l)
    {
      VisibleBlockErases(cfg, lp, n, W, l);
    }
  }

  /** A latch predecessor that does not end in a branch is not rerouted and is left dangling:
      the new graph is closed exactly when all of them do. */
  lemma WhilifiedClosedIff(cfg: Cfg, lp: Loop, n: Names)
    requires ReadyToPeel(cfg, lp, n) && IsBranch(cfg[lp.latch].term)
    ensures ClosedCfg(WhilifyCfg(cfg, lp, n)) <==> PredecessorsBranch(cfg, lp.latch)
  {
    if PredecessorsBranch(cfg, lp.latch) {
      WhilifyErases(cfg, lp, n);
    } else {
      WhilifyCfgIs(cfg, lp, n);
      DanglingPredecessor(cfg, lp, n, WhilifyCfg(cfg, lp, n));
    }
  }

  lemma DanglingPredecessor(cfg: Cfg, lp: Loop, n: Names, W: Cfg)
    requires ReadyToPeel(cfg, lp, n) && IsBranch(cfg[lp.latch].term) && IsWhilified(cfg, lp, n, W)
    requires !PredecessorsBranch(cfg, lp.latch)
    ensures !ClosedCfg(W)
  {
    var b :| b in cfg && lp.latch in TargetsOf(cfg, b) && !IsBranch(cfg[b].term);
    assert W[b] == KeptBlock(cfg, lp, n, b) == cfg[b];
    var i :| 0 <= i < |TargetsOf(cfg, b)| && TargetsOf(cfg, b)[i] == lp.latch;
    assert Targets(W[b].term)[i] !in W;
  }

  /** 0: br 1.  1: switch to 2.  2: an instruction, then back to 1 or out to 3.  3: return. */
  function SwitchLoopCfg(): Cfg
  {
    map[0 := Block([], Br(1)), 1 := Block([], Switch(0, [2])), 2 := Block([0], CondBr(0, 1, 3)), 3 := Block([], Ret)]
  }

  function SwitchLoop(): Loop
  {
    Loop(1, 0, 2, {1, 2})
  }

  function SwitchLoopNames(): Names
  {
    Names(4, 5, 6, map[1 := 7, 2 := 8], map[7 := 1, 8 := 2])
  }

  /** An accepted loop whose latch is entered by a switch: its whilified graph has a dangling target. */
  lemma SwitchIntoLatchDangles()
    ensures NaturalLoop(SwitchLoopCfg(), SwitchLoop()) && Accepted(SwitchLoopCfg(), SwitchLoop(), None)
    ensures forall p :: !StructuralLatch(SwitchLoopCfg(), SwitchLoop().latch, p)
    ensures ReadyToPeel(SwitchLoopCfg(), SwitchLoop(), SwitchLoopNames())
    ensures !ClosedCfg(WhilifyCfg(SwitchLoopCfg(), SwitchLoop(), SwitchLoopNames()))
  {
    SwitchLoopIsNatural(SwitchLoopCfg(), SwitchLoop());
    SwitchNamesAreFresh(SwitchLoopCfg(), SwitchLoop(), SwitchLoopNames());
    SwitchIsNoBranch(SwitchLoopCfg(), SwitchLoop());
    WhilifiedClosedIff(SwitchLoopCfg(), SwitchLoop(), SwitchLoopNames());
  }

  lemma SwitchNamesAreFresh(cfg: Cfg, lp: Loop, n: Names)
    requires cfg == SwitchLoopCfg() && lp == SwitchLoop() && n == SwitchLoopNames()
    ensures FreshNames(cfg, lp, n)
  {
  }

  lemma SwitchIsNoBranch(cfg: Cfg, lp: Loop)
    requires cfg == SwitchLoopCfg() && lp == SwitchLoop()
    ensures 2 in cfg && IsBranch(cfg[2].term) && Exits(cfg, lp.blocks, 2) && !PredecessorsBranch(cfg, 2) && cfg[2].body != []
  {
    assert 3 in TargetsOf(cfg, 2);
    assert 2 in TargetsOf(cfg, 1);
  }

  lemma SwitchLoopIsNatural(cfg: Cfg, lp: Loop)
    requires cfg == SwitchLoopCfg() && lp == SwitchLoop()
    ensures ClosedCfg(cfg) && NaturalLoop(cfg, lp) && Appropriate(cfg, lp.blocks, lp.latch)
  {
    assert TargetsOf(cfg, 0) == [1] && TargetsOf(cfg, 1) == [2] && TargetsOf(cfg, 2) == [1, 3] && TargetsOf(cfg, 3) == [];
  }

  // ----- the shape of the new loop -----

  ghost function NewLoopBlocks(lp: Loop, n: Names): set<Label>
    requires lp.latch in n.peel
  {
    lp.blocks - {lp.latch} + {n.peel[lp.latch], n.bottom, n.newPreHeader}
  }

  /** The new loop is a while loop: it is entered only at its header, the header exits it, and no
      block that returns to the header does. */
  ghost predicate WhileLoop(cfg: Cfg, blocks: set<Label>, header: Label)
  {
    && blocks <= cfg.Keys && header in blocks && Exits(cfg, blocks, header)
    && (forall a, t :: a in cfg && a !in blocks && t in TargetsOf(cfg, a) && t in blocks ==> t == header)
    && (forall b :: b in blocks && header in TargetsOf(cfg, b) ==> !Exits(cfg, blocks, b))
  }

  lemma NewLoopIsWhile(cfg: Cfg, lp: Loop, n: Names)
    requires ReadyToPeel(cfg, lp, n) && PredecessorsBranch(cfg, lp.latch) && IsBranch(cfg[lp.latch].term)
    requires Exits(cfg, lp.blocks, lp.latch) && Appropriate(cfg, lp.blocks, lp.latch)
    ensures WhileLoop(WhilifyCfg(cfg, lp, n), NewLoopBlocks(lp, n), n.peel[lp.latch])
  {
    WhilifyCfgIs(cfg, lp, n);
    IsWhilifiedIsWhile(cfg, lp, n, WhilifyCfg(cfg, lp, n));
  }

  lemma IsWhilifiedIsWhile(cfg: Cfg, lp: Loop, n: Names, W: Cfg)
    requires ReadyToPeel(cfg, lp, n) && PredecessorsBranch(cfg, lp.latch) && IsBranch(cfg[lp.latch].term)
    requires Exits(cfg, lp.blocks, lp.latch) && Appropriate(cfg, lp.blocks, lp.latch)
    requires IsWhilified(cfg, lp, n, W)
    ensures WhileLoop(W, NewLoopBlocks(lp, n), n.peel[lp.latch])
  {
    NewHeaderExits(cfg, lp, n, W);
    forall a, t | a in W && a !in NewLoopBlocks(lp, n) && t in TargetsOf(W, a) && t in NewLoopBlocks(lp, n)
      ensures t == n.peel[lp.latch]
    {
      NewLoopEntry(cfg, lp, n, W, a, t);
    }
    forall b | b in NewLoopBlocks(lp, n) && n.peel[lp.latch] in TargetsOf(W, b)
      ensures !Exits(W, NewLoopBlocks(lp, n), b)
    {
      NewLatchStays(cfg, lp, n, W, b);
    }
  }

  /** What a peeled target is: the copy of the original target, or the bottom anchor on the back edge. */
  lemma PeeledTargetIs(cfg: Cfg, lp: Loop, n: Names, b: Label, i: int)
    requires b in cfg && 0 <= i < |TargetsOf(cfg, b)|
    ensures |Targets(PeeledBlock(cfg, lp, n, b).term)| == |TargetsOf(cfg, b)|
    ensures var t := TargetsOf(cfg, b)[i];
            var w := Targets(PeeledBlock(cfg, lp, n, b).term)[i];
            w == Rename(n.peel, t) || (b == lp.latch && t == lp.header && w == Rename(n.peel, n.bottom))
  {
    var u := Targets(ClonedTerm(cfg[b].term, b, lp, n))[i];
  }

  lemma NewHeaderExits(cfg: Cfg, lp: Loop, n: Names, W: Cfg)
    requires ReadyToPeel(cfg, lp, n) && IsWhilified(cfg, lp, n, W) && Exits(cfg, lp.blocks, lp.latch)
    ensures Exits(W, NewLoopBlocks(lp, n), n.peel[lp.latch])
  {
    var ts := TargetsOf(cfg, lp.latch);
    var t :| t in ts && t !in lp.blocks;
    var i :| 0 <= i < |ts| && ts[i] == t;
    PeeledTargetIs(cfg, lp, n, lp.latch, i);
    OutsideStaysOutside(cfg, lp, n, t);
    assert W[n.peel[lp.latch]] == PeeledBlock(cfg, lp, n, lp.latch);
    assert TargetsOf(W, n.peel[lp.latch])[i] == t;
  }

  lemma OutsideStaysOutside(cfg: Cfg, lp: Loop, n: Names, t: Label)
    requires ReadyToPeel(cfg, lp, n) && t in cfg && t !in lp.blocks
    ensures t !in NewLoopBlocks(lp, n) && Rename(n.peel, t) == t
  {
  }

  lemma NewLoopEntry(cfg: Cfg, lp: Loop, n: Names, W: Cfg, a: Label, t: Label)
    requires ReadyToPeel(cfg, lp, n) && IsWhilified(cfg, lp, n, W)
    requires a in W && a !in NewLoopBlocks(lp, n) && t in TargetsOf(W, a) && t in NewLoopBlocks(lp, n)
    ensures t == n.peel[lp.latch]
  {
    var i :| 0 <= i < |TargetsOf(W, a)| && TargetsOf(W, a)[i] == t;
    if a == n.top {
    } else if a in n.origin {
      var b := n.origin[a];
      assert b != lp.latch && W[a] == PeeledBlock(cfg, lp, n, b);
      var u := TargetsOf(cfg, b)[i];
      assert u in cfg && t == Rename(n.peel, u);
    } else {
      assert a in cfg && a !in lp.blocks && W[a] == KeptBlock(cfg, lp, n, a);
      if a != lp.preHeader {
        var u := TargetsOf(cfg, a)[i];
        assert u in TargetsOf(cfg, a) && u in cfg && u !in lp.blocks;
      }
    }
  }

  lemma NewLatchStays(cfg: Cfg, lp: Loop, n: Names, W: Cfg, b: Label)
    requires ReadyToPeel(cfg, lp, n) && IsWhilified(cfg, lp, n, W)
    requires PredecessorsBranch(cfg, lp.latch) && IsBranch(cfg[lp.latch].term)
    requires Exits(cfg, lp.blocks, lp.latch) && Appropriate(cfg, lp.blocks, lp.latch)
    requires b in NewLoopBlocks(lp, n) && n.peel[lp.latch] in TargetsOf(W, b)
    ensures !Exits(W, NewLoopBlocks(lp, n), b)
  {
    var i :| 0 <= i < |TargetsOf(W, b)| && TargetsOf(W, b)[i] == n.peel[lp.latch];
    if b == n.peel[lp.latch] {
      NewHeaderHasNoSelfEdge(cfg, lp, n, W, i);
    } else {
      assert b in lp.blocks && b != lp.latch && W[b] == KeptBlock(cfg, lp, n, b);
      assert TargetsOf(cfg, b)[i] in cfg;
      KeptTargetsStay(cfg, lp, n, W, b);
    }
  }

  lemma NewHeaderHasNoSelfEdge(cfg: Cfg, lp: Loop, n: Names, W: Cfg, i: int)
    requires ReadyToPeel(cfg, lp, n) && IsWhilified(cfg, lp, n, W)
    requires IsBranch(cfg[lp.latch].term) && Exits(cfg, lp.blocks, lp.latch)
    requires 0 <= i < |TargetsOf(W, n.peel[lp.latch])|
    ensures TargetsOf(W, n.peel[lp.latch])[i] != n.peel[lp.latch]
  {
    LatchHasNoSelfEdge(cfg, lp);
    assert W[n.peel[lp.latch]] == PeeledBlock(cfg, lp, n, lp.latch);
    assert |Targets(PeeledBlock(cfg, lp, n, lp.latch).term)| == |TargetsOf(cfg, lp.latch)|;
    PeeledTargetIs(cfg, lp, n, lp.latch, i);
    assert TargetsOf(cfg, lp.latch)[i] in TargetsOf(cfg, lp.latch);
    assert TargetsOf(cfg, lp.latch)[i] in cfg;
  }

  lemma KeptTargetsStay(cfg: Cfg, lp: Loop, n: Names, W: Cfg, b: Label)
    requires ReadyToPeel(cfg, lp, n) && IsWhilified(cfg, lp, n, W)
    requires PredecessorsBranch(cfg, lp.latch) && Appropriate(cfg, lp.blocks, lp.latch)
    requires b in lp.blocks && b != lp.latch && lp.latch in TargetsOf(cfg, b)
    ensures !Exits(W, NewLoopBlocks(lp, n), b)
  {
    assert W[b] == KeptBlock(cfg, lp, n, b);
    forall t | t in TargetsOf(W, b) ensures t in NewLoopBlocks(lp, n) {
      var j :| 0 <= j < |TargetsOf(W, b)| && TargetsOf(W, b)[j] == t;
      assert TargetsOf(cfg, b)[j] in TargetsOf(cfg, b);
    }
  }

  /** A branching latch that returns to the header and leaves the loop has no target left for itself. */
  lemma LatchHasNoSelfEdge(cfg: Cfg, lp: Loop)
    requires ClosedCfg(cfg) && NaturalLoop(cfg, lp) && lp.header != lp.latch
    requires IsBranch(cfg[lp.latch].term) && Exits(cfg, lp.blocks, lp.latch)
    ensures lp.latch !in TargetsOf(cfg, lp.latch)
  {
    assert lp.header in TargetsOf(cfg, lp.latch);
  }

  /** A block that enters the latch and leaves the loop also enters the new header and leaves the new loop. */
  lemma ExitingPredecessorStays(cfg: Cfg, lp: Loop, n: Names, W: Cfg, b: Label)
    requires ReadyToPeel(cfg, lp, n) && IsWhilified(cfg, lp, n, W) && PredecessorsBranch(cfg, lp.latch)
    requires b in lp.blocks && b != lp.latch && lp.latch in TargetsOf(cfg, b) && Exits(cfg, lp.blocks, b)
    ensures b in NewLoopBlocks(lp, n) && n.peel[lp.latch] in TargetsOf(W, b) && Exits(W, NewLoopBlocks(lp, n), b)
  {
    assert W[b] == KeptBlock(cfg, lp, n, b);
    var i :| 0 <= i < |TargetsOf(cfg, b)| && TargetsOf(cfg, b)[i] == lp.latch;
    assert TargetsOf(W, b)[i] == n.peel[lp.latch];
    var t :| t in TargetsOf(cfg, b) && t !in lp.blocks;
    var j :| 0 <= j < |TargetsOf(cfg, b)| && TargetsOf(cfg, b)[j] == t;
    assert TargetsOf(cfg, b)[j] in cfg;
    OutsideStaysOutside(cfg, lp, n, t);
    assert TargetsOf(W, b)[j] == t;
  }

  /** For a loop whose latch branches and leaves: the new loop is a while loop if and only if no other block
      that enters the latch leaves the loop. */
  lemma NewLoopIsWhileIff(cfg: Cfg, lp: Loop, n: Names)
    requires ReadyToPeel(cfg, lp, n) && PredecessorsBranch(cfg, lp.latch) && IsBranch(cfg[lp.latch].term)
    requires Exits(cfg, lp.blocks, lp.latch)
    ensures WhileLoop(WhilifyCfg(cfg, lp, n), NewLoopBlocks(lp, n), n.peel[lp.latch]) <==>
            forall b :: b in lp.blocks && b != lp.latch && lp.latch in TargetsOf(cfg, b) ==> forall t :: t in TargetsOf(cfg, b) ==> t in lp.blocks
  {
    if Appropriate(cfg, lp.blocks, lp.latch) {
      NewLoopIsWhile(cfg, lp, n);
    } else {
      WhilifyCfgIs(cfg, lp, n);
      var b :| b in cfg && b in lp.blocks && b != lp.latch && lp.latch in TargetsOf(cfg, b) && Exits(cfg, lp.blocks, b);
      ExitingPredecessorStays(cfg, lp, n, WhilifyCfg(cfg, lp, n), b);
    }
  }

  // ----- the whole transformation -----

  /** The latch that decides whether to leave: the predecessor of a structural latch, or the latch itself. */
  ghost function SemanticLatch(lp: Loop, p: Option<Label>): Label
  {
    if p.Some? then p.value else lp.latch
  }

  ghost predicate Accepted(cfg: Cfg, lp: Loop, p: Option<Label>)
    requires NaturalLoop(cfg, lp)
  {
    var q := SemanticLatch(lp, p);
    q in cfg && Exits(cfg, lp.blocks, q) && Appropriate(cfg, lp.blocks, q)
  }

  ghost function CompressedCfg(cfg: Cfg, lp: Loop, p: Option<Label>): Cfg
    requires p.Some? ==> StructuralLatch(cfg, lp.latch, p.value)
  {
    if p.Some? then CompressCfg(cfg, lp.latch, p.value) else cfg
  }

  ghost function CompressedLoop(lp: Loop, p: Option<Label>): Loop
  {
    if p.Some? then CompressLoop(lp, p.value) else lp
  }

  function SplitIfSingle(cfg: Cfg, lp: Loop, newLatch: Label): Cfg
    requires lp.header in cfg
  {
    if lp.header == lp.latch then SplitCfg(cfg, lp.header, newLatch) else cfg
  }

  function SplitLoopIfSingle(lp: Loop, newLatch: Label): Loop
  {
    if lp.header == lp.latch then SplitLoop(lp, newLatch) else lp
  }

  /** The block that compression removes. */
  function SilentLatch(lp: Loop, p: Option<Label>): Silent
  {
    if p.Some? then map[lp.latch := 0] else map[]
  }

  /** The block that splitting a single-block loop adds. */
  function SilentSplit(lc: Loop, newLatch: Label): Silent
  {
    if lc.header == lc.latch then map[newLatch := 0] else map[]
  }

  lemma CompressedReady(cfg: Cfg, lp: Loop, p: Option<Label>)
    requires ClosedCfg(cfg) && NaturalLoop(cfg, lp) && (p.Some? ==> StructuralLatch(cfg, lp.latch, p.value))
    requires SemanticLatch(lp, p) in cfg && Exits(cfg, lp.blocks, SemanticLatch(lp, p)) && IsBranch(cfg[SemanticLatch(lp, p)].term)
    ensures var C, lc := CompressedCfg(cfg, lp, p), CompressedLoop(lp, p);
            ClosedCfg(C) && NaturalLoop(C, lc) && C.Keys <= cfg.Keys
            && Exits(C, lc.blocks, lc.latch) && IsBranch(C[lc.latch].term)
            && (Accepted(cfg, lp, p) <==> Appropriate(C, lc.blocks, lc.latch))
            && (PredecessorsBranch(cfg, SemanticLatch(lp, p)) ==> PredecessorsBranch(C, lc.latch))
    ensures ErasesAlways(cfg, CompressedCfg(cfg, lp, p), SilentLatch(lp, p), map[])
  {
    CompressedErases(cfg, lp, p);
    if p.Some? {
      CompressReady(cfg, lp, p.value);
    }
  }

  lemma CompressedErases(cfg: Cfg, lp: Loop, p: Option<Label>)
    requires ClosedCfg(cfg) && NaturalLoop(cfg, lp) && (p.Some? ==> StructuralLatch(cfg, lp.latch, p.value))
    ensures ErasesAlways(cfg, CompressedCfg(cfg, lp, p), SilentLatch(lp, p), map[])
  {
    if p.Some? {
      CompressErases(cfg, lp, p.value);
      ErasesTextErases(cfg, CompressCfg(cfg, lp.latch, p.value), map[lp.latch := 0], map[]);
    } else {
      ErasesSelf(cfg);
    }
  }

  lemma CompressReady(cfg: Cfg, lp: Loop, p: Label)
    requires ClosedCfg(cfg) && NaturalLoop(cfg, lp) && StructuralLatch(cfg, lp.latch, p)
    requires Exits(cfg, lp.blocks, p) && IsBranch(cfg[p].term)
    ensures var C, lc := CompressCfg(cfg, lp.latch, p), CompressLoop(lp, p);
            ClosedCfg(C) && NaturalLoop(C, lc) && C.Keys <= cfg.Keys
            && Exits(C, lc.blocks, lc.latch) && IsBranch(C[lc.latch].term)
            && (Appropriate(cfg, lp.blocks, p) <==> Appropriate(C, lc.blocks, lc.latch))
            && (PredecessorsBranch(cfg, p) ==> PredecessorsBranch(C, lc.latch))
  {
    StructuralLatchFacts(cfg, lp, p);
    CompressStaysClosed(cfg, lp, p);
    CompressKeepsLoop(cfg, lp, p);
    if Appropriate(CompressCfg(cfg, lp.latch, p), lp.blocks - {lp.latch}, p) {
      CompressReflects(cfg, lp, p);
    }
  }

  lemma SplitReady(C: Cfg, lc: Loop, newLatch: Label)
    requires ClosedCfg(C) && NaturalLoop(C, lc) && newLatch !in C
    requires Exits(C, lc.blocks, lc.latch) && IsBranch(C[lc.latch].term)
    ensures var S, ls := SplitIfSingle(C, lc, newLatch), SplitLoopIfSingle(lc, newLatch);
            ClosedCfg(S) && NaturalLoop(S, ls) && ls.header != ls.latch
            && Exits(S, ls.blocks, ls.latch) && IsBranch(S[ls.latch].term)
            && (Appropriate(C, lc.blocks, lc.latch) <==> Appropriate(S, ls.blocks, ls.latch))
            && (PredecessorsBranch(C, lc.latch) ==> PredecessorsBranch(S, ls.latch))
    ensures ErasesAlways(SplitIfSingle(C, lc, newLatch), C, SilentSplit(lc, newLatch), map[])
  {
    if lc.header == lc.latch {
      SplitKeepsLoop(C, lc, newLatch);
      forall M ensures Erases(M, SplitCfg(C, lc.header, newLatch), C, map[newLatch := 0], map[]) {
        SplitErases(M, C, lc.header, newLatch);
      }
      SplitClosed(C, lc.header, newLatch);
    } else {
      ErasesSelf(C);
    }
  }

  /** Whilification preserves meaning: seen without the anchors, the compressed or split-off latch, and
      with peeled blocks taken for their originals, the two graphs have the same runs from every block
      outside the change; and the new loop is a while loop. */
  lemma WhilifyPreservesRuns(cfg: Cfg, lp: Loop, p: Option<Label>, newLatch: Label, n: Names)
    requires ClosedCfg(cfg) && NaturalLoop(cfg, lp) && (p.Some? ==> StructuralLatch(cfg, lp.latch, p.value))
    requires Accepted(cfg, lp, p) && IsBranch(cfg[SemanticLatch(lp, p)].term) && newLatch !in cfg
    requires var C, lc := CompressedCfg(cfg, lp, p), CompressedLoop(lp, p);
             lc.header in C && FreshNames(SplitIfSingle(C, lc, newLatch), SplitLoopIfSingle(lc, newLatch), n)
             && PredecessorsBranch(SplitIfSingle(C, lc, newLatch), SplitLoopIfSingle(lc, newLatch).latch)
    ensures var C, lc := CompressedCfg(cfg, lp, p), CompressedLoop(lp, p);
            var S, ls := SplitIfSingle(C, lc, newLatch), SplitLoopIfSingle(lc, newLatch);
            ReadyToPeel(S, ls, n)
            && SameRuns(cfg, SilentLatch(lp, p), WhilifyCfg(S, ls, n), Anchors(n), n.origin, SilentSplit(lc, newLatch))
            && WhileLoop(WhilifyCfg(S, ls, n), NewLoopBlocks(ls, n), n.peel[ls.latch])
  {
    CompressedReady(cfg, lp, p);
    var C, lc := CompressedCfg(cfg, lp, p), CompressedLoop(lp, p);
    SplitReady(C, lc, newLatch);
    var S, ls := SplitIfSingle(C, lc, newLatch), SplitLoopIfSingle(lc, newLatch);
    PeelPreservesRuns(cfg, C, SilentLatch(lp, p), SilentSplit(lc, newLatch), S, ls, n);
  }

  /** Acceptance is exact: for a loop whose semantic latch branches and leaves it, the whilified loop is a while
      loop if and only if the loop is accepted. */
  lemma WhileLoopIffAccepted(cfg: Cfg, lp: Loop, p: Option<Label>, newLatch: Label, n: Names)
    requires ClosedCfg(cfg) && NaturalLoop(cfg, lp) && (p.Some? ==> StructuralLatch(cfg, lp.latch, p.value)) && newLatch !in cfg
    requires SemanticLatch(lp, p) in cfg && Exits(cfg, lp.blocks, SemanticLatch(lp, p)) && IsBranch(cfg[SemanticLatch(lp, p)].term)
    requires var C, lc := CompressedCfg(cfg, lp, p), CompressedLoop(lp, p);
             lc.header in C && FreshNames(SplitIfSingle(C, lc, newLatch), SplitLoopIfSingle(lc, newLatch), n)
             && PredecessorsBranch(SplitIfSingle(C, lc, newLatch), SplitLoopIfSingle(lc, newLatch).latch)
    ensures var C, lc := CompressedCfg(cfg, lp, p), CompressedLoop(lp, p);
            var S, ls := SplitIfSingle(C, lc, newLatch), SplitLoopIfSingle(lc, newLatch);
            ReadyToPeel(S, ls, n)
            && (WhileLoop(WhilifyCfg(S, ls, n), NewLoopBlocks(ls, n), n.peel[ls.latch]) <==> Accepted(cfg, lp, p))
  {
    CompressedReady(cfg, lp, p);
    var C, lc := CompressedCfg(cfg, lp, p), CompressedLoop(lp, p);
    SplitReady(C, lc, newLatch);
    var S, ls := SplitIfSingle(C, lc, newLatch), SplitLoopIfSingle(lc, newLatch);
    NewLoopIsWhileIff(S, ls, n);
    SpelledAppropriate(S, ls);
  }

  lemma SpelledAppropriate(cfg: Cfg, lp: Loop)
    requires NaturalLoop(cfg, lp)
    ensures Appropriate(cfg, lp.blocks, lp.latch) <==>
            forall b :: b in lp.blocks && b != lp.latch && lp.latch in TargetsOf(cfg, b) ==> forall t :: t in TargetsOf(cfg, b) ==> t in lp.blocks
  {
  }

  lemma PeelPreservesRuns(O: Cfg, C: Cfg, silO: Silent, silS: Silent, S: Cfg, ls: Loop, n: Names)
    requires ReadyToPeel(S, ls, n) && PredecessorsBranch(S, ls.latch) && IsBranch(S[ls.latch].term)
    requires Exits(S, ls.blocks, ls.latch) && Appropriate(S, ls.blocks, ls.latch)
    requires ErasesAlways(O, C, silO, map[]) && ErasesAlways(S, C, silS, map[])
    ensures SameRuns(O, silO, WhilifyCfg(S, ls, n), Anchors(n), n.origin, silS)
    ensures WhileLoop(WhilifyCfg(S, ls, n), NewLoopBlocks(ls, n), n.peel[ls.latch])
  {
    WhilifyErases(S, ls, n);
    ErasedTextSameRuns(O, C, S, WhilifyCfg(S, ls, n), silO, silS, Anchors(n), n.origin);
    NewLoopIsWhile(S, ls, n);
  }

  lemma ErasedTextSameRuns(O: Cfg, C: Cfg, S: Cfg, W: Cfg, silO: Silent, silS: Silent, silW: Silent, p: map<Label, Label>)
    requires ErasesAlways(O, C, silO, map[]) && ErasesAlways(S, C, silS, map[]) && ErasesText(W, S, silW, p)
    ensures SameRuns(O, silO, W, silW, p, silS)
  {
    ErasesTextErases(W, S, silW, p);
    ErasedGraphsSameRuns(O, C, S, W, silO, silS, silW, p);
  }
}
