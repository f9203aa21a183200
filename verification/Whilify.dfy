/** The loop whilifier: it rewrites the blocks of a function in place, step by step. */
module Whilify {
  import opened ControlFlow
  import opened Options
  import opened WhilifySpec

  /** What the loop analysis reports about a loop. */
  datatype LoopStructure = LoopStructure(
    header: Label,
    preHeader: Option<Label>,
    latches: seq<Label>,
    exitEdges: seq<(Label, Label)>,
    blocks: seq<Label>)

  ghost function SetOf(s: seq<Label>): set<Label>
  {
    set l | l in s
  }

  ghost predicate Distinct(s: seq<Label>)
  {
    forall i, j :: 0 <= i < j < |s| ==> s[i] != s[j]
  }

  ghost function LoopOf(ls: LoopStructure): Loop
    requires ls.preHeader.Some? && ls.latches != []
  {
    Loop(ls.header, ls.preHeader.value, ls.latches[0], SetOf(ls.blocks))
  }

  ghost predicate WellFormedLoop(cfg: Cfg, ls: LoopStructure)
  {
    && ClosedCfg(cfg)
    && Distinct(ls.blocks) && ls.header in ls.blocks && SetOf(ls.blocks) <= cfg.Keys && ls.latches != []
    && (forall a, t :: (a, t) in ls.exitEdges <==> a in ls.blocks && t !in ls.blocks && a in cfg && t in TargetsOf(cfg, a))
    && (ls.preHeader.Some? && |ls.latches| == 1 ==> NaturalLoop(cfg, LoopOf(ls)))
  }

  /** The block that a structural latch is compressed into, if the latch is structural. */
  ghost function LatchPredecessor(cfg: Cfg, latch: Label): Option<Label>
  {
    if p :| StructuralLatch(cfg, latch, p) then Some(p) else None
  }

  /** A latch is compressed into a block that ends in a branch: the terminator is taken for one. */
  ghost predicate CompressesBranch(cfg: Cfg, p: Option<Label>)
  {
    p.Some? ==> p.value in cfg && IsBranch(cfg[p.value].term)
  }

  class CfgFunction {
    var blocks: Cfg
    var nextLabel: Label

    ghost predicate Allocates()
      reads this
    {
      forall l :: l in blocks ==> l < nextLabel
    }
  }

  class WhilifierContext {
    var OriginalHeader: Label
    var OriginalPreHeader: Option<Label>
    var OriginalLatch: Label
    var NumLatches: nat
    var ExitEdges: seq<(Label, Label)>
    var LoopBlocks: seq<Label>
    var TopAnchor: Label
    var BottomAnchor: Label
    var BodyToPeelMap: map<Label, Label>
    ghost var PeelToBodyMap: map<Label, Label>
    var NewBlocks: seq<Label>

    constructor (ls: LoopStructure)
      requires ls.latches != []
      ensures OriginalHeader == ls.header && OriginalPreHeader == ls.preHeader && OriginalLatch == ls.latches[0]
      ensures NumLatches == |ls.latches| && ExitEdges == ls.exitEdges && LoopBlocks == ls.blocks
    {
      OriginalHeader, OriginalPreHeader := ls.header, ls.preHeader;
      OriginalLatch, NumLatches := ls.latches[0], |ls.latches|;
      ExitEdges, LoopBlocks := ls.exitEdges, ls.blocks;
      TopAnchor, BottomAnchor := ls.header, ls.header;
      BodyToPeelMap, PeelToBodyMap, NewBlocks := map[], map[], [];
    }

    ghost function LoopView(): Loop
      reads this
      requires OriginalPreHeader.Some?
    {
      Loop(OriginalHeader, OriginalPreHeader.value, OriginalLatch, SetOf(LoopBlocks))
    }
  }

  // ----- analysis -----

  method AtMostOnce(ts: seq<Label>, l: Label) returns (single: bool)
    ensures single <==> forall i, j :: 0 <= i < j < |ts| && ts[i] == l ==> ts[j] != l
  {
    var seen := false;
    for k := 0 to |ts|
      invariant seen <==> exists i :: 0 <= i < k && ts[i] == l
      invariant forall i, j :: 0 <= i < j < k && ts[i] == l ==> ts[j] != l
    {
      if ts[k] == l {
        if seen {
          return false;
        }
        seen := true;
      }
    }
    single := true;
  }

  /** The only edge into a block, if there is exactly one. */
  method GetSinglePredecessor(F: CfgFunction, l: Label) returns (pred: Option<Label>)
    ensures pred.Some? <==> exists p :: SinglePredecessor(F.blocks, l, p)
    ensures pred.Some? ==> SinglePredecessor(F.blocks, l, pred.value)
  {
    var preds := set q | q in F.blocks && l in TargetsOf(F.blocks, q);
    assert forall q :: SinglePredecessor(F.blocks, l, q) ==> q in preds;
    if preds == {} {
      return None;
    }
    var p :| p in preds;
    if preds != {p} {
      return None;
    }
    var single := AtMostOnce(TargetsOf(F.blocks, p), l);
    if !single {
      return None;
    }
    forall q | q in F.blocks && l in TargetsOf(F.blocks, q) ensures q == p {
      assert q in preds;
    }
    assert SinglePredecessor(F.blocks, l, p);
    pred := Some(p);
  }

  /** The i-th target of p is l. */
  predicate EntersAt(cfg: Cfg, p: Label, i: nat, l: Label)
  {
    p in cfg && i < |Targets(cfg[p].term)| && Targets(cfg[p].term)[i] == l
  }

  /** A single predecessor is the source of the only edge. */
  lemma SinglePredecessorIff(cfg: Cfg, l: Label)
    ensures (exists p :: SinglePredecessor(cfg, l, p)) <==>
            exists p: Label, i: nat :: EntersAt(cfg, p, i, l) && forall q: Label, j: nat :: EntersAt(cfg, q, j, l) ==> q == p && j == i
  {
    if p :| SinglePredecessor(cfg, l, p) {
      var i :| 0 <= i < |TargetsOf(cfg, p)| && TargetsOf(cfg, p)[i] == l;
      assert EntersAt(cfg, p, i, l);
      forall q: Label, j: nat | EntersAt(cfg, q, j, l)
        ensures q == p && j == i
      {
        assert TargetsOf(cfg, q)[j] in TargetsOf(cfg, q);
      }
    }
    if p: Label, i: nat :| EntersAt(cfg, p, i, l) && forall q: Label, j: nat :: EntersAt(cfg, q, j, l) ==> q == p && j == i {
      assert TargetsOf(cfg, p)[i] in TargetsOf(cfg, p);
      forall q | q in cfg && l in TargetsOf(cfg, q)
        ensures q == p
      {
        var j :| 0 <= j < |TargetsOf(cfg, q)| && TargetsOf(cfg, q)[j] == l;
        assert EntersAt(cfg, q, j, l);
      }
      forall a, b | 0 <= a < b < |TargetsOf(cfg, p)| && TargetsOf(cfg, p)[a] == l
        ensures TargetsOf(cfg, p)[b] != l
      {
        assert EntersAt(cfg, p, a, l);
        assert EntersAt(cfg, p, b, l) ==> b == i;
      }
      assert SinglePredecessor(cfg, l, p);
    }
  }

  /** The latch is kept unless it is empty, has one incoming edge and ends in an unconditional branch. */
  method IsSemanticLatch(F: CfgFunction, WC: WhilifierContext) returns (keep: bool, latchPred: Option<Label>)
    requires WC.OriginalLatch in F.blocks
    ensures keep <==> LatchPredecessor(F.blocks, WC.OriginalLatch).None?
    ensures !keep <==> F.blocks[WC.OriginalLatch].body == [] && F.blocks[WC.OriginalLatch].term.Br?
                       && exists p: Label, i: nat :: EntersAt(F.blocks, p, i, WC.OriginalLatch)
                            && forall q: Label, j: nat :: EntersAt(F.blocks, q, j, WC.OriginalLatch) ==> q == p && j == i
    ensures !keep ==> latchPred == LatchPredecessor(F.blocks, WC.OriginalLatch)
  {
    var latch := F.blocks[WC.OriginalLatch];
    SinglePredecessorIff(F.blocks, WC.OriginalLatch);
    latchPred := None;
    if latch.body != [] {
      return true, None;
    }
    latchPred := GetSinglePredecessor(F, WC.OriginalLatch);
    if latchPred.None? {
      return true, None;
    }
    if !latch.term.Br? {
      return true, latchPred;
    }
    assert StructuralLatch(F.blocks, WC.OriginalLatch, latchPred.value);
    keep := false;
  }

  /** Whether some successor of the block is outside the loop. */
  method LeavesLoop(F: CfgFunction, WC: WhilifierContext, l: Label) returns (leaves: bool)
    requires l in F.blocks
    ensures leaves <==> Exits(F.blocks, SetOf(WC.LoopBlocks), l)
  {
    leaves := false;
    var ts := TargetsOf(F.blocks, l);
    for i := 0 to |ts|
      invariant leaves <==> exists j :: 0 <= j < i && ts[j] !in WC.LoopBlocks
    {
      if ts[i] !in WC.LoopBlocks {
        leaves := true;
      }
    }
    if leaves {
      ghost var j :| 0 <= j < |ts| && ts[j] !in WC.LoopBlocks;
      assert ts[j] in ts && ts[j] !in SetOf(WC.LoopBlocks);
    }
  }

  method IsAppropriateToWhilify(F: CfgFunction, WC: WhilifierContext, semanticLatch: Label) returns (appropriate: bool)
    ensures appropriate <==> Appropriate(F.blocks, SetOf(WC.LoopBlocks), semanticLatch)
  {
    var preds := set q | q in F.blocks && semanticLatch in TargetsOf(F.blocks, q) && q in WC.LoopBlocks && q != semanticLatch;
    appropriate := true;
    var rest := preds;
    while rest != {}
      invariant rest <= preds
      invariant appropriate <==> forall q :: q in preds - rest ==> !Exits(F.blocks, SetOf(WC.LoopBlocks), q)
      decreases rest
    {
      var q :| q in rest;
      rest := rest - {q};
      var leaves := LeavesLoop(F, WC, q);
      appropriate := appropriate && !leaves;
    }
  }

  /** Whether the loop can be whilified; if so, a structural latch has been compressed away. */
  method CanWhilify(F: CfgFunction, WC: WhilifierContext, ghost ls: LoopStructure) returns (can: bool)
    requires F.Allocates() && WellFormedLoop(F.blocks, ls)
    requires WC.OriginalHeader == ls.header && WC.OriginalPreHeader == ls.preHeader && WC.OriginalLatch == ls.latches[0]
    requires WC.NumLatches == |ls.latches| && WC.ExitEdges == ls.exitEdges && WC.LoopBlocks == ls.blocks
    requires ls.preHeader.Some? && |ls.latches| == 1 && Accepted(F.blocks, LoopOf(ls), LatchPredecessor(F.blocks, ls.latches[0])) ==>
               CompressesBranch(F.blocks, LatchPredecessor(F.blocks, ls.latches[0]))
    modifies F, WC
    ensures can <==> ls.preHeader.Some? && |ls.latches| == 1
                     && Accepted(old(F.blocks), LoopOf(ls), LatchPredecessor(old(F.blocks), ls.latches[0]))
    ensures !can ==> F.blocks == old(F.blocks)
    ensures F.Allocates() && F.nextLabel == old(F.nextLabel)
    ensures can ==>
              var p := LatchPredecessor(old(F.blocks), ls.latches[0]);
              F.blocks == CompressedCfg(old(F.blocks), LoopOf(ls), p)
              && WC.OriginalPreHeader.Some? && WC.LoopView() == CompressedLoop(LoopOf(ls), p) && Distinct(WC.LoopBlocks)
  {
    can := WC.NumLatches == 1 && WC.OriginalPreHeader.Some? && |WC.ExitEdges| > 0;
    if can {
      can := IsDoWhile(F, WC, ls);
    } else if ls.preHeader.Some? && |ls.latches| == 1
              && Accepted(F.blocks, LoopOf(ls), LatchPredecessor(F.blocks, ls.latches[0])) {
      ExitingHasExitEdge(F.blocks, ls);
    }
  }

  lemma ExitingHasExitEdge(cfg: Cfg, ls: LoopStructure)
    requires WellFormedLoop(cfg, ls) && ls.preHeader.Some? && |ls.latches| == 1
    requires Accepted(cfg, LoopOf(ls), LatchPredecessor(cfg, ls.latches[0]))
    ensures |ls.exitEdges| > 0
  {
    SemanticLatchInLoop(cfg, ls);
    var q := SemanticLatch(LoopOf(ls), LatchPredecessor(cfg, ls.latches[0]));
    var t :| t in TargetsOf(cfg, q) && t !in SetOf(ls.blocks);
    assert (q, t) in ls.exitEdges;
  }

  lemma SemanticLatchInLoop(cfg: Cfg, ls: LoopStructure)
    requires WellFormedLoop(cfg, ls) && ls.preHeader.Some? && |ls.latches| == 1
    ensures SemanticLatch(LoopOf(ls), LatchPredecessor(cfg, ls.latches[0])) in ls.blocks
  {
    var p := LatchPredecessor(cfg, ls.latches[0]);
    if p.Some? {
      StructuralLatchFacts(cfg, LoopOf(ls), p.value);
    }
  }

  method IsDoWhile(F: CfgFunction, WC: WhilifierContext, ghost ls: LoopStructure) returns (doWhile: bool)
    requires F.Allocates() && WellFormedLoop(F.blocks, ls) && ls.preHeader.Some? && |ls.latches| == 1
    requires WC.OriginalHeader == ls.header && WC.OriginalPreHeader == ls.preHeader && WC.OriginalLatch == ls.latches[0]
    requires WC.LoopBlocks == ls.blocks
    requires Accepted(F.blocks, LoopOf(ls), LatchPredecessor(F.blocks, ls.latches[0])) ==>
               CompressesBranch(F.blocks, LatchPredecessor(F.blocks, ls.latches[0]))
    modifies F, WC
    ensures doWhile <==> Accepted(old(F.blocks), LoopOf(ls), LatchPredecessor(old(F.blocks), ls.latches[0]))
    ensures !doWhile ==> F.blocks == old(F.blocks)
    ensures F.Allocates() && F.nextLabel == old(F.nextLabel)
    ensures doWhile ==>
              var p := LatchPredecessor(old(F.blocks), ls.latches[0]);
              F.blocks == CompressedCfg(old(F.blocks), LoopOf(ls), p)
              && WC.OriginalPreHeader.Some? && WC.LoopView() == CompressedLoop(LoopOf(ls), p) && Distinct(WC.LoopBlocks)
  {
    var keep, latchPred := IsSemanticLatch(F, WC);
    var semanticLatch := if keep then WC.OriginalLatch else latchPred.value;
    SemanticLatchInLoop(F.blocks, ls);
    assert semanticLatch == SemanticLatch(LoopOf(ls), LatchPredecessor(F.blocks, ls.latches[0]));
    var exiting := LeavesLoop(F, WC, semanticLatch);
    var appropriate := IsAppropriateToWhilify(F, WC, semanticLatch);
    if !keep && exiting && appropriate {
      CompressStructuralLatch(F, WC, semanticLatch);
    }
    doWhile := exiting && appropriate;
  }

  // ----- transformation -----

  /** Redirect the first edge of a terminator that goes to `from`. */
  method SetFirstSuccessor(t: Terminator, from: Label, to: Label) returns (r: Terminator)
    ensures r == RetargetFirst(t, from, to)
  {
    var ts := Targets(t);
    for i := 0 to |ts|
      invariant forall j :: 0 <= j < i ==> ts[j] != from
    {
      if ts[i] == from {
        ReplaceFirstIs(ts, from, to, i);
        return WithTargets(t, ts[i := to]);
      }
    }
    ReplaceFirstNone(ts, from, to);
    r := t;
  }

  lemma {:induction false} ReplaceFirstIs(ts: seq<Label>, from: Label, to: Label, i: nat)
    requires i < |ts| && ts[i] == from && forall j :: 0 <= j < i ==> ts[j] != from
    ensures ReplaceFirst(ts, from, to) == ts[i := to]
  {
    if i > 0 {
      ReplaceFirstIs(ts[1..], from, to, i - 1);
      assert ts[i := to] == [ts[0]] + ts[1..][i - 1 := to];
    }
  }

  lemma {:induction false} ReplaceFirstNone(ts: seq<Label>, from: Label, to: Label)
    requires forall j :: 0 <= j < |ts| ==> ts[j] != from
    ensures ReplaceFirst(ts, from, to) == ts
  {
    if ts != [] {
      ReplaceFirstNone(ts[1..], from, to);
    }
  }

  method CompressStructuralLatch(F: CfgFunction, WC: WhilifierContext, semanticLatch: Label)
    requires F.Allocates() && StructuralLatch(F.blocks, WC.OriginalLatch, semanticLatch)
    requires WC.OriginalPreHeader.Some? && Distinct(WC.LoopBlocks) && WC.OriginalLatch in WC.LoopBlocks
    requires IsBranch(F.blocks[semanticLatch].term)
    modifies F, WC
    ensures F.Allocates() && F.nextLabel == old(F.nextLabel)
    ensures F.blocks == CompressCfg(old(F.blocks), old(WC.OriginalLatch), semanticLatch)
    ensures WC.OriginalPreHeader.Some? && Distinct(WC.LoopBlocks)
    ensures WC.LoopView() == CompressLoop(old(WC.LoopView()), semanticLatch)
  {
    var structuralLatch := WC.OriginalLatch;
    var succ := F.blocks[structuralLatch].term.target;
    var term := SetFirstSuccessor(F.blocks[semanticLatch].term, structuralLatch, succ);
    F.blocks := F.blocks[semanticLatch := Block(F.blocks[semanticLatch].body, term)];
    var k :| 0 <= k < |WC.LoopBlocks| && WC.LoopBlocks[k] == structuralLatch;
    EraseAt(WC.LoopBlocks, k);
    WC.LoopBlocks := WC.LoopBlocks[..k] + WC.LoopBlocks[k + 1..];
    F.blocks := F.blocks - {structuralLatch};
    WC.OriginalLatch := semanticLatch;
  }

  lemma EraseAt(s: seq<Label>, k: nat)
    requires Distinct(s) && k < |s|
    ensures Distinct(s[..k] + s[k + 1..])
    ensures SetOf(s[..k] + s[k + 1..]) == SetOf(s) - {s[k]}
  {
    var r := s[..k] + s[k + 1..];
    forall l | l in SetOf(s) - {s[k]} ensures l in r {
      var i :| 0 <= i < |s| && s[i] == l;
      assert l == r[if i < k then i else i - 1];
    }
  }

  method TransformSingleBlockLoop(F: CfgFunction, WC: WhilifierContext) returns (newLatch: Label)
    requires F.Allocates() && WC.OriginalHeader in F.blocks && WC.OriginalPreHeader.Some?
    requires WC.OriginalHeader == WC.OriginalLatch
    requires Distinct(WC.LoopBlocks) && SetOf(WC.LoopBlocks) <= F.blocks.Keys
    modifies F, WC
    ensures F.Allocates() && newLatch == old(F.nextLabel) && F.nextLabel == newLatch + 1
    ensures F.blocks == SplitCfg(old(F.blocks), old(WC.OriginalHeader), newLatch)
    ensures WC.OriginalPreHeader.Some? && Distinct(WC.LoopBlocks)
    ensures WC.LoopView() == SplitLoop(old(WC.LoopView()), newLatch)
    ensures |WC.ExitEdges| == |old(WC.ExitEdges)|
    ensures forall i :: 0 <= i < |WC.ExitEdges| ==>
              var e := old(WC.ExitEdges)[i];
              WC.ExitEdges[i] == if e.0 == WC.OriginalHeader then (newLatch, e.1) else e
  {
    var header := WC.OriginalHeader;
    newLatch := F.nextLabel;
    F.nextLabel := F.nextLabel + 1;
    F.blocks := F.blocks[newLatch := Block([], F.blocks[header].term)][header := Block(F.blocks[header].body, Br(newLatch))];
    WC.OriginalLatch := newLatch;
    assert newLatch !in SetOf(WC.LoopBlocks);
    WC.LoopBlocks := WC.LoopBlocks + [newLatch];
    assert SetOf(WC.LoopBlocks) == SetOf(old(WC.LoopBlocks)) + {newLatch};
    var newExitEdges := [];
    for i := 0 to |WC.ExitEdges|
      invariant |newExitEdges| == i && WC.ExitEdges == old(WC.ExitEdges) && WC.OriginalHeader == header
      invariant WC.OriginalPreHeader == old(WC.OriginalPreHeader) && WC.OriginalLatch == newLatch
      invariant WC.LoopBlocks == old(WC.LoopBlocks) + [newLatch]
      invariant F.nextLabel == newLatch + 1 && F.blocks == SplitCfg(old(F.blocks), header, newLatch)
      invariant forall j :: 0 <= j < i ==>
                  newExitEdges[j] == if WC.ExitEdges[j].0 == header then (newLatch, WC.ExitEdges[j].1) else WC.ExitEdges[j]
    {
      var edge := WC.ExitEdges[i];
      newExitEdges := newExitEdges + [if edge.0 == header then (newLatch, edge.1) else edge];
    }
    WC.ExitEdges := newExitEdges;
  }

  /** The graph with the anchors between the preheader and the header. */
  ghost function AnchoredCfg(cfg: Cfg, lp: Loop, top: Label, bottom: Label, ph: Label): Cfg
    requires lp.preHeader in cfg
  {
    cfg[lp.preHeader := Block(cfg[lp.preHeader].body, Br(top))]
    [top := Block([], Br(bottom))][bottom := Block([], Br(ph))][ph := Block([], Br(lp.header))]
  }

  /** Split an unconditional edge's source at its terminator: the new block takes over the jump. */
  method SplitAtTerminator(F: CfgFunction, b: Label) returns (tail: Label)
    requires F.Allocates() && b in F.blocks
    modifies F
    ensures F.Allocates() && tail == old(F.nextLabel) && F.nextLabel == tail + 1
    ensures F.blocks == old(F.blocks)[b := Block(old(F.blocks)[b].body, Br(tail))][tail := Block([], old(F.blocks)[b].term)]
  {
    tail := F.nextLabel;
    F.nextLabel := F.nextLabel + 1;
    F.blocks := F.blocks[b := Block(F.blocks[b].body, Br(tail))][tail := Block([], F.blocks[b].term)];
  }

  method BuildAnchors(F: CfgFunction, WC: WhilifierContext) returns (newPreHeader: Label)
    requires F.Allocates() && WC.OriginalPreHeader.Some? && WC.OriginalPreHeader.value in F.blocks
    requires F.blocks[WC.OriginalPreHeader.value].term == Br(WC.OriginalHeader)
    modifies F, WC
    ensures F.Allocates() && F.nextLabel == old(F.nextLabel) + 3
    ensures WC.TopAnchor == old(F.nextLabel) && WC.BottomAnchor == WC.TopAnchor + 1 && newPreHeader == WC.TopAnchor + 2
    ensures F.blocks == AnchoredCfg(old(F.blocks), old(WC.LoopView()), WC.TopAnchor, WC.BottomAnchor, newPreHeader)
    ensures WC.OriginalPreHeader == Some(newPreHeader)
    ensures WC.LoopBlocks == old(WC.LoopBlocks) && WC.OriginalLatch == old(WC.OriginalLatch)
            && WC.OriginalHeader == old(WC.OriginalHeader)
  {
    var insertTop := SplitAtTerminator(F, WC.OriginalPreHeader.value);
    var insertBot := SplitAtTerminator(F, insertTop);
    newPreHeader := SplitAtTerminator(F, insertBot);
    WC.TopAnchor := insertTop;
    WC.BottomAnchor := insertBot;
    WC.OriginalPreHeader := Some(newPreHeader);
  }

  /** peel and origin are inverse to each other and send blocks to new labels. */
  ghost predicate PeelMaps(blocks: set<Label>, peel: map<Label, Label>, origin: map<Label, Label>, low: Label, high: Label)
  {
    && peel.Keys == blocks
    && (forall b :: b in peel ==> peel[b] in origin && origin[peel[b]] == b)
    && (forall l :: l in origin ==> low <= l < high && origin[l] in peel && peel[origin[l]] == l)
  }

  ghost function Cloned(cfg: Cfg, origin: map<Label, Label>): Cfg
    requires forall l :: l in origin ==> origin[l] in cfg
  {
    cfg + map l | l in origin :: cfg[origin[l]]
  }

  lemma ClonedExtend(cfg: Cfg, origin: map<Label, Label>, l: Label, b: Label)
    requires (forall k :: k in origin ==> origin[k] in cfg) && b in cfg
    ensures Cloned(cfg, origin[l := b]) == Cloned(cfg, origin)[l := cfg[b]]
  {
  }

  lemma PeelMapsExtend(B: set<Label>, peel: map<Label, Label>, origin: map<Label, Label>, low: Label, high: Label, b: Label)
    requires PeelMaps(B, peel, origin, low, high) && low <= high && b !in B
    ensures PeelMaps(B + {b}, peel[b := high], origin[high := b], low, high + 1)
  {
  }

  ghost predicate CloneState(blocks: Cfg, loopBlocks: seq<Label>, i: nat, next: Label, nextFree: Label,
                             peel: map<Label, Label>, origin: map<Label, Label>, newBlocks: seq<Label>)
  {
    && i <= |loopBlocks| && next <= nextFree
    && PeelMaps(SetOf(loopBlocks[..i]), peel, origin, next, nextFree)
    && SetOf(newBlocks) == origin.Keys && Distinct(newBlocks)
    && forall l :: l in origin ==> origin[l] in blocks
  }

  lemma CloneStep(blocks: Cfg, loopBlocks: seq<Label>, i: nat, next: Label, nextFree: Label,
                  peel: map<Label, Label>, origin: map<Label, Label>, newBlocks: seq<Label>)
    requires CloneState(blocks, loopBlocks, i, next, nextFree, peel, origin, newBlocks)
    requires i < |loopBlocks| && Distinct(loopBlocks) && SetOf(loopBlocks) <= blocks.Keys
    ensures loopBlocks[i] in blocks
    ensures CloneState(blocks, loopBlocks, i + 1, next, nextFree + 1,
                       peel[loopBlocks[i] := nextFree], origin[nextFree := loopBlocks[i]], newBlocks + [nextFree])
    ensures Cloned(blocks, origin[nextFree := loopBlocks[i]]) == Cloned(blocks, origin)[nextFree := blocks[loopBlocks[i]]]
  {
    assert loopBlocks[i] in SetOf(loopBlocks);
    NextTaken(loopBlocks, i);
    PeelMapsExtend(SetOf(loopBlocks[..i]), peel, origin, next, nextFree, loopBlocks[i]);
    DistinctAppend(newBlocks, nextFree);
    ClonedExtend(blocks, origin, nextFree, loopBlocks[i]);
  }

  lemma DistinctAppend(s: seq<Label>, l: Label)
    requires Distinct(s) && l !in SetOf(s)
    ensures Distinct(s + [l]) && SetOf(s + [l]) == SetOf(s) + {l}
  {
  }

  lemma NextTaken(s: seq<Label>, i: nat)
    requires Distinct(s) && i < |s|
    ensures SetOf(s[..i + 1]) == SetOf(s[..i]) + {s[i]} && s[i] !in SetOf(s[..i])
  {
    assert s[..i + 1] == s[..i] + [s[i]];
  }

  /** Copy every block of the loop, the copies still going where the originals go. */
  method CloneBlocks(blocks: Cfg, next: Label, loopBlocks: seq<Label>)
    returns (cloned: Cfg, nextFree: Label, peel: map<Label, Label>, origin: map<Label, Label>, newBlocks: seq<Label>)
    requires (forall l :: l in blocks ==> l < next) && Distinct(loopBlocks) && SetOf(loopBlocks) <= blocks.Keys
    ensures PeelMaps(SetOf(loopBlocks), peel, origin, next, nextFree)
    ensures SetOf(newBlocks) == origin.Keys && Distinct(newBlocks)
    ensures cloned == Cloned(blocks, origin)
    ensures nextFree >= next && forall l :: l in cloned ==> l < nextFree
  {
    cloned, nextFree, peel, origin, newBlocks := blocks, next, map[], map[], [];
    for i := 0 to |loopBlocks|
      invariant CloneState(blocks, loopBlocks, i, next, nextFree, peel, origin, newBlocks)
      invariant cloned == Cloned(blocks, origin)
    {
      var origBB := loopBlocks[i];
      CloneStep(blocks, loopBlocks, i, next, nextFree, peel, origin, newBlocks);
      assert cloned[origBB] == blocks[origBB];
      cloned := cloned[nextFree := cloned[origBB]];
      newBlocks := newBlocks + [nextFree];
      peel := peel[origBB := nextFree];
      origin := origin[nextFree := origBB];
      nextFree := nextFree + 1;
    }
    assert loopBlocks[..|loopBlocks|] == loopBlocks;
  }

  /** Replace references to original blocks by references to their copies, inside the copies. */
  method RemapInstructionsInBlocks(F: CfgFunction, newBlocks: seq<Label>, m: map<Label, Label>)
    requires F.Allocates() && Distinct(newBlocks) && SetOf(newBlocks) <= F.blocks.Keys
    modifies F
    ensures F.Allocates() && F.nextLabel == old(F.nextLabel) && F.blocks.Keys == old(F.blocks.Keys)
    ensures forall l :: l in F.blocks ==>
              F.blocks[l] == if l in newBlocks then Block(old(F.blocks)[l].body, RemapTargets(old(F.blocks)[l].term, m)) else old(F.blocks)[l]
  {
    for i := 0 to |newBlocks|
      invariant F.nextLabel == old(F.nextLabel) && F.blocks.Keys == old(F.blocks.Keys)
      invariant forall l :: l in F.blocks ==>
                  F.blocks[l] == if l in newBlocks[..i] then Block(old(F.blocks)[l].body, RemapTargets(old(F.blocks)[l].term, m)) else old(F.blocks)[l]
    {
      var l := newBlocks[i];
      assert l in SetOf(newBlocks) && l !in newBlocks[..i];
      F.blocks := F.blocks[l := Block(F.blocks[l].body, RemapTargets(F.blocks[l].term, m))];
      assert newBlocks[..i + 1] == newBlocks[..i] + [l];
    }
    assert newBlocks[..|newBlocks|] == newBlocks;
  }

  /** Send every branch to the old latch to the new header; other terminators are left alone. */
  method RerouteLoopBranches(F: CfgFunction, latch: Label, newHeader: Label)
    requires F.Allocates()
    modifies F
    ensures F.Allocates() && F.nextLabel == old(F.nextLabel) && F.blocks.Keys == old(F.blocks.Keys)
    ensures forall l :: l in F.blocks ==>
              F.blocks[l] == if IsBranch(old(F.blocks)[l].term) then Block(old(F.blocks)[l].body, RetargetAll(old(F.blocks)[l].term, latch, newHeader))
                             else old(F.blocks)[l]
  {
    var preds := set q | q in F.blocks && latch in TargetsOf(F.blocks, q);
    forall q | q in F.blocks && q !in preds
      ensures RetargetAll(F.blocks[q].term, latch, newHeader) == F.blocks[q].term
    {
      RetargetAllNoop(F.blocks[q].term, latch, newHeader);
    }
    var rest := preds;
    while rest != {}
      invariant rest <= preds
      invariant F.nextLabel == old(F.nextLabel) && F.blocks.Keys == old(F.blocks.Keys)
      invariant forall l :: l in F.blocks ==>
                  F.blocks[l] == if l in preds - rest && IsBranch(old(F.blocks)[l].term)
                                 then Block(old(F.blocks)[l].body, RetargetAll(old(F.blocks)[l].term, latch, newHeader))
                                 else old(F.blocks)[l]
      decreases rest
    {
      var pred :| pred in rest;
      rest := rest - {pred};
      var term := F.blocks[pred].term;
      if !IsBranch(term) {
        continue;
      }
      var rerouted := SetEverySuccessor(term, latch, newHeader);
      F.blocks := F.blocks[pred := Block(F.blocks[pred].body, rerouted)];
    }
  }

  lemma RetargetAllNoop(t: Terminator, from: Label, to: Label)
    requires from !in Targets(t)
    ensures RetargetAll(t, from, to) == t
  {
    assert ReplaceAll(Targets(t), from, to) == Targets(t);
  }

  method SetEverySuccessor(t: Terminator, from: Label, to: Label) returns (r: Terminator)
    ensures r == RetargetAll(t, from, to)
  {
    r := t;
    var ts := Targets(t);
    for i := 0 to |ts|
      invariant |Targets(r)| == |ts| && r == WithTargets(t, Targets(r))
      invariant forall j :: 0 <= j < |ts| ==> Targets(r)[j] == if j < i && ts[j] == from then to else ts[j]
    {
      if Targets(r)[i] == from {
        r := WithTargets(r, Targets(r)[i := to]);
      }
    }
    assert Targets(r) == ReplaceAll(ts, from, to);
  }

  /** Peel one iteration of a prepared loop, make the peeled latch the new header, erase the old latch. */
  method PeelAndReroute(F: CfgFunction, WC: WhilifierContext) returns (ghost n: Names)
    requires F.Allocates() && WC.OriginalPreHeader.Some? && Distinct(WC.LoopBlocks)
    requires ClosedCfg(F.blocks) && NaturalLoop(F.blocks, WC.LoopView()) && WC.OriginalHeader != WC.OriginalLatch
    modifies F, WC
    ensures ReadyToPeel(old(F.blocks), old(WC.LoopView()), n)
    ensures F.blocks == WhilifyCfg(old(F.blocks), old(WC.LoopView()), n)
  {
    ghost var S, lp := F.blocks, WC.LoopView();
    ghost var A;
    n, A := PeelBlocks(F, WC);
    ghost var C := F.blocks;
    ghost var D, E := RemapAndErase(F, WC);
    assert forall l :: l in WC.NewBlocks <==> l in SetOf(WC.NewBlocks);
    PeelStages(S, lp, n, A, C, D, E);
  }

  /** The first steps: build the anchors, copy the loop, wire the copies to the anchors. */
  method PeelBlocks(F: CfgFunction, WC: WhilifierContext) returns (ghost n: Names, ghost A: Cfg)
    requires F.Allocates() && WC.OriginalPreHeader.Some? && Distinct(WC.LoopBlocks)
    requires ClosedCfg(F.blocks) && NaturalLoop(F.blocks, WC.LoopView()) && WC.OriginalHeader != WC.OriginalLatch
    modifies F, WC
    ensures var S, lp := old(F.blocks), old(WC.LoopView());
            && ReadyToPeel(S, lp, n) && A == AnchoredCfg(S, lp, n.top, n.bottom, n.newPreHeader)
            && F.blocks == FixedClones(Cloned(A, n.origin), n.top, n.peel[lp.header], n.peel[lp.latch], lp.header, n.bottom)
    ensures F.Allocates() && WC.OriginalLatch == old(WC.OriginalLatch) && WC.BodyToPeelMap == n.peel
    ensures Distinct(WC.NewBlocks) && SetOf(WC.NewBlocks) == n.origin.Keys
  {
    ghost var S, lp := F.blocks, WC.LoopView();
    var newPreHeader := BuildAnchors(F, WC);
    A := F.blocks;
    var cloned, nextFree, peel, origin, newBlocks := CloneBlocks(F.blocks, F.nextLabel, WC.LoopBlocks);
    F.blocks, F.nextLabel := cloned, nextFree;
    WC.BodyToPeelMap, WC.PeelToBodyMap, WC.NewBlocks := peel, origin, newBlocks;
    n := Names(WC.TopAnchor, WC.BottomAnchor, newPreHeader, peel, origin);
    LabelsAreFresh(S, lp, n, nextFree);
    FixClonedControlFlow(F, WC);
  }

  /** The last steps: remap the copies, reroute the branches to the old latch, erase it. */
  method RemapAndErase(F: CfgFunction, WC: WhilifierContext) returns (ghost D: Cfg, ghost E: Cfg)
    requires F.Allocates() && Distinct(WC.NewBlocks) && SetOf(WC.NewBlocks) <= F.blocks.Keys && WC.OriginalLatch in WC.BodyToPeelMap
    modifies F
    ensures D.Keys == old(F.blocks.Keys) && E.Keys == D.Keys
    ensures forall l {:trigger D[l]} :: l in D ==>
              D[l] == if l in WC.NewBlocks then Block(old(F.blocks)[l].body, RemapTargets(old(F.blocks)[l].term, WC.BodyToPeelMap)) else old(F.blocks)[l]
    ensures forall l {:trigger E[l]} :: l in E ==>
              E[l] == if IsBranch(D[l].term) then Block(D[l].body, RetargetAll(D[l].term, WC.OriginalLatch, WC.BodyToPeelMap[WC.OriginalLatch])) else D[l]
    ensures F.blocks == E - {WC.OriginalLatch}
  {
    RemapInstructionsInBlocks(F, WC.NewBlocks, WC.BodyToPeelMap);
    D := F.blocks;
    RerouteLoopBranches(F, WC.OriginalLatch, WC.BodyToPeelMap[WC.OriginalLatch]);
    E := F.blocks;
    F.blocks := F.blocks - {WC.OriginalLatch};
  }

  lemma LabelsAreFresh(S: Cfg, lp: Loop, n: Names, nextFree: Label)
    requires ClosedCfg(S) && NaturalLoop(S, lp) && lp.header != lp.latch
    requires forall l :: l in S ==> l < n.top
    requires n.bottom == n.top + 1 && n.newPreHeader == n.top + 2
    requires PeelMaps(lp.blocks, n.peel, n.origin, n.top + 3, nextFree)
    ensures ReadyToPeel(S, lp, n)
  {
  }

  /** The top anchor enters the peeled header; the peeled latch's back edge goes to the bottom anchor. */
  method FixClonedControlFlow(F: CfgFunction, WC: WhilifierContext)
    requires F.Allocates() && WC.TopAnchor in F.blocks
    requires WC.OriginalHeader in WC.BodyToPeelMap && WC.OriginalLatch in WC.BodyToPeelMap
    requires WC.BodyToPeelMap[WC.OriginalLatch] in F.blocks && WC.BodyToPeelMap[WC.OriginalLatch] != WC.TopAnchor
    modifies F
    ensures F.Allocates() && F.nextLabel == old(F.nextLabel)
    ensures F.blocks == FixedClones(old(F.blocks), WC.TopAnchor, WC.BodyToPeelMap[WC.OriginalHeader],
                                    WC.BodyToPeelMap[WC.OriginalLatch], WC.OriginalHeader, WC.BottomAnchor)
  {
    var peeledHeader := WC.BodyToPeelMap[WC.OriginalHeader];
    F.blocks := F.blocks[WC.TopAnchor := Block(F.blocks[WC.TopAnchor].body, Br(peeledHeader))];
    var peelLatch := WC.BodyToPeelMap[WC.OriginalLatch];
    var latchTerm := SetFirstSuccessor(F.blocks[peelLatch].term, WC.OriginalHeader, WC.BottomAnchor);
    F.blocks := F.blocks[peelLatch := Block(F.blocks[peelLatch].body, latchTerm)];
  }

  function FixedClones(cfg: Cfg, top: Label, peeledHeader: Label, peelLatch: Label, header: Label, bottom: Label): Cfg
    requires top in cfg && peelLatch in cfg
  {
    cfg[top := Block(cfg[top].body, Br(peeledHeader))]
    [peelLatch := Block(cfg[peelLatch].body, RetargetFirst(cfg[peelLatch].term, header, bottom))]
  }

  /** The rewriting steps, one after the other, produce the whilified graph. */
  lemma PeelStages(S: Cfg, lp: Loop, n: Names, A: Cfg, C: Cfg, D: Cfg, E: Cfg)
    requires ReadyToPeel(S, lp, n)
    requires A == AnchoredCfg(S, lp, n.top, n.bottom, n.newPreHeader)
    requires C == FixedClones(Cloned(A, n.origin), n.top, n.peel[lp.header], n.peel[lp.latch], lp.header, n.bottom)
    requires D.Keys == C.Keys && E.Keys == D.Keys
    requires forall l {:trigger D[l]} :: l in D ==>
               D[l] == if l in n.origin then Block(C[l].body, RemapTargets(C[l].term, n.peel)) else C[l]
    requires forall l {:trigger E[l]} :: l in E ==>
               E[l] == if IsBranch(D[l].term) then Block(D[l].body, RetargetAll(D[l].term, lp.latch, n.peel[lp.latch])) else D[l]
    ensures E - {lp.latch} == WhilifyCfg(S, lp, n)
  {
    var W := WhilifyCfg(S, lp, n);
    StageKeys(S, lp, n, A, C);
    forall l | l in W
      ensures l in E && E[l] == W[l]
    {
      assert D[l] == if l in n.origin then Block(C[l].body, RemapTargets(C[l].term, n.peel)) else C[l];
      StageAt(S, lp, n, A, C, D[l], l);
    }
  }

  lemma StageKeys(S: Cfg, lp: Loop, n: Names, A: Cfg, C: Cfg)
    requires ReadyToPeel(S, lp, n)
    requires A == AnchoredCfg(S, lp, n.top, n.bottom, n.newPreHeader)
    requires C == FixedClones(Cloned(A, n.origin), n.top, n.peel[lp.header], n.peel[lp.latch], lp.header, n.bottom)
    ensures C.Keys - {lp.latch} == WhilifyCfg(S, lp, n).Keys
  {
  }

  lemma StageAt(S: Cfg, lp: Loop, n: Names, A: Cfg, C: Cfg, d: Block, l: Label)
    requires ReadyToPeel(S, lp, n) && l in C && l != lp.latch
    requires A == AnchoredCfg(S, lp, n.top, n.bottom, n.newPreHeader)
    requires C == FixedClones(Cloned(A, n.origin), n.top, n.peel[lp.header], n.peel[lp.latch], lp.header, n.bottom)
    requires d == if l in n.origin then Block(C[l].body, RemapTargets(C[l].term, n.peel)) else C[l]
    ensures l in WhilifyCfg(S, lp, n)
    ensures WhilifyCfg(S, lp, n)[l] ==
            if IsBranch(d.term) then Block(d.body, RetargetAll(d.term, lp.latch, n.peel[lp.latch])) else d
  {
    if l in n.origin {
      PeelStage(S, lp, n, A, C, l);
      PeeledStage(S, lp, n, l, d);
    } else {
      OtherStages(S, lp, n, A, C, l);
    }
  }

  lemma PeeledStage(S: Cfg, lp: Loop, n: Names, l: Label, d: Block)
    requires ReadyToPeel(S, lp, n) && l in n.origin && d == PeeledBlock(S, lp, n, n.origin[l])
    ensures l in WhilifyCfg(S, lp, n)
    ensures WhilifyCfg(S, lp, n)[l] ==
            if IsBranch(d.term) then Block(d.body, RetargetAll(d.term, lp.latch, n.peel[lp.latch])) else d
  {
    PeeledAvoidsLatch(S, lp, n, n.origin[l]);
    WhilifyCfgIs(S, lp, n);
    assert l == n.peel[n.origin[l]];
  }

  lemma PeelStage(S: Cfg, lp: Loop, n: Names, A: Cfg, C: Cfg, l: Label)
    requires ReadyToPeel(S, lp, n) && l in n.origin
    requires A == AnchoredCfg(S, lp, n.top, n.bottom, n.newPreHeader)
    requires C == FixedClones(Cloned(A, n.origin), n.top, n.peel[lp.header], n.peel[lp.latch], lp.header, n.bottom)
    ensures l in C && Block(C[l].body, RemapTargets(C[l].term, n.peel)) == PeeledBlock(S, lp, n, n.origin[l])
  {
    var b := n.origin[l];
    assert A[b] == S[b];
    assert Cloned(A, n.origin)[l] == S[b];
    assert l == n.peel[lp.latch] <==> b == lp.latch;
  }

  lemma OtherStages(S: Cfg, lp: Loop, n: Names, A: Cfg, C: Cfg, l: Label)
    requires ReadyToPeel(S, lp, n)
    requires A == AnchoredCfg(S, lp, n.top, n.bottom, n.newPreHeader)
    requires C == FixedClones(Cloned(A, n.origin), n.top, n.peel[lp.header], n.peel[lp.latch], lp.header, n.bottom)
    requires l in C && l != lp.latch && l !in n.origin
    ensures l in WhilifyCfg(S, lp, n)
    ensures WhilifyCfg(S, lp, n)[l] ==
            if IsBranch(C[l].term) then Block(C[l].body, RetargetAll(C[l].term, lp.latch, n.peel[lp.latch])) else C[l]
  {
    if l in {n.top, n.bottom, n.newPreHeader} {
      assert C[l].term.Br? && C[l].term.target != lp.latch;
      RetargetAllNoop(C[l].term, lp.latch, n.peel[lp.latch]);
    } else {
      KeptStage(S, lp, n, A, l);
      assert C[l] == A[l];
    }
  }

  lemma KeptStage(S: Cfg, lp: Loop, n: Names, A: Cfg, l: Label)
    requires ReadyToPeel(S, lp, n) && A == AnchoredCfg(S, lp, n.top, n.bottom, n.newPreHeader)
    requires l in S && l != lp.latch
    ensures l in A && KeptBlock(S, lp, n, l) ==
            if IsBranch(A[l].term) then Block(A[l].body, RetargetAll(A[l].term, lp.latch, n.peel[lp.latch])) else A[l]
  {
    RetargetAllNoop(Br(n.top), lp.latch, n.peel[lp.latch]);
  }

  /** No copy goes to the old latch, so rerouting leaves the copies alone. */
  lemma PeeledAvoidsLatch(cfg: Cfg, lp: Loop, n: Names, b: Label)
    requires ReadyToPeel(cfg, lp, n) && b in lp.blocks
    ensures RetargetAll(PeeledBlock(cfg, lp, n, b).term, lp.latch, n.peel[lp.latch]) == PeeledBlock(cfg, lp, n, b).term
  {
    var u := PeeledBlock(cfg, lp, n, b).term;
    forall i | 0 <= i < |Targets(u)| ensures Targets(u)[i] != lp.latch {
      PeeledTargetIs(cfg, lp, n, b, i);
    }
    RetargetAllNoop(u, lp.latch, n.peel[lp.latch]);
  }

  /** Whilify one loop. A rejected loop leaves the function unchanged. An accepted one becomes a while loop
      with the same runs, unless a switch enters its latch: then, and only then, a target is left dangling. */
  method WhilifyLoop(F: CfgFunction, ls: LoopStructure)
    returns (transformed: bool, ghost newLatch: Label, ghost n: Names)
    requires F.Allocates() && WellFormedLoop(F.blocks, ls)
    requires ls.preHeader.Some? && |ls.latches| == 1 && Accepted(F.blocks, LoopOf(ls), LatchPredecessor(F.blocks, ls.latches[0])) ==>
               IsBranch(F.blocks[SemanticLatch(LoopOf(ls), LatchPredecessor(F.blocks, ls.latches[0]))].term)
    modifies F
    ensures transformed <==> ls.preHeader.Some? && |ls.latches| == 1
                             && Accepted(old(F.blocks), LoopOf(ls), LatchPredecessor(old(F.blocks), ls.latches[0]))
    ensures !transformed ==> F.blocks == old(F.blocks)
    ensures transformed ==>
              var p := LatchPredecessor(old(F.blocks), ls.latches[0]);
              var C, lc := CompressedCfg(old(F.blocks), LoopOf(ls), p), CompressedLoop(LoopOf(ls), p);
              && lc.header in C
              && var S, ls' := SplitIfSingle(C, lc, newLatch), SplitLoopIfSingle(lc, newLatch);
              && ReadyToPeel(S, ls', n) && F.blocks == WhilifyCfg(S, ls', n)
              && (ClosedCfg(F.blocks) <==> PredecessorsBranch(S, ls'.latch))
    ensures transformed && ClosedCfg(F.blocks) ==>
              var p := LatchPredecessor(old(F.blocks), ls.latches[0]);
              var lc := CompressedLoop(LoopOf(ls), p);
              var ls' := SplitLoopIfSingle(lc, newLatch);
              SameRuns(old(F.blocks), SilentLatch(LoopOf(ls), p), F.blocks, Anchors(n), n.origin, SilentSplit(lc, newLatch))
              && ls'.latch in n.peel && WhileLoop(F.blocks, NewLoopBlocks(ls', n), n.peel[ls'.latch])
  {
    ghost var O := F.blocks;
    ghost var p := LatchPredecessor(O, ls.latches[0]);
    var WC := new WhilifierContext(ls);
    transformed := CanWhilify(F, WC, ls);
    if !transformed {
      newLatch, n := 0, Names(0, 0, 0, map[], map[]);
      return;
    }
    ghost var lp := LoopOf(ls);
    CompressedReady(O, lp, p);
    newLatch := F.nextLabel;
    ghost var C, lc := F.blocks, WC.LoopView();
    SplitReady(C, lc, newLatch);
    if WC.OriginalHeader == WC.OriginalLatch {
      var l := TransformSingleBlockLoop(F, WC);
    }
    ghost var S, lsplit := F.blocks, WC.LoopView();
    n := PeelAndReroute(F, WC);
    WhilifiedClosedIff(S, lsplit, n);
    if ClosedCfg(F.blocks) {
      WhilifyPreservesRuns(O, lp, p, newLatch, n);
    }
  }
}
