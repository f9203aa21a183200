/** The call graph, built edge by edge, and its islands: a search along call edges in both directions,
    followed by merging islands that a stored function address connects. */
module CallGraphIslands {
  import opened Graph

  type Fun = nat
  type Island = nat
  type Islands = map<Fun, Island>

  datatype CallSite = Direct(inst: nat, callee: Fun) | Indirect(inst: nat, callees: set<Fun>)

  datatype SubEdge = SubEdge(inst: nat, isMust: bool)

  datatype CallEdge = CallEdge(isMust: bool, subEdges: set<SubEdge>)

  /** A use of a function: by an instruction or not, and whether that instruction calls the function. */
  datatype Use = Use(isInstruction: bool, callsIt: bool, inFunction: Fun)

  type CallEdges = map<(Fun, Fun), CallEdge>

  // ----- building the edges -----

  ghost predicate MayCall(site: CallSite, g: Fun)
  {
    if site.Direct? then site.callee == g else g in site.callees
  }

  ghost function SubEdgesOf(sites: set<CallSite>, g: Fun): set<SubEdge>
  {
    set site | site in sites && MayCall(site, g) :: SubEdge(site.inst, site.Direct?)
  }

  /** One edge per pair, with one sub-edge per call site; it is a must edge if one of its sub-edges is. */
  ghost predicate MustIffSubEdge(edges: CallEdges)
  {
    forall e :: e in edges ==> edges[e].subEdges != {} && (edges[e].isMust <==> exists s :: s in edges[e].subEdges && s.isMust)
  }

  ghost function SubEdgesAt(edges: CallEdges, e: (Fun, Fun)): set<SubEdge>
  {
    if e in edges then edges[e].subEdges else {}
  }

  class CallGraph {
    const functions: set<Fun>
    const uses: map<Fun, seq<Use>>
    var edges: CallEdges

    ghost predicate Valid()
      reads this
    {
      && (forall e :: e in edges ==> e.0 in functions && e.1 in functions)
      && MustIffSubEdge(edges)
      && uses.Keys == functions
      && (forall f, k :: f in uses && 0 <= k < |uses[f]| && uses[f][k].isInstruction ==> uses[f][k].inFunction in functions)
    }

    constructor (fs: set<Fun>, us: map<Fun, seq<Use>>)
      requires us.Keys == fs
      requires forall f, k :: f in us && 0 <= k < |us[f]| && us[f][k].isInstruction ==> us[f][k].inFunction in fs
      ensures Valid() && functions == fs && uses == us && edges == map[]
    {
      functions, uses, edges := fs, us, map[];
    }

    method FetchOrCreateEdge(from: Fun, inst: nat, callee: Fun, isMust: bool)
      requires Valid() && from in functions && callee in functions
      modifies this`edges
      ensures Valid() && edges.Keys == old(edges.Keys) + {(from, callee)}
      ensures forall e :: SubEdgesAt(edges, e) == SubEdgesAt(old(edges), e) + if e == (from, callee) then {SubEdge(inst, isMust)} else {}
    {
      var subEdge := SubEdge(inst, isMust);
      if (from, callee) !in edges {
        edges := edges[(from, callee) := CallEdge(isMust, {subEdge})];
        return;
      }
      var existingEdge := edges[(from, callee)];
      if isMust {
        existingEdge := existingEdge.(isMust := true);
      }
      edges := edges[(from, callee) := existingEdge.(subEdges := existingEdge.subEdges + {subEdge})];
      MustAfterAdding(old(edges)[(from, callee)], edges[(from, callee)], subEdge);
    }

    /** A direct call gives a must edge, an indirect one a may edge to every possible callee. */
    method HandleCallInstruction(from: Fun, site: CallSite)
      requires Valid() && from in functions
      requires forall g :: MayCall(site, g) ==> g in functions
      modifies this`edges
      ensures Valid()
      ensures forall e :: SubEdgesAt(edges, e) == SubEdgesAt(old(edges), e) + if e.0 == from && MayCall(site, e.1) then {SubEdge(site.inst, site.Direct?)} else {}
    {
      match site
      case Direct(inst, callee) => FetchOrCreateEdge(from, inst, callee, true);
      case Indirect(inst, callees) =>
        var rest := callees;
        while rest != {}
          invariant Valid() && rest <= callees
          invariant forall e :: SubEdgesAt(edges, e) == SubEdgesAt(old(edges), e) + if e.0 == from && e.1 in callees - rest then {SubEdge(inst, false)} else {}
          decreases rest
        {
          var callee :| callee in rest;
          rest := rest - {callee};
          FetchOrCreateEdge(from, inst, callee, false);
        }
    }

    /** Afterwards there is an edge exactly where a call site may call, and it is a must edge exactly where a
        call site calls directly. */
    method AddCalls(from: Fun, sites: set<CallSite>)
      requires Valid() && from in functions && forall e :: e in edges ==> e.0 != from
      requires forall site, g :: site in sites && MayCall(site, g) ==> g in functions
      modifies this`edges
      ensures Valid()
      ensures forall e :: SubEdgesAt(edges, e) == SubEdgesAt(old(edges), e) + if e.0 == from then SubEdgesOf(sites, e.1) else {}
      ensures forall g: Fun :: (from, g) in edges <==>
                exists site :: site in sites && (site == Direct(site.inst, g) || (site.Indirect? && g in site.callees))
      ensures forall g: Fun :: (from, g) in edges ==> (edges[(from, g)].isMust <==> exists site :: site in sites && site == Direct(site.inst, g))
    {
      var rest := sites;
      while rest != {}
        invariant Valid() && rest <= sites
        invariant forall e :: SubEdgesAt(edges, e) == SubEdgesAt(old(edges), e) + if e.0 == from then SubEdgesOf(sites - rest, e.1) else {}
        decreases rest
      {
        var site :| site in rest;
        ghost var done := sites - rest;
        rest := rest - {site};
        assert sites - rest == done + {site};
        forall g ensures SubEdgesOf(done + {site}, g) == SubEdgesOf(done, g) + if MayCall(site, g) then {SubEdge(site.inst, site.Direct?)} else {} {
          SubEdgesOfOneMore(done, site, g);
        }
        HandleCallInstruction(from, site);
      }
      assert sites - rest == sites;
      EdgesAreCalls(old(edges), from, sites);
    }

    lemma EdgesAreCalls(before: CallEdges, from: Fun, sites: set<CallSite>)
      requires Valid() && forall e :: e in before ==> e.0 != from
      requires forall e :: SubEdgesAt(edges, e) == SubEdgesAt(before, e) + if e.0 == from then SubEdgesOf(sites, e.1) else {}
      ensures forall g: Fun :: (from, g) in edges <==>
                exists site :: site in sites && (site == Direct(site.inst, g) || (site.Indirect? && g in site.callees))
      ensures forall g: Fun :: (from, g) in edges ==> (edges[(from, g)].isMust <==> exists site :: site in sites && site == Direct(site.inst, g))
    {
      forall g: Fun
        ensures (from, g) in edges <==> exists site :: site in sites && (site == Direct(site.inst, g) || (site.Indirect? && g in site.callees))
        ensures (from, g) in edges ==> (edges[(from, g)].isMust <==> exists site :: site in sites && site == Direct(site.inst, g))
      {
        assert SubEdgesAt(before, (from, g)) == {} && SubEdgesAt(edges, (from, g)) == SubEdgesOf(sites, g);
        CallsAreSubEdges(sites, g);
      }
    }

    // ----- islands -----

    ghost function CallPairs(): Edges
      reads this
    {
      edges.Keys
    }

    function IncidentEdges(f: Fun): set<(Fun, Fun)>
      reads this
    {
      set e | e in edges.Keys && (e.0 == f || e.1 == f)
    }

    /** The functions of one island, found from its first function along calls in either direction. */
    method ExploreFrom(f: Fun, islands: Islands, newIsland: Island) returns (grown: Islands)
      requires Valid() && f in functions && f !in islands
      requires Explored(CallPairs(), functions, islands, newIsland, {}) && forall x :: x in islands ==> islands[x] < newIsland
      ensures Explored(CallPairs(), functions, grown, newIsland, {})
      ensures f in grown && Extends(islands, grown)
    {
      grown := islands[f := newIsland];
      var todos := [f];
      StartIsland(CallPairs(), functions, islands, newIsland, f);
      while todos != []
        invariant f in grown && Extends(islands, grown)
        invariant Explored(CallPairs(), functions, grown, newIsland, Elements(todos))
        decreases functions - grown.Keys, |todos|
      {
        var current := todos[|todos| - 1];
        ghost var before := todos;
        todos := todos[..|todos| - 1];
        assert before == todos + [current] && Elements(before) == Elements(todos) + {current};
        grown, todos := VisitEdges(current, grown, newIsland, todos);
      }
      assert Elements([]) == {};
    }

    method VisitEdges(current: Fun, islands: Islands, newIsland: Island, todos: seq<Fun>) returns (grown: Islands, longer: seq<Fun>)
      requires Valid() && Explored(CallPairs(), functions, islands, newIsland, Elements(todos) + {current})
      ensures Explored(CallPairs(), functions, grown, newIsland, Elements(longer))
      ensures Extends(islands, grown)
      ensures grown.Keys == islands.Keys ==> longer == todos
    {
      grown, longer := islands, todos;
      var incident := IncidentEdges(current);
      var rest := incident;
      while rest != {}
        invariant rest <= incident
        invariant Explored(CallPairs(), functions, grown, newIsland, Elements(longer) + {current})
        invariant Extends(islands, grown)
        invariant grown.Keys == islands.Keys ==> longer == todos
        invariant EndsIn(incident - rest, grown)
        decreases rest
      {
        var edge :| edge in rest;
        rest := rest - {edge};
        grown, longer := VisitEdge(current, edge, grown, newIsland, longer);
      }
      assert incident - rest == incident;
      CloseCurrent(CallPairs(), functions, grown, newIsland, Elements(longer), current, incident);
    }

    method VisitEdge(current: Fun, edge: (Fun, Fun), islands: Islands, newIsland: Island, todos: seq<Fun>)
      returns (grown: Islands, longer: seq<Fun>)
      requires Valid() && edge in IncidentEdges(current) && Explored(CallPairs(), functions, islands, newIsland, Elements(todos) + {current})
      ensures Explored(CallPairs(), functions, grown, newIsland, Elements(longer) + {current})
      ensures Extends(islands, grown) && edge.0 in grown && edge.1 in grown
      ensures grown.Keys == islands.Keys ==> longer == todos
    {
      IncidentIsSymmetric(CallPairs(), current, edge);
      grown, longer := AddIfNew(current, edge.1, islands, newIsland, todos);
      grown, longer := AddIfNew(current, edge.0, grown, newIsland, longer);
    }

    /** A neighbour that the island does not hold has not been visited at all: the assertion never fails. */
    method AddIfNew(current: Fun, g: Fun, islands: Islands, newIsland: Island, todos: seq<Fun>) returns (grown: Islands, longer: seq<Fun>)
      requires Valid() && Explored(CallPairs(), functions, islands, newIsland, Elements(todos) + {current})
      requires g == current || ((current, g) in Sym(CallPairs()) && g in functions)
      ensures Explored(CallPairs(), functions, grown, newIsland, Elements(longer) + {current})
      ensures Extends(islands, grown) && g in grown
      ensures grown.Keys == islands.Keys ==> longer == todos
    {
      grown, longer := islands, todos;
      if g !in islands || islands[g] != newIsland {
        NeighbourIsNew(CallPairs(), functions, islands, newIsland, Elements(todos) + {current}, current, g);
        assert g !in islands;
        AddNeighbour(CallPairs(), functions, islands, newIsland, Elements(todos) + {current}, current, g);
        grown := islands[g := newIsland];
        longer := todos + [g];
        assert Elements(longer) + {current} == Elements(todos) + {current} + {g};
      }
    }

    /** Two functions get the same island exactly when calls connect them, in either direction. */
    method IdentifyCallGraphIslandsByCallInstructions() returns (islands: Islands)
      requires Valid()
      ensures SeparatedBy(CallPairs(), functions, islands)
    {
      islands := map[];
      var nextIsland: nat := 0;
      var rest := functions;
      while rest != {}
        invariant rest <= functions && functions - rest <= islands.Keys
        invariant Explored(CallPairs(), functions, islands, nextIsland, {})
        invariant forall x :: x in islands ==> islands[x] < nextIsland
        decreases rest
      {
        var f :| f in rest;
        rest := rest - {f};
        if f in islands {
          continue;
        }
        islands := ExploreFrom(f, islands, nextIsland);
        ExploredNext(CallPairs(), functions, islands, nextIsland);
        nextIsland := nextIsland + 1;
      }
      FullyExplored(CallPairs(), functions, islands, nextIsland);
    }

    /** Give every function of one island the other island's name; the emptied island is gone. */
    method MergeIslands(islands: Islands, gone: Island, kept: Island) returns (merged: Islands)
      requires gone != kept
      ensures merged == Relabelled(islands, gone, kept)
      ensures gone !in merged.Values
    {
      merged := islands;
      var rest := set f | f in islands && islands[f] == gone;
      while rest != {}
        invariant rest <= islands.Keys && forall f :: f in rest ==> islands[f] == gone
        invariant merged.Keys == islands.Keys
        invariant forall f :: f in islands ==> merged[f] == if islands[f] == gone && f !in rest then kept else islands[f]
        decreases rest
      {
        var f :| f in rest;
        rest := rest - {f};
        merged := merged[f := kept];
      }
    }

    /** Two functions end up on the same island exactly when calls and stored addresses connect them. */
    method MergeCallGraphIslandsForEscapedFunctions(initial: Islands) returns (islands: Islands)
      requires Valid() && SeparatedBy(CallPairs(), functions, initial)
      ensures SeparatedBy(CallPairs() + Escapes(uses, functions), functions, islands)
    {
      islands := initial;
      var rest := functions;
      assert CallPairs() + Escapes(uses, functions - rest) == CallPairs();
      while rest != {}
        invariant rest <= functions
        invariant SeparatedBy(CallPairs() + Escapes(uses, functions - rest), functions, islands)
        decreases rest
      {
        var f :| f in rest;
        EscapesOneMore(uses, functions - rest, f);
        assert functions - (rest - {f}) == functions - rest + {f};
        rest := rest - {f};
        islands := MergeForUses(CallPairs() + Escapes(uses, functions - rest - {f}), f, islands);
        assert functions - rest - {f} + {f} == functions - rest;
        assert CallPairs() + Escapes(uses, functions - rest - {f}) + EscapesOf(f, uses[f]) == CallPairs() + Escapes(uses, functions - rest);
      }
      assert functions - rest == functions;
    }

    method MergeForUses(ghost X: Edges, f: Fun, initial: Islands) returns (islands: Islands)
      requires Valid() && f in functions && SeparatedBy(X, functions, initial)
      ensures SeparatedBy(X + EscapesOf(f, uses[f]), functions, islands)
    {
      islands := initial;
      assert X + EscapesOf(f, []) == X && uses[f][..0] == [];
      for k := 0 to |uses[f]|
        invariant SeparatedBy(X + EscapesOf(f, uses[f][..k]), functions, islands)
      {
        ghost var E := X + EscapesOf(f, uses[f][..k]);
        islands := MergeForUse(E, f, uses[f][k], islands);
        assert uses[f][..k + 1] == uses[f][..k] + [uses[f][k]];
        EscapesAppend(f, uses[f][..k], uses[f][k]);
        assert X + EscapesOf(f, uses[f][..k + 1]) == E + EscapeBy(f, uses[f][k]);
      }
      assert uses[f][..|uses[f]|] == uses[f];
    }

    method MergeForUse(ghost E: Edges, f: Fun, use: Use, initial: Islands) returns (islands: Islands)
      requires f in functions && (use.isInstruction ==> use.inFunction in functions) && SeparatedBy(E, functions, initial)
      ensures SeparatedBy(E + EscapeBy(f, use), functions, islands)
      ensures use.isInstruction && !use.callsIt ==> islands[f] == islands[use.inFunction]
      ensures !use.isInstruction || use.callsIt ==> islands == initial
    {
      islands := initial;
      if !use.isInstruction || use.callsIt {
        assert E + EscapeBy(f, use) == E;
        return;
      }
      var instIsland, fIsland := islands[use.inFunction], islands[f];
      if instIsland == fIsland {
        SeparatedAlready(E, functions, islands, f, use.inFunction);
        return;
      }
      SeparatedAfterMerge(E, functions, islands, f, use.inFunction);
      islands := MergeIslands(islands, instIsland, fIsland);
    }

    method GetIslands() returns (islands: Islands)
      requires Valid()
      ensures SeparatedBy(CallPairs() + Escapes(uses, functions), functions, islands)
      ensures TogetherWhereUsed(islands)
      ensures forall other :: TogetherWhereUsed(other) ==>
                forall f, g :: f in functions && g in functions && islands[f] == islands[g] ==> other[f] == other[g]
    {
      islands := IdentifyCallGraphIslandsByCallInstructions();
      islands := MergeCallGraphIslandsForEscapedFunctions(islands);
      IslandsAreTogether(islands);
      forall other | TogetherWhereUsed(other)
        ensures forall f, g :: f in functions && g in functions && islands[f] == islands[g] ==> other[f] == other[g]
      {
        IslandsAreFinest(islands, other);
      }
    }

    /** A function is on one island with those that call it or may call it, and with those of the instructions
        that use it without calling it. */
    ghost predicate TogetherWhereUsed(islands: Islands)
      reads this
    {
      && islands.Keys == functions
      && (forall f, g :: (f, g) in edges && f in functions && g in functions ==> islands[f] == islands[g])
      && (forall f, k :: f in functions && f in uses && 0 <= k < |uses[f]| && uses[f][k].isInstruction && !uses[f][k].callsIt ==>
            uses[f][k].inFunction in functions ==> islands[f] == islands[uses[f][k].inFunction])
    }

    lemma IslandsAreTogether(islands: Islands)
      requires Valid() && SeparatedBy(CallPairs() + Escapes(uses, functions), functions, islands)
      ensures TogetherWhereUsed(islands)
    {
      var E := CallPairs() + Escapes(uses, functions);
      forall f, g | (f, g) in edges && f in functions && g in functions
        ensures islands[f] == islands[g]
      {
        SymIsSymmetric(E, f, g);
        EdgeReaches(Sym(E), f, g);
      }
      forall f, k | f in functions && f in uses && 0 <= k < |uses[f]| && uses[f][k].isInstruction && !uses[f][k].callsIt && uses[f][k].inFunction in functions
        ensures islands[f] == islands[uses[f][k].inFunction]
      {
        assert (f, uses[f][k].inFunction) in EscapesOf(f, uses[f]);
        SymIsSymmetric(E, f, uses[f][k].inFunction);
        EdgeReaches(Sym(E), f, uses[f][k].inFunction);
      }
    }

    /** No division of the functions that keeps them together there is finer. */
    lemma IslandsAreFinest(islands: Islands, other: Islands)
      requires Valid() && SeparatedBy(CallPairs() + Escapes(uses, functions), functions, islands) && TogetherWhereUsed(other)
      ensures forall f, g :: f in functions && g in functions && islands[f] == islands[g] ==> other[f] == other[g]
    {
      var E := CallPairs() + Escapes(uses, functions);
      forall f, g | (f, g) in Sym(E)
        ensures f in other && g in other && other[f] == other[g]
      {
        SymIsSymmetric(E, f, g);
        UsedTogether(other, f, g);
      }
      forall f, g | f in functions && g in functions && islands[f] == islands[g]
        ensures other[f] == other[g]
      {
        assert Connected(E, f, g);
        if f != g {
          var n: nat :| Walk(Sym(E), f, g, n);
          SameAlongWalk(Sym(E), other, f, g, n);
        }
      }
    }

    lemma UsedTogether(other: Islands, f: Fun, g: Fun)
      requires Valid() && TogetherWhereUsed(other)
      requires (f, g) in CallPairs() + Escapes(uses, functions) || (g, f) in CallPairs() + Escapes(uses, functions)
      ensures f in other && g in other && other[f] == other[g]
    {
      if (f, g) in CallPairs() + Escapes(uses, functions) {
        PairTogether(other, f, g);
      } else {
        PairTogether(other, g, f);
      }
    }

    lemma PairTogether(other: Islands, f: Fun, g: Fun)
      requires Valid() && TogetherWhereUsed(other) && (f, g) in CallPairs() + Escapes(uses, functions)
      ensures f in other && g in other && other[f] == other[g]
    {
      if (f, g) !in edges {
        var k :| 0 <= k < |uses[f]| && uses[f][k].isInstruction && !uses[f][k].callsIt && (f, g) == (f, uses[f][k].inFunction);
      }
    }
  }

  lemma {:induction false} SameAlongWalk(S: Edges, islands: Islands, f: Fun, g: Fun, n: nat)
    requires forall a, b :: (a, b) in S ==> a in islands && b in islands && islands[a] == islands[b]
    requires f in islands && Walk(S, f, g, n)
    ensures g in islands && islands[f] == islands[g]
    decreases n
  {
    if n > 0 {
      var c: Node :| (f, c) in S && Walk(S, c, g, n - 1);
      SameAlongWalk(S, islands, c, g, n - 1);
    }
  }

  lemma MustAfterAdding(before: CallEdge, after: CallEdge, s: SubEdge)
    requires before.isMust <==> exists t :: t in before.subEdges && t.isMust
    requires after.subEdges == before.subEdges + {s} && after.isMust == (before.isMust || s.isMust)
    ensures after.isMust <==> exists t :: t in after.subEdges && t.isMust
  {
    if before.isMust {
      var t :| t in before.subEdges && t.isMust;
      assert t in after.subEdges;
    }
    assert s in after.subEdges;
  }

  lemma CallsAreSubEdges(sites: set<CallSite>, g: Fun)
    ensures SubEdgesOf(sites, g) != {} <==> exists site :: site in sites && (site == Direct(site.inst, g) || (site.Indirect? && g in site.callees))
    ensures (exists s :: s in SubEdgesOf(sites, g) && s.isMust) <==> exists site :: site in sites && site == Direct(site.inst, g)
  {
    if s :| s in SubEdgesOf(sites, g) {
      var site :| site in sites && MayCall(site, g) && s == SubEdge(site.inst, site.Direct?);
      assert site.Direct? ==> site == Direct(site.inst, g);
    }
    if s :| s in SubEdgesOf(sites, g) && s.isMust {
      var site :| site in sites && MayCall(site, g) && s == SubEdge(site.inst, site.Direct?);
      assert site == Direct(site.inst, g);
    }
    if site :| site in sites && (site == Direct(site.inst, g) || (site.Indirect? && g in site.callees)) {
      assert SubEdge(site.inst, site.Direct?) in SubEdgesOf(sites, g);
    }
    if site :| site in sites && site == Direct(site.inst, g) {
      assert SubEdge(site.inst, true) in SubEdgesOf(sites, g);
    }
  }

  lemma SubEdgesOfOneMore(sites: set<CallSite>, site: CallSite, g: Fun)
    ensures SubEdgesOf(sites + {site}, g) == SubEdgesOf(sites, g) + if MayCall(site, g) then {SubEdge(site.inst, site.Direct?)} else {}
  {
  }

  // ----- connection -----

  ghost function Sym(E: Edges): Edges
  {
    E + Reverse(E)
  }

  ghost predicate Connected(E: Edges, a: Fun, b: Fun)
  {
    ReachesEq(Sym(E), a, b)
  }

  lemma SymIsSymmetric(E: Edges, a: Fun, b: Fun)
    ensures (a, b) in Sym(E) <==> (b, a) in Sym(E)
    ensures (a, b) in Sym(E) <==> (a, b) in E || (b, a) in E
    ensures Reverse(Sym(E)) == Sym(E)
  {
    forall x: Node, y: Node
      ensures (x, y) in Sym(E) <==> (x, y) in E || (y, x) in E
      ensures (x, y) in Reverse(Sym(E)) <==> (x, y) in Sym(E)
    {
      ReverseEdge(E, y, x);
      ReverseEdge(E, x, y);
      ReverseEdge(Sym(E), y, x);
    }
  }

  lemma ConnectedSymmetric(E: Edges, a: Fun, b: Fun)
    requires Connected(E, a, b)
    ensures Connected(E, b, a)
  {
    SymIsSymmetric(E, a, b);
    ReachesReverse(Sym(E), a, b);
  }

  lemma ConnectedTransitive(E: Edges, a: Fun, b: Fun, c: Fun)
    requires Connected(E, a, b) && Connected(E, b, c)
    ensures Connected(E, a, c)
  {
    ReachesTrans(Sym(E), a, b, c);
  }

  lemma EdgeConnects(E: Edges, a: Fun, b: Fun)
    requires (a, b) in Sym(E)
    ensures Connected(E, a, b) && Connected(E, b, a)
  {
    EdgeReaches(Sym(E), a, b);
    ConnectedSymmetric(E, a, b);
  }

  lemma ConnectedMore(E: Edges, F: Edges, a: Fun, b: Fun)
    requires E <= F && Connected(E, a, b)
    ensures Connected(F, a, b)
  {
    if a != b {
      assert Sym(E) <= Sym(F);
      ReachesMono(Sym(E), Sym(F), a, b);
    }
  }

  /** The islands of F are exactly the classes of functions connected by E. */
  ghost predicate SeparatedBy(E: Edges, F: set<Fun>, islands: Islands)
  {
    islands.Keys == F && forall f, g :: f in F && g in F ==> (islands[f] == islands[g] <==> Connected(E, f, g))
  }

  // ----- the search -----

  ghost function Elements(s: seq<Fun>): set<Fun>
  {
    set x | x in s
  }

  /** Islands hold connected functions, and with a function all its neighbours, except for the open
      functions of the newest island. */
  ghost predicate Explored(E: Edges, F: set<Fun>, islands: Islands, newest: Island, open: set<Fun>)
  {
    && islands.Keys <= F
    && Within(E, F)
    && (forall x: Fun, y: Fun {:trigger (x, y) in Sym(E)} :: (x, y) in Sym(E) && x in islands && x !in open ==> y in islands && islands[y] == islands[x])
    && (forall x :: x in open ==> x in islands && islands[x] == newest)
    && (forall x, y {:trigger islands[x], islands[y]} :: x in islands && y in islands && islands[x] == islands[y] ==> Connected(E, x, y))
    && (forall x :: x in islands ==> islands[x] <= newest)
  }

  ghost predicate Extends(islands: Islands, grown: Islands)
  {
    islands.Keys <= grown.Keys && forall x :: x in islands ==> grown[x] == islands[x]
  }

  ghost predicate EndsIn(edges: set<(Fun, Fun)>, islands: Islands)
  {
    forall e :: e in edges ==> e.0 in islands && e.1 in islands
  }

  lemma StartIsland(E: Edges, F: set<Fun>, islands: Islands, newest: Island, f: Fun)
    requires Explored(E, F, islands, newest, {}) && f in F && f !in islands && forall x :: x in islands ==> islands[x] < newest
    ensures Explored(E, F, islands[f := newest], newest, Elements([f]))
  {
    assert Elements([f]) == {f};
  }

  /** A function with an open neighbour in the newest island is not on an older island: older islands are closed. */
  lemma NeighbourIsNew(E: Edges, F: set<Fun>, islands: Islands, newest: Island, open: set<Fun>, current: Fun, g: Fun)
    requires Explored(E, F, islands, newest, open) && current in open
    requires g == current || (current, g) in Sym(E)
    requires g !in islands || islands[g] != newest
    ensures g !in islands && (current, g) in Sym(E)
  {
    SymIsSymmetric(E, current, g);
    assert g in islands ==> g !in open;
  }

  lemma AddNeighbour(E: Edges, F: set<Fun>, islands: Islands, newest: Island, open: set<Fun>, current: Fun, g: Fun)
    requires Explored(E, F, islands, newest, open) && current in open && g in F && g !in islands && (current, g) in Sym(E)
    ensures Explored(E, F, islands[g := newest], newest, open + {g})
  {
    EdgeConnects(E, current, g);
    var grown := islands[g := newest];
    forall x: Fun | x in grown && grown[x] == newest
      ensures Connected(E, x, g) && Connected(E, g, x)
    {
      if x != g {
        assert islands[x] == islands[current];
        ConnectedTransitive(E, x, current, g);
        ConnectedSymmetric(E, x, g);
      }
    }
    forall x: Fun, y: Fun {:trigger (x, y) in Sym(E)} | (x, y) in Sym(E) && x in grown && x !in open + {g}
      ensures y in grown && grown[y] == grown[x]
    {
      assert x in islands && y in islands;
    }
  }

  lemma IncidentIsSymmetric(E: Edges, current: Fun, e: (Fun, Fun))
    requires e in E && (e.0 == current || e.1 == current)
    ensures e.0 == current || (current, e.0) in Sym(E)
    ensures e.1 == current || (current, e.1) in Sym(E)
  {
    assert (e.0, e.1) == e;
    SymIsSymmetric(E, e.0, e.1);
  }

  /** With all neighbours of the current function on the island, it is no longer open. */
  lemma CloseCurrent(E: Edges, F: set<Fun>, islands: Islands, newest: Island, todos: set<Fun>, current: Fun, incident: set<(Fun, Fun)>)
    requires Explored(E, F, islands, newest, todos + {current})
    requires incident == set e | e in E && (e.0 == current || e.1 == current)
    requires EndsIn(incident, islands)
    ensures Explored(E, F, islands, newest, todos)
  {
    forall x: Fun, y: Fun {:trigger (x, y) in Sym(E)} | (x, y) in Sym(E) && x in islands && x !in todos
      ensures y in islands && islands[y] == islands[x]
    {
      if x == current {
        SymIsSymmetric(E, x, y);
        assert (x, y) in incident || (y, x) in incident;
        assert y in todos + {current} || islands[x] == islands[y];
      }
    }
  }

  lemma ExploredNext(E: Edges, F: set<Fun>, islands: Islands, newest: Island)
    requires Explored(E, F, islands, newest, {})
    ensures Explored(E, F, islands, newest + 1, {})
  {
  }

  lemma FullyExplored(E: Edges, F: set<Fun>, islands: Islands, newest: Island)
    requires Explored(E, F, islands, newest, {}) && F <= islands.Keys
    ensures SeparatedBy(E, F, islands)
  {
    forall f: Fun, g: Fun | f in F && g in F && Connected(E, f, g)
      ensures islands[f] == islands[g]
    {
      var S := set x: Fun | x in islands && islands[x] == islands[f];
      assert Closed(Sym(E), S);
      ReachesClosed(Sym(E), S, f, g);
    }
  }

  // ----- merging -----

  ghost function EscapeBy(f: Fun, use: Use): Edges
  {
    if use.isInstruction && !use.callsIt then {(f, use.inFunction)} else {}
  }

  ghost function EscapesOf(f: Fun, uses: seq<Use>): Edges
  {
    set k | 0 <= k < |uses| && uses[k].isInstruction && !uses[k].callsIt :: (f, uses[k].inFunction)
  }

  /** From each function to the functions whose instructions use it otherwise than by calling it. */
  ghost function Escapes(uses: map<Fun, seq<Use>>, F: set<Fun>): Edges
  {
    set f, e | f in F && f in uses && e in EscapesOf(f, uses[f]) :: e
  }

  lemma EscapesOneMore(uses: map<Fun, seq<Use>>, F: set<Fun>, f: Fun)
    requires f in uses
    ensures Escapes(uses, F + {f}) == Escapes(uses, F) + EscapesOf(f, uses[f])
  {
  }

  lemma EscapesAppend(f: Fun, uses: seq<Use>, use: Use)
    ensures EscapesOf(f, uses + [use]) == EscapesOf(f, uses) + EscapeBy(f, use)
  {
    var longer := uses + [use];
    forall e | e in EscapesOf(f, uses)
      ensures e in EscapesOf(f, longer)
    {
      var k :| 0 <= k < |uses| && uses[k].isInstruction && !uses[k].callsIt && e == (f, uses[k].inFunction);
      assert longer[k] == uses[k];
    }
    assert longer[|uses|] == use;
  }

  function Relabelled(islands: Islands, gone: Island, kept: Island): Islands
  {
    map f | f in islands :: if islands[f] == gone then kept else islands[f]
  }

  /** One more edge connects exactly what it bridges. */
  lemma {:induction false} BridgeWalk(E: Edges, a: Fun, b: Fun, f: Fun, g: Fun, n: nat)
    requires Walk(Sym(E + {(a, b)}), f, g, n)
    ensures Bridged(E, a, b, f, g)
    decreases n
  {
    if n > 0 {
      var c: Node :| (f, c) in Sym(E + {(a, b)}) && Walk(Sym(E + {(a, b)}), c, g, n - 1);
      BridgeWalk(E, a, b, c, g, n - 1);
      SymIsSymmetric(E + {(a, b)}, f, c);
      SymIsSymmetric(E, f, c);
      if (f, c) in Sym(E) {
        EdgeConnects(E, f, c);
        ConnectedThrough(E, f, c);
      }
    }
  }

  ghost predicate Bridged(E: Edges, a: Fun, b: Fun, f: Fun, g: Fun)
  {
    Connected(E, f, g) || (Connected(E, f, a) && Connected(E, b, g)) || (Connected(E, f, b) && Connected(E, a, g))
  }

  lemma ConnectedThrough(E: Edges, f: Fun, c: Fun)
    requires Connected(E, f, c)
    ensures forall x: Fun {:trigger Connected(E, f, x)} {:trigger Connected(E, c, x)} :: Connected(E, c, x) ==> Connected(E, f, x)
  {
    forall x: Fun {:trigger Connected(E, f, x)} | Connected(E, c, x)
      ensures Connected(E, f, x)
    {
      ConnectedTransitive(E, f, c, x);
    }
  }

  lemma BridgeIff(E: Edges, a: Fun, b: Fun, f: Fun, g: Fun)
    ensures Connected(E + {(a, b)}, f, g) <==> Bridged(E, a, b, f, g)
  {
    var X := E + {(a, b)};
    if Connected(X, f, g) && f != g {
      var n: nat :| n > 0 && Walk(Sym(X), f, g, n);
      BridgeWalk(E, a, b, f, g, n);
    }
    SymIsSymmetric(X, a, b);
    EdgeConnects(X, a, b);
    if Connected(E, f, g) {
      ConnectedMore(E, X, f, g);
    } else if Connected(E, f, a) && Connected(E, b, g) {
      ConnectedMore(E, X, f, a);
      ConnectedMore(E, X, b, g);
      ConnectedTransitive(X, f, a, b);
      ConnectedTransitive(X, f, b, g);
    } else if Connected(E, f, b) && Connected(E, a, g) {
      ConnectedMore(E, X, f, b);
      ConnectedMore(E, X, a, g);
      ConnectedTransitive(X, f, b, a);
      ConnectedTransitive(X, f, a, g);
    }
  }

  lemma SeparatedAfterMerge(E: Edges, F: set<Fun>, islands: Islands, f: Fun, g: Fun)
    requires SeparatedBy(E, F, islands) && f in F && g in F && islands[f] != islands[g]
    ensures SeparatedBy(E + {(f, g)}, F, Relabelled(islands, islands[g], islands[f]))
  {
    var merged := Relabelled(islands, islands[g], islands[f]);
    forall x: Fun, y: Fun | x in F && y in F
      ensures merged[x] == merged[y] <==> Connected(E + {(f, g)}, x, y)
    {
      BridgeIff(E, f, g, x, y);
    }
  }

  lemma SeparatedAlready(E: Edges, F: set<Fun>, islands: Islands, f: Fun, g: Fun)
    requires SeparatedBy(E, F, islands) && f in F && g in F && islands[f] == islands[g]
    ensures SeparatedBy(E + {(f, g)}, F, islands)
  {
    forall x: Fun, y: Fun | x in F && y in F
      ensures islands[x] == islands[y] <==> Connected(E + {(f, g)}, x, y)
    {
      BridgeIff(E, f, g, x, y);
      assert Connected(E, x, f) <==> islands[x] == islands[f];
    }
  }
}
