/** The partition graph of SCCs, edited in place: building it, merging sets, collapsing the
    cycles a merge creates, and listing the sets in depth order. */
module SccPartition {
  import opened Graph
  import opened Options
  import opened PartitionSpec

  /** All nodes reachable from start by one or more edges, found with a queue and a visited set. */
  method DescendantsOf(E: Edges, S: set<Node>, start: Node) returns (descendants: set<Node>)
    requires Within(E, S)
    ensures forall x: Node :: x in descendants <==> Reaches(E, start, x)
    ensures descendants <= S
  {
    descendants := {};
    var queue := [start];
    while queue != []
      invariant descendants <= S
      invariant forall x :: x in descendants ==> Reaches(E, start, x)
      invariant forall x :: x in queue ==> x == start || x in descendants
      invariant forall x, y :: (x == start || x in descendants) && x !in queue && (x, y) in E ==> y in descendants
      decreases S - descendants, |queue|
    {
      var node := queue[0];
      queue := queue[1..];
      var children := set e | e in E && e.0 == node :: e.1;
      assert forall y :: (node, y) in E ==> y in children by {
        forall y | (node, y) in E ensures y in children {
          assert (node, y).0 == node;
        }
      }
      ghost var S0, Q0 := S - descendants, |queue|;
      while children != {}
        invariant descendants <= S
        invariant forall y :: y in children ==> (node, y) in E
        invariant forall y :: (node, y) in E ==> y in children || y in descendants
        invariant forall x :: x in descendants ==> Reaches(E, start, x)
        invariant forall x :: x in queue ==> x == start || x in descendants
        invariant node == start || node in descendants
        invariant forall x, y :: (x == start || x in descendants) && x != node && x !in queue && (x, y) in E ==> y in descendants
        invariant S - descendants < S0 || (S - descendants == S0 && |queue| == Q0)
        decreases children
      {
        var child :| child in children;
        children := children - {child};
        if child !in descendants {
          EdgeReaches(E, node, child);
          ReachesTrans(E, start, node, child);
          queue := queue + [child];
          descendants := descendants + {child};
        }
      }
    }
    forall x: Node | Reaches(E, start, x)
      ensures x in descendants
    {
      var c := ReachesFirst(E, start, x);
      ReachesClosed(E, descendants, c, x);
    }
  }

  method AncestorsOf(E: Edges, S: set<Node>, start: Node) returns (ancestors: set<Node>)
    requires Within(E, S)
    ensures forall x: Node :: x in ancestors <==> Reaches(E, x, start)
    ensures ancestors <= S
  {
    var R := set e | e in E :: (e.1, e.0);
    assert R == Reverse(E);
    forall a: Node, b: Node | (a, b) in R ensures a in S && b in S {
      ReverseEdge(E, b, a);
    }
    ancestors := DescendantsOf(R, S, start);
    forall x: Node ensures x in ancestors <==> Reaches(E, x, start) {
      ReachesReverse(E, x, start);
    }
  }

  ghost function ComponentOf(E: Edges, S: set<Node>, x: Node): set<Node>
  {
    set y | y in S && SameScc(E, x, y)
  }

  ghost predicate IsComponent(E: Edges, S: set<Node>, c: set<Node>)
  {
    exists x :: x in S && c == ComponentOf(E, S, x)
  }

  lemma ComponentOfMember(E: Edges, S: set<Node>, x: Node, y: Node)
    requires SameScc(E, x, y)
    ensures ComponentOf(E, S, y) == ComponentOf(E, S, x)
  {
    forall z: Node
      ensures SameScc(E, x, z) <==> SameScc(E, y, z)
    {
      if SameScc(E, x, z) {
        SccTrans(E, y, x, z);
      } else if SameScc(E, y, z) {
        SccTrans(E, x, y, z);
      }
    }
  }

  lemma ComponentNonEmpty(E: Edges, S: set<Node>, c: set<Node>)
    requires IsComponent(E, S, c)
    ensures c != {}
  {
    var x :| x in S && c == ComponentOf(E, S, x);
    assert x in c;
  }

  /** A component is the component of each of its members. */
  lemma ComponentIsOf(E: Edges, S: set<Node>, c: set<Node>, y: Node)
    requires IsComponent(E, S, c) && y in c
    ensures c == ComponentOf(E, S, y) && c <= S
  {
    var x :| x in S && c == ComponentOf(E, S, x);
    ComponentOfMember(E, S, x, y);
  }

  /** Every strongly connected component reachable from the entry, as a set of nodes.
      Stands for the graph library's SCC iterator, of which only this contract is used. */
  method ComponentsFrom(E: Edges, S: set<Node>, entry: Node) returns (components: seq<set<Node>>)
    requires Within(E, S) && entry in S
    ensures forall c :: c in components ==> IsComponent(E, S, c)
    ensures forall x :: x in S && ReachesEq(E, entry, x) ==> ComponentOf(E, S, x) in components
  {
    var below := DescendantsOf(E, S, entry);
    var rest := below + {entry};
    components := [];
    while rest != {}
      invariant rest <= S
      invariant forall c :: c in components ==> IsComponent(E, S, c)
      invariant forall x :: x in S && ReachesEq(E, entry, x) ==> x in rest || ComponentOf(E, S, x) in components
      decreases rest
    {
      var x :| x in rest;
      var down := DescendantsOf(E, S, x);
      var up := AncestorsOf(E, S, x);
      var c := {x} + down * up;
      assert c == ComponentOf(E, S, x);
      components := components + [c];
      forall y | y in c ensures ComponentOf(E, S, y) == c {
        ComponentOfMember(E, S, x, y);
      }
      rest := rest - c;
    }
  }

  ghost function DependencesOf(sccToParents: map<Scc, set<Scc>>): Edges
  {
    set c, p | c in sccToParents && p in sccToParents[c] :: (p, c)
  }

  lemma DependenceIsParent(sccToParents: map<Scc, set<Scc>>, parent: Scc, scc: Scc)
    ensures (parent, scc) in DependencesOf(sccToParents) <==> scc in sccToParents && parent in sccToParents[scc]
  {
  }

  /** The edges of the quotient, read off the map of parents: from the set of a parent to that of its child. */
  lemma ParentEdges(p: Assignment, sccToParents: map<Scc, set<Scc>>)
    ensures forall a: SetId, b: SetId :: (a, b) in QuotientWithLoops(p, DependencesOf(sccToParents)) <==>
              exists scc: Scc, parent: Scc :: scc in p && parent in p && scc in sccToParents && parent in sccToParents[scc] && p[parent] == a && p[scc] == b
  {
    var D := DependencesOf(sccToParents);
    forall a: SetId, b: SetId
      ensures (a, b) in QuotientWithLoops(p, D) <==>
              exists scc: Scc, parent: Scc :: scc in p && parent in p && scc in sccToParents && parent in sccToParents[scc] && p[parent] == a && p[scc] == b
    {
      if (a, b) in QuotientWithLoops(p, D) {
        var e :| e in D && e.0 in p && e.1 in p && (a, b) == (p[e.0], p[e.1]);
        DependenceIsParent(sccToParents, e.0, e.1);
      }
      if scc: Scc, parent: Scc :| scc in p && parent in p && scc in sccToParents && parent in sccToParents[scc] && p[parent] == a && p[scc] == b {
        var e := (parent, scc);
        assert e in D;
      }
    }
  }

  lemma InnerParents(p: Assignment, sccToParents: map<Scc, set<Scc>>)
    ensures (forall x, y :: (x, y) in DependencesOf(sccToParents) && x in p && y in p ==> p[x] != p[y]) <==>
            (forall scc: Scc, parent: Scc :: scc in p && parent in p && scc in sccToParents && parent in sccToParents[scc] ==> p[parent] != p[scc])
  {
    forall scc: Scc, parent: Scc
      ensures (parent, scc) in DependencesOf(sccToParents) <==> scc in sccToParents && parent in sccToParents[scc]
    {
      DependenceIsParent(sccToParents, parent, scc);
    }
  }

  /** In an order of the quotient the set of a parent comes before the set of its child. */
  lemma ParentSetsFirst(p: Assignment, sccToParents: map<Scc, set<Scc>>, E: Edges, S: set<SetId>, order: seq<SetId>)
    requires E == Quotient(p, DependencesOf(sccToParents)) && p.Values <= S && DepthOrder(E, S, order)
    ensures forall scc: Scc, parent: Scc {:trigger p[parent], p[scc]} ::
              scc in p && parent in p && scc in sccToParents && parent in sccToParents[scc] && p[parent] != p[scc] ==>
                exists i, j :: 0 <= i < j < |order| && order[i] == p[parent] && order[j] == p[scc]
  {
    forall scc: Scc, parent: Scc {:trigger p[parent], p[scc]} |
      scc in p && parent in p && scc in sccToParents && parent in sccToParents[scc] && p[parent] != p[scc]
      ensures exists i, j :: 0 <= i < j < |order| && order[i] == p[parent] && order[j] == p[scc]
    {
      DependenceIsParent(sccToParents, parent, scc);
      QuotientEdge(p, DependencesOf(sccToParents), p[parent], p[scc]);
      assert p[parent] in order && p[scc] in order;
      var i :| 0 <= i < |order| && order[i] == p[parent];
      var j :| 0 <= j < |order| && order[j] == p[scc];
    }
  }

  lemma AddDependence(p: Assignment, D: Edges, x: Scc, y: Scc)
    ensures QuotientWithLoops(p, D + {(x, y)}) ==
            QuotientWithLoops(p, D) + (if x in p && y in p then {(p[x], p[y])} else {})
  {
    var L := QuotientWithLoops(p, D);
    var M := QuotientWithLoops(p, D + {(x, y)});
    forall e | e in D && e.0 in p && e.1 in p
      ensures (p[e.0], p[e.1]) in M
    {
      assert e in D + {(x, y)};
    }
    if x in p && y in p {
      var e := (x, y);
      assert e in D + {(x, y)} && (p[e.0], p[e.1]) in M;
    }
  }

  lemma AddUnmapped(p: Assignment, D: Edges, F: Edges)
    requires forall d :: d in F ==> d.1 !in p
    ensures QuotientWithLoops(p, D + F) == QuotientWithLoops(p, D)
  {
  }

  lemma LoopsOnly(p: Assignment, R: Edges)
    ensures QuotientWithLoops(p, R) == Quotient(p, R) <==>
            forall x, y :: (x, y) in R && x in p && y in p ==> p[x] != p[y]
  {
    if x, y :| (x, y) in R && x in p && y in p && p[x] == p[y] {
      var e := (x, y);
      assert e in R;
      assert (p[x], p[y]) in QuotientWithLoops(p, R);
      QuotientEdge(p, R, p[x], p[y]);
    } else {
      forall e | e in R && e.0 in p && e.1 in p
        ensures p[e.0] != p[e.1]
      {
        assert (e.0, e.1) in R;
      }
    }
  }

  /** p maps exactly the members of the j-th set to j. */
  ghost predicate Numbered(p: Assignment, sets: seq<set<Scc>>)
  {
    && (forall x :: x in p ==> 0 <= p[x] < |sets| && x in sets[p[x]])
    && (forall j, x :: 0 <= j < |sets| && x in sets[j] ==> x in p && p[x] == j)
  }

  lemma NumberedExtend(p: Assignment, sets: seq<set<Scc>>, i: nat)
    requires i < |sets| && Numbered(p, sets[..i])
    requires forall j :: 0 <= j < i ==> sets[j] !! sets[i]
    ensures Numbered(p + map x | x in sets[i] :: i, sets[..i + 1])
  {
    var q := p + map x | x in sets[i] :: i;
    forall x | x in q
      ensures 0 <= q[x] < i + 1 && x in sets[..i + 1][q[x]]
    {
      if x !in sets[i] {
        assert x in sets[..i][p[x]];
      }
    }
    forall j, x {:trigger x in sets[..i + 1][j]} | 0 <= j < i + 1 && x in sets[..i + 1][j]
      ensures x in q && q[x] == j
    {
      if j < i {
        assert x in sets[..i][j];
      }
    }
  }

  /** With no initial set empty, the numbering uses every number. */
  lemma NumberedMembers(p: Assignment, sets: seq<set<Scc>>, i: nat)
    requires Numbered(p, sets) && i < |sets| && sets[i] != {}
    ensures i in p.Values && Members(p, i) == sets[i]
  {
    var x :| x in sets[i];
    assert p[x] == i;
  }

  lemma ValuesAreNumbers(p: Assignment, sets: seq<set<Scc>>)
    requires Numbered(p, sets)
    ensures forall s :: s in p.Values ==> 0 <= s < |sets|
  {
  }

  /** The edges a merge of `sets` adds into the merged set, on behalf of the members in done. */
  ghost function MovedIn(E: Edges, sets: set<SetId>, done: set<SetId>, merged: SetId): Edges
  {
    set e | e in E && e.1 in done && e.0 !in sets :: (e.0, merged)
  }

  ghost function MovedOut(E: Edges, sets: set<SetId>, done: set<SetId>, merged: SetId): Edges
  {
    set e | e in E && e.0 in done && e.1 !in sets :: (merged, e.1)
  }

  lemma MovedStep(E: Edges, sets: set<SetId>, done: set<SetId>, s: SetId, m: SetId)
    ensures MovedIn(E, sets, done + {s}, m) ==
            MovedIn(E, sets, done, m) + set e | e in (set d | d in E && d.1 == s) && e.0 !in sets :: (e.0, m)
    ensures MovedOut(E, sets, done + {s}, m) ==
            MovedOut(E, sets, done, m) + set e | e in (set d | d in E && d.0 == s) && e.1 !in sets :: (m, e.1)
  {
  }

  /** No moved edge touches a set that is being merged. */
  lemma TouchingAreOld(E: Edges, sets: set<SetId>, d1: set<SetId>, d2: set<SetId>, s: SetId, m: SetId)
    requires s in sets && m !in sets
    ensures var A := E + MovedIn(E, sets, d1, m) + MovedOut(E, sets, d2, m);
            (set e | e in A && e.1 == s) == (set e | e in E && e.1 == s)
            && (set e | e in A && e.0 == s) == (set e | e in E && e.0 == s)
  {
  }

  /** The old edges outside the merged sets together with the moved ones are the contracted graph. */
  lemma MovedIsContract(E: Edges, sets: set<SetId>, m: SetId)
    requires forall e :: e in E ==> e.0 != e.1
    requires forall e :: e in E ==> e.0 != m && e.1 != m
    requires m !in sets
    ensures Contract(E, sets, m) ==
            set e | e in E + MovedIn(E, sets, sets, m) + MovedOut(E, sets, sets, m) && e.0 !in sets && e.1 !in sets
  {
    var A := E + MovedIn(E, sets, sets, m) + MovedOut(E, sets, sets, m);
    forall a: Node, b: Node
      ensures (a, b) in Contract(E, sets, m) <==> (a, b) in A && a !in sets && b !in sets
    {
      ContractEdge(E, sets, m, a, b);
      if x, y :| a != b && (x, y) in E && Image(sets, m, x) == a && Image(sets, m, y) == b {
        var e := (x, y);
        assert e in E;
      }
      if (a, b) in MovedIn(E, sets, sets, m) {
        var e :| e in E && e.1 in sets && e.0 !in sets && (a, b) == (e.0, m);
        assert (e.0, e.1) in E;
      }
      if (a, b) in MovedOut(E, sets, sets, m) {
        var e :| e in E && e.0 in sets && e.1 !in sets && (a, b) == (m, e.1);
        assert (e.0, e.1) in E;
      }
      if (a, b) in E && a !in sets && b !in sets {
        var e := (a, b);
        assert e in E && e.0 != e.1;
      }
    }
  }

  lemma MembersNonEmpty(p: Assignment, s: SetId)
    requires s in p.Values
    ensures Members(p, s) != {}
  {
    var x :| x in p && p[x] == s;
    assert x in Members(p, s);
  }

  /** Looking at any one member tells whether a set was merged. */
  lemma FusedIffIn(p: Assignment, sets: set<SetId>, m: SetId, s: SetId, x: Scc)
    requires m !in p.Values && x in Members(p, s)
    ensures Fuse(p, sets, m)[x] == m <==> s in sets
  {
    assert p[x] in p.Values;
  }

  lemma FusedMembers(p: Assignment, sets: set<SetId>, m: SetId)
    requires sets != {} && sets <= p.Values && m !in p.Values
    ensures var f := Fuse(p, sets, m);
            f.Values == p.Values - sets + {m}
            && (forall s :: s in p.Values - sets ==> Members(f, s) == Members(p, s))
            && Members(f, m) == set x | x in p && p[x] in sets
  {
    var f := Fuse(p, sets, m);
    var s :| s in sets;
    var x :| x in p && p[x] == s;
    assert f[x] == m;
    forall s | s in p.Values - sets
      ensures s in f.Values
    {
      var y :| y in p && p[y] == s;
      assert f[y] == s;
    }
  }

  /** cs lists the strongly connected components of the nodes in V, each once. */
  ghost predicate ComponentsOver(E: Edges, S: set<Node>, cs: seq<set<SetId>>, V: set<SetId>)
  {
    && (forall c :: c in cs ==> c <= V && IsComponent(E, S, c))
    && (forall i, j :: 0 <= i < j < |cs| ==> cs[i] !! cs[j])
    && (forall x :: x in V ==> x in S && ComponentOf(E, S, x) in cs)
  }

  ghost predicate Components(E: Edges, S: set<Node>, cs: seq<set<SetId>>)
  {
    ComponentsOver(E, S, cs, S)
  }

  lemma ComponentsExtend(E: Edges, S: set<Node>, cs: seq<set<SetId>>, V: set<SetId>, c: set<SetId>, first: SetId)
    requires ComponentsOver(E, S, cs, V) && IsComponent(E, S, c) && first in c && first !in V
    ensures ComponentsOver(E, S, cs + [c], V + c)
  {
    ComponentIsOf(E, S, c, first);
    forall i | 0 <= i < |cs| ensures cs[i] !! c {
      assert cs[i] in cs;
      if y :| y in cs[i] && y in c {
        ComponentIsOf(E, S, c, y);
        ComponentIsOf(E, S, cs[i], y);
      }
    }
    forall x | x in c ensures x in S && ComponentOf(E, S, x) == c {
      ComponentIsOf(E, S, c, x);
    }
  }

  /** Keep the components that have not been visited before. */
  method AddNewComponents(ghost E: Edges, ghost S: set<Node>, components: seq<set<SetId>>, cs: seq<set<SetId>>, V: set<SetId>)
    returns (collapsedSets: seq<set<SetId>>, visited: set<SetId>)
    requires ComponentsOver(E, S, cs, V)
    requires forall c :: c in components ==> IsComponent(E, S, c)
    ensures ComponentsOver(E, S, collapsedSets, visited) && V <= visited
    ensures forall c :: c in components ==> c <= visited
  {
    collapsedSets, visited := cs, V;
    for i := 0 to |components|
      invariant ComponentsOver(E, S, collapsedSets, visited) && V <= visited
      invariant forall j :: 0 <= j < i ==> components[j] <= visited
    {
      var component := components[i];
      ComponentNonEmpty(E, S, component);
      var first :| first in component;
      ComponentIsOf(E, S, component, first);
      if first in visited {
        continue;
      }
      ComponentsExtend(E, S, collapsedSets, visited, component, first);
      visited := visited + component;
      collapsedSets := collapsedSets + [component];
    }
  }

  ghost predicate Together(p: Assignment, cs: seq<set<SetId>>, n: nat, x: Scc, y: Scc)
    requires x in p && y in p && n <= |cs|
  {
    p[x] == p[y] || exists j :: 0 <= j < n && p[x] in cs[j] && p[y] in cs[j]
  }

  /** q is p with the first n components merged and the others untouched. */
  ghost predicate CollapsedUpTo(p: Assignment, cs: seq<set<SetId>>, n: nat, q: Assignment)
  {
    && n <= |cs| && q.Keys == p.Keys
    && (forall x, y :: x in p && y in p ==> (q[x] == q[y] <==> Together(p, cs, n, x, y)))
    && (forall x, j, s :: x in p && n <= j < |cs| && s in cs[j] ==> (q[x] == s <==> p[x] == s))
    && (forall i, j :: 0 <= i < j < |cs| ==> cs[i] !! cs[j])
    && (forall c :: c in cs ==> c <= p.Values)
  }

  lemma UntouchedInValues(p: Assignment, cs: seq<set<SetId>>, n: nat, q: Assignment)
    requires CollapsedUpTo(p, cs, n, q) && n < |cs|
    ensures cs[n] <= q.Values
  {
    assert cs[n] in cs;
    forall s | s in cs[n] ensures s in q.Values {
      var x :| x in p && p[x] == s;
      assert q[x] == s;
    }
  }

  lemma CollapseStep(p: Assignment, cs: seq<set<SetId>>, n: nat, q: Assignment, m: SetId)
    requires CollapsedUpTo(p, cs, n, q) && n < |cs| && m !in q.Values
    ensures CollapsedUpTo(p, cs, n + 1, Fuse(q, cs[n], m))
  {
    var r := Fuse(q, cs[n], m);
    forall x | x in p
      ensures q[x] in cs[n] <==> p[x] in cs[n]
      ensures q[x] != m
    {
      assert q[x] in q.Values;
      if q[x] in cs[n] {
        assert q[x] == p[x];
      }
    }
    forall x, y | x in p && y in p
      ensures r[x] == r[y] <==> Together(p, cs, n + 1, x, y)
    {
      if p[x] in cs[n] && p[y] in cs[n] {
        assert Together(p, cs, n + 1, x, y);
      } else if Together(p, cs, n, x, y) {
        assert q[x] == q[y];
      }
    }
    forall x, j, s | x in p && n + 1 <= j < |cs| && s in cs[j]
      ensures r[x] == s <==> p[x] == s
    {
      assert cs[n] !! cs[j];
      UntouchedInValues(p, cs, n, q);
      assert cs[j] in cs;
      var y :| y in p && p[y] == s;
      assert q[y] == s;
    }
  }

  lemma SingletonStep(p: Assignment, cs: seq<set<SetId>>, n: nat, q: Assignment)
    requires CollapsedUpTo(p, cs, n, q) && n < |cs| && |cs[n]| <= 1
    ensures CollapsedUpTo(p, cs, n + 1, q)
  {
    forall a, b | a in cs[n] && b in cs[n] ensures a == b {
      SubsetSize({a, b}, cs[n]);
    }
  }

  lemma CollapsedIsCollapseOf(p: Assignment, R: Edges, cs: seq<set<SetId>>, q: Assignment)
    requires CollapsedUpTo(p, cs, |cs|, q) && Components(Quotient(p, R), p.Values, cs)
    ensures CollapseOf(p, R, q)
  {
    forall x, y | x in p && y in p
      ensures q[x] == q[y] <==> SameScc(Quotient(p, R), p[x], p[y])
    {
      TogetherIffSameScc(Quotient(p, R), p, cs, x, y);
    }
  }

  lemma TogetherIffSameScc(E: Edges, p: Assignment, cs: seq<set<SetId>>, x: Scc, y: Scc)
    requires x in p && y in p && Components(E, p.Values, cs)
    ensures Together(p, cs, |cs|, x, y) <==> SameScc(E, p[x], p[y])
  {
    assert p[x] in p.Values && p[y] in p.Values;
    if SameScc(E, p[x], p[y]) {
      var c := ComponentOf(E, p.Values, p[x]);
      var j :| 0 <= j < |cs| && cs[j] == c;
    } else if j :| 0 <= j < |cs| && p[x] in cs[j] && p[y] in cs[j] {
      ComponentIsOf(E, p.Values, cs[j], p[x]);
    }
  }

  /** Every set once, and after all of its parents. */
  ghost predicate DepthOrder(E: Edges, S: set<Node>, order: seq<SetId>)
  {
    && (forall s :: s in order <==> s in S)
    && (forall i, j :: 0 <= i < j < |order| ==> order[i] != order[j])
    && (forall i, j :: 0 <= i < |order| && 0 <= j < |order| && (order[i], order[j]) in E ==> i < j)
  }

  ghost predicate ParentsFirst(E: Edges, order: seq<SetId>)
  {
    && (forall i, j :: 0 <= i < j < |order| ==> order[i] != order[j])
    && (forall j, a :: 0 <= j < |order| && (a, order[j]) in E ==> a in order[..j])
  }

  lemma ParentsFirstExtend(E: Edges, order: seq<SetId>, s: SetId)
    requires ParentsFirst(E, order) && s !in order
    requires forall a :: (a, s) in E ==> a in order
    ensures ParentsFirst(E, order + [s])
  {
    var longer := order + [s];
    forall j, a | 0 <= j < |longer| && (a, longer[j]) in E
      ensures a in longer[..j]
    {
      if j < |order| {
        assert longer[..j] == order[..j];
      } else {
        assert longer[..j] == order;
      }
    }
  }

  function ParentsOf(E: Edges, s: SetId): (parents: set<SetId>)
    ensures forall a :: a in parents <==> (a, s) in E
  {
    var parents := set e | e in E && e.1 == s :: e.0;
    assert forall a :: (a, s) in E ==> a in parents by {
      forall a | (a, s) in E ensures a in parents {
        assert (a, s).1 == s;
      }
    }
    parents
  }

  function ChildrenOf(E: Edges, s: SetId): (children: set<SetId>)
    ensures forall b :: b in children <==> (s, b) in E
  {
    var children := set e | e in E && e.0 == s :: e.1;
    assert forall b :: (s, b) in E ==> b in children by {
      forall b | (s, b) in E ensures b in children {
        assert (s, b).0 == s;
      }
    }
    children
  }

  /** The nodes without an incoming edge. */
  function TopLevelNodes(E: Edges, S: set<Node>): (roots: set<SetId>)
    ensures forall s :: s in roots <==> s in S && forall a :: (a, s) !in E
  {
    var roots := set s | s in S && forall e :: e in E ==> e.1 != s;
    assert forall s :: s in S ==> (s in roots <==> forall a :: (a, s) !in E) by {
      forall s | s in S
        ensures s in roots <==> forall a :: (a, s) !in E
      {
        if s in roots {
          assert forall a :: (a, s) in E ==> (a, s).1 != s;
        } else {
          var e :| e in E && e.1 == s;
          assert (e.0, s) == e;
        }
      }
    }
    roots
  }

  /** A set with all parents placed is placed or waiting. */
  ghost predicate ReadyAreQueued(E: Edges, S: set<Node>, order: seq<SetId>, queue: seq<SetId>)
  {
    forall s {:trigger s in queue} {:trigger s in order} :: s in S && s !in order && ParentsOf(E, s) <= Elements(order) ==> s in queue
  }

  lemma RootsReady(E: Edges, S: set<Node>, queue: seq<SetId>)
    requires forall s :: s in TopLevelNodes(E, S) ==> s in queue
    ensures ReadyAreQueued(E, S, [], queue)
  {
    forall s | s in S && ParentsOf(E, s) <= Elements([])
      ensures s in queue
    {
      forall a ensures (a, s) !in E {
        assert a !in ParentsOf(E, s);
      }
    }
  }

  lemma ReadyAfterSkip(E: Edges, S: set<Node>, order: seq<SetId>, queue: seq<SetId>)
    requires queue != [] && ReadyAreQueued(E, S, order, queue)
    requires queue[0] in order || !(ParentsOf(E, queue[0]) <= Elements(order))
    ensures ReadyAreQueued(E, S, order, queue[1..])
  {
    forall s | s in S && s !in order && ParentsOf(E, s) <= Elements(order)
      ensures s in queue[1..]
    {
      assert s in queue && s != queue[0];
    }
  }

  lemma ReadyAfterPlacing(E: Edges, S: set<Node>, order: seq<SetId>, queue: seq<SetId>, longer: seq<SetId>)
    requires queue != [] && ReadyAreQueued(E, S, order, queue)
    requires forall s :: s in queue[1..] || (queue[0], s) in E ==> s in longer
    ensures ReadyAreQueued(E, S, order + [queue[0]], longer)
  {
    var placed := order + [queue[0]];
    forall s | s in S && s !in placed && ParentsOf(E, s) <= Elements(placed)
      ensures s in longer
    {
      if queue[0] !in ParentsOf(E, s) {
        assert ParentsOf(E, s) <= Elements(order);
        assert s in queue && s != queue[0];
      }
    }
  }

  lemma NothingReady(E: Edges, S: set<Node>, order: seq<SetId>)
    requires ReadyAreQueued(E, S, order, [])
    ensures forall s :: s in S && s !in order ==> exists a :: (a, s) in E && a !in order
  {
    forall s | s in S && s !in order
      ensures exists a :: (a, s) in E && a !in order
    {
      assert s !in [];
      var a :| a in ParentsOf(E, s) && a !in Elements(order);
    }
  }

  /** A graph without a root has a cycle or no node. */
  lemma NoRoots(E: Edges, S: set<Node>)
    requires Within(E, S) && TopLevelNodes(E, S) == {}
    ensures S == {} || !Acyclic(E)
  {
    if S != {} {
      forall b: Node | b in S
        ensures exists a: Node :: a in S && (a, b) in E
      {
        assert b !in TopLevelNodes(E, S);
        var a :| (a, b) in E;
      }
      PredecessorsForceCycle(E, S, S);
    }
  }

  lemma DepthOrderComplete(E: Edges, S: set<Node>, order: seq<SetId>)
    requires Within(E, S) && ParentsFirst(E, order) && forall s :: s in order ==> s in S
    requires forall s :: s in S && s !in order ==> exists a :: (a, s) in E && a !in order
    ensures |order| == |S| <==> Acyclic(E)
    ensures |order| == |S| ==> DepthOrder(E, S, order)
  {
    DistinctSize(order);
    SubsetSize(Elements(order), S);
    assert Elements(order) < S || Elements(order) == S;
    if Acyclic(E) {
      AcyclicListsAll(E, S, order);
    }
    if |order| == |S| {
      forall i, j | 0 <= i < |order| && 0 <= j < |order| && (order[i], order[j]) in E
        ensures i < j
      {
        assert order[i] in order[..j];
      }
      DepthOrderAcyclic(E, S, order);
    }
  }

  lemma AcyclicListsAll(E: Edges, S: set<Node>, order: seq<SetId>)
    requires Within(E, S) && Acyclic(E)
    requires forall s :: s in S && s !in order ==> exists a :: (a, s) in E && a !in order
    ensures S <= Elements(order)
  {
    var missing := S - Elements(order);
    if missing == {} {
      forall s | s in S ensures s in Elements(order) {
        assert s !in missing;
      }
    } else {
      forall b: Node | b in missing
        ensures exists a: Node :: a in missing && (a, b) in E
      {
        var a :| (a, b) in E && a !in order;
        assert a in missing;
      }
      PredecessorsForceCycle(E, S, missing);
    }
  }

  /** A graph that can be listed with all parents first has no cycle. */
  lemma DepthOrderAcyclic(E: Edges, S: set<Node>, order: seq<SetId>)
    requires Within(E, S) && DepthOrder(E, S, order)
    ensures Acyclic(E)
  {
    forall a: Node ensures !Reaches(E, a, a) {
      if Reaches(E, a, a) {
        var n: nat :| n > 0 && Walk(E, a, a, n);
        WalkClimbs(E, S, order, a, a, n);
        var b := ReachesFirst(E, a, a);
      }
    }
  }

  ghost function Elements(s: seq<SetId>): set<SetId>
  {
    set x | x in s
  }

  lemma {:induction false} DistinctSize(s: seq<SetId>)
    requires forall i, j :: 0 <= i < j < |s| ==> s[i] != s[j]
    ensures |Elements(s)| == |s|
  {
    if s == [] {
      assert Elements(s) == {};
    } else {
      var last := s[|s| - 1];
      var front := s[..|s| - 1];
      DistinctSize(front);
      assert s == front + [last] && last !in front;
      assert Elements(s) == Elements(front) + {last};
    }
  }

  lemma {:induction false} WalkClimbs(E: Edges, S: set<Node>, order: seq<SetId>, a: Node, b: Node, n: nat)
    requires Within(E, S) && DepthOrder(E, S, order) && n > 0 && Walk(E, a, b, n)
    ensures forall i, j :: 0 <= i < |order| && 0 <= j < |order| && order[i] == a && order[j] == b ==> i < j
    decreases n
  {
    var c :| (a, c) in E && Walk(E, c, b, n - 1);
    if n > 1 {
      WalkClimbs(E, S, order, c, b, n - 1);
      assert c in order;
      var k :| 0 <= k < |order| && order[k] == c;
    }
  }

  method EnqueueAll(queue: seq<SetId>, sets: set<SetId>) returns (longer: seq<SetId>)
    ensures forall s :: s in longer <==> s in queue || s in sets
  {
    longer := queue;
    var rest := sets;
    while rest != {}
      invariant rest <= sets
      invariant forall s :: s in longer <==> s in queue || s in sets - rest
      decreases rest
    {
      var s :| s in rest;
      rest := rest - {s};
      longer := longer + [s];
    }
  }

  method AllIn(sets: set<SetId>, encountered: set<SetId>) returns (all: bool)
    ensures all <==> sets <= encountered
  {
    all := true;
    var rest := sets;
    while rest != {}
      invariant rest <= sets
      invariant all <==> sets - rest <= encountered
      decreases rest
    {
      var s :| s in rest;
      rest := rest - {s};
      all := all && s in encountered;
    }
  }

  class SccdagPartition {
    ghost const sccToParents: map<Scc, set<Scc>>
    ghost const depends: Edges
    var sccToSet: Assignment
    var nodes: map<SetId, set<Scc>>
    var edges: Edges
    var nextSet: SetId

    /** The nodes are the sets of the assignment and the edges are its quotient graph. */
    ghost predicate Valid()
      reads this
    {
      && Represents()
      && depends == DependencesOf(sccToParents)
      && edges == Quotient(sccToSet, depends)
    }

    ghost predicate Represents()
      reads this
    {
      && nodes.Keys == sccToSet.Values
      && (forall s :: s in nodes ==> nodes[s] == Members(sccToSet, s))
      && (forall s :: s in nodes ==> s < nextSet)
    }

    lemma EdgesWithin()
      requires Valid()
      ensures Within(edges, nodes.Keys)
    {
      forall a: Node, b: Node | (a, b) in edges
        ensures a in nodes && b in nodes
      {
        QuotientEdge(sccToSet, depends, a, b);
      }
    }

    /** One node per initial set and one edge between two sets whose members depend on each other.
        The result is valid exactly when no initial set holds an SCC and one of its parents. */
    constructor (initialSets: seq<set<Scc>>, sccToParents: map<Scc, set<Scc>>)
      requires forall s :: s in initialSets ==> s != {}
      requires forall i, j :: 0 <= i < j < |initialSets| ==> initialSets[i] !! initialSets[j]
      ensures this.sccToParents == sccToParents && depends == DependencesOf(sccToParents) && Represents()
      ensures Numbered(sccToSet, initialSets)
      ensures forall a: SetId, b: SetId :: (a, b) in edges <==>
                exists scc: Scc, parent: Scc :: scc in sccToSet && parent in sccToSet && scc in sccToParents && parent in sccToParents[scc]
                                                && sccToSet[parent] == a && sccToSet[scc] == b
      ensures Valid() <==> forall scc: Scc, parent: Scc ::
                             scc in sccToSet && parent in sccToSet && scc in sccToParents && parent in sccToParents[scc] ==>
                               sccToSet[parent] != sccToSet[scc]
    {
      this.sccToParents := sccToParents;
      depends := DependencesOf(sccToParents);
      sccToSet, nodes, edges, nextSet := map[], map[], {}, 0;
      new;
      AddInitialSets(initialSets);
      AddParentEdges(sccToParents);
      EdgesFromParents();
    }

    lemma EdgesFromParents()
      requires depends == DependencesOf(sccToParents) && Represents() && edges == QuotientWithLoops(sccToSet, depends)
      ensures forall a: SetId, b: SetId :: (a, b) in edges <==>
                exists scc: Scc, parent: Scc :: scc in sccToSet && parent in sccToSet && scc in sccToParents && parent in sccToParents[scc]
                                                && sccToSet[parent] == a && sccToSet[scc] == b
      ensures Valid() <==> forall scc: Scc, parent: Scc ::
                             scc in sccToSet && parent in sccToSet && scc in sccToParents && parent in sccToParents[scc] ==>
                               sccToSet[parent] != sccToSet[scc]
    {
      LoopsOnly(sccToSet, depends);
      ParentEdges(sccToSet, sccToParents);
      InnerParents(sccToSet, sccToParents);
    }

    method AddInitialSets(initialSets: seq<set<Scc>>)
      requires forall s :: s in initialSets ==> s != {}
      requires forall i, j :: 0 <= i < j < |initialSets| ==> initialSets[i] !! initialSets[j]
      requires sccToSet == map[] && nodes == map[] && edges == {} && nextSet == 0
      modifies this
      ensures Represents() && edges == {}
      ensures Numbered(sccToSet, initialSets)
    {
      while nextSet < |initialSets|
        invariant 0 <= nextSet <= |initialSets|
        invariant forall s :: s in nodes <==> 0 <= s < nextSet
        invariant forall s :: s in nodes ==> nodes[s] == initialSets[s]
        invariant Numbered(sccToSet, initialSets[..nextSet])
        invariant edges == {}
      {
        NumberedExtend(sccToSet, initialSets, nextSet);
        nodes := nodes[nextSet := initialSets[nextSet]];
        MapMembers(initialSets[nextSet], nextSet);
        nextSet := nextSet + 1;
      }
      assert initialSets[..nextSet] == initialSets;
      forall s | 0 <= s < |initialSets|
        ensures s in sccToSet.Values && initialSets[s] == Members(sccToSet, s)
      {
        assert initialSets[s] in initialSets;
        NumberedMembers(sccToSet, initialSets, s);
      }
      ValuesAreNumbers(sccToSet, initialSets);
      assert nodes.Keys == sccToSet.Values;
    }

    method MapMembers(members: set<Scc>, s: SetId)
      modifies this`sccToSet
      ensures sccToSet == old(sccToSet) + map x | x in members :: s
    {
      var rest := members;
      while rest != {}
        invariant rest <= members
        invariant sccToSet == old(sccToSet) + map x | x in members - rest :: s
        decreases rest
      {
        var scc :| scc in rest;
        rest := rest - {scc};
        sccToSet := sccToSet[scc := s];
      }
    }

    method AddParentEdges(sccToParents: map<Scc, set<Scc>>)
      requires depends == DependencesOf(sccToParents) && Represents() && edges == {}
      modifies this`edges
      ensures edges == QuotientWithLoops(sccToSet, depends)
    {
      var rest := sccToParents.Keys;
      ghost var done: Edges := {};
      while rest != {}
        invariant rest <= sccToParents.Keys
        invariant done == set d | d in depends && d.1 !in rest
        invariant edges == QuotientWithLoops(sccToSet, done)
        decreases rest
      {
        var scc :| scc in rest;
        rest := rest - {scc};
        var parents := sccToParents[scc];
        if scc !in sccToSet {
          AddUnmapped(sccToSet, done, (set d | d in depends && d.1 == scc));
          done := done + set d | d in depends && d.1 == scc;
          continue;
        }
        var selfSet := sccToSet[scc];
        ghost var before := done;
        while parents != {}
          invariant parents <= sccToParents[scc]
          invariant done == before + (set y | y in sccToParents[scc] - parents :: (y, scc))
          invariant edges == QuotientWithLoops(sccToSet, done)
          decreases parents
        {
          var parent :| parent in parents;
          parents := parents - {parent};
          AddDependence(sccToSet, done, parent, scc);
          done := done + {(parent, scc)};
          if parent !in sccToSet {
            continue;
          }
          var parentSet := sccToSet[parent];
          if (parentSet, selfSet) in edges {
            continue;
          }
          edges := edges + {(parentSet, selfSet)};
        }
      }
      assert done == depends;
    }

    /** Merge the given sets into one new set; nothing else moves and the edges stay the quotient. */
    method MergeSets(sets: set<SetId>) returns (merged: SetId)
      requires Valid() && sets != {} && sets <= nodes.Keys
      modifies this
      ensures Valid() && nextSet == old(nextSet) + 1
      ensures merged == old(nextSet) && merged !in old(sccToSet.Values)
      ensures sccToSet == Fuse(old(sccToSet), sets, merged)
    {
      ghost var p, E := sccToSet, edges;
      merged := nextSet;
      nextSet := nextSet + 1;
      EdgesWithin();
      var mergedSccs := RemapMembers(sets, merged);
      nodes := nodes[merged := mergedSccs];

      TransferEdges(sets, merged, p, E);
      RemoveNodes(sets);
      MovedIsContract(E, sets, merged);
      QuotientOfFuse(p, depends, sets, merged);
      FusedMembers(p, sets, merged);
    }

    /** Re-map the members of the given sets to the merged set and collect them. */
    method RemapMembers(sets: set<SetId>, merged: SetId) returns (mergedSccs: set<Scc>)
      requires sets <= nodes.Keys && merged !in nodes
      requires nodes.Keys == sccToSet.Values && forall s :: s in nodes ==> nodes[s] == Members(sccToSet, s)
      modifies this`sccToSet
      ensures mergedSccs == set x | x in old(sccToSet) && old(sccToSet)[x] in sets
      ensures sccToSet == Fuse(old(sccToSet), sets, merged)
    {
      ghost var p := sccToSet;
      mergedSccs := {};
      var rest := sets;
      while rest != {}
        invariant rest <= sets
        invariant mergedSccs == set x | x in p && p[x] in sets - rest
        invariant sccToSet == Fuse(p, sets - rest, merged)
        decreases rest
      {
        var s :| s in rest;
        ghost var done := sets - rest;
        rest := rest - {s};
        mergedSccs := mergedSccs + nodes[s];
        var members := nodes[s];
        while members != {}
          invariant members <= Members(p, s)
          invariant sccToSet == map x | x in p :: if p[x] in done || (p[x] == s && x !in members) then merged else p[x]
          decreases members
        {
          var scc :| scc in members;
          members := members - {scc};
          sccToSet := sccToSet[scc := merged];
        }
        assert sets - rest == done + {s};
      }
      assert sets - rest == sets;
    }

    method TransferEdges(sets: set<SetId>, merged: SetId, ghost p: Assignment, ghost E: Edges)
      requires merged !in sets && merged !in p.Values && sccToSet == Fuse(p, sets, merged)
      requires Within(E, p.Values) && edges == E
      requires forall t :: t in p.Values ==> t in nodes && nodes[t] == Members(p, t)
      modifies this`edges
      ensures edges == E + MovedIn(E, sets, sets, merged) + MovedOut(E, sets, sets, merged)
    {
      var rest := sets;
      while rest != {}
        invariant rest <= sets
        invariant edges == E + MovedIn(E, sets, sets - rest, merged) + MovedOut(E, sets, sets - rest, merged)
        decreases rest
      {
        var s :| s in rest;
        ghost var done := sets - rest;
        rest := rest - {s};
        TransferIncoming(s, merged, p, E, sets, done);
        TransferOutgoing(s, merged, p, E, sets, done);
        assert done + {s} == sets - rest;
      }
      assert sets - rest == sets;
    }

    /** Copy the edges that enter s onto the merged set, except those that come from merged members. */
    method TransferIncoming(s: SetId, merged: SetId, ghost p: Assignment, ghost E: Edges, ghost sets: set<SetId>, ghost done: set<SetId>)
      requires s in sets && merged !in sets && merged !in p.Values && sccToSet == Fuse(p, sets, merged)
      requires Within(E, p.Values)
      requires edges == E + MovedIn(E, sets, done, merged) + MovedOut(E, sets, done, merged)
      requires forall t :: t in p.Values ==> t in nodes && nodes[t] == Members(p, t)
      modifies this`edges
      ensures edges == E + MovedIn(E, sets, done + {s}, merged) + MovedOut(E, sets, done, merged)
    {
      var incoming := set e | e in edges && e.1 == s;
      ghost var all, before := incoming, edges;
      TouchingAreOld(E, sets, done, done, s, merged);
      while incoming != {}
        invariant incoming <= all
        invariant edges == before + (set e | e in all - incoming && e.0 !in sets :: (e.0, merged))
        decreases incoming
      {
        var edge :| edge in incoming;
        incoming := incoming - {edge};
        var parent := edge.0;
        assert (edge.0, edge.1) in E;
        MembersNonEmpty(p, parent);
        var anyScc :| anyScc in nodes[parent];
        FusedIffIn(p, sets, merged, parent, anyScc);
        if sccToSet[anyScc] == merged {
          continue;
        }
        if (parent, merged) in edges {
          continue;
        }
        edges := edges + {(parent, merged)};
      }
      MovedStep(E, sets, done, s, merged);
      assert all - incoming == all;
    }

    /** Copy the edges that leave s onto the merged set, except those that go to merged members. */
    method TransferOutgoing(s: SetId, merged: SetId, ghost p: Assignment, ghost E: Edges, ghost sets: set<SetId>, ghost done: set<SetId>)
      requires s in sets && merged !in sets && merged !in p.Values && sccToSet == Fuse(p, sets, merged)
      requires Within(E, p.Values)
      requires edges == E + MovedIn(E, sets, done + {s}, merged) + MovedOut(E, sets, done, merged)
      requires forall t :: t in p.Values ==> t in nodes && nodes[t] == Members(p, t)
      modifies this`edges
      ensures edges == E + MovedIn(E, sets, done + {s}, merged) + MovedOut(E, sets, done + {s}, merged)
    {
      var outgoing := set e | e in edges && e.0 == s;
      ghost var all, before := outgoing, edges;
      TouchingAreOld(E, sets, done + {s}, done, s, merged);
      while outgoing != {}
        invariant outgoing <= all
        invariant edges == before + (set e | e in all - outgoing && e.1 !in sets :: (merged, e.1))
        decreases outgoing
      {
        var edge :| edge in outgoing;
        outgoing := outgoing - {edge};
        var child := edge.1;
        assert (edge.0, edge.1) in E;
        MembersNonEmpty(p, child);
        var anyScc :| anyScc in nodes[child];
        FusedIffIn(p, sets, merged, child, anyScc);
        if sccToSet[anyScc] == merged {
          continue;
        }
        if (merged, child) in edges {
          continue;
        }
        edges := edges + {(merged, child)};
      }
      MovedStep(E, sets, done, s, merged);
      assert all - outgoing == all;
    }

    method RemoveNodes(sets: set<SetId>)
      modifies this`nodes, this`edges
      ensures nodes == old(nodes) - sets
      ensures edges == set e | e in old(edges) && e.0 !in sets && e.1 !in sets
    {
      var rest := sets;
      while rest != {}
        invariant rest <= sets
        invariant nodes == old(nodes) - (sets - rest)
        invariant edges == set e | e in old(edges) && e.0 !in sets - rest && e.1 !in sets - rest
        decreases rest
      {
        var s :| s in rest;
        rest := rest - {s};
        nodes := nodes - {s};
        edges := set e | e in edges && e.0 != s && e.1 != s;
      }
    }

    /** Merge every cycle of the graph into one set. */
    method CollapseCycles()
      requires Valid()
      modifies this
      ensures Valid() && nextSet >= old(nextSet)
      ensures CollapseOf(old(sccToSet), depends, sccToSet)
    {
      ghost var p, E := sccToSet, edges;
      var collapsedSets := FindComponents();
      ghost var S := nodes.Keys;
      for i := 0 to |collapsedSets|
        invariant Valid() && nextSet >= old(nextSet)
        invariant CollapsedUpTo(p, collapsedSets, i, sccToSet)
      {
        CollapseComponent(p, collapsedSets, i);
      }
      CollapsedIsCollapseOf(p, depends, collapsedSets, sccToSet);
    }

    /** A component of several sets is merged into one; a single set stays as it is. */
    method CollapseComponent(ghost p: Assignment, collapsedSets: seq<set<SetId>>, i: nat)
      requires Valid() && i < |collapsedSets| && CollapsedUpTo(p, collapsedSets, i, sccToSet)
      modifies this
      ensures Valid() && nextSet >= old(nextSet) && CollapsedUpTo(p, collapsedSets, i + 1, sccToSet)
    {
      if |collapsedSets[i]| > 1 {
        ghost var q := sccToSet;
        UntouchedInValues(p, collapsedSets, i, q);
        var merged := MergeSets(collapsedSets[i]);
        CollapseStep(p, collapsedSets, i, q, merged);
      } else {
        SingletonStep(p, collapsedSets, i, sccToSet);
      }
    }

    /** The strongly connected components of the whole graph, one traversal per unvisited node. */
    method FindComponents() returns (collapsedSets: seq<set<SetId>>)
      requires Valid()
      ensures Components(edges, nodes.Keys, collapsedSets)
    {
      EdgesWithin();
      var visited := {};
      collapsedSets := [];
      var rest := nodes.Keys;
      while rest != {}
        invariant rest <= nodes.Keys
        invariant ComponentsOver(edges, nodes.Keys, collapsedSets, visited)
        invariant nodes.Keys - rest <= visited
        decreases rest
      {
        var entry :| entry in rest;
        rest := rest - {entry};
        if entry in visited {
          continue;
        }
        var components := ComponentsFrom(edges, nodes.Keys, entry);
        collapsedSets, visited := AddNewComponents(edges, nodes.Keys, components, collapsedSets, visited);
        assert ComponentOf(edges, nodes.Keys, entry) in components;
      }
    }

    /** Merge the given sets and whatever that puts on a common cycle, and nothing else. */
    method MergeSetsAndCollapseResultingCycles(sets: set<SetId>)
      requires Valid() && sets != {} && sets <= nodes.Keys
      modifies this
      ensures Valid() && nextSet > old(nextSet)
      ensures LeastMerge(old(sccToSet), depends, sets, sccToSet)
      ensures Acyclic(edges)
      ensures CollapseOf(Fuse(old(sccToSet), sets, old(nextSet)), depends, sccToSet)
    {
      ghost var p := sccToSet;
      var merged := MergeSets(sets);
      CollapseCycles();
      MergeThenCollapseLeast(p, depends, sets, merged, sccToSet);
    }

    lemma DependentsOrdered(order: seq<SetId>)
      requires Valid() && DepthOrder(edges, nodes.Keys, order)
      ensures forall scc: Scc, parent: Scc {:trigger sccToSet[parent], sccToSet[scc]} ::
                scc in sccToSet && parent in sccToSet && scc in sccToParents && parent in sccToParents[scc] && sccToSet[parent] != sccToSet[scc] ==>
                  exists i, j :: 0 <= i < j < |order| && order[i] == sccToSet[parent] && order[j] == sccToSet[scc]
    {
      ParentSetsFirst(sccToSet, sccToParents, edges, nodes.Keys, order);
    }

    /** The sets with all parents first; None stands for a failed assertion of the source.
        It fails exactly on the empty graph and on a graph with a cycle. */
    method GetDepthOrderedSets() returns (order: Option<seq<SetId>>)
      requires Within(edges, nodes.Keys)
      ensures order.Some? <==> nodes.Keys != {} && Acyclic(edges)
      ensures order.Some? ==> DepthOrder(edges, nodes.Keys, order.value)
      ensures order.Some? && Valid() ==>
                forall scc: Scc, parent: Scc {:trigger sccToSet[parent], sccToSet[scc]} ::
                  scc in sccToSet && parent in sccToSet && scc in sccToParents && parent in sccToParents[scc] && sccToSet[parent] != sccToSet[scc] ==>
                    exists i, j :: 0 <= i < j < |order.value| && order.value[i] == sccToSet[parent] && order.value[j] == sccToSet[scc]
    {
      var roots := TopLevelNodes(edges, nodes.Keys);
      if |roots| == 0 {
        NoRoots(edges, nodes.Keys);
        return None;
      }
      var sets := PlaceSets(roots);
      DepthOrderComplete(edges, nodes.Keys, sets);
      order := if |sets| == |nodes| then Some(sets) else None;
      assert |nodes| == |nodes.Keys|;
      if order.Some? && Valid() {
        DependentsOrdered(sets);
      }
    }

    /** Place every set whose parents are placed, from the roots on, until the queue is empty. */
    method PlaceSets(roots: set<SetId>) returns (sets: seq<SetId>)
      requires Within(edges, nodes.Keys) && roots == TopLevelNodes(edges, nodes.Keys)
      ensures ParentsFirst(edges, sets) && forall s :: s in sets ==> s in nodes.Keys
      ensures forall s :: s in nodes.Keys && s !in sets ==> exists a :: (a, s) in edges && a !in sets
    {
      var queue := EnqueueAll([], roots);
      sets := [];
      var encountered := {};
      RootsReady(edges, nodes.Keys, queue);
      while queue != []
        invariant forall s :: s in queue ==> s in nodes
        invariant encountered == Elements(sets) && encountered <= nodes.Keys
        invariant ParentsFirst(edges, sets)
        invariant ReadyAreQueued(edges, nodes.Keys, sets, queue)
        decreases nodes.Keys - encountered, |queue|
      {
        ghost var waiting := queue;
        var s := queue[0];
        queue := queue[1..];
        if s in encountered {
          ReadyAfterSkip(edges, nodes.Keys, sets, waiting);
          continue;
        }
        var parents := ParentsOf(edges, s);
        var parentsEncountered := AllIn(parents, encountered);
        if !parentsEncountered {
          ReadyAfterSkip(edges, nodes.Keys, sets, waiting);
          continue;
        }
        var children := ChildrenOf(edges, s);
        queue := EnqueueAll(queue, children);
        ParentsFirstExtend(edges, sets, s);
        ReadyAfterPlacing(edges, nodes.Keys, sets, waiting, queue);
        encountered := encountered + {s};
        sets := sets + [s];
      }
      NothingReady(edges, nodes.Keys, sets);
    }
  }

  /** One initial set that holds an SCC and its parent: the graph gets an edge from the set to itself. */
  method InnerDependenceLeavesLoop() returns (partition: SccdagPartition)
    ensures fresh(partition) && (0, 0) in partition.edges && !partition.Valid()
  {
    partition := new SccdagPartition([{0, 1}], map[0 := {1}, 1 := {}]);
    ghost var p := partition.sccToSet;
    assert 0 in [{0, 1}][0] && 1 in [{0, 1}][0];
    assert p[0] == 0 && p[1] == 0;
    assert (1, 0) in partition.depends;
  }
}
