/** What the partition graph of SCCs means: an assignment of SCCs to sets, its quotient
    graph, and the effect of merging sets and of collapsing cycles on both. */
module PartitionSpec {
  import opened Graph

  type Scc = nat
  type SetId = nat
  type Assignment = map<Scc, SetId>

  ghost function Members(p: Assignment, s: SetId): set<Scc>
  {
    set x | x in p && p[x] == s
  }

  /** The edges between different sets induced by the dependences R between SCCs. */
  ghost function Quotient(p: Assignment, R: Edges): Edges
  {
    set e | e in R && e.0 in p && e.1 in p && p[e.0] != p[e.1] :: (p[e.0], p[e.1])
  }

  /** The same, keeping an edge from a set to itself. */
  ghost function QuotientWithLoops(p: Assignment, R: Edges): Edges
  {
    set e | e in R && e.0 in p && e.1 in p :: (p[e.0], p[e.1])
  }

  ghost function Fuse(p: Assignment, sets: set<SetId>, m: SetId): Assignment
  {
    map x | x in p :: if p[x] in sets then m else p[x]
  }

  /** The graph obtained by contracting the nodes `sets` into the node m. */
  ghost function Contract(E: Edges, sets: set<SetId>, m: SetId): Edges
  {
    set e | e in E && Image(sets, m, e.0) != Image(sets, m, e.1) :: (Image(sets, m, e.0), Image(sets, m, e.1))
  }

  ghost function Image(sets: set<SetId>, m: SetId, s: SetId): SetId
  {
    if s in sets then m else s
  }

  /** q puts together everything that p puts together. */
  ghost predicate Coarser(p: Assignment, q: Assignment)
  {
    q.Keys == p.Keys && forall x, y :: x in p && y in p && p[x] == p[y] ==> q[x] == q[y]
  }

  ghost predicate Identifies(p: Assignment, sets: set<SetId>, q: Assignment)
  {
    forall x, y :: x in p && y in p && x in q && y in q && p[x] in sets && p[y] in sets ==> q[x] == q[y]
  }

  /** q is p with every cycle of p's quotient graph collapsed into one set. */
  ghost predicate CollapseOf(p: Assignment, R: Edges, q: Assignment)
  {
    && q.Keys == p.Keys
    && forall x, y :: x in p && y in p ==> (q[x] == q[y] <==> SameScc(Quotient(p, R), p[x], p[y]))
  }

  /** An assignment coarser than p, with the sets together, whose quotient graph has no cycle. */
  ghost predicate MergedAcyclic(p: Assignment, R: Edges, sets: set<SetId>, q: Assignment)
  {
    Coarser(p, q) && Identifies(p, sets, q) && Acyclic(Quotient(q, R))
  }

  /** q is the finest such assignment: nothing else was put together. */
  ghost predicate LeastMerge(p: Assignment, R: Edges, sets: set<SetId>, q: Assignment)
  {
    MergedAcyclic(p, R, sets, q) && forall t :: MergedAcyclic(p, R, sets, t) ==> Coarser(q, t)
  }

  ghost predicate JoinsPairs(p: Assignment, pairs: set<(Scc, Scc)>, q: Assignment)
  {
    forall a, b :: (a, b) in pairs && a in q && b in q ==> q[a] == q[b]
  }

  ghost predicate PairsAcyclic(p: Assignment, R: Edges, pairs: set<(Scc, Scc)>, q: Assignment)
  {
    Coarser(p, q) && JoinsPairs(p, pairs, q) && Acyclic(Quotient(q, R))
  }

  ghost predicate LeastForPairs(p: Assignment, R: Edges, pairs: set<(Scc, Scc)>, q: Assignment)
  {
    PairsAcyclic(p, R, pairs, q) && forall t :: PairsAcyclic(p, R, pairs, t) ==> Coarser(q, t)
  }

  lemma QuotientEdge(p: Assignment, R: Edges, a: SetId, b: SetId)
    ensures (a, b) in Quotient(p, R) <==>
            a != b && exists x, y :: x in p && y in p && p[x] == a && p[y] == b && (x, y) in R
  {
    if x, y :| x in p && y in p && p[x] == a && p[y] == b && (x, y) in R {
      var e := (x, y);
      assert e in R;
    }
    if (a, b) in Quotient(p, R) {
      var e :| e in R && e.0 in p && e.1 in p && p[e.0] != p[e.1] && (a, b) == (p[e.0], p[e.1]);
      assert (e.0, e.1) in R;
    }
  }

  lemma ContractEdge(E: Edges, sets: set<SetId>, m: SetId, a: SetId, b: SetId)
    ensures (a, b) in Contract(E, sets, m) <==>
            a != b && exists x, y :: (x, y) in E && Image(sets, m, x) == a && Image(sets, m, y) == b
  {
    if x, y :| a != b && (x, y) in E && Image(sets, m, x) == a && Image(sets, m, y) == b {
      var e := (x, y);
      assert e in E;
    }
    if (a, b) in Contract(E, sets, m) {
      var e :| e in E && (a, b) == (Image(sets, m, e.0), Image(sets, m, e.1)) && a != b;
      assert (e.0, e.1) in E;
    }
  }

  /** Merging sets contracts the quotient graph. */
  lemma QuotientOfFuse(p: Assignment, R: Edges, sets: set<SetId>, m: SetId)
    ensures Quotient(Fuse(p, sets, m), R) == Contract(Quotient(p, R), sets, m)
  {
    var f := Fuse(p, sets, m);
    forall a: SetId, b: SetId
      ensures (a, b) in Quotient(f, R) <==> (a, b) in Contract(Quotient(p, R), sets, m)
    {
      QuotientEdge(f, R, a, b);
      ContractEdge(Quotient(p, R), sets, m, a, b);
      if (a, b) in Quotient(f, R) {
        var x, y :| x in f && y in f && f[x] == a && f[y] == b && (x, y) in R;
        QuotientEdge(p, R, p[x], p[y]);
      }
      if (a, b) in Contract(Quotient(p, R), sets, m) {
        var s, t :| (s, t) in Quotient(p, R) && Image(sets, m, s) == a && Image(sets, m, t) == b;
        QuotientEdge(p, R, s, t);
      }
    }
  }

  /** Sends every set of p to the set of t that its members are in. */
  ghost function Lift(p: Assignment, t: Assignment): map<SetId, SetId>
    requires t.Keys == p.Keys
  {
    map s | s in p.Values :: var x :| x in p && p[x] == s; t[x]
  }

  lemma LiftAt(p: Assignment, t: Assignment, x: Scc)
    requires Coarser(p, t) && x in p
    ensures p[x] in Lift(p, t) && Lift(p, t)[p[x]] == t[x]
  {
  }

  /** Walks of a partition graph survive in the graph of any coarser partition. */
  lemma CoarserKeepsWalks(p: Assignment, t: Assignment, R: Edges, x: Scc, y: Scc)
    requires Coarser(p, t) && x in p && y in p
    requires ReachesEq(Quotient(p, R), p[x], p[y])
    ensures ReachesEq(Quotient(t, R), t[x], t[y])
  {
    if p[x] != p[y] {
      var E, F, h := Quotient(p, R), Quotient(t, R), Lift(p, t);
      forall a: Node, b: Node | (a, b) in E
        ensures a in h && b in h && ReachesEq(F, h[a], h[b])
      {
        QuotientEdge(p, R, a, b);
        var u, v :| u in p && v in p && p[u] == a && p[v] == b && (u, v) in R;
        LiftAt(p, t, u);
        LiftAt(p, t, v);
        QuotientEdge(t, R, t[u], t[v]);
        if t[u] != t[v] {
          EdgeReaches(F, t[u], t[v]);
        }
      }
      ReachesHom(E, F, h, p[x], p[y]);
      LiftAt(p, t, x);
      LiftAt(p, t, y);
    }
  }

  /** Collapsing puts nothing together that an acyclic coarsening keeps apart. */
  lemma CollapseLeast(p: Assignment, R: Edges, q: Assignment, t: Assignment)
    requires CollapseOf(p, R, q) && Coarser(p, t) && Acyclic(Quotient(t, R))
    ensures Coarser(q, t)
  {
    forall x, y | x in q && y in q && q[x] == q[y]
      ensures t[x] == t[y]
    {
      CoarserKeepsWalks(p, t, R, x, y);
      CoarserKeepsWalks(p, t, R, y, x);
      if t[x] != t[y] {
        ReachesTrans(Quotient(t, R), t[x], t[y], t[x]);
      }
    }
  }

  /** A set of p whose members are in the set s of q. */
  ghost function SetWithin(p: Assignment, q: Assignment, s: SetId): (r: SetId)
    requires q.Keys == p.Keys && s in q.Values
    ensures exists x :: x in q && q[x] == s && p[x] == r
  {
    var x :| x in q && q[x] == s;
    p[x]
  }

  ghost function Section(p: Assignment, q: Assignment): map<SetId, SetId>
    requires q.Keys == p.Keys
  {
    map s | s in q.Values :: SetWithin(p, q, s)
  }

  lemma SectionAt(p: Assignment, R: Edges, q: Assignment, x: Scc)
    requires CollapseOf(p, R, q) && x in q
    ensures q[x] in Section(p, q) && SameScc(Quotient(p, R), Section(p, q)[q[x]], p[x])
  {
    var y :| y in q && q[y] == q[x] && p[y] == SetWithin(p, q, q[x]);
  }

  lemma CollapsedEdgeLifts(p: Assignment, R: Edges, q: Assignment, a: SetId, b: SetId)
    requires CollapseOf(p, R, q) && (a, b) in Quotient(q, R)
    ensures var h := Section(p, q);
            a in h && b in h && ReachesEq(Quotient(p, R), h[a], h[b])
  {
    var G := Quotient(p, R);
    var h := Section(p, q);
    QuotientEdge(q, R, a, b);
    var u, v :| u in q && v in q && q[u] == a && q[v] == b && (u, v) in R;
    SectionAt(p, R, q, u);
    SectionAt(p, R, q, v);
    QuotientEdge(p, R, p[u], p[v]);
    if p[u] != p[v] {
      EdgeReaches(G, p[u], p[v]);
    }
    ReachesTrans(G, h[a], p[u], p[v]);
    ReachesTrans(G, h[a], p[v], h[b]);
  }

  /** Collapsing leaves no cycle. */
  lemma CollapseAcyclic(p: Assignment, R: Edges, q: Assignment)
    requires CollapseOf(p, R, q)
    ensures Acyclic(Quotient(q, R))
  {
    var G, F := Quotient(p, R), Quotient(q, R);
    forall a: Node | Reaches(F, a, a)
      ensures false
    {
      var h := Section(p, q);
      var b := ReachesFirst(F, a, a);
      QuotientEdge(q, R, a, b);
      var u, v :| u in q && v in q && q[u] == a && q[v] == b && (u, v) in R;
      forall x: Node, y: Node | (x, y) in F
        ensures x in h && y in h && ReachesEq(G, h[x], h[y])
      {
        CollapsedEdgeLifts(p, R, q, x, y);
      }
      ReachesHom(F, G, h, b, a);
      SectionAt(p, R, q, u);
      SectionAt(p, R, q, v);
    }
  }

  /** Merging sets and then collapsing the resulting cycles is the least acyclic merge. */
  lemma MergeThenCollapseLeast(p: Assignment, R: Edges, sets: set<SetId>, m: SetId, q: Assignment)
    requires m !in p.Values && CollapseOf(Fuse(p, sets, m), R, q)
    ensures LeastMerge(p, R, sets, q)
  {
    var f := Fuse(p, sets, m);
    CollapseAcyclic(f, R, q);
    CoarserThanFused(p, sets, m, q);
    forall t | MergedAcyclic(p, R, sets, t)
      ensures Coarser(q, t)
    {
      FusedIsFinest(p, sets, m, t);
      CollapseLeast(f, R, q, t);
    }
  }

  /** What is coarser than the fused assignment puts the fused sets together, ... */
  lemma CoarserThanFused(p: Assignment, sets: set<SetId>, m: SetId, q: Assignment)
    requires Coarser(Fuse(p, sets, m), q)
    ensures Coarser(p, q) && Identifies(p, sets, q)
  {
    var f := Fuse(p, sets, m);
    forall x, y | x in p && y in p && (p[x] == p[y] || (p[x] in sets && p[y] in sets))
      ensures q[x] == q[y]
    {
      assert f[x] == f[y];
    }
  }

  /** ... and conversely. */
  lemma FusedIsFinest(p: Assignment, sets: set<SetId>, m: SetId, t: Assignment)
    requires m !in p.Values && Coarser(p, t) && Identifies(p, sets, t)
    ensures Coarser(Fuse(p, sets, m), t)
  {
    var f := Fuse(p, sets, m);
    forall x, y | x in f && y in f && f[x] == f[y]
      ensures t[x] == t[y]
    {
      assert p[x] in p.Values && p[y] in p.Values;
    }
  }

  /** Requesting one more pair after a least merge gives the least merge for all the pairs. */
  lemma LeastForOneMorePair(p: Assignment, R: Edges, pairs: set<(Scc, Scc)>, q: Assignment, a: Scc, b: Scc, r: Assignment)
    requires LeastForPairs(p, R, pairs, q) && a in q && b in q
    requires LeastMerge(q, R, {q[a], q[b]}, r)
    ensures LeastForPairs(p, R, pairs + {(a, b)}, r)
  {
    assert PairsAcyclic(p, R, pairs + {(a, b)}, r) by {
      assert Coarser(p, r);
      forall x, y | (x, y) in pairs + {(a, b)} && x in r && y in r
        ensures r[x] == r[y]
      {
      }
    }
    forall t | PairsAcyclic(p, R, pairs + {(a, b)}, t)
      ensures Coarser(r, t)
    {
      assert PairsAcyclic(p, R, pairs, t) by {
        forall x, y | (x, y) in pairs && x in t && y in t
          ensures t[x] == t[y]
        {
          assert (x, y) in pairs + {(a, b)};
        }
      }
      assert Coarser(q, t);
      assert t[a] == t[b] by {
        assert (a, b) in pairs + {(a, b)};
      }
      assert MergedAcyclic(q, R, {q[a], q[b]}, t);
    }
  }

  /** A pair that is already together changes nothing. */
  lemma LeastForPairAlreadyJoined(p: Assignment, R: Edges, pairs: set<(Scc, Scc)>, q: Assignment, a: Scc, b: Scc)
    requires LeastForPairs(p, R, pairs, q) && a in q && b in q && q[a] == q[b]
    ensures LeastForPairs(p, R, pairs + {(a, b)}, q)
  {
    assert PairsAcyclic(p, R, pairs + {(a, b)}, q);
    forall t | PairsAcyclic(p, R, pairs + {(a, b)}, t)
      ensures Coarser(q, t)
    {
      assert PairsAcyclic(p, R, pairs, t) by {
        forall x, y | (x, y) in pairs && x in t && y in t
          ensures t[x] == t[y]
        {
          assert (x, y) in pairs + {(a, b)};
        }
      }
    }
  }

  /** The result of merging pairs does not depend on the order in which the pairs are taken. */
  lemma LeastForPairsUnique(p: Assignment, R: Edges, pairs: set<(Scc, Scc)>, q: Assignment, r: Assignment)
    requires LeastForPairs(p, R, pairs, q) && LeastForPairs(p, R, pairs, r)
    ensures q.Keys == r.Keys
    ensures forall x, y :: x in q && y in q ==> (q[x] == q[y] <==> r[x] == r[y])
  {
    assert Coarser(q, r) && Coarser(r, q);
  }

  // ----- the cycle that merging two sets would create -----

  /** c lies strictly between a and b on a walk, in either direction. */
  ghost predicate Between(E: Edges, a: SetId, b: SetId, c: SetId)
  {
    (Reaches(E, a, c) && Reaches(E, c, b)) || (Reaches(E, b, c) && Reaches(E, c, a))
  }

  /** Where a walk of the contracted graph that ends outside m comes from. */
  lemma {:induction false} ContractedWalk(E: Edges, a: SetId, b: SetId, m: SetId, x: SetId, c: SetId, n: nat)
    requires forall u: Node, v: Node :: (u, v) in E ==> u != m && v != m
    requires c != m && n > 0 && Walk(Contract(E, {a, b}, m), x, c, n)
    ensures x == m ==> Reaches(E, a, c) || Reaches(E, b, c)
    ensures x != m ==> Reaches(E, x, c) ||
                       (Reaches(Contract(E, {a, b}, m), x, m) && Reaches(Contract(E, {a, b}, m), m, c))
    ensures x != m ==> Reaches(E, x, c) || Reaches(E, a, c) || Reaches(E, b, c)
    decreases n
  {
    var C := Contract(E, {a, b}, m);
    var d :| (x, d) in C && Walk(C, d, c, n - 1);
    ContractEdge(E, {a, b}, m, x, d);
    var u, v :| (u, v) in E && Image({a, b}, m, u) == x && Image({a, b}, m, v) == d;
    EdgeReaches(E, u, v);
    EdgeReaches(C, x, d);
    if n == 1 {
      assert v == c;
    } else {
      ContractedWalk(E, a, b, m, d, c, n - 1);
      if d == m {
        assert Reaches(C, m, c);
      } else {
        assert v == d;
        if Reaches(E, d, c) {
          ReachesTrans(E, u, d, c);
        } else {
          ReachesTrans(C, x, d, m);
        }
      }
    }
  }

  lemma WalkSurvivesContraction(E: Edges, a: SetId, b: SetId, m: SetId, x: SetId, y: SetId)
    requires Reaches(E, x, y)
    ensures ReachesEq(Contract(E, {a, b}, m), Image({a, b}, m, x), Image({a, b}, m, y))
  {
    var C := Contract(E, {a, b}, m);
    var h := map s | s in ({x, y} + (set e | e in E :: e.0) + (set e | e in E :: e.1)) :: Image({a, b}, m, s);
    forall u: Node, v: Node | (u, v) in E
      ensures u in h && v in h && ReachesEq(C, h[u], h[v])
    {
      assert (u, v).0 in h && (u, v).1 in h;
      if h[u] != h[v] {
        ContractEdge(E, {a, b}, m, h[u], h[v]);
        EdgeReaches(C, h[u], h[v]);
      }
    }
    ReachesHom(E, C, h, x, y);
  }

  lemma ContractReverse(E: Edges, sets: set<SetId>, m: SetId)
    ensures Contract(Reverse(E), sets, m) == Reverse(Contract(E, sets, m))
  {
    forall x: Node, y: Node
      ensures (x, y) in Contract(Reverse(E), sets, m) <==> (x, y) in Reverse(Contract(E, sets, m))
    {
      ContractEdge(Reverse(E), sets, m, x, y);
      ContractEdge(E, sets, m, y, x);
      ReverseEdge(Contract(E, sets, m), y, x);
      if u: Node, v: Node :| (u, v) in Reverse(E) && Image(sets, m, u) == x && Image(sets, m, v) == y {
        ReverseEdge(E, v, u);
      }
      if u: Node, v: Node :| (u, v) in E && Image(sets, m, u) == y && Image(sets, m, v) == x {
        ReverseEdge(E, u, v);
      }
    }
  }

  lemma FromContracted(E: Edges, a: SetId, b: SetId, m: SetId, c: SetId)
    requires forall u: Node, v: Node :: (u, v) in E ==> u != m && v != m
    requires c != m
    ensures Reaches(Contract(E, {a, b}, m), m, c) ==> Reaches(E, a, c) || Reaches(E, b, c)
    ensures Reaches(Contract(E, {a, b}, m), c, m) ==> Reaches(E, c, a) || Reaches(E, c, b)
  {
    var C := Contract(E, {a, b}, m);
    if Reaches(C, m, c) {
      var n: nat :| n > 0 && Walk(C, m, c, n);
      ContractedWalk(E, a, b, m, m, c, n);
    }
    if Reaches(C, c, m) {
      ContractReverse(E, {a, b}, m);
      ReachesReverse(C, c, m);
      var n: nat :| n > 0 && Walk(Reverse(C), m, c, n);
      forall u: Node, v: Node | (u, v) in Reverse(E) ensures u != m && v != m {
        ReverseEdge(E, v, u);
      }
      ContractedWalk(Reverse(E), a, b, m, m, c, n);
      ReachesReverse(E, c, a);
      ReachesReverse(E, c, b);
    }
  }

  /** Merging a and b puts exactly the sets between them on a cycle with the merged set. */
  lemma CycleIsBetween(E: Edges, a: SetId, b: SetId, m: SetId, c: SetId)
    requires Acyclic(E) && c != m && c != a && c != b
    requires forall u: Node, v: Node :: (u, v) in E ==> u != m && v != m
    ensures SameScc(Contract(E, {a, b}, m), c, m) <==> Between(E, a, b, c)
  {
    var C := Contract(E, {a, b}, m);
    if SameScc(C, c, m) {
      FromContracted(E, a, b, m, c);
      if Reaches(E, a, c) && Reaches(E, c, a) {
        ReachesTrans(E, a, c, a);
      }
      if Reaches(E, b, c) && Reaches(E, c, b) {
        ReachesTrans(E, b, c, b);
      }
    }
    if Reaches(E, a, c) && Reaches(E, c, b) {
      WalkSurvivesContraction(E, a, b, m, a, c);
      WalkSurvivesContraction(E, a, b, m, c, b);
    }
    if Reaches(E, b, c) && Reaches(E, c, a) {
      WalkSurvivesContraction(E, a, b, m, b, c);
      WalkSurvivesContraction(E, a, b, m, c, a);
    }
  }

  /** Merging a and b closes a cycle exactly when some other set lies between them. */
  lemma MergeCyclicIffBetween(E: Edges, a: SetId, b: SetId, m: SetId)
    requires Acyclic(E) && m != a && m != b
    requires forall u: Node, v: Node :: (u, v) in E ==> u != m && v != m
    ensures Acyclic(Contract(E, {a, b}, m)) <==> !exists c :: c != a && c != b && Between(E, a, b, c)
  {
    var C := Contract(E, {a, b}, m);
    if c :| c != a && c != b && Between(E, a, b, c) {
      assert c != m by {
        if c == m {
          var d: Node;
          if Reaches(E, a, c) {
            d := ReachesLast(E, a, c);
          } else {
            d := ReachesLast(E, b, c);
          }
        }
      }
      CycleIsBetween(E, a, b, m, c);
      ReachesTrans(C, m, c, m);
    }
    if x: Node :| Reaches(C, x, x) {
      var c := CycleMeetsMerged(E, a, b, m, x);
      CycleIsBetween(E, a, b, m, c);
      assert Between(E, a, b, c);
    }
  }

  lemma CycleMeetsMerged(E: Edges, a: SetId, b: SetId, m: SetId, x: SetId) returns (c: SetId)
    requires Acyclic(E) && m != a && m != b && Reaches(Contract(E, {a, b}, m), x, x)
    requires forall u: Node, v: Node :: (u, v) in E ==> u != m && v != m
    ensures c != m && c != a && c != b && SameScc(Contract(E, {a, b}, m), c, m)
  {
    var C := Contract(E, {a, b}, m);
    if x == m {
      c := ReachesFirst(C, m, m);
      ContractEdge(E, {a, b}, m, m, c);
      EdgeReaches(C, m, c);
    } else {
      c := x;
      var n: nat :| n > 0 && Walk(C, x, x, n);
      ContractedWalk(E, a, b, m, x, x, n);
      var d := ReachesFirst(C, x, x);
      ContractEdge(E, {a, b}, m, x, d);
    }
  }
}
