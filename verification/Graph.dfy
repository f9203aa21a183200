/** Finite directed graphs as sets of edges, and reachability by walks.
    Every graph in this project (partition graphs, control-flow graphs, call graphs,
    bit matrices) states its properties with the predicates of this module. */
module Graph {

  type Node = nat
  type Edges = set<(Node, Node)>

  /** There is a walk of exactly n edges from a to b. */
  ghost predicate Walk(E: Edges, a: Node, b: Node, n: nat)
    decreases n
  {
    if n == 0 then a == b else exists c: Node :: (a, c) in E && Walk(E, c, b, n - 1)
  }

  /** b can be reached from a by one or more edges. */
  ghost predicate Reaches(E: Edges, a: Node, b: Node)
  {
    exists n: nat :: n > 0 && Walk(E, a, b, n)
  }

  ghost predicate ReachesEq(E: Edges, a: Node, b: Node)
  {
    a == b || Reaches(E, a, b)
  }

  ghost predicate Acyclic(E: Edges)
  {
    forall a: Node :: !Reaches(E, a, a)
  }

  /** a and b lie in the same strongly connected component. */
  ghost predicate SameScc(E: Edges, a: Node, b: Node)
  {
    a == b || (Reaches(E, a, b) && Reaches(E, b, a))
  }

  ghost predicate Closed(E: Edges, S: set<Node>)
  {
    forall a: Node, b: Node :: (a, b) in E && a in S ==> b in S
  }

  ghost predicate Within(E: Edges, S: set<Node>)
  {
    forall a: Node, b: Node :: (a, b) in E ==> a in S && b in S
  }

  lemma {:induction false} WalkConcat(E: Edges, a: Node, b: Node, c: Node, m: nat, n: nat)
    requires Walk(E, a, b, m) && Walk(E, b, c, n)
    ensures Walk(E, a, c, m + n)
    decreases m
  {
    if m > 0 {
      var d :| (a, d) in E && Walk(E, d, b, m - 1);
      WalkConcat(E, d, b, c, m - 1, n);
    }
  }

  lemma EdgeReaches(E: Edges, a: Node, b: Node)
    requires (a, b) in E
    ensures Reaches(E, a, b)
  {
    assert Walk(E, b, b, 0);
    assert Walk(E, a, b, 1);
  }

  lemma ReachesTrans(E: Edges, a: Node, b: Node, c: Node)
    requires ReachesEq(E, a, b) && ReachesEq(E, b, c)
    ensures ReachesEq(E, a, c)
    ensures Reaches(E, a, b) || Reaches(E, b, c) ==> Reaches(E, a, c)
  {
    if a != b && b != c {
      var m: nat :| m > 0 && Walk(E, a, b, m);
      var n: nat :| n > 0 && Walk(E, b, c, n);
      WalkConcat(E, a, b, c, m, n);
    } else if Reaches(E, a, b) && Reaches(E, b, c) {
      var m: nat :| m > 0 && Walk(E, a, b, m);
      var n: nat :| n > 0 && Walk(E, b, c, n);
      WalkConcat(E, a, b, c, m, n);
    }
  }

  /** A walk starts with an edge. */
  lemma ReachesFirst(E: Edges, a: Node, b: Node) returns (c: Node)
    requires Reaches(E, a, b)
    ensures (a, c) in E && ReachesEq(E, c, b)
  {
    var n: nat :| n > 0 && Walk(E, a, b, n);
    c :| (a, c) in E && Walk(E, c, b, n - 1);
  }

  /** A walk ends with an edge. */
  lemma ReachesLast(E: Edges, a: Node, b: Node) returns (c: Node)
    requires Reaches(E, a, b)
    ensures ReachesEq(E, a, c) && (c, b) in E
  {
    var n: nat :| n > 0 && Walk(E, a, b, n);
    c := WalkLast(E, a, b, n);
  }

  lemma {:induction false} WalkLast(E: Edges, a: Node, b: Node, n: nat) returns (c: Node)
    requires n > 0 && Walk(E, a, b, n)
    ensures ReachesEq(E, a, c) && (c, b) in E
    decreases n
  {
    var d :| (a, d) in E && Walk(E, d, b, n - 1);
    if n == 1 {
      c := a;
    } else {
      c := WalkLast(E, d, b, n - 1);
      EdgeReaches(E, a, d);
      ReachesTrans(E, a, d, c);
    }
  }

  /** What is reached from a closed set stays in it. */
  lemma ReachesClosed(E: Edges, S: set<Node>, a: Node, b: Node)
    requires Closed(E, S) && a in S && ReachesEq(E, a, b)
    ensures b in S
  {
    if a != b {
      var n: nat :| n > 0 && Walk(E, a, b, n);
      WalkClosed(E, S, a, b, n);
    }
  }

  lemma {:induction false} WalkClosed(E: Edges, S: set<Node>, a: Node, b: Node, n: nat)
    requires Closed(E, S) && a in S && Walk(E, a, b, n)
    ensures b in S
    decreases n
  {
    if n > 0 {
      var d :| (a, d) in E && Walk(E, d, b, n - 1);
      WalkClosed(E, S, d, b, n - 1);
    }
  }

  lemma ReachesMono(E: Edges, F: Edges, a: Node, b: Node)
    requires E <= F && Reaches(E, a, b)
    ensures Reaches(F, a, b)
  {
    var n: nat :| n > 0 && Walk(E, a, b, n);
    WalkMono(E, F, a, b, n);
  }

  lemma {:induction false} WalkMono(E: Edges, F: Edges, a: Node, b: Node, n: nat)
    requires E <= F && Walk(E, a, b, n)
    ensures Walk(F, a, b, n)
    decreases n
  {
    if n > 0 {
      var d :| (a, d) in E && Walk(E, d, b, n - 1);
      WalkMono(E, F, d, b, n - 1);
    }
  }

  ghost function Reverse(E: Edges): Edges
  {
    set e | e in E :: (e.1, e.0)
  }

  lemma ReverseEdge(E: Edges, a: Node, b: Node)
    ensures (a, b) in E <==> (b, a) in Reverse(E)
  {
    if (a, b) in E {
      var e := (a, b);
      assert e in E;
    }
  }

  lemma ReverseReverse(E: Edges)
    ensures Reverse(Reverse(E)) == E
  {
    forall a: Node, b: Node
      ensures (a, b) in Reverse(Reverse(E)) <==> (a, b) in E
    {
      ReverseEdge(E, a, b);
      ReverseEdge(Reverse(E), b, a);
    }
  }

  lemma {:induction false} WalkReverse(E: Edges, a: Node, b: Node, n: nat)
    requires Walk(E, a, b, n)
    ensures Walk(Reverse(E), b, a, n)
    decreases n
  {
    if n > 0 {
      var d :| (a, d) in E && Walk(E, d, b, n - 1);
      WalkReverse(E, d, b, n - 1);
      ReverseEdge(E, a, d);
      assert Walk(Reverse(E), a, a, 0);
      assert Walk(Reverse(E), d, a, 1);
      WalkConcat(Reverse(E), b, d, a, n - 1, 1);
    }
  }

  lemma ReachesReverse(E: Edges, a: Node, b: Node)
    ensures Reaches(E, a, b) <==> Reaches(Reverse(E), b, a)
  {
    if Reaches(E, a, b) {
      var n: nat :| n > 0 && Walk(E, a, b, n);
      WalkReverse(E, a, b, n);
    }
    if Reaches(Reverse(E), b, a) {
      var n: nat :| n > 0 && Walk(Reverse(E), b, a, n);
      WalkReverse(Reverse(E), b, a, n);
      ReverseReverse(E);
    }
  }

  /** A map h that sends every edge of E to a (possibly empty) walk of F sends walks to walks. */
  lemma ReachesHom(E: Edges, F: Edges, h: map<Node, Node>, a: Node, b: Node)
    requires forall x: Node, y: Node :: (x, y) in E ==> x in h && y in h && ReachesEq(F, h[x], h[y])
    requires Reaches(E, a, b)
    ensures a in h && b in h && ReachesEq(F, h[a], h[b])
  {
    var n: nat :| n > 0 && Walk(E, a, b, n);
    WalkHom(E, F, h, a, b, n);
  }

  lemma {:induction false} WalkHom(E: Edges, F: Edges, h: map<Node, Node>, a: Node, b: Node, n: nat)
    requires forall x: Node, y: Node :: (x, y) in E ==> x in h && y in h && ReachesEq(F, h[x], h[y])
    requires n > 0 && Walk(E, a, b, n)
    ensures a in h && b in h && ReachesEq(F, h[a], h[b])
    decreases n
  {
    var d :| (a, d) in E && Walk(E, d, b, n - 1);
    if n > 1 {
      WalkHom(E, F, h, d, b, n - 1);
      ReachesTrans(F, h[a], h[d], h[b]);
    }
  }

  lemma SccTrans(E: Edges, a: Node, b: Node, c: Node)
    requires SameScc(E, a, b) && SameScc(E, b, c)
    ensures SameScc(E, a, c)
  {
    ReachesTrans(E, a, b, c);
    ReachesTrans(E, c, b, a);
  }

  /** The nodes of S that reach a. */
  ghost function AncestorsIn(E: Edges, S: set<Node>, a: Node): set<Node>
  {
    set x | x in S && Reaches(E, x, a)
  }

  /** Along an edge of an acyclic graph the set of ancestors grows strictly. */
  lemma AncestorsGrow(E: Edges, S: set<Node>, a: Node, b: Node)
    requires Acyclic(E) && Within(E, S) && (a, b) in E
    ensures AncestorsIn(E, S, a) < AncestorsIn(E, S, b)
    ensures |AncestorsIn(E, S, a)| < |AncestorsIn(E, S, b)|
  {
    var A, B := AncestorsIn(E, S, a), AncestorsIn(E, S, b);
    EdgeReaches(E, a, b);
    forall x | x in A ensures x in B {
      ReachesTrans(E, x, a, b);
    }
    assert a in B && a !in A;
    SubsetSize(A, B);
  }

  lemma {:induction false} SubsetSize(A: set<Node>, B: set<Node>)
    requires A <= B
    ensures |A| <= |B|
    ensures A < B ==> |A| < |B|
  {
    if A != {} {
      var x :| x in A;
      SubsetSize(A - {x}, B - {x});
    }
  }

  /** A non-empty set in which every node has a predecessor contains a cycle. */
  lemma PredecessorsForceCycle(E: Edges, S: set<Node>, T: set<Node>)
    requires Within(E, S) && T <= S && T != {}
    requires forall b: Node :: b in T ==> exists a: Node :: a in T && (a, b) in E
    ensures !Acyclic(E)
  {
    var b :| b in T;
    DescentForcesCycle(E, S, T, b);
  }

  lemma {:induction false} DescentForcesCycle(E: Edges, S: set<Node>, T: set<Node>, b: Node)
    requires Within(E, S) && T <= S && b in T
    requires forall b: Node :: b in T ==> exists a: Node :: a in T && (a, b) in E
    ensures !Acyclic(E)
    decreases |AncestorsIn(E, S, b)|
  {
    if Acyclic(E) {
      var a :| a in T && (a, b) in E;
      AncestorsGrow(E, S, a, b);
      DescentForcesCycle(E, S, T, a);
    }
  }
}
