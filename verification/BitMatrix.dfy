/** A square bit matrix stored row by row in one flat vector, and the closure that grows rows
    while it walks along them. */
module BitMatrices {
  import opened Graph
  import opened MachineInt

  function Idx(n: nat, row: nat, col: nat): nat
  {
    row * n + col
  }

  lemma IdxInRange(n: nat, row: nat, col: nat)
    requires row < n && col < n
    ensures Idx(n, row, col) < n * n
  {
    assert row * n <= (n - 1) * n;
  }

  /** Rows do not overlap. */
  lemma RowsApart(n: nat, row: nat, col: nat, otherRow: nat, otherCol: nat)
    requires col < n && row < otherRow
    ensures Idx(n, row, col) < Idx(n, otherRow, otherCol)
  {
    assert (row + 1) * n <= otherRow * n;
  }

  lemma IdxInjective(n: nat, row: nat, col: nat, otherRow: nat, otherCol: nat)
    requires col < n && otherCol < n
    ensures Idx(n, row, col) == Idx(n, otherRow, otherCol) ==> row == otherRow && col == otherCol
  {
    if row < otherRow {
      RowsApart(n, row, col, otherRow, otherCol);
    } else if otherRow < row {
      RowsApart(n, otherRow, otherCol, row, col);
    }
  }

  const UINT32: nat := 0x1_0000_0000

  /** In 32-bit arithmetic, every pair has a position inside the vector, and no two share one. */
  ghost predicate PositionsFit(n: nat)
  {
    && (forall row: nat, col: nat {:trigger Idx(n, row, col)} :: row < n && col < n ==> Wrap(Idx(n, row, col), UINT32) < Wrap(n * n, UINT32))
    && (forall row: nat, col: nat, otherRow: nat, otherCol: nat {:trigger Idx(n, row, col), Idx(n, otherRow, otherCol)} ::
          row < n && col < n && otherRow < n && otherCol < n && (row, col) != (otherRow, otherCol) ==>
            Wrap(Idx(n, row, col), UINT32) != Wrap(Idx(n, otherRow, otherCol), UINT32))
  }

  /** Positions and size computed in 32 bits are those computed here exactly for fewer than 65536 rows: from there
      on a position falls outside the vector or is shared. */
  lemma PositionsFitIff(n: nat)
    ensures PositionsFit(n) <==> n < 0x1_0000
  {
    if n < 0x1_0000 {
      SmallSquare(n);
      forall row: nat, col: nat | row < n && col < n
        ensures Wrap(Idx(n, row, col), UINT32) == Idx(n, row, col) < n * n
      {
        IdxInRange(n, row, col);
      }
      forall row: nat, col: nat, otherRow: nat, otherCol: nat
        | row < n && col < n && otherRow < n && otherCol < n && (row, col) != (otherRow, otherCol)
        ensures Idx(n, row, col) != Idx(n, otherRow, otherCol)
      {
        IdxInjective(n, row, col, otherRow, otherCol);
      }
    } else {
      PositionsClash(n);
    }
  }

  lemma SmallSquare(n: nat)
    requires n < 0x1_0000
    ensures n * n < UINT32
  {
    MonotoneProduct(n, 0xFFFF, n, 0xFFFF);
  }

  lemma PositionsClash(n: nat)
    requires n >= 0x1_0000
    ensures !PositionsFit(n)
  {
    assert Idx(n, 0, 0) == 0;
    if n > 0x1_0000 {
      var row, col := UINT32 / n, UINT32 % n;
      assert UINT32 == n * row + col;
      RowFits(n, row);
      assert Idx(n, row, col) == UINT32;
      assert (row, col) != (0, 0);
      assert Wrap(Idx(n, row, col), UINT32) == Wrap(Idx(n, 0, 0), UINT32);
    }
  }

  lemma RowFits(n: nat, row: nat)
    requires n > 0x1_0000 && n * row <= UINT32
    ensures row < n
  {
    if row > 0x1_0000 {
      MonotoneProduct(0x1_0001, n, 0x1_0001, row);
      assert false;
    }
  }

  lemma MonotoneProduct(a: nat, b: nat, c: nat, d: nat)
    requires a <= b && c <= d
    ensures a * c <= b * d
  {
    assert a * c <= b * c;
    assert b * c <= b * d;
  }

  ghost function Cells(n: nat): Edges
  {
    set i: Node, j: Node | 0 <= i < n && 0 <= j < n :: (i, j)
  }

  /** The matrix with row i or-ed with row j. */
  ghost function Absorbed(E: Edges, i: Node, j: Node): Edges
  {
    E + set e | e in E && e.0 == j :: (i, e.1)
  }

  ghost predicate OnlyRow(E: Edges, E': Edges, i: Node)
  {
    E <= E' && forall e :: e in E' && e.0 != i ==> e in E
  }

  /** Row j is contained in row i. */
  ghost predicate RowWithin(E: Edges, j: Node, i: Node)
  {
    forall k: Node :: (j, k) in E ==> (i, k) in E
  }

  /** Every original successor of i has its row contained in row i, unless i is still queued. */
  ghost predicate AbsorbedUnlessQueued(E0: Edges, E: Edges, worklist: seq<Node>)
  {
    forall i: Node, j: Node {:trigger (i, j) in E0} :: (i, j) in E0 && i !in worklist ==> RowWithin(E, j, i)
  }

  ghost predicate RowsOf(worklist: seq<Node>, n: nat)
  {
    forall k :: 0 <= k < |worklist| ==> worklist[k] < n
  }

  ghost predicate Sound(E0: Edges, E: Edges)
  {
    forall i: Node, j: Node {:trigger (i, j) in E} :: (i, j) in E ==> Reaches(E0, i, j)
  }

  /** What the closure of a graph is: exactly the walks of one or more edges. */
  ghost predicate IsClosure(E0: Edges, E: Edges)
  {
    forall i: Node, j: Node :: (i, j) in E <==> Reaches(E0, i, j)
  }

  /** If along every original edge the rows are nested, every walk of original edges has its bit. */
  lemma {:induction false} NestedRowsHoldWalks(E0: Edges, E: Edges, i: Node, k: Node, n: nat)
    requires E0 <= E && AbsorbedUnlessQueued(E0, E, [])
    requires n > 0 && Walk(E0, i, k, n)
    ensures (i, k) in E
    decreases n
  {
    var j: Node :| (i, j) in E0 && Walk(E0, j, k, n - 1);
    if n > 1 {
      NestedRowsHoldWalks(E0, E, j, k, n - 1);
      assert RowWithin(E, j, i);
    }
  }

  lemma EmptyQueueIsClosure(E0: Edges, E: Edges)
    requires E0 <= E && Sound(E0, E) && AbsorbedUnlessQueued(E0, E, [])
    ensures IsClosure(E0, E)
  {
    forall i: Node, k: Node | Reaches(E0, i, k)
      ensures (i, k) in E
    {
      var n: nat :| n > 0 && Walk(E0, i, k, n);
      NestedRowsHoldWalks(E0, E, i, k, n);
    }
  }

  lemma AllQueued(n: nat, E: Edges, worklist: seq<Node>)
    requires E <= Cells(n) && |worklist| == n && forall i :: 0 <= i < n ==> worklist[i] == i
    ensures Sound(E, E) && AbsorbedUnlessQueued(E, E, worklist)
    ensures RowsOf(worklist, n)
  {
    forall i: Node, j: Node {:trigger (i, j) in E} | (i, j) in E
      ensures i in worklist && Reaches(E, i, j)
    {
      assert worklist[i] == i;
      EdgeReaches(E, i, j);
    }
  }

  lemma AbsorbedSound(E0: Edges, E: Edges, i: Node, j: Node)
    requires Sound(E0, E) && (i, j) in E
    ensures Sound(E0, Absorbed(E, i, j))
  {
    var A := Absorbed(E, i, j);
    forall a: Node, b: Node | (a, b) in A
      ensures Reaches(E0, a, b)
    {
      if (a, b) !in E {
        assert a == i && (j, b) in E;
        ReachesTrans(E0, i, j, b);
      }
    }
  }

  /** Processing row i leaves every queued-or-nested claim intact once the predecessors of i are queued. */
  lemma RowProcessed(E0: Edges, E: Edges, E': Edges, i: Node, worklist: seq<Node>, longer: seq<Node>)
    requires worklist != [] && worklist[0] == i && E0 <= E
    requires AbsorbedUnlessQueued(E0, E, worklist) && OnlyRow(E, E', i)
    requires forall j: Node {:trigger (i, j) in E} :: (i, j) in E ==> RowWithin(E', j, i)
    requires forall p: Node :: p in worklist[1..] || (E' != E && (p, i) in E') ==> p in longer
    ensures AbsorbedUnlessQueued(E0, E', longer)
  {
    forall p: Node, j: Node {:trigger (p, j) in E0} | (p, j) in E0 && p !in longer
      ensures RowWithin(E', j, p)
    {
      assert (p, j) in E;
      if p != i {
        assert p !in worklist && RowWithin(E, j, p);
        assert j == i && E' != E ==> (p, i) in E';
      }
    }
  }

  class BitMatrix {
    var N: nat
    var bv: array<bool>
    ghost var bits: Edges

    ghost predicate Valid()
      reads this, bv
    {
      && bv.Length == N * N
      && bits <= Cells(N)
      && (forall i: Node, j: Node {:trigger Idx(N, i, j)} :: i < N && j < N ==>
            Idx(N, i, j) < bv.Length && (bv[Idx(N, i, j)] <==> (i, j) in bits))
    }

    constructor (n: nat)
      ensures Valid() && fresh(bv) && N == n && bits == {}
    {
      N := n;
      bv := new bool[n * n](_ => false);
      bits := {};
      new;
      forall i: Node, j: Node | i < n && j < n
        ensures Idx(n, i, j) < bv.Length
      {
        IdxInRange(n, i, j);
      }
    }

    method Set(row: nat, col: nat, v: bool)
      requires Valid() && row < N && col < N
      modifies this`bits, bv
      ensures Valid()
      ensures bits == if v then old(bits) + {(row, col)} else old(bits) - {(row, col)}
    {
      bv[Idx(N, row, col)] := v;
      bits := if v then bits + {(row, col)} else bits - {(row, col)};
      forall i: Node, j: Node {:trigger Idx(N, i, j)} | i < N && j < N
        ensures bv[Idx(N, i, j)] <==> (i, j) in bits
      {
        IdxInjective(N, i, j, row, col);
      }
    }

    method Test(row: nat, col: nat) returns (v: bool)
      requires Valid() && row < N && col < N
      ensures v <==> (row, col) in bits
    {
      v := bv[Idx(N, row, col)];
    }

    /** The first set position from `start` on, or -1. */
    method FindFrom(start: nat) returns (next: int)
      ensures next == -1 || start <= next < bv.Length
      ensures next == -1 ==> forall k :: start <= k < bv.Length ==> !bv[k]
      ensures next != -1 ==> bv[next] && forall k :: start <= k < next ==> !bv[k]
    {
      next := start;
      while next < bv.Length
        invariant start <= next
        invariant forall k :: start <= k < next && k < bv.Length ==> !bv[k]
      {
        if bv[next] {
          return;
        }
        next := next + 1;
      }
      next := -1;
    }

    method FirstSuccessor(row: nat) returns (next: int)
      requires Valid() && row < N
      ensures next == -1 || 0 <= next < N
      ensures next == -1 ==> forall c: Node :: (row, c) !in bits
      ensures next != -1 ==> (row, next) in bits && forall c: Node :: c < next ==> (row, c) !in bits
    {
      next := SuccessorFrom(row, 0);
    }

    method NextSuccessor(row: nat, prev: nat) returns (next: int)
      requires Valid() && row < N && prev < N
      ensures next == -1 || prev < next < N
      ensures next == -1 ==> forall c: Node :: prev < c ==> (row, c) !in bits
      ensures next != -1 ==> (row, next) in bits && forall c: Node :: prev < c < next ==> (row, c) !in bits
    {
      next := SuccessorFrom(row, prev + 1);
    }

    /** The first set column of a row from `from` on; a hit in a later row does not count. */
    method SuccessorFrom(row: nat, from: nat) returns (next: int)
      requires Valid() && row < N && from <= N
      ensures next == -1 || from <= next < N
      ensures next == -1 ==> forall c: Node :: from <= c ==> (row, c) !in bits
      ensures next != -1 ==> (row, next) in bits && forall c: Node :: from <= c < next ==> (row, c) !in bits
    {
      var rowBegin := Idx(N, row, 0);
      var rowEnd := rowBegin + N;
      next := FindFrom(rowBegin + from);
      forall c: Node | from <= c < N && (next == -1 || rowBegin + c < next)
        ensures (row, c) !in bits
      {
        assert Idx(N, row, c) == rowBegin + c;
      }
      if next == -1 || next >= rowEnd {
        return -1;
      }
      next := next - rowBegin;
      assert Idx(N, row, next) == rowBegin + next;
    }

    /** Row i becomes row i or row j, while the cursor runs along row j (which may be row i). */
    method AbsorbRow(i: nat, j: nat) returns (changed: bool)
      requires Valid() && i < N && j < N
      modifies this`bits, bv
      ensures Valid() && bits == Absorbed(old(bits), i, j)
      ensures changed <==> bits != old(bits)
    {
      changed := false;
      ghost var E := bits;
      ghost var A := Absorbed(bits, i, j);
      var k := FirstSuccessor(j);
      while k != -1
        invariant Valid()
        invariant k == -1 || (0 <= k < N && (j, k) in bits)
        invariant E <= bits <= A
        invariant changed <==> bits != E
        invariant forall c: Node :: (j, c) in E && (k == -1 || c < k) ==> (i, c) in bits
        decreases if k == -1 then 0 else N - k + 1
      {
        var present := Test(i, k);
        if !present {
          changed := true;
          Set(i, k, true);
        }
        k := NextSuccessor(j, k);
      }
      assert bits == A;
    }

    /** Process one row of the worklist. Bits set behind the cursor are not visited again, but the
        successors the row had on entry all are. */
    method PropagateRow(i: nat, ghost E0: Edges) returns (changed: bool)
      requires Valid() && i < N && Sound(E0, bits)
      modifies this`bits, bv
      ensures Valid() && Sound(E0, bits) && OnlyRow(old(bits), bits, i)
      ensures forall j: Node {:trigger (i, j) in old(bits)} :: (i, j) in old(bits) ==> RowWithin(bits, j, i)
      ensures changed <==> bits != old(bits)
    {
      changed := false;
      ghost var E := bits;
      var j := FirstSuccessor(i);
      while j != -1
        invariant Valid() && Sound(E0, bits) && OnlyRow(E, bits, i)
        invariant j == -1 || (0 <= j < N && (i, j) in bits)
        invariant forall c: Node {:trigger (i, c) in E} :: (i, c) in E && (j == -1 || c < j) ==> RowWithin(bits, c, i)
        invariant changed <==> bits != E
        decreases if j == -1 then 0 else N - j + 1
      {
        AbsorbedSound(E0, bits, i, j);
        var grown := AbsorbRow(i, j);
        changed := changed || grown;
        j := NextSuccessor(i, j);
      }
    }

    /** Queue the predecessors of a changed row that are not queued. */
    method EnqueuePredecessors(worklist: seq<nat>, i: nat) returns (longer: seq<nat>)
      requires Valid() && i < N && RowsOf(worklist, N)
      ensures forall p: Node :: p in longer <==> p in worklist || (p, i) in bits
      ensures RowsOf(longer, N)
    {
      longer := worklist;
      for p := 0 to N
        invariant forall q: Node :: q in longer <==> q in worklist || (q < p && (q, i) in bits)
        invariant RowsOf(longer, N)
      {
        var pointsToI := Test(p, i);
        if pointsToI && p !in longer {
          longer := longer + [p];
        }
      }
    }

    /** Afterwards bit (i, j) is set exactly when the original matrix has a path of one or more edges from i to j. */
    method TransitiveClosure()
      requires Valid()
      modifies this`bits, bv
      ensures Valid()
      ensures IsClosure(old(bits), bits)
    {
      ghost var E0: Edges := bits;
      var worklist: seq<nat> := seq(N, i => i);
      AllQueued(N, E0, worklist);
      while worklist != []
        invariant Valid() && E0 <= bits && Sound(E0, bits)
        invariant RowsOf(worklist, N)
        invariant AbsorbedUnlessQueued(E0, bits, worklist)
        decreases Cells(N) - bits, |worklist|
      {
        ghost var E, queued := bits, worklist;
        var i := worklist[0];
        worklist := worklist[1..];
        var changedI := PropagateRow(i, E0);
        if changedI {
          worklist := EnqueuePredecessors(worklist, i);
        }
        RowProcessed(E0, E, bits, i, queued, worklist);
      }
      EmptyQueueIsClosure(E0, bits);
    }
  }
}
