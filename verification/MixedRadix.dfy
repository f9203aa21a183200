/** Flattened offsets of multi-dimensional accesses: a mixed-radix notation of the subscripts, and when two
    accesses with different extents can never meet. */
module MixedRadix {
  import opened MachineInt

  /** The offset with the outermost subscript x and inner subscripts s in dimensions of the given extents. */
  function Flatten(x: int, s: seq<int>, extents: seq<int>): int
    requires |s| == |extents|
    decreases |s|
  {
    if s == [] then x else Flatten(x * extents[0] + s[0], s[1..], extents[1..])
  }

  lemma FlattenRow(x: int, j: int, n: int)
    ensures Flatten(x, [j], [n]) == x * n + j
  {
    assert [j][1..] == [] && [n][1..] == [];
    assert Flatten(x * n + j, [], []) == x * n + j;
  }

  predicate InRange(s: seq<int>, extents: seq<int>)
  {
    |s| == |extents| && forall i :: 0 <= i < |s| ==> 0 <= s[i] < extents[i]
  }

  predicate AllPositive(extents: seq<int>)
  {
    forall i :: 0 <= i < |extents| ==> extents[i] > 0
  }

  function Volume(extents: seq<int>): (v: int)
    ensures AllPositive(extents) ==> v > 0
  {
    if extents == [] then 1 else extents[0] * Volume(extents[1..])
  }

  /** The subscript of dimension r that an offset stands for; dimension 0 is the outermost one. */
  function Digit(n: int, extents: seq<int>, r: nat): int
    requires AllPositive(extents) && r <= |extents|
  {
    if r == 0 then n / Volume(extents) else (n / Volume(extents[r..])) % extents[r - 1]
  }

  lemma QuotientBetween(n: int, v: int, x: int)
    requires v > 0 && x * v <= n < (x + 1) * v
    ensures n / v == x
  {
    assert (x + 1) * v == x * v + v;
    DivModUnique(n, v, x, n - x * v);
  }

  lemma {:induction false} FlattenBetween(x: int, s: seq<int>, extents: seq<int>)
    requires InRange(s, extents)
    ensures AllPositive(extents)
    ensures x * Volume(extents) <= Flatten(x, s, extents) < (x + 1) * Volume(extents)
    decreases |s|
  {
    if s != [] {
      FlattenBetween(x * extents[0] + s[0], s[1..], extents[1..]);
      assert AllPositive(extents) by {
        assert forall i :: 0 < i < |extents| ==> extents[i] == extents[1..][i - 1];
      }
      Widen(x, extents[0], s[0], Volume(extents[1..]), Flatten(x, s, extents));
    }
  }

  lemma Widen(x: int, e: int, s: int, v: int, n: int)
    requires 0 <= s < e && v > 0 && (x * e + s) * v <= n < (x * e + s + 1) * v
    ensures x * (e * v) <= n < (x + 1) * (e * v)
  {
    assert x * (e * v) == (x * e) * v && (x + 1) * (e * v) == (x * e + e) * v;
    assert (x * e + s) * v == (x * e) * v + s * v && s * v >= 0;
    assert (x * e + e) * v == (x * e + s + 1) * v + (e - s - 1) * v && (e - s - 1) * v >= 0;
  }

  /** Reading a digit back: with every inner subscript in its dimension, an offset determines all subscripts. */
  lemma {:induction false} DigitOfFlatten(x: int, s: seq<int>, extents: seq<int>, r: nat)
    requires InRange(s, extents) && r <= |extents|
    ensures AllPositive(extents) && Digit(Flatten(x, s, extents), extents, r) == ([x] + s)[r]
    decreases r
  {
    FlattenBetween(x, s, extents);
    var n := Flatten(x, s, extents);
    if r == 0 {
      QuotientBetween(n, Volume(extents), x);
    } else {
      var y := x * extents[0] + s[0];
      FlattenBetween(y, s[1..], extents[1..]);
      if r == 1 {
        QuotientBetween(n, Volume(extents[1..]), y);
        DivModUnique(y, extents[0], x, s[0]);
      } else {
        DigitOfFlatten(y, s[1..], extents[1..], r - 1);
        assert extents[1..][r - 1..] == extents[r..];
      }
    }
  }

  /** Every offset is that of some subscripts, the inner ones in range. */
  lemma {:induction false} EveryOffset(n: int, extents: seq<int>) returns (x: int, s: seq<int>)
    requires AllPositive(extents)
    ensures InRange(s, extents) && Flatten(x, s, extents) == n
    decreases |extents|
  {
    if extents == [] {
      x, s := n, [];
    } else {
      var y, t := EveryOffset(n, extents[1..]);
      x, s := y / extents[0], [y % extents[0]] + t;
      assert s[1..] == t;
      assert x * extents[0] + s[0] == y;
      assert forall i :: 0 < i < |s| ==> s[i] == t[i - 1] && extents[i] == extents[1..][i - 1];
    }
  }

  lemma FlattenInjective(x: int, s: seq<int>, y: int, t: seq<int>, extents: seq<int>)
    requires InRange(s, extents) && InRange(t, extents) && Flatten(x, s, extents) == Flatten(y, t, extents)
    ensures x == y && s == t
  {
    DigitOfFlatten(x, s, extents, 0);
    DigitOfFlatten(y, t, extents, 0);
    forall i | 0 <= i < |s|
      ensures s[i] == t[i]
    {
      DigitOfFlatten(x, s, extents, i + 1);
      DigitOfFlatten(y, t, extents, i + 1);
    }
  }

  // ----- two accesses with different extents -----

  /** Two accesses whose subscripts of dimension r differ: can their offsets be equal? */
  ghost predicate MeetAt(x: int, s: seq<int>, extents1: seq<int>, y: int, t: seq<int>, extents2: seq<int>, r: nat)
    requires r <= |extents1| && r <= |extents2|
  {
    InRange(s, extents1) && InRange(t, extents2) && ([x] + s)[r] != ([y] + t)[r] && Flatten(x, s, extents1) == Flatten(y, t, extents2)
  }

  ghost predicate NeverMeetAt(extents1: seq<int>, extents2: seq<int>, r: nat)
    requires r <= |extents1| && r <= |extents2|
  {
    forall x: int, s: seq<int>, y: int, t: seq<int> {:trigger MeetAt(x, s, extents1, y, t, extents2, r)} ::
      !MeetAt(x, s, extents1, y, t, extents2, r)
  }

  ghost predicate SameDigits(extents1: seq<int>, extents2: seq<int>, r: nat)
    requires AllPositive(extents1) && AllPositive(extents2) && r <= |extents1| && r <= |extents2|
  {
    forall n: int {:trigger Digit(n, extents1, r)} :: Digit(n, extents1, r) == Digit(n, extents2, r)
  }

  lemma NeverMeetIffSameDigits(extents1: seq<int>, extents2: seq<int>, r: nat)
    requires AllPositive(extents1) && AllPositive(extents2) && r <= |extents1| && r <= |extents2|
    ensures NeverMeetAt(extents1, extents2, r) <==> SameDigits(extents1, extents2, r)
  {
    if SameDigits(extents1, extents2, r) {
      forall x: int, s: seq<int>, y: int, t: seq<int> | MeetAt(x, s, extents1, y, t, extents2, r)
        ensures false
      {
        DigitOfFlatten(x, s, extents1, r);
        DigitOfFlatten(y, t, extents2, r);
        assert false;
      }
    } else {
      var n: int :| Digit(n, extents1, r) != Digit(n, extents2, r);
      var x, s := EveryOffset(n, extents1);
      var y, t := EveryOffset(n, extents2);
      DigitOfFlatten(x, s, extents1, r);
      DigitOfFlatten(y, t, extents2, r);
      assert MeetAt(x, s, extents1, y, t, extents2, r);
    }
  }

  /** The extents agree as far as dimension r needs: the volumes of the outermost subscripts are the same;
      an inner subscript also needs the same extent, and may ignore the volumes if that is one. */
  predicate ExtentsAgreeAt(extents1: seq<int>, extents2: seq<int>, r: nat)
    requires r <= |extents1| && r <= |extents2|
  {
    if r == 0 then Volume(extents1) == Volume(extents2)
    else extents1[r - 1] == extents2[r - 1] && (extents1[r - 1] == 1 || Volume(extents1[r..]) == Volume(extents2[r..]))
  }

  /** Accesses whose subscripts of dimension r differ never meet, for all outermost and all in-range inner
      subscripts, if and only if the extents agree at r or some dimension is empty. */
  lemma NeverMeetIff(extents1: seq<int>, extents2: seq<int>, r: nat)
    requires r <= |extents1| && r <= |extents2|
    ensures NeverMeetAt(extents1, extents2, r) <==>
            (AllPositive(extents1) && AllPositive(extents2) ==> ExtentsAgreeAt(extents1, extents2, r))
  {
    if AllPositive(extents1) && AllPositive(extents2) {
      NeverMeetIffSameDigits(extents1, extents2, r);
      if r == 0 {
        SameQuotients(extents1, extents2);
      } else {
        SameInnerDigits(extents1, extents2, r);
      }
    } else {
      forall x: int, s: seq<int>, y: int, t: seq<int> | MeetAt(x, s, extents1, y, t, extents2, r)
        ensures false
      {
        FlattenBetween(x, s, extents1);
        FlattenBetween(y, t, extents2);
        assert false;
      }
    }
  }

  /** Two-dimensional accesses by rows: different rows never meet exactly when the rows are equally long. */
  lemma RowsNeverMeetIff(e: int, f: int)
    ensures NeverMeetAt([e], [f], 0) <==> (e > 0 && f > 0 ==> e == f)
  {
    NeverMeetIff([e], [f], 0);
    assert [e][1..] == [] && [f][1..] == [];
    assert Volume([e]) == e * Volume([e][1..]) == e && Volume([f]) == f * Volume([f][1..]) == f;
    assert AllPositive([e]) <==> [e][0] > 0;
    assert AllPositive([f]) <==> [f][0] > 0;
  }

  lemma SmallQuotient(n: int, v: int)
    requires 0 <= n < v
    ensures n / v == 0
  {
    DivModUnique(n, v, 0, n);
  }

  lemma ExactQuotient(k: int, v: int)
    requires v > 0
    ensures (k * v) / v == k
  {
    DivModUnique(k * v, v, k, 0);
  }

  lemma SameQuotients(extents1: seq<int>, extents2: seq<int>)
    requires AllPositive(extents1) && AllPositive(extents2)
    ensures SameDigits(extents1, extents2, 0) <==> Volume(extents1) == Volume(extents2)
  {
    var p, q := Volume(extents1), Volume(extents2);
    if p != q {
      var least, most := if p < q then p else q, if p < q then q else p;
      SmallQuotient(least, most);
      ExactQuotient(1, least);
      assert Digit(least, extents1, 0) != Digit(least, extents2, 0);
    }
  }

  /** The digit (n / p) mod e and the digit (n / q) mod f are the same for every n only if both are always
      zero, or e == f and p == q. */
  lemma DigitsDiffer(p: int, e: int, q: int, f: int) returns (n: int)
    requires p > 0 && e > 0 && q > 0 && f > 0
    requires e != f || (e != 1 && p != q)
    ensures (n / p) % e != (n / q) % f
  {
    if p == q {
      n := (if e < f then e else f) * p;
      ExactQuotient(if e < f then e else f, p);
      SmallerIsItself(e, f);
    } else {
      n := FirstDifference(p, e, q, f);
    }
  }

  lemma SmallerIsItself(e: int, f: int)
    requires e > 0 && f > 0 && e != f
    ensures (if e < f then e else f) % e != (if e < f then e else f) % f
  {
    if e < f {
      DivModUnique(e, e, 1, 0);
      DivModUnique(e, f, 0, e);
    } else {
      DivModUnique(f, f, 1, 0);
      DivModUnique(f, e, 0, f);
    }
  }

  lemma FirstDifference(p: int, e: int, q: int, f: int) returns (n: int)
    requires p > 0 && e > 0 && q > 0 && f > 0 && p != q
    requires e > 1 || f > 1
    ensures (n / p) % e != (n / q) % f
  {
    if e > 1 && (p < q || f == 1) {
      n := p;
      OneAgainstZero(p, e, q, f);
    } else {
      n := q;
      OneAgainstZero(q, f, p, e);
    }
  }

  lemma OneAgainstZero(p: int, e: int, q: int, f: int)
    requires p > 0 && e > 1 && q > 0 && f > 0 && (p < q || f == 1)
    ensures (p / p) % e == 1 && (p / q) % f == 0
  {
    ExactQuotient(1, p);
    DivModUnique(1, e, 0, 1);
    if f == 1 {
      DivModUnique(p / q, 1, p / q, 0);
    } else {
      SmallQuotient(p, q);
    }
  }

  lemma ModOne(n: int)
    ensures n % 1 == 0
  {
  }

  lemma SameInnerDigits(extents1: seq<int>, extents2: seq<int>, r: nat)
    requires AllPositive(extents1) && AllPositive(extents2) && 0 < r <= |extents1| && r <= |extents2|
    ensures SameDigits(extents1, extents2, r) <==> ExtentsAgreeAt(extents1, extents2, r)
  {
    var e, f, p, q := extents1[r - 1], extents2[r - 1], Volume(extents1[r..]), Volume(extents2[r..]);
    if ExtentsAgreeAt(extents1, extents2, r) {
      if e == 1 {
        forall n: int
          ensures Digit(n, extents1, r) == Digit(n, extents2, r)
        {
          ModOne(n / p);
          ModOne(n / q);
        }
      }
    } else {
      var n := DigitsDiffer(p, e, q, f);
      assert Digit(n, extents1, r) != Digit(n, extents2, r);
    }
  }

  // ----- two accesses with different bases -----

  /** Two elements of `size` bytes, the second counted from a base that is `distance` bytes after that of
      the first: do they share a byte? */
  predicate Overlap(off1: int, off2: int, size: int, distance: int)
  {
    -size < off1 * size - (distance + off2 * size) < size
  }

  /** Two accesses whose subscripts of dimension r differ never share a byte. */
  ghost predicate ApartAt(extents1: seq<int>, extents2: seq<int>, r: nat, size: int, distance: int)
    requires r <= |extents1| && r <= |extents2|
  {
    forall x: int, s: seq<int>, y: int, t: seq<int> {:trigger DifferAt(x, s, extents1, y, t, extents2, r)} ::
      DifferAt(x, s, extents1, y, t, extents2, r) ==> !Overlap(Flatten(x, s, extents1), Flatten(y, t, extents2), size, distance)
  }

  ghost predicate DifferAt(x: int, s: seq<int>, extents1: seq<int>, y: int, t: seq<int>, extents2: seq<int>, r: nat)
    requires r <= |extents1| && r <= |extents2|
  {
    InRange(s, extents1) && InRange(t, extents2) && ([x] + s)[r] != ([y] + t)[r]
  }

  /** The bases agree as far as dimension r needs: they are equal, or, for an inner dimension of more than
      one element, a whole number of steps of the dimension around it apart. */
  predicate BasesAgreeAt(extents: seq<int>, r: nat, size: int, distance: int)
    requires AllPositive(extents) && r <= |extents| && size > 0
  {
    if r == 0 then distance == 0
    else extents[r - 1] == 1 || distance % (size * Period(extents, r)) == 0
  }

  /** After how many elements the digit of an inner dimension repeats. */
  function Period(extents: seq<int>, r: nat): (n: int)
    requires AllPositive(extents) && 0 < r <= |extents|
    ensures n > 0
  {
    extents[r - 1] * Volume(extents[r..])
  }

  /** Accesses with agreeing extents whose subscripts of dimension r differ never share a byte, for all
      outermost and all in-range inner subscripts, if and only if the bases agree at r. */
  lemma ApartIff(extents1: seq<int>, extents2: seq<int>, r: nat, size: int, distance: int)
    requires AllPositive(extents1) && AllPositive(extents2) && r <= |extents1| && r <= |extents2| && size > 0
    requires ExtentsAgreeAt(extents1, extents2, r)
    ensures ApartAt(extents1, extents2, r, size, distance) <==> BasesAgreeAt(extents1, r, size, distance)
  {
    ExtentsAgreeMeansSameDigits(extents1, extents2, r);
    if BasesAgreeAt(extents1, r, size, distance) {
      forall x: int, s: seq<int>, y: int, t: seq<int> {:trigger DifferAt(x, s, extents1, y, t, extents2, r)} |
        DifferAt(x, s, extents1, y, t, extents2, r)
        ensures !Overlap(Flatten(x, s, extents1), Flatten(y, t, extents2), size, distance)
      {
        DigitOfFlatten(x, s, extents1, r);
        DigitOfFlatten(y, t, extents2, r);
        DifferentDigitsApart(Flatten(x, s, extents1), Flatten(y, t, extents2), extents1, r, size, distance);
      }
    } else {
      var n1, n2 := OverlappingElements(extents1, r, size, distance);
      var x, s := EveryOffset(n1, extents1);
      var y, t := EveryOffset(n2, extents2);
      DigitOfFlatten(x, s, extents1, r);
      DigitOfFlatten(y, t, extents2, r);
      assert DifferAt(x, s, extents1, y, t, extents2, r);
    }
  }

  /** The same for two given lists of subscripts. */
  lemma SubscriptsApart(s: seq<int>, extents1: seq<int>, t: seq<int>, extents2: seq<int>, r: nat, size: int, distance: int)
    requires |s| == |extents1| + 1 == |t| == |extents2| + 1 && InRange(s[1..], extents1) && InRange(t[1..], extents2)
    requires r < |s| && s[r] != t[r] && ExtentsAgreeAt(extents1, extents2, r) && size > 0
    requires AllPositive(extents1) ==> BasesAgreeAt(extents1, r, size, distance)
    ensures !Overlap(Flatten(s[0], s[1..], extents1), Flatten(t[0], t[1..], extents2), size, distance)
  {
    assert s == [s[0]] + s[1..] && t == [t[0]] + t[1..];
    FlattenBetween(s[0], s[1..], extents1);
    FlattenBetween(t[0], t[1..], extents2);
    ApartIff(extents1, extents2, r, size, distance);
    assert DifferAt(s[0], s[1..], extents1, t[0], t[1..], extents2, r);
  }

  lemma ApartAddresses(off1: int, off2: int, size: int, base1: int, base2: int)
    requires !Overlap(off1, off2, size, base2 - base1)
    ensures base1 + off1 * size + size <= base2 + off2 * size || base2 + off2 * size + size <= base1 + off1 * size
  {
  }

  lemma ExtentsAgreeMeansSameDigits(extents1: seq<int>, extents2: seq<int>, r: nat)
    requires AllPositive(extents1) && AllPositive(extents2) && r <= |extents1| && r <= |extents2|
    requires ExtentsAgreeAt(extents1, extents2, r)
    ensures SameDigits(extents1, extents2, r)
  {
    if r == 0 {
      SameQuotients(extents1, extents2);
    } else {
      SameInnerDigits(extents1, extents2, r);
    }
  }

  /** Elements that share a byte are as many elements apart as the bases, rounded. */
  lemma DifferentDigitsApart(n1: int, n2: int, extents: seq<int>, r: nat, size: int, distance: int)
    requires AllPositive(extents) && r <= |extents| && size > 0 && BasesAgreeAt(extents, r, size, distance)
    requires Digit(n1, extents, r) != Digit(n2, extents, r)
    ensures !Overlap(n1, n2, size, distance)
  {
    assert (n1 - n2) * size == n1 * size - n2 * size;
    if r == 0 {
      NearMultiple(n1 - n2, 0, size);
    } else if extents[r - 1] == 1 {
      ModOne(n1 / Volume(extents[r..]));
      ModOne(n2 / Volume(extents[r..]));
    } else {
      var m := WholeSteps(extents, r, size, distance);
      NearMultiple(n1 - n2, Period(extents, r) * m, size);
      DigitRepeats(n2, extents, r, m);
    }
  }

  lemma WholeSteps(extents: seq<int>, r: nat, size: int, distance: int) returns (m: int)
    requires AllPositive(extents) && 0 < r <= |extents| && size > 0
    requires size * Period(extents, r) > 0 && distance % (size * Period(extents, r)) == 0
    ensures distance == (Period(extents, r) * m) * size
  {
    var L := Period(extents, r);
    m := distance / (size * L);
    Regrouped(size, L, m);
  }

  lemma Regrouped(a: int, b: int, c: int)
    ensures (a * b) * c == (b * c) * a
  {
    assert (a * b) * c == a * (b * c);
  }

  /** Two multiples of the size less than the size apart are equal. */
  lemma NearMultiple(a: int, b: int, size: int)
    requires size > 0
    ensures -size < a * size - b * size < size <==> a == b
  {
    assert (a - b) * size == a * size - b * size;
    if a > b {
      AtLeastFactor(a - b, size);
    } else if a < b {
      AtLeastFactor(b - a, size);
      assert (b - a) * size == -((a - b) * size);
    }
  }

  lemma DigitRepeats(n: int, extents: seq<int>, r: nat, m: int)
    requires AllPositive(extents) && 0 < r <= |extents|
    ensures Digit(n + Period(extents, r) * m, extents, r) == Digit(n, extents, r)
  {
    ShiftedDigit(n, extents[r - 1], Volume(extents[r..]), m);
  }

  lemma ShiftQuotient(n: int, v: int, k: int)
    requires v > 0
    ensures (n + k * v) / v == n / v + k
  {
    assert (n / v + k) * v == (n / v) * v + k * v;
    DivModUnique(n + k * v, v, n / v + k, n % v);
  }

  lemma ShiftRemainder(q: int, e: int, m: int)
    requires e > 0
    ensures (q + e * m) % e == q % e
  {
    assert (q / e + m) * e == (q / e) * e + e * m;
    DivModUnique(q + e * m, e, q / e + m, q % e);
  }

  /** If the bases do not agree, some elements with different digits share a byte. */
  lemma OverlappingElements(extents: seq<int>, r: nat, size: int, distance: int) returns (n1: int, n2: int)
    requires AllPositive(extents) && r <= |extents| && size > 0 && !BasesAgreeAt(extents, r, size, distance)
    ensures Digit(n1, extents, r) != Digit(n2, extents, r) && Overlap(n1, n2, size, distance)
  {
    if r == 0 {
      var d := NearestElement(size, distance);
      n1, n2 := AcrossBlocks(Volume(extents), d);
      assert n1 * size - n2 * size == d * size by {
        assert (n1 - n2) * size == n1 * size - n2 * size;
      }
    } else {
      var d := NearestOffPeriod(size, distance, Period(extents, r));
      n1, n2 := AcrossDigits(extents[r - 1], Volume(extents[r..]), d);
      assert n1 * size - n2 * size == d * size by {
        assert (n1 - n2) * size == n1 * size - n2 * size;
      }
    }
  }

  /** A distance other than zero is less than one element from a number of elements other than zero. */
  lemma NearestElement(size: int, distance: int) returns (d: int)
    requires size > 0 && distance != 0
    ensures d != 0 && -size < d * size - distance < size
  {
    var q, m := distance / size, distance % size;
    assert distance == q * size + m;
    assert (q + 1) * size == q * size + size;
    assert q == -1 ==> q * size == -size;
    assert q == 0 ==> q * size == 0;
    d := if distance > 0 && m > 0 then q + 1 else q;
  }

  /** A distance that is no whole number of periods is less than one element from a number of elements that
      is none either. */
  lemma NearestOffPeriod(size: int, distance: int, L: int) returns (d: int)
    requires size > 0 && L > 1 && distance % (size * L) != 0
    ensures d % L != 0 && -size < d * size - distance < size
  {
    var q, m := distance / size, distance % size;
    assert distance == q * size + m;
    assert (q + 1) * size == q * size + size;
    if q % L != 0 {
      d := q;
    } else {
      WholePeriods(q, L, size);
      d := q + 1;
      DivModUnique(q + 1, L, q / L, 1);
    }
  }

  lemma WholePeriods(q: int, L: int, size: int)
    requires size > 0 && L > 1 && q % L == 0
    ensures size * L > 0 && (q * size) % (size * L) == 0
  {
    AtLeastFactor(size, L);
    assert q == (q / L) * L;
    Regrouped(q / L, L, size);
    Regrouped(size, L, q / L);
    DivModUnique(q * size, size * L, q / L, 0);
  }

  lemma AcrossBlocks(v: int, d: int) returns (n1: int, n2: int)
    requires v > 0 && d != 0
    ensures n1 - n2 == d && n1 / v != n2 / v
  {
    SmallQuotient(v - 1, v);
    if d > 0 {
      n1, n2 := v - 1 + d, v - 1;
      LargeQuotient(n1, v);
    } else {
      n1, n2 := v - 1, v - 1 - d;
      LargeQuotient(n2, v);
    }
  }

  lemma LargeQuotient(n: int, v: int)
    requires v > 0 && n >= v
    ensures n / v > 0
  {
    ShiftQuotient(n - v, v, 1);
  }

  lemma AcrossDigits(e: int, v: int, d: int) returns (n1: int, n2: int)
    requires e > 1 && v > 0 && e * v > 0 && d % (e * v) != 0
    ensures n1 - n2 == d && (n1 / v) % e != (n2 / v) % e
  {
    var rest, m := d % (e * v), d / (e * v);
    assert d == rest + (e * v) * m;
    if rest >= v {
      n2 := 0;
      LargeQuotient(rest, v);
      BelowExtent(rest, e, v);
      SmallQuotient(0, v);
      DivModUnique(rest / v, e, 0, rest / v);
    } else {
      n2 := v - 1;
      QuotientBetween(v - 1 + rest, v, 1);
      SmallQuotient(v - 1, v);
      DivModUnique(1, e, 0, 1);
    }
    n1 := n2 + d;
    ShiftedDigit(n2 + rest, e, v, m);
    DivModUnique(0, e, 0, 0);
  }

  lemma BelowExtent(n: int, e: int, v: int)
    requires v > 0 && 0 <= n < e * v
    ensures n / v < e
  {
    ShiftQuotient(n - e * v, v, e);
  }

  lemma ShiftedDigit(n: int, e: int, v: int, m: int)
    requires e > 0 && v > 0
    ensures ((n + (e * v) * m) / v) % e == (n / v) % e
  {
    assert (e * v) * m == (e * m) * v by {
      Regrouped(e, v, m);
      Regrouped(v, m, e);
      Regrouped(e, m, v);
    }
    ShiftQuotient(n, v, e * m);
    ShiftRemainder(n / v, e, m);
  }
}
