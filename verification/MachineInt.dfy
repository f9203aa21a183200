/** Fixed-width integers as residues 0 <= x < m, with m a power of two written as 2 * half. */
module MachineInt {

  datatype Predicate = EQ | NE | UGT | UGE | ULT | ULE | SGT | SGE | SLT | SLE

  function Wrap(x: int, m: int): (r: int)
    requires m > 0
    ensures 0 <= r < m
  {
    x % m
  }

  function Signed(x: int, m: int): int
  {
    if 2 * x < m then x else x - m
  }

  predicate Compare(p: Predicate, a: int, b: int, m: int)
  {
    match p
    case EQ => a == b
    case NE => a != b
    case UGT => a > b
    case UGE => a >= b
    case ULT => a < b
    case ULE => a <= b
    case SGT => Signed(a, m) > Signed(b, m)
    case SGE => Signed(a, m) >= Signed(b, m)
    case SLT => Signed(a, m) < Signed(b, m)
    case SLE => Signed(a, m) <= Signed(b, m)
  }

  function InversePredicate(p: Predicate): (r: Predicate)
    ensures forall a: int, b: int, m: int :: Compare(r, a, b, m) <==> !Compare(p, a, b, m)
  {
    match p
    case EQ => NE
    case NE => EQ
    case UGT => ULE
    case UGE => ULT
    case ULT => UGE
    case ULE => UGT
    case SGT => SLE
    case SGE => SLT
    case SLT => SGE
    case SLE => SGT
  }

  function SwappedPredicate(p: Predicate): (r: Predicate)
    ensures forall a: int, b: int, m: int :: Compare(r, a, b, m) <==> Compare(p, b, a, m)
  {
    match p
    case EQ => EQ
    case NE => NE
    case UGT => ULT
    case UGE => ULE
    case ULT => UGT
    case ULE => UGE
    case SGT => SLT
    case SGE => SLE
    case SLT => SGT
    case SLE => SGE
  }

  /** An integer already in range is its own residue. */
  lemma WrapInRange(x: int, m: int)
    requires 0 <= x < m
    ensures Wrap(x, m) == x
  {
  }

  lemma WrapShift(x: int, k: int, m: int)
    requires m > 0
    ensures Wrap(x + k * m, m) == Wrap(x, m)
  {
    DivModUnique(x + k * m, m, x / m + k, x % m);
  }

  lemma WrapAdd(x: int, y: int, m: int)
    requires m > 0
    ensures Wrap(Wrap(x, m) + y, m) == Wrap(x + y, m)
  {
    WrapShift(x % m + y, x / m, m);
    assert x % m + y + (x / m) * m == x + y;
  }

  lemma {:induction false} AtLeastFactor(d: nat, b: nat)
    requires d > 0
    ensures d * b >= b
  {
    if d > 1 {
      AtLeastFactor(d - 1, b);
      assert d * b == (d - 1) * b + b;
    }
  }

  lemma QuotientUnique(b: int, q: int, r: int, q': int, r': int)
    requires 0 <= r < b && 0 <= r' < b && q * b + r == q' * b + r'
    ensures q == q' && r == r'
  {
    var d := q' - q;
    assert d * b == q' * b - q * b;
    if d > 0 {
      AtLeastFactor(d, b);
    }
  }

  lemma DivModUnique(a: int, b: int, q: int, r: int)
    requires b > 0 && 0 <= r < b && a == q * b + r
    ensures a / b == q && a % b == r
  {
    assert a == b * (a / b) + a % b;
    QuotientUnique(b, q, r, a / b, a % b);
  }

  /** The residue of an in-range signed integer reads back as that integer. */
  lemma SignedOfWrap(x: int, half: int)
    requires half > 0 && -half <= x < half
    ensures Signed(Wrap(x, 2 * half), 2 * half) == x
  {
    if x >= 0 {
      WrapInRange(x, 2 * half);
    } else {
      WrapShift(x, 1, 2 * half);
      WrapInRange(x + 2 * half, 2 * half);
    }
  }
}
