/**
 * The key order of the skip list: strings ordered character by character (a proper prefix comes first),
 * extended with the two sentinels that bracket every level.
 */
module StringOrder {

  /** `a` comes strictly before `b`. */
  predicate StrLess(a: string, b: string)
  {
    if a == [] then b != []
    else if b == [] then false
    else if a[0] != b[0] then a[0] < b[0]
    else StrLess(a[1..], b[1..])
  }

  lemma {:induction false} StrLessIrreflexive(a: string)
    ensures !StrLess(a, a)
  {
    if a != [] {
      StrLessIrreflexive(a[1..]);
    }
  }

  lemma {:induction false} StrLessTransitive(a: string, b: string, c: string)
    requires StrLess(a, b) && StrLess(b, c)
    ensures StrLess(a, c)
  {
    if a != [] && b != [] && c != [] && a[0] == b[0] && b[0] == c[0] {
      StrLessTransitive(a[1..], b[1..], c[1..]);
    }
  }

  /** Any two different strings are ordered one way. */
  lemma {:induction false} StrLessTotal(a: string, b: string)
    requires a != b
    ensures StrLess(a, b) || StrLess(b, a)
  {
    if a != [] && b != [] && a[0] == b[0] {
      assert a == [a[0]] + a[1..] && b == [b[0]] + b[1..];
      StrLessTotal(a[1..], b[1..]);
    }
  }

  /** A key on a level: a user key, or one of the sentinels `-oo` and `+oo`. */
  datatype Bound = NegInf | Key(k: string) | PosInf

  /** `-oo` is below every key, `+oo` above every key, user keys compare as strings. */
  predicate BoundLess(a: Bound, b: Bound)
  {
    match (a, b)
    case (NegInf, NegInf) => false
    case (NegInf, _) => true
    case (Key(x), Key(y)) => StrLess(x, y)
    case (Key(_), PosInf) => true
    case (_, _) => false
  }

  predicate BoundLe(a: Bound, b: Bound)
  {
    a == b || BoundLess(a, b)
  }

  lemma BoundLessIrreflexive(a: Bound)
    ensures !BoundLess(a, a)
  {
    if a.Key? {
      StrLessIrreflexive(a.k);
    }
  }

  lemma BoundLessTransitive(a: Bound, b: Bound, c: Bound)
    requires BoundLess(a, b) && BoundLess(b, c)
    ensures BoundLess(a, c)
  {
    if a.Key? && b.Key? && c.Key? {
      StrLessTransitive(a.k, b.k, c.k);
    }
  }

  lemma BoundLessTotal(a: Bound, b: Bound)
    requires a != b
    ensures BoundLess(a, b) || BoundLess(b, a)
  {
    if a.Key? && b.Key? {
      StrLessTotal(a.k, b.k);
    }
  }

  /** The order is strict: never both ways. */
  lemma BoundLessAsymmetric(a: Bound, b: Bound)
    requires BoundLess(a, b)
    ensures !BoundLess(b, a)
  {
    if BoundLess(b, a) {
      BoundLessTransitive(a, b, a);
      BoundLessIrreflexive(a);
    }
  }
}
