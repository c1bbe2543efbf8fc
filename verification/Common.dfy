/** What the modules of the project share: Option, and facts of arithmetic and sets. */
module Common {
  /** A value that may be absent: a missing map entry, a nil pointer, a failed parse. */
  datatype Option<+T> = None | Some(value: T)

  function Or<T>(o: Option<T>, default: T): T { if o.Some? then o.value else default }

  function Min(a: int, b: int): int { if a < b then a else b }

  lemma ScaleUp(limit: int, a: int, b: int)
    requires limit >= 0 && a <= b
    ensures limit * a <= limit * b
  {
  }

  /** A quotient is at least q exactly when q divisors fit. */
  lemma FitsExactly(a: int, w: int, q: int)
    requires a >= 0 && w > 0
    ensures a / w >= q <==> w * q <= a
  {
    var p := a / w;
    assert w * p <= a < w * (p + 1);
    if p >= q { ScaleUp(w, q, p); } else { ScaleUp(w, p + 1, q); }
  }

  /** The size of a set that differs from another in at most one element. */
  lemma SizeBut<T>(a: set<T>, b: set<T>, x: T)
    requires a - {x} == b - {x}
    ensures |b| == |a| - (if x in a then 1 else 0) + (if x in b then 1 else 0)
  {
    SizeWithout(a, x);
    SizeWithout(b, x);
  }

  lemma SizeWithout<T>(a: set<T>, x: T)
    ensures |a - {x}| == |a| - if x in a then 1 else 0
  {
    if x in a { assert a == (a - {x}) + {x}; } else { assert a == a - {x}; }
  }
}
