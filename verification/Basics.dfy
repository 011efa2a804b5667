/** What several components share: bytes, optional values, and facts about products and quotients. */
module Basics {
  type Byte = b: nat | b < 256

  datatype Option<T> = None | Some(value: T)

  lemma DivUnique(a: nat, d: nat, q: nat, r: nat)
    requires r < d && a == q * d + r
    ensures a / d == q && a % d == r
  {
    var e := a / d - q;
    assert e * d == (a / d) * d - q * d == r - a % d;
    assert e >= 1 ==> e * d >= d;
    assert e <= -1 ==> e * d + d <= 0;
  }

  lemma MulMonotone(a: nat, b: nat, c: nat, d: nat)
    requires a <= b && c <= d
    ensures a * c <= b * d
  {
    assert a * c <= b * c;
    assert b * c <= b * d;
  }

  lemma Regroup(q: nat, c: nat, d: nat, h: nat, e: nat, r: nat)
    requires q == c * d + h && h < d && r < e
    ensures q * e + r == c * (d * e) + (h * e + r)
    ensures h * e + r < d * e
  {
    assert q * e == (c * d) * e + h * e;
    assert (c * d) * e == c * (d * e);
    MulMonotone(h + 1, d, e, e);
  }

  /** Dividing twice. */
  lemma DivTwice(a: nat, d: nat, e: nat)
    requires 0 < d && 0 < e
    ensures 0 < d * e && a / (d * e) == a / e / d
  {
    var q := a / e;
    Regroup(q, q / d, d, q % d, e, a % e);
    DivUnique(a, d * e, q / d, q % d * e + a % e);
  }
}
