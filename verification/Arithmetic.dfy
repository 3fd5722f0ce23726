/** Facts about products and remainders that the solver does not find by itself. */
module Arithmetic {
  lemma MulLess(a: nat, b: nat, p: nat)
    requires a <= b
    ensures a * p <= b * p
  {
  }

  lemma NoMultiple(d: int, b: nat, e: int)
    requires d * b == e && e < b && 0 < e + b
    ensures d == 0
  {
    if d > 0 {
      MulLess(1, d, b);
    }
  }

  lemma ModUnique(a: nat, b: nat, q: nat, r: nat)
    requires b > 0 && a == q * b + r && r < b
    ensures a % b == r && a / b == q
  {
    var q', r' := a / b, a % b;
    assert a == q' * b + r';
    assert (q - q') * b == r' - r;
    NoMultiple(q - q', b, r' - r);
  }

  lemma Distribute(x: int, y: int, p: int)
    ensures (x + y) * p == x * p + y * p
  {
  }

  lemma Associate(x: int, y: int, p: int)
    ensures x * y * p == x * (y * p)
  {
  }

  lemma DivTwice(a: nat, b: nat, c: nat)
    requires b > 0 && c > 0
    ensures b * c > 0 && a / b / c == a / (b * c)
  {
    var h := a / b;
    var q, r', r := h / c, h % c, a % b;
    MulLess(r' + 1, c, b);
    Distribute(r', 1, b);
    Distribute(q * c, r', b);
    Associate(q, c, b);
    assert h == q * c + r' && a == h * b + r;
    assert c * b == b * c;
    ModUnique(a, b * c, q, r' * b + r);
  }
}
