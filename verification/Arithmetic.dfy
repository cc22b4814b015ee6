/** Facts about products, quotients and remainders used throughout. */
module Arithmetic {

  function Abs(a: int): nat {
    if a < 0 then -a else a
  }

  /** The integer division of the source, which truncates towards zero. */
  function Truncating(a: int, b: int): int
    requires b != 0
  {
    if (a >= 0) == (b > 0) then Abs(a) / Abs(b) else -(Abs(a) / Abs(b))
  }

  /** Division as in C++: the remainder is smaller than the divisor and never has the opposite sign of the dividend. */
  lemma TruncatesTowardZero(a: int, b: int)
    requires b != 0
    ensures var r := a - Truncating(a, b) * b; Abs(r) < Abs(b) && (a >= 0 ==> r >= 0) && (a <= 0 ==> r <= 0)
  {
    var n, m := Abs(a), Abs(b);
    var q := n / m;
    assert n == q * m + n % m;
    SignsCancel(q, m);
  }

  lemma TruncatingNat(a: nat, b: nat)
    requires b > 0
    ensures Truncating(a, b) == a / b
  {
  }

  lemma MulMono(a: int, b: int, n: nat)
    requires a <= b
    ensures a * n <= b * n
  {
  }

  /** Division with remainder has one answer. */
  lemma DivUnique(x: int, n: nat, q: int, r: int)
    requires n > 0 && x == q * n + r && 0 <= r < n
    ensures x / n == q && x % n == r
  {
    var q', r' := x / n, x % n;
    assert x == q' * n + r';
    if q < q' {
      MulMono(q + 1, q', n);
    } else if q' < q {
      MulMono(q' + 1, q, n);
    }
  }

  lemma AddMultiple(r: int, q: int, n: nat)
    requires n > 0
    ensures (q * n + r) % n == r % n
  {
    var a := r / n;
    assert (q + a) * n == q * n + a * n;
    DivUnique(q * n + r, n, q + a, r % n);
  }

  lemma ModOfMultiple(h: nat, n: nat, f: nat)
    requires n > 0 && f > 0
    ensures f * n > 0 && (h % (f * n)) % n == h % n
  {
    MulMono(1, f, n);
    var m := f * n;
    var q, r := h / m, h % m;
    MulAssoc(q, f, n);
    assert h == (q * f) * n + r;
    AddMultiple(r, q * f, n);
  }

  /** The remainder of the truncating division is zero exactly when the Euclidean one is, whatever the signs. */
  lemma NoRemainder(a: int, b: int)
    requires b != 0
    ensures a - Truncating(a, b) * b == 0 <==> a % b == 0
  {
    var n, m := Abs(a), Abs(b);
    var q := n / m;
    assert n == q * m + n % m;
    if b < 0 { DivisorSign(a, m); }
    if a < 0 { DividendSign(a, m); }
    SignsCancel(q, m);
  }

  lemma SignsCancel(q: int, m: int)
    ensures (-q) * (-m) == q * m && (-q) * m == q * (-m) == -(q * m)
  {
  }

  lemma DivisorSign(a: int, m: int)
    requires m > 0
    ensures a % -m == a % m
  {
    var k := a / -m;
    assert a == (-k) * m + a % -m;
    DivUnique(a, m, -k, a % -m);
  }

  lemma DividendSign(a: int, m: int)
    requires m > 0
    ensures a % m == 0 <==> -a % m == 0
  {
    var (k, l) := (a / m, -a / m);
    if a % m == 0 { DivUnique(-a, m, -k, 0); }
    if -a % m == 0 { DivUnique(a, m, -l, 0); }
  }

  lemma MultipleOfMultiple(x: int, y: nat, z: nat)
    requires y > 0 && z > 0 && x % y == 0 && y % z == 0
    ensures x % z == 0
  {
    var (p, q) := (x / y, y / z);
    MulAssoc(p, q, z);
    DivUnique(x, z, p * q, 0);
  }

  lemma MulAssoc(a: int, b: int, c: int)
    ensures a * (b * c) == (a * b) * c
  {
  }
}
