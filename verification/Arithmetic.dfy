// Division facts with a variable divisor, proved once and kept away from the solver elsewhere.
module Arithmetic {
  lemma Distribute(a: int, b: int, c: int)
    ensures (a + b) * c == a * c + b * c
  {
  }

  lemma Commute(a: int, b: int)
    ensures a * b == b * a
  {
  }

  lemma NotNegative(a: nat, b: nat)
    ensures a * b >= 0
  {
  }

  lemma MulMonotone(a: nat, b: nat, c: nat)
    requires a <= b
    ensures a * c <= b * c
  {
    Distribute(a, b - a, c);
    NotNegative(b - a, c);
  }

  lemma MulAtLeast(d: int, size: nat)
    requires d >= 1
    ensures d * size >= size
  {
    Distribute(d - 1, 1, size);
  }

  lemma NoMultipleBetween(d: int, size: int)
    requires size > 0 && -size < d * size < size
    ensures d == 0
  {
    assert (-d) * size == -(d * size);
    if d >= 1 {
      MulAtLeast(d, size);
    } else if d <= -1 {
      MulAtLeast(-d, size);
    }
  }

  // Quotient and remainder are determined by q * size + r with r below size.
  lemma DivModUnique(x: int, size: nat, q: int, r: nat)
    requires r < size && x == q * size + r
    ensures x / size == q && x % size == r
  {
    var q', r' := x / size, x % size;
    assert x == q' * size + r';
    Distribute(q', -q, size);
    assert (-q) * size == -(q * size);
    NoMultipleBetween(q' - q, size);
  }

  lemma DivOfMultiple(n: nat, size: nat)
    requires size > 0
    ensures (n * size) / size == n && (n * size) % size == 0
    ensures n > 0 ==> n * size >= size
  {
    DivModUnique(n * size, size, n, 0);
    if n > 0 {
      MulAtLeast(n, size);
    }
  }

  // Adding a whole number of units moves the quotient and keeps the remainder.
  lemma DivAddMultiple(x: nat, n: nat, size: nat)
    requires size > 0
    ensures (x + n * size) / size == x / size + n
    ensures (x + n * size) % size == x % size
  {
    var q, r := x / size, x % size;
    assert x == q * size + r;
    Distribute(q, n, size);
    DivModUnique(x + n * size, size, q + n, r);
  }

  lemma DivMonotone(a: nat, b: nat, size: nat)
    requires size > 0 && a <= b
    ensures a / size <= b / size
  {
    var qa, qb := a / size, b / size;
    Distribute(qa, -qb, size);
    assert (-qb) * size == -(qb * size);
    assert (qa - qb) * size < size;
    if qa > qb {
      MulAtLeast(qa - qb, size);
    }
  }

  // k whole units and a last piece of m make up total.
  lemma PiecesOf(total: nat, size: nat, k: nat, m: nat)
    requires 0 < m <= size && total == k * size + m
    ensures (total + size - 1) / size == k + 1
    ensures m == size ==> total == (k + 1) * size
  {
    Distribute(k, 1, size);
    DivModUnique(total + size - 1, size, k + 1, m - 1);
  }

  // Quotient and remainder of a sum, with or without a carry.
  lemma DivOfSum(a: nat, b: nat, size: nat)
    requires size > 0
    ensures a % size + b % size < size ==>
      (a + b) / size == a / size + b / size && (a + b) % size == a % size + b % size
    ensures a % size + b % size >= size ==>
      (a + b) / size == a / size + b / size + 1 && (a + b) % size == a % size + b % size - size
  {
    var qa, ra, qb, rb := a / size, a % size, b / size, b % size;
    assert a == qa * size + ra && b == qb * size + rb;
    Distribute(qa, qb, size);
    if ra + rb < size {
      DivModUnique(a + b, size, qa + qb, ra + rb);
    } else {
      Distribute(qa + qb, 1, size);
      DivModUnique(a + b, size, qa + qb + 1, ra + rb - size);
    }
  }

  lemma NextPiece(size: nat, i: nat, n: nat)
    requires i < n
    ensures size * (i + 1) == size * i + size <= size * n
  {
    Distribute(i + 1, n - (i + 1), size);
    Distribute(i, 1, size);
  }
}
