/** Minimum and maximum, and remainders by a variable divisor. */
module Arith {

  function Min(a: nat, b: nat): nat { if a <= b then a else b }

  function Max(a: nat, b: nat): nat { if a >= b then a else b }

  lemma Product(p: nat, d: int)
    ensures d >= 1 ==> p * d >= p
    ensures d <= -1 ==> p * d + p <= 0
  {
  }

  lemma RemainderIsUnique(n: nat, p: nat, q: nat, r: nat)
    requires n == p * q + r && r < p
    ensures n % p == r
  {
    var d := n / p - q;
    assert p * d == r - n % p;
    Product(p, d);
  }

  lemma NextRemainder(x: nat, p: nat)
    requires p > 0
    ensures (x + 1) % p == if x % p + 1 == p then 0 else x % p + 1
  {
    var q, r := x / p, x % p;
    assert x + 1 == p * q + (r + 1);
    if r + 1 == p {
      assert x + 1 == p * (q + 1) + 0;
      RemainderIsUnique(x + 1, p, q + 1, 0);
    } else {
      RemainderIsUnique(x + 1, p, q, r + 1);
    }
  }

  /** An offset that does not pass the end stays in the same lap. */
  lemma SameLap(a: nat, i: nat, size: nat)
    requires size > 0 && a % size + i < size
    ensures (a + i) % size == a % size + i
  {
    RemainderIsUnique(a + i, size, a / size, a % size + i);
  }

  /** The next lap starts at offset 0. */
  lemma NextLap(a: nat, size: nat)
    requires size > 0
    ensures (a + (size - a % size)) % size == 0
  {
    assert a + (size - a % size) == size * (a / size + 1) + 0;
    RemainderIsUnique(a + (size - a % size), size, a / size + 1, 0);
  }

  /** Two addresses less than a lap apart are at different offsets. */
  lemma DistinctOffsets(a: nat, b: nat, size: nat)
    requires size > 0 && a < b < a + size
    ensures a % size != b % size
  {
    if a % size + (b - a) < size {
      SameLap(a, b - a, size);
    } else {
      NextLap(a, size);
      var i := b - (a + (size - a % size));
      SameLap(a + (size - a % size), i, size);
    }
  }

  lemma Distribute(a: nat, b: nat, c: nat)
    ensures a * (b + c) == a * b + a * c
  {
  }

  lemma Reassociate(a: nat, b: nat, c: nat)
    ensures (a * b) * c == a * (b * c)
  {
  }

  /** Reducing modulo a multiple first changes nothing. */
  lemma ReduceFirst(a: nat, wrap: nat, size: nat)
    requires size > 0 && wrap > 0 && wrap % size == 0
    ensures a % wrap % size == a % size
  {
    var q, k := a / wrap, wrap / size;
    var r := a % wrap;
    Reassociate(size, k, q);
    Distribute(size, k * q, r / size);
    RemainderIsUnique(a, size, k * q + r / size, r % size);
  }

  /** Adding to a reduced number and reducing again. */
  lemma ReduceSum(a: nat, b: nat, wrap: nat)
    requires wrap > 0
    ensures (a % wrap + b) % wrap == (a + b) % wrap
  {
    var r := (a % wrap + b) % wrap;
    var q := (a % wrap + b) / wrap;
    Distribute(wrap, a / wrap, q);
    RemainderIsUnique(a + b, wrap, a / wrap + q, r);
  }

  /** Unsigned 32-bit subtraction. */
  function Sub32(a: nat, b: nat): (d: nat)
    requires a < 0x1_0000_0000 && b < 0x1_0000_0000
    ensures d < 0x1_0000_0000
  {
    if a >= b then a - b else a + 0x1_0000_0000 - b
  }

  /** The difference of two wrapped counters, when it is known to be small. */
  lemma WrappedDifference(a: nat, b: nat)
    requires b <= a < b + 0x1_0000_0000
    ensures Sub32(a % 0x1_0000_0000, b % 0x1_0000_0000) == a - b
  {
  }
}
