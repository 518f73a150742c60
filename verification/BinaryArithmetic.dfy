/** Powers of two and the bitwise and of unsigned machine words. */
module BinaryArithmetic {
  function Pow2(n: nat): nat { if n == 0 then 1 else 2 * Pow2(n - 1) }

  ghost predicate IsPow2(n: nat) { exists k :: n == Pow2(k) }

  lemma DoublePow2(n: nat)
    requires IsPow2(n)
    ensures IsPow2(n * 2)
  {
    var k: nat :| n == Pow2(k);
    assert Pow2(k + 1) == n * 2;
  }

  lemma {:induction false} Pow2Add(a: nat, b: nat)
    ensures Pow2(a + b) == Pow2(a) * Pow2(b)
  {
    if a > 0 {
      Pow2Add(a - 1, b);
    }
  }

  lemma {:induction false} Pow2Monotone(a: nat, b: nat)
    requires a <= b
    ensures Pow2(a) <= Pow2(b)
  {
    if a < b {
      Pow2Monotone(a, b - 1);
    }
  }

  // a & b, bit by bit
  function And(a: nat, b: nat): nat {
    if a == 0 || b == 0 then 0
    else 2 * And(a / 2, b / 2) + if a % 2 == 1 && b % 2 == 1 then 1 else 0
  }

  // Masking with a power of two less one takes the remainder.
  lemma {:induction false} AndMask(a: nat, k: nat)
    ensures Pow2(k) >= 1 && And(a, Pow2(k) - 1) == a % Pow2(k)
  {
    if k == 0 {
    } else {
      var m := Pow2(k - 1);
      AndMask(a / 2, k - 1);
      assert Pow2(k) - 1 == 2 * (m - 1) + 1;
      assert (Pow2(k) - 1) / 2 == m - 1;
      ModDouble(a, m);
      if a != 0 {
        assert And(a, Pow2(k) - 1) == 2 * And(a / 2, m - 1) + a % 2;
      }
    }
  }

  lemma ModDouble(a: nat, m: nat)
    requires m >= 1
    ensures a % (2 * m) == 2 * ((a / 2) % m) + a % 2
  {
    var q, r := (a / 2) / m, (a / 2) % m;
    assert a / 2 == m * q + r;
    assert a == 2 * (a / 2) + a % 2;
    assert a == (2 * m) * q + (2 * r + a % 2);
    RemainderUnique(a, 2 * m, q, 2 * r + a % 2);
  }

  lemma RemainderUnique(a: nat, m: nat, q: nat, r: nat)
    requires m >= 1 && r < m && a == m * q + r
    ensures a % m == r
  {
    var q', r' := a / m, a % m;
    assert a == m * q' + r';
    if q < q' {
      Distribute(m, q', q);
      AtLeast(m, q' - q);
    } else if q > q' {
      Distribute(m, q, q');
      AtLeast(m, q - q');
    }
  }

  lemma Distribute(m: int, a: int, b: int)
    ensures m * (a - b) == m * a - m * b
  {
  }

  lemma AtLeast(m: int, k: int)
    requires m >= 1 && k >= 1
    ensures m * k >= m
  {
  }
}
