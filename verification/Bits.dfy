/** The C operators `|`, `^` and `<<` on natural numbers, bit by bit. */
module Bits {
  type pos = n: nat | n > 0 witness 1

  function Pow2(k: nat): (r: nat)
    ensures r > 0
  {
    if k == 0 then 1 else 2 * Pow2(k - 1)
  }

  function Or(a: nat, b: nat): nat
    decreases a + b
  {
    if a == 0 && b == 0 then 0
    else (if a % 2 == 1 || b % 2 == 1 then 1 else 0) + 2 * Or(a / 2, b / 2)
  }

  function Xor(a: nat, b: nat): nat
    decreases a + b
  {
    if a == 0 && b == 0 then 0
    else (if a % 2 != b % 2 then 1 else 0) + 2 * Xor(a / 2, b / 2)
  }

  function Shl(a: nat, k: nat): nat { a * Pow2(k) }

  lemma {:induction false} OrZero(a: nat)
    ensures Or(a, 0) == a
  {
    if a == 0 {
    } else {
      OrZero(a / 2);
    }
  }

  /** Bit `k` of a number. */
  predicate Bit(a: nat, k: nat) {
    if k == 0 then a % 2 == 1 else Bit(a / 2, k - 1)
  }

  /** What the operators mean: bit by bit, a disjunction and an exclusive one. */
  lemma {:induction false} OperatorBits(a: nat, b: nat, k: nat)
    ensures Bit(Or(a, b), k) <==> Bit(a, k) || Bit(b, k)
    ensures Bit(Xor(a, b), k) <==> Bit(a, k) != Bit(b, k)
  {
    hide Or, Xor;
    OrStep(a, b);
    XorStep(a, b);
    if k == 0 {
    } else {
      OperatorBits(a / 2, b / 2, k - 1);
    }
  }

  lemma OrStep(a: nat, b: nat)
    ensures Or(a, b) % 2 == (if a % 2 == 1 || b % 2 == 1 then 1 else 0) && Or(a, b) / 2 == Or(a / 2, b / 2)
  {
  }

  lemma XorStep(a: nat, b: nat)
    ensures Xor(a, b) % 2 == (if a % 2 != b % 2 then 1 else 0) && Xor(a, b) / 2 == Xor(a / 2, b / 2)
  {
  }

  /** Or-ing a number that fits below the shifted one is adding it. */
  lemma {:induction false} OrDisjoint(hi: nat, lo: nat, k: nat)
    requires lo < Pow2(k)
    ensures Or(Shl(hi, k), lo) == Or(lo, Shl(hi, k)) == Shl(hi, k) + lo
  {
    if k == 0 {
      OrZero(hi);
      OrCommutes(hi, 0);
    } else {
      assert Shl(hi, k) == 2 * Shl(hi, k - 1);
      OrDisjoint(hi, lo / 2, k - 1);
    }
  }

  lemma {:induction false} OrCommutes(a: nat, b: nat)
    ensures Or(a, b) == Or(b, a)
    decreases a + b
  {
    if a == 0 && b == 0 {
    } else {
      OrCommutes(a / 2, b / 2);
    }
  }

  lemma {:induction false} XorCommutes(a: nat, b: nat)
    ensures Xor(a, b) == Xor(b, a)
    decreases a + b
  {
    if a == 0 && b == 0 {
    } else {
      XorCommutes(a / 2, b / 2);
    }
  }

  lemma {:induction false} XorZero(a: nat)
    ensures Xor(a, 0) == Xor(0, a) == a
  {
    if a == 0 {
    } else {
      XorZero(a / 2);
    }
  }

  /** Xor undoes itself. */
  lemma {:induction false} XorTwice(a: nat, b: nat)
    ensures Xor(Xor(a, b), b) == a
    decreases a + b
  {
    if a == 0 && b == 0 {
    } else {
      XorTwice(a / 2, b / 2);
      var x := Xor(a, b);
      assert x % 2 == (if a % 2 != b % 2 then 1 else 0) && x / 2 == Xor(a / 2, b / 2);
      if x == 0 && b == 0 { XorZero(a); }
    }
  }

  /** The low `k` bits of a xor are the xor of the low `k` bits. */
  lemma {:induction false} XorLow(a: nat, b: nat, k: nat)
    ensures Xor(a, b) % Pow2(k) == Xor(a % Pow2(k), b % Pow2(k)) < Pow2(k)
    decreases k
  {
    if k == 0 {
    } else {
      var n := Pow2(k - 1);
      XorLow(a / 2, b / 2, k - 1);
      LowBits(a, n);
      LowBits(b, n);
      LowBits(Xor(a, b), n);
      XorStep(a, b);
      XorStep(a % (2 * n), b % (2 * n));
    }
  }

  lemma LowBits(a: nat, n: nat)
    requires n > 0
    ensures a % (2 * n) == a % 2 + 2 * (a / 2 % n)
    ensures (a % (2 * n)) % 2 == a % 2 && a % (2 * n) / 2 == a / 2 % n
  {
    var q, r := a / 2 / n, a / 2 % n;
    assert a == 2 * (q * n + r) + a % 2;
    assert a == q * (2 * n) + (2 * r + a % 2);
    DivModUnique(q, 2 * r + a % 2, 2 * n);
  }

  /** Division with remainder is unique. */
  lemma DivModUnique(q: nat, r: nat, d: nat)
    requires r < d
    ensures (q * d + r) / d == q && (q * d + r) % d == r
  {
    var q' := (q * d + r) / d;
    if q' > q {
      MulLess(q, q', d);
      assert false;
    } else if q' < q {
      MulLess(q', q, d);
      assert false;
    }
  }

  lemma MulLess(a: nat, b: nat, d: nat)
    requires a < b
    ensures a * d + d <= b * d
  {
    var k := b - a - 1;
    assert b * d == (a + 1 + k) * d == a * d + d + k * d;
  }
}
