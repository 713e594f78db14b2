/**
 * Fixed-width words as natural numbers: exclusive or, shifts and wrapping multiplication, and when they lose
 * nothing.
 */
module Bits {
  import opened Words

  /** Bitwise exclusive or. */
  function Xor(a: nat, b: nat): nat {
    if a == 0 && b == 0 then 0 else (a % 2 + b % 2) % 2 + 2 * Xor(a / 2, b / 2)
  }

  /** Drop the lowest `n` bits. */
  function ShiftRight(a: nat, n: nat): nat
    decreases n
  {
    if n == 0 then a else ShiftRight(a / 2, n - 1)
  }

  lemma {:induction false} XorHalves(a: nat, b: nat)
    ensures Xor(a, b) / 2 == Xor(a / 2, b / 2) && Xor(a, b) % 2 == (a % 2 + b % 2) % 2
  {
  }

  /** Shifting distributes over exclusive or. */
  lemma {:induction false} XorShifts(a: nat, b: nat, n: nat)
    ensures ShiftRight(Xor(a, b), n) == Xor(ShiftRight(a, n), ShiftRight(b, n))
    decreases n
  {
    if n > 0 {
      XorHalves(a, b);
      XorShifts(a / 2, b / 2, n - 1);
    }
  }

  lemma {:induction false} ShiftIsDivision(a: nat, n: nat)
    ensures ShiftRight(a, n) == a / Pow2(n)
    decreases n
  {
    if n > 0 {
      ShiftIsDivision(a / 2, n - 1);
      DivideTwice(a, 2, Pow2(n - 1));
    }
  }

  /** Bit `k` of an exclusive or is set if and only if the words differ in it. */
  lemma {:induction false} XorBit(a: nat, b: nat, k: nat)
    ensures Xor(a, b) / Pow2(k) % 2 == (a / Pow2(k) % 2 + b / Pow2(k) % 2) % 2
  {
    ShiftIsDivision(Xor(a, b), k);
    ShiftIsDivision(a, k);
    ShiftIsDivision(b, k);
    XorShifts(a, b, k);
    XorHalves(ShiftRight(a, k), ShiftRight(b, k));
  }

  /** Exclusive or with a fixed word loses nothing. */
  lemma {:induction false} XorCancels(a: nat, b: nat, c: nat)
    requires Xor(a, c) == Xor(b, c)
    ensures a == b
    decreases a + b + c
  {
    if a + b + c > 0 {
      XorHalves(a, c);
      XorHalves(b, c);
      XorCancels(a / 2, b / 2, c / 2);
    }
  }

  lemma {:induction false} XorSelf(a: nat)
    ensures Xor(a, a) == 0
  {
    if a > 0 {
      XorSelf(a / 2);
    }
  }

  lemma {:induction false} XorZero(a: nat)
    ensures Xor(0, a) == a
  {
    if a > 0 {
      XorZero(a / 2);
    }
  }

  lemma {:induction false} XorSymmetric(a: nat, b: nat)
    ensures Xor(a, b) == Xor(b, a)
    decreases a + b
  {
    if a + b > 0 {
      XorSymmetric(a / 2, b / 2);
    }
  }

  lemma {:induction false} XorBound(a: nat, b: nat, bits: nat)
    requires a < Pow2(bits) && b < Pow2(bits)
    ensures Xor(a, b) < Pow2(bits)
    decreases bits
  {
    if bits > 0 {
      XorBound(a / 2, b / 2, bits - 1);
    }
  }

  /** `v ^ (v >> n)` */
  function XorShift(v: nat, n: nat): nat {
    Xor(v, ShiftRight(v, n))
  }

  lemma {:induction false} ShiftShrinks(a: nat, n: nat)
    ensures ShiftRight(a, n) <= a && (n > 0 && a > 0 ==> ShiftRight(a, n) < a)
    decreases n
  {
    if n > 0 {
      ShiftShrinks(a / 2, n - 1);
    }
  }

  /** A xor-shift is injective: its high part determines the word from the top down. */
  lemma {:induction false} XorShiftInjective(a: nat, b: nat, n: nat)
    requires n > 0 && XorShift(a, n) == XorShift(b, n)
    ensures a == b
    decreases a + b
  {
    var x, y := ShiftRight(a, n), ShiftRight(b, n);
    XorShifts(a, x, n);
    XorShifts(b, y, n);
    if a > 0 || b > 0 {
      ShiftShrinks(a, n);
      ShiftShrinks(b, n);
      XorShiftInjective(x, y, n);
      XorCancels(a, b, x);
    }
  }

  lemma {:induction false} XorShiftBound(v: nat, n: nat, bits: nat)
    requires v < Pow2(bits)
    ensures XorShift(v, n) < Pow2(bits)
  {
    ShiftShrinks(v, n);
    XorBound(v, ShiftRight(v, n), bits);
  }

  /** An odd factor of a multiple of a power of two can be dropped. */
  lemma {:induction false} OddCancels(odd: int, d: int, bits: nat, q: int) returns (r: int)
    requires odd % 2 == 1 && odd * d == q * Pow2(bits)
    ensures d == r * Pow2(bits)
    decreases bits
  {
    if bits == 0 {
      r := d;
    } else {
      var p, k := Pow2(bits - 1), odd / 2;
      var e := q * p - k * d;
      assert odd == 2 * k + 1;
      assert odd * d == 2 * (k * d) + d;
      assert q * Pow2(bits) == 2 * (q * p);
      assert d == 2 * e;
      assert odd * e == q * p by {
        assert 2 * (odd * e) == odd * d;
      }
      r := OddCancels(odd, e, bits - 1, q);
      assert d == 2 * (r * p);
    }
  }

  /** `odd * v + offset`, wrapping at the word width. */
  function Affine(odd: nat, offset: nat, bits: nat, v: nat): (w: nat)
    ensures w < Pow2(bits)
  {
    (odd * v + offset) % Pow2(bits)
  }

  /** Affine maps with an odd multiplier are injective modulo a power of two. */
  lemma {:induction false} AffineInjective(odd: nat, offset: nat, bits: nat, a: nat, b: nat)
    requires odd % 2 == 1 && a < Pow2(bits) && b < Pow2(bits)
    requires Affine(odd, offset, bits, a) == Affine(odd, offset, bits, b)
    ensures a == b
  {
    var m := Pow2(bits);
    var x, y := odd * a + offset, odd * b + offset;
    SameRemainder(x, y, m);
    Distribute(odd, a, b, offset);
    var r := OddCancels(odd, a - b, bits, x / m - y / m);
    SmallMultiple(a - b, r, m);
  }

  lemma SameRemainder(x: int, y: int, m: int)
    requires m > 0 && x % m == y % m
    ensures x - y == (x / m - y / m) * m
  {
    assert x == (x / m) * m + x % m && y == (y / m) * m + y % m;
  }

  lemma Distribute(k: int, a: int, b: int, c: int)
    ensures k * (a - b) == (k * a + c) - (k * b + c)
  {
  }

  lemma Multiples(r: int, m: int)
    requires m > 0
    ensures (r >= 1 ==> r * m >= m) && (r <= -1 ==> r * m <= -m)
  {
  }

  lemma SmallMultiple(d: int, r: int, m: int)
    requires m > 0 && d == r * m && -m < d < m
    ensures d == 0
  {
    Multiples(r, m);
  }

  lemma {:induction false} DivideTwice(v: nat, b: nat, c: nat)
    requires b > 0 && c > 0
    ensures b * c > 0 && v / b / c == v / (b * c)
  {
    var w := v / b;
    QuotientAndRest(v, b);
    QuotientAndRest(w, c);
    Regroup(w / c, b, c, w % c, v % b);
    QuotientIs(v, b * c, w / c, (w % c) * b + v % b);
  }

  lemma QuotientAndRest(x: nat, m: nat)
    requires m > 0
    ensures x == (x / m) * m + x % m && 0 <= x % m < m
  {
  }

  lemma Regroup(q: nat, b: nat, c: nat, r: nat, s: nat)
    requires r < c && s < b
    ensures (q * c + r) * b + s == q * (b * c) + (r * b + s) && r * b + s < b * c
  {
    assert (q * c) * b == q * (b * c);
    assert (c - r - 1) * b >= 0;
  }

  lemma QuotientIs(v: int, m: int, q: int, r: int)
    requires 0 <= r < m && v == q * m + r
    ensures v / m == q
  {
    var d := v / m - q;
    assert v == (v / m) * m + v % m;
    assert d * m == r - v % m by {
      assert d * m == (v / m) * m - q * m;
    }
    SmallMultiple(r - v % m, d, m);
    Multiples(d, m);
  }
}
