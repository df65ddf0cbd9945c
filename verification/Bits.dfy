/** The bitwise operators `&` and `|` on unsigned integers, and the arithmetic they amount to. */
module Bits {

  function And(a: nat, b: nat): nat
    decreases a, b, 1
  {
    if a == 0 || b == 0 then 0 else AndHalves(a, b)
  }

  function AndHalves(a: nat, b: nat): nat
    requires a > 0
    decreases a, b, 0
  {
    2 * And(a / 2, b / 2) + (if a % 2 == 1 && b % 2 == 1 then 1 else 0)
  }

  function Or(a: nat, b: nat): nat
    decreases a + b, 1
  {
    if a == 0 then b else if b == 0 then a else OrHalves(a, b)
  }

  function OrHalves(a: nat, b: nat): nat
    requires a > 0
    decreases a + b, 0
  {
    2 * Or(a / 2, b / 2) + (if a % 2 == 1 || b % 2 == 1 then 1 else 0)
  }

  function Pow2(k: nat): nat
    ensures Pow2(k) > 0
  {
    if k == 0 then 1 else 2 * Pow2(k - 1)
  }

  lemma Doubled(h: nat, q: nat)
    ensures (2 * h) * q == 2 * (h * q)
  {
  }

  lemma AndStep(a: nat, b: nat)
    ensures And(a, b) == 2 * And(a / 2, b / 2) + (if a % 2 == 1 && b % 2 == 1 then 1 else 0)
  {
  }

  lemma OrStep(a: nat, b: nat)
    ensures Or(a, b) == 2 * Or(a / 2, b / 2) + (if a % 2 == 1 || b % 2 == 1 then 1 else 0)
  {
  }

  lemma Powers()
    ensures Pow2(3) == 8 && Pow2(4) == 16 && Pow2(5) == 32 && Pow2(7) == 128 && Pow2(8) == 256 && Pow2(10) == 0x400
  {
    assert Pow2(3) == 8;
    assert Pow2(6) == 64;
    assert Pow2(9) == 512;
  }

  /** `n & (2^k - 1)` is the remainder modulo `2^k`. */
  lemma {:induction false} AndMask(n: nat, k: nat, p: nat)
    requires p == Pow2(k)
    ensures And(n, p - 1) == n % p
  {
    if k > 0 {
      var h := Pow2(k - 1);
      AndMask(n / 2, k - 1, h);
      AndStep(n, p - 1);
      assert (p - 1) / 2 == h - 1;
      ModDoubled(n, h);
    }
  }

  lemma ModDoubled(n: nat, h: nat)
    requires h > 0
    ensures n % (2 * h) == 2 * ((n / 2) % h) + n % 2
  {
    var q, r := (n / 2) / h, (n / 2) % h;
    assert n / 2 == h * q + r;
    assert n == (2 * h) * q + (2 * r + n % 2) by { Doubled(h, q); }
    ModUnique(n, 2 * h, q, 2 * r + n % 2);
  }

  lemma ModUnique(n: int, d: int, q: int, r: int)
    requires d > 0 && n == d * q + r && 0 <= r < d
    ensures n % d == r && n / d == q
  {
    var e := n / d - q;
    assert d * e == r - n % d by {
      assert d * (n / d) == d * q + d * e;
    }
    MulBound(d, e);
  }

  lemma MulBound(d: int, e: int)
    requires d > 0
    ensures e >= 1 ==> d * e >= d
    ensures e <= -1 ==> d * e <= -d
  {
  }

  /** Setting bits above a short number adds them. */
  lemma {:induction false} OrAbove(k: nat, p: nat, x: nat, m: nat)
    requires p == Pow2(k) && x < p
    ensures Or(x, p * m) == x + p * m
  {
    if k > 0 {
      var h := Pow2(k - 1);
      var hm := h * m;
      assert p * m == 2 * hm by { Doubled(h, m); }
      OrAbove(k - 1, h, x / 2, m);
      OrStep(x, 2 * hm);
    }
  }

  lemma {:induction false} OrCommutes(a: nat, b: nat)
    ensures Or(a, b) == Or(b, a)
    decreases a + b
  {
    if a > 0 && b > 0 {
      OrCommutes(a / 2, b / 2);
    }
  }

  lemma OrMark(k: nat, p: nat, x: nat, m: nat, mark: nat)
    requires p == Pow2(k) && x < p && mark == p * m
    ensures Or(x, mark) == x + mark
  {
    OrAbove(k, p, x, m);
  }

  /** A mask that is wide enough changes nothing. */
  lemma LowBits(n: nat, k: nat, p: nat)
    requires p == Pow2(k) && n < p
    ensures And(n, p - 1) == n
  {
    AndMask(n, k, p);
    SmallModulo(n, p);
  }

  lemma SmallModulo(n: nat, p: nat)
    requires n < p
    ensures n % p == n
  {
  }

  /** A byte put together from a mark above and the `k` bits below it. */
  lemma MarkedByte(k: nat, p: nat, x: nat, m: nat, mark: nat)
    requires p == Pow2(k) && x < p && mark == p * m && x + mark < 256
    ensures And(Or(x, mark), 0xFF) == x + mark
  {
    OrMark(k, p, x, m, mark);
    Powers();
    LowBits(x + mark, 8, 256);
  }

  /** `(n | 0x80) & 0xBF`, the continuation byte of UTF-8: the low six bits of `n` under the mark `10`. */
  lemma Continuation(n: nat)
    ensures And(Or(n, 0x80), 0xBF) == 0x80 + n % 64
  {
    LowThreeBits(n, 0x10, 0x17);
    LowThreeBits(n / 8, 2, 2);
    SecondBit(n / 64);
    assert n / 8 / 8 == n / 64 && 8 * (n / 8 % 8) + n % 8 == n % 64;
  }

  lemma SecondBit(q: nat)
    ensures And(Or(q, 2), 2) == 2
  {
    OrStep(q, 2);
    OrStep(q / 2, 1);
    AndStep(Or(q, 2), 2);
    AndStep(Or(q / 2, 1), 1);
  }

  lemma LowThreeBits(n: nat, a: nat, b: nat)
    ensures And(Or(n, 8 * a), 8 * b + 7) == 8 * And(Or(n / 8, a), b) + n % 8
  {
    LowBit(n, 4 * a, 4 * b + 3);
    LowBit(n / 2, 2 * a, 2 * b + 1);
    LowBit(n / 4, a, b);
    assert n / 2 / 2 == n / 4 && n / 4 / 2 == n / 8;
  }

  lemma LowBit(n: nat, a: nat, b: nat)
    ensures And(Or(n, 2 * a), 2 * b + 1) == 2 * And(Or(n / 2, a), b) + n % 2
  {
    OrStep(n, 2 * a);
    AndStep(Or(n, 2 * a), 2 * b + 1);
  }
}
