/** Bitwise operations on natural numbers, powers of two, and the rounding of a size up to one. */
module BitMath {

  /** One more than the largest value of a 64-bit unsigned word. */
  const WORD := 0x1_0000_0000_0000_0000

  function Pow2(e: nat): (p: nat)
    ensures p >= 1
  {
    if e == 0 then 1 else 2 * Pow2(e - 1)
  }

  function Quotient(n: nat, d: nat): nat
    requires d > 0
  {
    n / d
  }

  function ShiftRight(n: nat, s: nat): nat {
    Quotient(n, Pow2(s))
  }

  function BitOr(a: nat, b: nat): nat {
    if a == 0 && b == 0 then 0
    else 2 * BitOr(a / 2, b / 2) + if a % 2 == 1 || b % 2 == 1 then 1 else 0
  }

  function BitAnd(a: nat, b: nat): nat {
    if a == 0 || b == 0 then 0
    else 2 * BitAnd(a / 2, b / 2) + if a % 2 == 1 && b % 2 == 1 then 1 else 0
  }

  lemma Pow2Step(e: nat)
    ensures Pow2(e) == if e == 0 then 1 else 2 * Pow2(e - 1)
  {}

  lemma {:induction false} Pow2Adds(a: nat, b: nat)
    ensures Pow2(a + b) == Pow2(a) * Pow2(b)
  {
    hide Pow2;
    Pow2Step(a);
    Pow2Step(a + b);
    if a > 0 {
      Pow2Adds(a - 1, b);
      MulDouble(Pow2(a - 1), Pow2(b));
    }
  }

  lemma MulDouble(a: int, b: int)
    ensures (2 * a) * b == 2 * (a * b)
    ensures b * (2 * a) == 2 * (b * a)
  {}

  lemma {:induction false} Pow2Monotone(a: nat, b: nat)
    requires a <= b
    ensures Pow2(a) <= Pow2(b)
    ensures a < b ==> Pow2(a) < Pow2(b)
  {
    if a < b { Pow2Monotone(a, b - 1); }
  }

  lemma SmallPowers()
    ensures Pow2(0) == 1 && Pow2(1) == 2 && Pow2(4) == 16
  {}

  lemma WordIsPow2()
    ensures Pow2(64) == WORD && Pow2(63) == WORD / 2
  {
    SmallPowers();
    hide Pow2;
    Pow2Adds(4, 4);
    Pow2Adds(8, 8);
    Pow2Adds(16, 16);
    Pow2Adds(32, 32);
    Pow2Adds(1, 63);
  }

  function Remainder(n: nat, d: nat): nat
    requires d > 0
  {
    n % d
  }

  function Times(a: nat, b: nat): nat {
    a * b
  }

  /** Masking with 2^k - 1 is remainder by 2^k. */
  lemma AndMask(n: nat, k: nat)
    ensures BitAnd(n, Pow2(k) - 1) == n % Pow2(k)
  {
    hide Pow2, BitAnd;
    AndIsRemainder(n, k);
  }

  lemma {:induction false} AndIsRemainder(n: nat, k: nat)
    ensures BitAnd(n, Pow2(k) - 1) == Remainder(n, Pow2(k))
  {
    hide Pow2, BitAnd, Remainder;
    Pow2Step(k);
    if k == 0 {
      ByOne(n);
    } else {
      AndIsRemainder(n / 2, k - 1);
      AndOdd(n, Pow2(k - 1));
      RemainderByEven(n, Pow2(k - 1));
    }
  }

  lemma ByOne(n: nat)
    ensures BitAnd(n, 0) == 0 == Remainder(n, 1) && Times(n, 1) == n
  {}

  lemma RemainderByEven(n: nat, p: nat)
    requires p > 0
    ensures Remainder(n, 2 * p) == 2 * Remainder(n / 2, p) + n % 2
  {
    ModByEven(n, p);
  }

  lemma AndOdd(n: nat, p: nat)
    requires p >= 1
    ensures BitAnd(n, 2 * p - 1) == 2 * BitAnd(n / 2, p - 1) + n % 2
  {
    assert (2 * p - 1) / 2 == p - 1 && (2 * p - 1) % 2 == 1;
  }

  lemma ModByEven(n: nat, p: nat)
    requires p > 0
    ensures n % (2 * p) == 2 * ((n / 2) % p) + n % 2
  {
    var q, r := (n / 2) / p, (n / 2) % p;
    assert n / 2 == q * p + r;
    assert n == q * (2 * p) + (2 * r + n % 2);
    DivModIs(n, 2 * p, q, 2 * r + n % 2);
  }

  lemma MulAtLeast(a: int, d: int)
    requires a >= 1 && d > 0
    ensures a * d >= d
  {}

  lemma MulSub(a: int, b: int, d: int)
    ensures (a - b) * d == a * d - b * d
  {}

  /** Quotient and remainder are unique. */
  lemma DivModIs(n: nat, d: nat, q: nat, r: nat)
    requires d > 0 && n == q * d + r && r < d
    ensures n / d == q && n % d == r
  {
    var q', r' := n / d, n % d;
    assert n == q' * d + r' && 0 <= r' < d;
    MulSub(q, q', d);
    MulSub(q', q, d);
    if q' < q { MulAtLeast(q - q', d); }
    if q < q' { MulAtLeast(q' - q, d); }
  }

  lemma {:induction false} OrAtLeast(a: nat, b: nat)
    ensures BitOr(a, b) >= a && BitOr(a, b) >= b
  {
    if a != 0 || b != 0 { OrAtLeast(a / 2, b / 2); }
  }

  lemma {:induction false} OrBelow(a: nat, b: nat, k: nat)
    requires a < Pow2(k) && b < Pow2(k)
    ensures BitOr(a, b) < Pow2(k)
  {
    if k > 0 && (a != 0 || b != 0) { OrBelow(a / 2, b / 2, k - 1); }
  }

  /** Bits above the low k are out of reach of a number below 2^k. */
  lemma OrKeepsHigh(h: nat, l: nat, x: nat, k: nat)
    requires l < Pow2(k) && x < Pow2(k)
    ensures h * Pow2(k) >= 0 && BitOr(h * Pow2(k) + l, x) == h * Pow2(k) + BitOr(l, x)
  {
    hide Pow2, BitOr;
    OrKeepsTimes(h, l, x, k);
    assert Times(h, Pow2(k)) == h * Pow2(k);
  }

  lemma {:induction false} OrKeepsTimes(h: nat, l: nat, x: nat, k: nat)
    requires l < Pow2(k) && x < Pow2(k)
    ensures BitOr(Times(h, Pow2(k)) + l, x) == Times(h, Pow2(k)) + BitOr(l, x)
  {
    hide Pow2, BitOr, Times;
    Pow2Step(k);
    if k == 0 {
      ByOne(h);
      OrZero(h);
      OrZero(0);
    } else {
      TimesDouble(h, Pow2(k - 1));
      OrKeepsTimes(h, l / 2, x / 2, k - 1);
      OrHalves(Times(h, Pow2(k - 1)), l, x);
    }
  }

  lemma TimesDouble(h: nat, p: nat)
    ensures Times(h, 2 * p) == 2 * Times(h, p)
  {
    MulDouble(p, h);
  }

  /** Or works bit by bit: an even number added to one side leaves the lowest bit alone. */
  lemma OrHalves(m: nat, l: nat, x: nat)
    ensures BitOr(2 * m + l, x) == 2 * BitOr(m + l / 2, x / 2) + if l % 2 == 1 || x % 2 == 1 then 1 else 0
    ensures BitOr(l, x) == 2 * BitOr(l / 2, x / 2) + if l % 2 == 1 || x % 2 == 1 then 1 else 0
  {
    assert (2 * m + l) / 2 == m + l / 2 && (2 * m + l) % 2 == l % 2;
  }

  lemma {:induction false} OrZero(a: nat)
    ensures BitOr(a, 0) == a
  {
    if a != 0 { OrZero(a / 2); }
  }

  lemma OrOne(a: nat)
    ensures BitOr(a, 1) == if a % 2 == 1 then a else a + 1
  {
    OrZero(a / 2);
    assert BitOr(a, 1) == 2 * BitOr(a / 2, 0) + 1;
  }

  lemma DivBounds(n: nat, b: nat, lo: nat, hi: nat)
    requires b > 0 && lo * b <= n < hi * b
    ensures lo <= n / b < hi
  {
    var q, r := n / b, n % b;
    assert n == q * b + r && 0 <= r < b;
    MulSub(lo, q, b);
    MulSub(q, hi, b);
    if q < lo { MulAtLeast(lo - q, b); }
    if q > hi { MulAtLeast(q - hi, b); }
  }

  /** n has q bits of which the top min(s, q) are ones. */
  predicate TopOnes(n: nat, q: nat, s: nat) {
    n < Pow2(q) && n >= Pow2(q) - Pow2(if s <= q then q - s else 0)
  }

  /** The arithmetic of a smearing step, with a = 2^(q-s), b = 2^s and c = 2^(q-2s), or 1 if q < 2s. */
  lemma ShiftedTop(n: nat, a: nat, b: nat, c: nat)
    requires 1 <= c <= a && b >= 1 && a * b - a <= n < a * b && (a == c * b || (c == 1 && a <= b))
    ensures a - c <= n / b < a
    ensures 0 <= n - (b - 1) * a < a
    ensures (b - 1) * a + (a - c) == a * b - c && (b - 1) * a + a == a * b && (b - 1) * a >= 0
  {
    MulSub(a, c, b);
    MulSub(b, 1, a);
    DivBounds(n, b, a - c, a);
  }

  /** A number below 2^k, or-ed in, stays within the low k bits and is not lost. */
  lemma OrTop(n: nat, h: nat, k: nat, x: nat)
    requires h * Pow2(k) <= n < h * Pow2(k) + Pow2(k) && x < Pow2(k)
    ensures h * Pow2(k) + x <= BitOr(n, x) < h * Pow2(k) + Pow2(k)
  {
    hide Pow2, BitOr;
    var r := n - h * Pow2(k);
    OrKeepsHigh(h, r, x, k);
    OrAtLeast(r, x);
    OrBelow(r, x, k);
  }

  /** One smearing step doubles the run of ones at the top. */
  lemma SmearStep(n: nat, q: nat, s: nat)
    requires s > 0 && TopOnes(n, q, s)
    ensures TopOnes(BitOr(n, ShiftRight(n, s)), q, 2 * s)
  {
    hide Pow2, BitOr;
    SmallPowers();
    if s >= q {
      Pow2Monotone(q, s);
      DivModIs(n, Pow2(s), 0, n);
      OrZero(n);
    } else {
      var a, b := Pow2(q - s), Pow2(s);
      var c := Pow2(if 2 * s <= q then q - 2 * s else 0);
      Pow2Adds(q - s, s);
      if 2 * s <= q {
        Pow2Adds(q - 2 * s, s);
        Pow2Monotone(q - 2 * s, q - s);
      } else {
        Pow2Monotone(q - s, s);
      }
      ShiftedTop(n, a, b, c);
      OrTop(n, b - 1, q - s, n / b);
    }
  }

  lemma AllOnes(n: nat, q: nat, s: nat)
    requires TopOnes(n, q, s) && q <= s
    ensures n == Pow2(q) - 1
  {
    SmallPowers();
  }

  /** The number of bits of n. */
  lemma {:induction false} BitLength(n: nat) returns (q: nat)
    requires n >= 1
    ensures q >= 1 && Pow2(q - 1) <= n < Pow2(q)
  {
    if n == 1 {
      q := 1;
    } else {
      var h := BitLength(n / 2);
      q := h + 1;
    }
  }

  /** The least power of two not below n, for every n up to 2^63; beyond that the sum overflows to 0. */
  method BitCeil(size: nat) returns (r: nat)
    requires size < WORD
    ensures r < WORD
    ensures size <= WORD / 2 ==> (exists e: nat :: e <= 63 && r == Pow2(e)) && size <= r
                                 && forall e: nat :: size <= Pow2(e) ==> r <= Pow2(e)
    ensures size > WORD / 2 ==> r == 0
  {
    WordIsPow2();
    SmallPowers();
    hide Pow2, BitOr, TopOnes, ShiftRight;
    if size <= 1 { return 1; }
    var n: nat := size - 1;
    ghost var q := BitLength(n);
    if q > 64 { Pow2Monotone(64, q - 1); }
    StartOnes(n, q);
    var shift: nat := 1;
    while shift < 64
      invariant 1 <= shift && TopOnes(n, q, shift)
      decreases 64 - shift
    {
      SmearStep(n, q, shift);
      n := BitOr(n, ShiftRight(n, shift));
      shift := 2 * shift;
    }
    AllOnes(n, q, shift);
    CeilIsLeast(size, q);
    r := (n + 1) % WORD;
  }

  lemma StartOnes(n: nat, q: nat)
    requires q >= 1 && Pow2(q - 1) <= n < Pow2(q)
    ensures TopOnes(n, q, 1)
  {}

  lemma CeilIsLeast(size: nat, q: nat)
    requires 1 <= q <= 64 && Pow2(q - 1) < size <= Pow2(q)
    ensures q <= 63 <==> size <= WORD / 2
    ensures if q <= 63 then Pow2(q) < WORD else Pow2(q) == WORD
    ensures forall e: nat :: size <= Pow2(e) ==> Pow2(q) <= Pow2(e)
  {
    WordIsPow2();
    hide Pow2;
    Pow2Monotone(q - 1, 63);
    if q <= 63 { Pow2Monotone(q, 63); }
    forall e: nat | size <= Pow2(e) ensures Pow2(q) <= Pow2(e) {
      if e <= q - 1 { Pow2Monotone(e, q - 1); } else { Pow2Monotone(q, e); }
    }
  }
}
