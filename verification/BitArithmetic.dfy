/** Bitwise and, or, complement and shifts of unsigned numbers, digit by digit, and what they come to
    on masks and on fields that lie beside each other. */
module BitArithmetic {
  import RingGeometry

  const WORD64: nat := 0x1_0000_0000_0000_0000

  function BitAnd(x: nat, y: nat): nat {
    if x == 0 || y == 0 then 0 else 2 * BitAnd(x / 2, y / 2) + (if x % 2 == 1 && y % 2 == 1 then 1 else 0)
  }

  function BitOr(x: nat, y: nat): nat {
    if x == 0 then y else if y == 0 then x
    else 2 * BitOr(x / 2, y / 2) + (if x % 2 == 1 || y % 2 == 1 then 1 else 0)
  }

  /** Complement of a 64-bit word. */
  function Not64(x: nat): nat
    requires x < WORD64
  {
    WORD64 - 1 - x
  }

  function Pow2(k: nat): (p: nat)
    ensures p > 0
  {
    if k == 0 then 1 else 2 * Pow2(k - 1)
  }

  function Shl(x: nat, k: nat): nat { if k == 0 then x else 2 * Shl(x, k - 1) }

  function Shr(x: nat, k: nat): nat { if k == 0 then x else Shr(x / 2, k - 1) }

  // ----- Powers of two and division by them -----

  lemma {:induction false} PowSplit(k: nat, n: nat)
    requires k <= n
    ensures Pow2(n) == Pow2(n - k) * Pow2(k)
    decreases n
  {
    if k < n {
      PowSplit(k, n - 1);
      DoubleProduct(Pow2(n - 1 - k), Pow2(k));
    }
  }

  lemma {:induction false} PowMonotone(k: nat, n: nat)
    requires k <= n
    ensures Pow2(k) <= Pow2(n)
    decreases n
  {
    if k < n { PowMonotone(k, n - 1); }
  }

  /** The powers that occur as field positions. */
  lemma PowersUsed()
    ensures Pow2(16) == 0x1_0000 && Pow2(19) == 0x8_0000 && Pow2(21) == 0x20_0000 && Pow2(23) == 0x80_0000
    ensures Pow2(24) == 0x100_0000 && Pow2(27) == 0x800_0000 && Pow2(29) == 0x2000_0000 && Pow2(30) == 0x4000_0000
    ensures Pow2(32) == 0x1_0000_0000 && Pow2(40) == 0x100_0000_0000 && Pow2(64) == WORD64
  {
    assert Pow2(8) == 0x100;
    PowSplit(8, 16);
    assert Pow2(19) == 8 * Pow2(16) && Pow2(21) == 4 * Pow2(19) && Pow2(23) == 4 * Pow2(21);
    assert Pow2(24) == 2 * Pow2(23) && Pow2(27) == 8 * Pow2(24) && Pow2(29) == 4 * Pow2(27);
    assert Pow2(30) == 2 * Pow2(29);
    PowSplit(16, 32);
    PowSplit(8, 40);
    PowSplit(32, 64);
  }

  lemma DoubleProduct(a: nat, b: nat)
    ensures 2 * (a * b) == (2 * a) * b
  {
  }

  lemma QuotientForm(n: nat, w: nat)
    requires w > 0
    ensures n == (n / w) * w + n % w && 0 <= n % w < w
  {
  }

  lemma UniqueQuotient(n: nat, w: nat, q: nat, r: nat)
    requires n == q * w + r && r < w
    ensures n / w == q && n % w == r
  {
    QuotientForm(n, w);
    var k := n / w;
    assert k * w + n % w == q * w + r;
    if k < q { RingGeometry.MulStrict(k, q, w); } else if q < k { RingGeometry.MulStrict(q, k, w); }
  }

  /** Division by twice a number, digit first. */
  lemma HalveFirst(x: nat, w: nat)
    requires w > 0
    ensures x % (2 * w) == 2 * ((x / 2) % w) + x % 2 && x / (2 * w) == (x / 2) / w
  {
    var q, r := (x / 2) / w, (x / 2) % w;
    QuotientForm(x / 2, w);
    assert x == q * (2 * w) + (2 * r + x % 2) by { DoubleProduct(q, w); }
    UniqueQuotient(x, 2 * w, q, 2 * r + x % 2);
  }

  function Div(n: nat, w: nat): nat
    requires w > 0
  {
    n / w
  }

  // ----- Masks -----

  /** And with ones at the bottom is the remainder. */
  lemma {:induction false} AndLow(x: nat, k: nat)
    ensures BitAnd(x, Pow2(k) - 1) == x % Pow2(k)
    decreases k
  {
    if k > 0 {
      var w := Pow2(k - 1);
      assert (2 * w - 1) / 2 == w - 1 && (2 * w - 1) % 2 == 1;
      AndLow(x / 2, k - 1);
      HalveFirst(x, w);
    }
  }

  /** One digit of the and. */
  lemma AndDigit(x: nat, y: nat)
    ensures BitAnd(x, y) == 2 * BitAnd(x / 2, y / 2) + (if x % 2 == 1 && y % 2 == 1 then 1 else 0)
  {
  }

  /** And with ones above that is what the remainder leaves. */
  lemma {:induction false} AndHigh(x: nat, k: nat, n: nat)
    requires k <= n && x < Pow2(n)
    ensures Pow2(k) <= Pow2(n) && BitAnd(x, Pow2(n) - Pow2(k)) == x - x % Pow2(k)
    decreases k
  {
    hide BitAnd;
    PowMonotone(k, n);
    if k == 0 {
      AndLow(x, n);
      UniqueQuotient(x, Pow2(n), 0, x);
    } else {
      var w, v := Pow2(k - 1), Pow2(n - 1);
      PowMonotone(k - 1, n - 1);
      AndHigh(x / 2, k - 1, n - 1);
      HalveFirst(x, w);
      MaskDigit(x, v - w);
    }
  }

  lemma MaskDigit(x: nat, m: nat)
    ensures BitAnd(x, 2 * m) == 2 * BitAnd(x / 2, m)
  {
    hide BitAnd;
    AndDigit(x, 2 * m);
    assert 2 * m / 2 == m;
  }

  // ----- Or -----

  lemma {:induction false} OrCommutes(x: nat, y: nat)
    ensures BitOr(x, y) == BitOr(y, x)
  {
    if x != 0 && y != 0 { OrCommutes(x / 2, y / 2); }
  }

  lemma {:induction false} OrBound(x: nat, y: nat, k: nat)
    requires x < Pow2(k) && y < Pow2(k)
    ensures BitOr(x, y) < Pow2(k)
    decreases k
  {
    if x != 0 && y != 0 && k > 0 { OrBound(x / 2, y / 2, k - 1); }
  }

  /** Or works on the parts above and below a position separately. */
  lemma {:induction false} OrSplit(a: nat, x: nat, b: nat, y: nat, k: nat)
    requires x < Pow2(k) && y < Pow2(k)
    ensures BitOr(Shl(a, k) + x, Shl(b, k) + y) == Shl(BitOr(a, b), k) + BitOr(x, y)
    decreases k
  {
    hide BitOr;
    if k > 0 {
      OrDigit(Shl(a, k) + x, Shl(b, k) + y);
      OrDigit(x, y);
      Halves(Shl(a, k - 1), x);
      Halves(Shl(b, k - 1), y);
      OrSplit(a, x / 2, b, y / 2, k - 1);
    } else {
      OrDigit(0, 0);
      OrZero(0);
    }
  }

  lemma OrZero(x: nat)
    ensures BitOr(x, 0) == x && BitOr(0, x) == x
  {
  }

  lemma Halves(n: nat, x: nat)
    ensures (2 * n + x) / 2 == n + x / 2 && (2 * n + x) % 2 == x % 2
  {
  }

  /** One digit of the or. */
  lemma OrDigit(x: nat, y: nat)
    ensures BitOr(x, y) == 2 * BitOr(x / 2, y / 2) + (if x % 2 == 1 || y % 2 == 1 then 1 else 0)
  {
  }

  /** All ones swallow the other operand. */
  lemma {:induction false} OrOnes(x: nat, k: nat)
    requires x < Pow2(k)
    ensures BitOr(x, Pow2(k) - 1) == Pow2(k) - 1
    decreases k
  {
    if k > 0 {
      OrOnes(x / 2, k - 1);
      OrDigit(x, Pow2(k) - 1);
    }
  }

  /** Parts that do not overlap add up. */
  lemma OrApart(a: nat, y: nat, k: nat)
    requires y < Pow2(k)
    ensures BitOr(Shl(a, k), y) == Shl(a, k) + y && BitOr(y, Shl(a, k)) == Shl(a, k) + y
  {
    hide BitOr;
    OrSplit(a, 0, 0, y, k);
    OrZero(a);
    OrZero(y);
    ShlZero(k);
    OrCommutes(Shl(a, k), y);
  }

  lemma {:induction false} ShlZero(k: nat)
    ensures Shl(0, k) == 0
  {
    if k > 0 { ShlZero(k - 1); }
  }

  lemma {:induction false} ShlIs(x: nat, k: nat)
    ensures Shl(x, k) == x * Pow2(k)
  {
    if k > 0 {
      ShlIs(x, k - 1);
      DoubleProduct(x, Pow2(k - 1));
    }
  }

  lemma {:induction false} ShrIs(x: nat, k: nat)
    ensures Shr(x, k) == x / Pow2(k)
    decreases k
  {
    if k > 0 {
      ShrIs(x / 2, k - 1);
      HalveFirst(x, Pow2(k - 1));
    }
  }
}
