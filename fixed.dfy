/**
 * Fixed-point decimals as the exchange computes them with bcmath.
 *
 * Every decimal column is an integer count of its smallest unit:
 *   - a price (decimal:6) counts millionths of a dollar;
 *   - an amount (decimal:18) counts 10^-18 of a unit;
 *   - a bcmath result at scale 18 counts 10^-18 of a dollar;
 *   - an exact price × amount product counts 10^-24 of a dollar ("money" here);
 *   - a stored balance and a commission column (decimal:2) count cents.
 * bcmath truncates toward zero when it drops digits; PHP's round() and the
 * decimal:2 cast round half away from zero.  Both are written out below,
 * because Dafny's own `/` is Euclidean.
 */
module Fixed {
  /** One dollar of price. */
  const PRICE_ONE: int := 1_000_000
  /** One unit of quantity. */
  const AMOUNT_ONE: int := 1_000_000_000_000_000_000
  /** One cent in a scale-18 value. */
  const CENT_18: int := 10_000_000_000_000_000
  /** One cent in a scale-24 money value. */
  const CENT_24: int := 10_000_000_000_000_000_000_000
  /** The smallest price and amount the order request validator admits (0.000001 and 0.00000001). */
  const MIN_PRICE: int := 1
  const MIN_AMOUNT: int := 10_000_000_000

  /** Division that truncates toward zero, as bcmath drops digits. */
  function TruncDiv(n: int, d: int): (q: int)
    requires d > 0
    ensures 0 <= n ==> 0 <= q && q * d <= n < q * d + d
    ensures n < 0 ==> q <= 0 && q * d - d < n <= q * d
  {
    if n >= 0 then n / d else -((-n) / d)
  }

  /** Division rounding to the nearest integer, halves away from zero (PHP round()). */
  function RoundDiv(n: int, d: int): (q: int)
    requires d > 0
    ensures 0 <= n ==> 0 <= q && -d <= 2 * (n - q * d) < d
    ensures n < 0 ==> q <= 0 && -d < 2 * (n - q * d) <= d
  {
    if n >= 0 then (2 * n + d) / (2 * d) else -((2 * (-n) + d) / (2 * d))
  }

  /** A whole multiple of the divisor rounds to itself. */
  lemma RoundDivExact(c: int, d: int)
    requires d > 0
    ensures RoundDiv(c * d, d) == c
  {
    if c >= 0 {
      assert 0 <= c * d;
      assert 2 * (c * d) + d == c * (2 * d) + d;
      DivUnique(2 * (c * d) + d, 2 * d, c, d);
    } else {
      assert -(c * d) == (-c) * d && 0 < (-c) * d;
      assert 2 * ((-c) * d) + d == (-c) * (2 * d) + d;
      DivUnique(2 * ((-c) * d) + d, 2 * d, -c, d);
    }
  }

  /** bcmul(price, amount, 18): the product at scale 18, truncated. */
  function MulValue(price: int, amount: int): int
  {
    TruncDiv(price * amount, PRICE_ONE)
  }

  /** bcmul(price, amount, 2): the product in cents, truncated. */
  function MulCents(price: int, amount: int): int
  {
    TruncDiv(price * amount, CENT_24)
  }

  /** bcmul(value, '0.015', 18): the 1.5% commission on a scale-18 value. */
  function Commission(value: int): (c: int)
    ensures 0 <= value ==> 0 <= c && 1000 * c <= 15 * value < 1000 * c + 1000
  {
    TruncDiv(value * 15, 1000)
  }

  /** The decimal:2 cast of a scale-18 value: cents, half away from zero. */
  function ToDecimal2(value: int): int
  {
    RoundDiv(value, CENT_18)
  }

  /** round($x * 100) for a money value x at scale 24 (float conversion idealised as exact). */
  function FloatCents(money: int): int
  {
    RoundDiv(money, CENT_24)
  }

  /** A scale-18 bcmath value as scale-24 money (appending six zero digits). */
  function Widen(value: int): int
  {
    value * PRICE_ONE
  }

  /** Euclidean division is determined by any quotient/remainder pair. */
  lemma DivUnique(n: int, d: int, q: int, r: int)
    requires d > 0 && n == q * d + r && 0 <= r < d
    ensures n / d == q
  {
    var q', r' := n / d, n % d;
    assert n == q' * d + r';
    var k := q - q';
    assert k * d == r' - r;
    if k > 0 {
      MulAtLeast(k, d);
    } else if k < 0 {
      MulAtLeast(-k, d);
    }
  }

  lemma MulAtLeast(k: int, d: int)
    requires k >= 1 && d > 0
    ensures k * d >= d
  {
    assert k * d == (k - 1) * d + d;
    assert (k - 1) * d >= 0;
  }

  /** Rounding a widened value to cents is the decimal:2 rounding of the value itself. */
  lemma {:induction false} WidenedCents(value: int)
    requires 0 <= value
    ensures FloatCents(Widen(value)) == ToDecimal2(value)
  {
    var n := 2 * value + CENT_18;
    var q, r := n / (2 * CENT_18), n % (2 * CENT_18);
    assert n == q * (2 * CENT_18) + r;
    assert 2 * Widen(value) + CENT_24 == q * (2 * CENT_24) + r * PRICE_ONE;
    DivUnique(2 * Widen(value) + CENT_24, 2 * CENT_24, q, r * PRICE_ONE);
  }

  /**
   * A cancelled BUY order is refunded round(amount × price × 100) cents, computed
   * from the exact product; its placement deducted round(bcmul(price, amount, 18) × 100).
   * The two agree: truncating to 18 digits never moves a value across a half cent.
   */
  lemma {:induction false} RefundMatchesDebit(price: int, amount: int)
    requires 0 <= price && 0 <= amount
    ensures FloatCents(price * amount) == FloatCents(Widen(MulValue(price, amount)))
  {
    var x := price * amount;
    var t := x / PRICE_ONE;
    var s := x % PRICE_ONE;
    assert x == t * PRICE_ONE + s;
    assert MulValue(price, amount) == t;
    var n := 2 * (t * PRICE_ONE) + CENT_24;
    var q, r := n / (2 * CENT_24), n % (2 * CENT_24);
    assert n == q * (2 * CENT_24) + r;
    var k := t + CENT_24 / (2 * PRICE_ONE) - q * (CENT_24 / PRICE_ONE);
    assert r == 2 * PRICE_ONE * k;
    assert r <= 2 * CENT_24 - 2 * PRICE_ONE;
    DivUnique(2 * x + CENT_24, 2 * CENT_24, q, r + 2 * s);
  }

  /** Subtracting whole cents commutes with rounding to cents (for non-negative results). */
  lemma ShiftCents(value: int, c: int)
    requires 0 <= c * CENT_18 <= value
    ensures ToDecimal2(value - c * CENT_18) == ToDecimal2(value) - c
  {
    var n := 2 * value + CENT_18;
    var q, r := n / (2 * CENT_18), n % (2 * CENT_18);
    assert n == q * (2 * CENT_18) + r;
    assert 2 * (value - c * CENT_18) + CENT_18 == (q - c) * (2 * CENT_18) + r;
    DivUnique(2 * (value - c * CENT_18) + CENT_18, 2 * CENT_18, q - c, r);
  }

  /** bcsub(value, sellCommission, 18), the commission being read back at two decimals. */
  function NetOfCommission(value: int): int
  {
    value - ToDecimal2(Commission(value)) * CENT_18
  }

  /** What a seller is credited, in cents, for a trade of scale-18 value `value`. */
  function SellerProceeds(value: int): int
  {
    FloatCents(Widen(NetOfCommission(value)))
  }

  /**
   * The seller's credit is the trade value in cents minus the commission in cents,
   * and it is never negative: the rounded commission never exceeds the value.
   */
  lemma {:induction false} SellerProceedsBounds(value: int)
    requires 0 <= value
    ensures 0 <= ToDecimal2(Commission(value)) * CENT_18 <= value
    ensures SellerProceeds(value) == ToDecimal2(value) - ToDecimal2(Commission(value))
    ensures 0 <= SellerProceeds(value) <= ToDecimal2(value)
  {
    var m := Commission(value);
    var c := ToDecimal2(m);
    assert 0 <= c;
    if c > 0 {
      assert c * CENT_18 <= m + CENT_18 / 2;
      assert m >= CENT_18 / 2;
      assert 1000 * m <= 15 * value;
    }
    ShiftCents(value, c);
    WidenedCents(value - c * CENT_18);
  }

  lemma MulMonotone(p1: int, p2: int, q: int)
    requires p1 <= p2 && 0 <= q
    ensures p1 * q <= p2 * q
  {
    assert p2 * q - p1 * q == (p2 - p1) * q;
  }

  /** Truncation keeps the order of non-negative values. */
  lemma TruncDivMonotone(a: int, b: int, d: int)
    requires 0 <= a <= b && 0 < d
    ensures TruncDiv(a, d) <= TruncDiv(b, d)
  {
    var qa, qb := TruncDiv(a, d), TruncDiv(b, d);
    if qa > qb {
      assert (qa - qb) * d == qa * d - qb * d;
      MulAtLeast(qa - qb, d);
    }
  }

  /** Rounding keeps the order of non-negative values. */
  lemma RoundDivMonotone(a: int, b: int, d: int)
    requires 0 <= a <= b && 0 < d
    ensures RoundDiv(a, d) <= RoundDiv(b, d)
  {
    var qa, qb := RoundDiv(a, d), RoundDiv(b, d);
    if qa > qb {
      assert (qa - qb) * d == qa * d - qb * d;
      MulAtLeast(qa - qb, d);
    }
  }

  /**
   * A trade at the sell price never credits the seller more cents than the buyer
   * was debited when the BUY order was placed at a price at least as high.
   */
  lemma {:induction false} SellerPaidFromBuyerDebit(buyPrice: int, sellPrice: int, q: int)
    requires 0 <= sellPrice <= buyPrice && 0 <= q
    ensures SellerProceeds(MulValue(sellPrice, q)) <= FloatCents(Widen(MulValue(buyPrice, q)))
  {
    MulMonotone(sellPrice, buyPrice, q);
    assert 0 <= sellPrice * q;
    TruncDivMonotone(sellPrice * q, buyPrice * q, PRICE_ONE);
    var vs, vb := MulValue(sellPrice, q), MulValue(buyPrice, q);
    SellerProceedsBounds(vs);
    WidenedCents(vb);
    RoundDivMonotone(vs, vb, CENT_18);
  }

  /** One unit at $9,000.00: a $135.00 commission and $8,865.00 to the seller. */
  lemma OneUnitAtNineThousand()
    ensures MulValue(9_000 * PRICE_ONE, AMOUNT_ONE) == 9_000 * AMOUNT_ONE
    ensures ToDecimal2(Commission(9_000 * AMOUNT_ONE)) == 13_500
    ensures SellerProceeds(9_000 * AMOUNT_ONE) == 886_500
  {
    assert Commission(9_000 * AMOUNT_ONE) == 135 * AMOUNT_ONE;
    SellerProceedsBounds(9_000 * AMOUNT_ONE);
  }
}
