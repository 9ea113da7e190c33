/**
 * The cash side of a user (app/Models/User.php).  The users table stores the
 * balance as an integer number of cents; the `balance` accessor presents it in
 * dollars and the mutator stores round(v × 100).  addMoney and deductMoney are
 * methods of OrderController.Exchange that rewrite the stored cents; the
 * functions here say what they compute.
 */
module Users {
  import opened Wrappers
  import opened Fixed

  /** PHP round(): nearest integer, halves away from zero. */
  function RoundReal(v: real): (n: int)
    ensures 0.0 <= v ==> n as real - 0.5 <= v < n as real + 0.5
    ensures v < 0.0 ==> n as real - 0.5 < v <= n as real + 0.5
  {
    if v >= 0.0 then (v + 0.5).Floor else -((-v + 0.5).Floor)
  }

  /** The balance accessor: stored cents / 100, in dollars. */
  function Dollars(stored: int): (d: real)
    ensures d * 100.0 == stored as real
  {
    stored as real / 100.0
  }

  /** The balance mutator: the cents stored for a dollar value v. */
  function StoredCents(v: real): int
  {
    RoundReal(v * 100.0)
  }

  /** Storing what the accessor shows gives back the same cents. */
  lemma BalanceRoundTrip(stored: int)
    ensures StoredCents(Dollars(stored)) == stored
  {
    assert Dollars(stored) * 100.0 == stored as real;
  }

  /** getCashBalance: the accessor value. */
  function CashBalance(stored: int): (d: real)
    ensures d * 100.0 == stored as real
  {
    Dollars(stored)
  }

  /**
   * hasSufficientFunds(x), and the guard of deductMoney(x): the accessor value
   * (dollars) compared with round(x × 100) (cents), literally as written.
   * `money` is x at scale 24.
   */
  predicate HasSufficientFunds(stored: int, money: int)
  {
    Dollars(stored) >= FloatCents(money) as real
  }

  /** The check mixes units: it passes only with a hundred times the deduction in cents. */
  lemma FundsCheckIsHundredfold(stored: int, money: int)
    ensures HasSufficientFunds(stored, money) <==> stored >= 100 * FloatCents(money)
  {
  }

  /** A user holding $10,000 is refused a $9,000 purchase by the literal check. */
  lemma TenThousandCannotSpendNineThousand()
    ensures !HasSufficientFunds(1_000_000, 9_000 * PRICE_ONE * AMOUNT_ONE)
  {
    assert FloatCents(9_000 * PRICE_ONE * AMOUNT_ONE) == 900_000;
  }

  /** deductMoney(x): the new stored cents, or None (false) when the guard fails. */
  function Deduct(stored: int, money: int): (r: Option<int>)
    ensures r.Some? <==> HasSufficientFunds(stored, money)
    ensures r.Some? ==> r.value == stored - FloatCents(money)
  {
    if Dollars(stored) >= FloatCents(money) as real then Some(stored - FloatCents(money))
    else None
  }

  /** A successful deduction of a non-negative amount never leaves a negative balance. */
  lemma DeductKeepsBalanceNonNegative(stored: int, money: int)
    requires 0 <= stored && 0 <= money && Deduct(stored, money).Some?
    ensures 0 <= Deduct(stored, money).value
  {
    FundsCheckIsHundredfold(stored, money);
  }

  /** addMoney(x): the stored cents grow by round(x × 100); no sign or upper bound check. */
  function Credit(stored: int, money: int): (r: int)
    ensures 0 <= money ==> stored <= r
    ensures r - stored == FloatCents(money)
  {
    stored + FloatCents(money)
  }
}
