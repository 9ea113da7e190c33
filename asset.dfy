/**
 * A holding of one user in one ticker (app/Models/Asset.php): `amount` owned and
 * `locked` reserved against the user's open SELL orders, both at scale 18.
 * The state-changing methods of the model (lockAmount, …) rewrite one row of the
 * assets table; they are methods of OrderController.Exchange, and the functions
 * below say what each of them does to the row.  A result of None is the `false`
 * the model returns when its guard fails, leaving the row as it was.
 */
module Assets {
  import opened Wrappers

  type UserId = nat
  type TickerId = nat

  /** The unique (user_id, ticker_id) key of the assets table. */
  datatype AssetKey = AssetKey(user: UserId, ticker: TickerId)

  datatype Asset = Asset(amount: int, locked: int) {
    /** available_amount: bcsub(amount, locked_amount, 18), exact. */
    function Available(): int
    {
      amount - locked
    }

    predicate HasSufficientAvailableAmount(x: int)
    {
      Available() >= x
    }

    /** hasSufficientAmount: the owned quantity, locked or not, covers x. */
    predicate HasSufficientAmount(x: int)
    {
      amount >= x
    }

    /** The holding invariant: nothing negative, never more locked than owned. */
    predicate Consistent()
    {
      0 <= locked <= amount
    }
  }

  /** What is available is also owned, as long as nothing negative is locked. */
  lemma AvailableIsOwned(a: Asset, x: int)
    requires 0 <= a.locked && a.HasSufficientAvailableAmount(x)
    ensures a.HasSufficientAmount(x)
  {
  }

  /** The row getOrCreate inserts for a key it does not find. */
  const EmptyAsset := Asset(0, 0)

  /** lockAmount(x): reserve x more, if that much is available. */
  function Lock(a: Asset, x: int): (r: Option<Asset>)
    ensures r.Some? <==> a.Available() >= x
    ensures r.Some? ==> r.value.amount == a.amount && r.value.Available() == a.Available() - x
  {
    if !a.HasSufficientAvailableAmount(x) then None
    else Some(a.(locked := a.locked + x))
  }

  /** unlockAmount(x): give back x of the reservation, if that much is locked. */
  function Unlock(a: Asset, x: int): (r: Option<Asset>)
    ensures r.Some? <==> a.locked >= x
    ensures r.Some? ==> r.value.amount == a.amount && r.value.Available() == a.Available() + x
  {
    if a.locked < x then None
    else Some(a.(locked := a.locked - x))
  }

  /** addAmount(x): the holding grows by x; the reservation is untouched. */
  function Add(a: Asset, x: int): (r: Asset)
    ensures r.locked == a.locked && r.Available() == a.Available() + x
  {
    a.(amount := a.amount + x)
  }

  /** subtractAmount(x): the holding shrinks by x, if x is available. */
  function Subtract(a: Asset, x: int): (r: Option<Asset>)
    ensures r.Some? <==> a.Available() >= x
    ensures r.Some? ==> r.value.locked == a.locked && r.value.Available() == a.Available() - x
  {
    if !a.HasSufficientAvailableAmount(x) then None
    else Some(a.(amount := a.amount - x))
  }

  /** releaseLockedAmount(x): x of the reserved holding leaves the account. */
  function Release(a: Asset, x: int): (r: Option<Asset>)
    ensures r.Some? <==> a.locked >= x
    ensures r.Some? ==> r.value.amount == a.amount - x && r.value.Available() == a.Available()
  {
    if a.locked < x then None
    else Some(a.(locked := a.locked - x, amount := a.amount - x))
  }

  /**
   * For a non-negative quantity, every operation that succeeds keeps
   * 0 <= locked_amount <= amount.
   */
  lemma OperationsPreserveConsistency(a: Asset, x: int)
    requires a.Consistent() && 0 <= x
    ensures Lock(a, x).Some? ==> Lock(a, x).value.Consistent()
    ensures Unlock(a, x).Some? ==> Unlock(a, x).value.Consistent()
    ensures Add(a, x).Consistent()
    ensures Subtract(a, x).Some? ==> Subtract(a, x).value.Consistent()
    ensures Release(a, x).Some? ==> Release(a, x).value.Consistent()
  {
  }

  /**
   * Without the sign check the source does not make, a negative quantity gets
   * through lockAmount's guard and drives the reservation below zero.
   */
  lemma NegativeLockBreaksConsistency()
    ensures Lock(EmptyAsset, -1) == Some(Asset(0, -1))
    ensures !Asset(0, -1).Consistent()
  {
  }
}
