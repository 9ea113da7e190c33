/**
 * An order row (app/Models/Order.php).  Prices are at scale 6, amounts and the
 * filled quantity at scale 18.  Timestamps are opaque integers supplied by the
 * caller.  markAsFilled and markAsCancelled are methods of
 * OrderController.Exchange; `Filled` and `Cancelled` below are the rows they
 * write.
 */
module Orders {
  import opened Wrappers
  import opened Fixed
  import opened Assets

  const STATUS_OPEN: int := 1
  const STATUS_FILLED: int := 2
  const STATUS_CANCELLED: int := 3

  datatype Side = Buy | Sell

  datatype Order = Order(
    id: nat,
    user: UserId,
    ticker: TickerId,
    side: Side,
    price: int,
    amount: int,
    filled: int,
    status: int,
    createdAt: int,
    filledAt: Option<int>,
    cancelledAt: Option<int>)
  {
    /** The assets row this order's SELL lock lives in. */
    function Key(): AssetKey
    {
      AssetKey(user, ticker)
    }

    /** What is left to fill: amount − filled_quantity (exact). */
    function Remaining(): int
    {
      amount - filled
    }

    predicate IsOpen()
    {
      status == STATUS_OPEN
    }

    predicate IsFilled()
    {
      status == STATUS_FILLED
    }

    predicate IsCancelled()
    {
      status == STATUS_CANCELLED
    }
  }

  predicate ValidStatus(status: int)
  {
    status == STATUS_OPEN || status == STATUS_FILLED || status == STATUS_CANCELLED
  }

  /** The status_text attribute. */
  function StatusText(status: int): (r: string)
    ensures r == "Unknown" <==> !ValidStatus(status)
  {
    if status == STATUS_OPEN then "Open"
    else if status == STATUS_FILLED then "Filled"
    else if status == STATUS_CANCELLED then "Cancelled"
    else "Unknown"
  }

  /** Distinct statuses have distinct texts. */
  lemma StatusTextInjective(a: int, b: int)
    requires ValidStatus(a) && ValidStatus(b) && StatusText(a) == StatusText(b)
    ensures a == b
  {
  }

  /** A valid status answers exactly one of isOpen / isFilled / isCancelled; any other answers none. */
  lemma ExactlyOneStatus(o: Order)
    ensures ValidStatus(o.status) ==>
      (o.IsOpen() && !o.IsFilled() && !o.IsCancelled()) ||
      (!o.IsOpen() && o.IsFilled() && !o.IsCancelled()) ||
      (!o.IsOpen() && !o.IsFilled() && o.IsCancelled())
    ensures !ValidStatus(o.status) ==> !o.IsOpen() && !o.IsFilled() && !o.IsCancelled()
  {
  }

  /** The total attribute: bcmul(price, amount, 2), cents truncated toward zero. */
  function Total(o: Order): (t: int)
    ensures 0 <= o.price * o.amount ==> 0 <= t && t * CENT_24 <= o.price * o.amount < t * CENT_24 + CENT_24
  {
    MulCents(o.price, o.amount)
  }

  /** The row markAsFilled writes. */
  function Filled(o: Order, now: int): Order
  {
    o.(status := STATUS_FILLED, filledAt := Some(now))
  }

  /** The row markAsCancelled writes. */
  function Cancelled(o: Order, now: int): Order
  {
    o.(status := STATUS_CANCELLED, cancelledAt := Some(now))
  }

  /** The action the `updated` hook broadcasts for a row saved as `after` over `before`. */
  function UpdateAction(before: Order, after: Order): string
  {
    if before.status != after.status && after.status == STATUS_FILLED then "filled"
    else if before.status != after.status && after.status == STATUS_CANCELLED then "cancelled"
    else "updated"
  }

  /** Cancelling announces "cancelled" exactly when the order was not cancelled already. */
  lemma CancelAnnouncesCancelled(o: Order, now: int)
    ensures UpdateAction(o, Cancelled(o, now)) == "cancelled" <==> !o.IsCancelled()
    ensures o.IsCancelled() ==> UpdateAction(o, Cancelled(o, now)) == "updated"
  {
  }

  /** Filling announces "filled" exactly when the order was not filled already. */
  lemma FillAnnouncesFilled(o: Order, now: int)
    ensures UpdateAction(o, Filled(o, now)) == "filled" <==> !o.IsFilled()
    ensures o.IsFilled() ==> UpdateAction(o, Filled(o, now)) == "updated"
  {
  }

  /** Order::getTotalValue: the sum of the total attribute. */
  function TotalValue(orders: seq<Order>): (r: int)
    ensures (forall i :: 0 <= i < |orders| ==> 0 <= orders[i].price && 0 <= orders[i].amount) ==> 0 <= r
  {
    if orders == [] then 0
    else
      assert 0 <= orders[0].price && 0 <= orders[0].amount ==> 0 <= orders[0].price * orders[0].amount;
      Total(orders[0]) + TotalValue(orders[1..])
  }

  lemma {:induction false} TotalValueAppend(orders: seq<Order>, o: Order)
    ensures TotalValue(orders + [o]) == TotalValue(orders) + Total(o)
  {
    if orders != [] {
      assert (orders + [o])[1..] == orders[1..] + [o];
      TotalValueAppend(orders[1..], o);
    }
  }

  /** Order::getLockedAmountForUserAndTicker: the amounts of the user's open orders in the ticker, either side. */
  function LockedAmountForUserAndTicker(orders: seq<Order>, user: UserId, ticker: TickerId): int
  {
    if orders == [] then 0
    else
      var o := orders[0];
      (if o.user == user && o.ticker == ticker && o.IsOpen() then o.amount else 0)
        + LockedAmountForUserAndTicker(orders[1..], user, ticker)
  }

  /** The quantity one order holds locked in the assets row `k`. */
  function SellLock(o: Order, k: AssetKey): int
  {
    if o.IsOpen() && o.side == Sell && o.Key() == k then o.amount else 0
  }

  /** All open SELL quantity against the assets row `k`: what its locked_amount must equal. */
  function OpenSellVolume(orders: seq<Order>, k: AssetKey): int
  {
    if orders == [] then 0 else SellLock(orders[0], k) + OpenSellVolume(orders[1..], k)
  }

  predicate NonNegativeAmounts(orders: seq<Order>)
  {
    forall i :: 0 <= i < |orders| ==> 0 <= orders[i].amount
  }

  lemma {:induction false} OpenSellVolumeAppend(orders: seq<Order>, o: Order, k: AssetKey)
    ensures OpenSellVolume(orders + [o], k) == OpenSellVolume(orders, k) + SellLock(o, k)
  {
    if orders != [] {
      assert (orders + [o])[1..] == orders[1..] + [o];
      OpenSellVolumeAppend(orders[1..], o, k);
    }
  }

  lemma {:induction false} OpenSellVolumeUpdate(orders: seq<Order>, i: nat, o: Order, k: AssetKey)
    requires i < |orders|
    ensures OpenSellVolume(orders[i := o], k) == OpenSellVolume(orders, k) - SellLock(orders[i], k) + SellLock(o, k)
  {
    if i > 0 {
      assert orders[i := o][1..] == orders[1..][i - 1 := o];
      OpenSellVolumeUpdate(orders[1..], i - 1, o, k);
    }
  }

  /** One open SELL order's quantity never exceeds the volume it is part of. */
  lemma {:induction false} SellLockAtMostVolume(orders: seq<Order>, i: nat, k: AssetKey)
    requires NonNegativeAmounts(orders) && i < |orders|
    ensures 0 <= SellLock(orders[i], k) <= OpenSellVolume(orders, k)
  {
    if i == 0 {
      OpenSellVolumeNonNegative(orders[1..], k);
    } else {
      SellLockAtMostVolume(orders[1..], i - 1, k);
    }
  }

  lemma {:induction false} OpenSellVolumeNonNegative(orders: seq<Order>, k: AssetKey)
    requires NonNegativeAmounts(orders)
    ensures 0 <= OpenSellVolume(orders, k)
  {
    if orders != [] {
      OpenSellVolumeNonNegative(orders[1..], k);
    }
  }

  /** A row no open SELL order points at has nothing locked. */
  lemma {:induction false} OpenSellVolumeZero(orders: seq<Order>, k: AssetKey)
    requires forall i :: 0 <= i < |orders| ==> !(orders[i].IsOpen() && orders[i].side == Sell && orders[i].Key() == k)
    ensures OpenSellVolume(orders, k) == 0
  {
    if orders != [] {
      OpenSellVolumeZero(orders[1..], k);
    }
  }

  /**
   * getLockedAmountForUserAndTicker counts open BUY orders too, so it bounds the
   * SELL lock of the holding from above rather than equalling it.
   */
  lemma {:induction false} LockedAmountCoversOpenSells(orders: seq<Order>, user: UserId, ticker: TickerId)
    requires NonNegativeAmounts(orders)
    ensures OpenSellVolume(orders, AssetKey(user, ticker)) <= LockedAmountForUserAndTicker(orders, user, ticker)
  {
    if orders != [] {
      LockedAmountCoversOpenSells(orders[1..], user, ticker);
    }
  }
}
