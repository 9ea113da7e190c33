/**
 * The exchange as the controller changes it (app/Http/Controllers/Api/OrderController.php
 * with the row methods of app/Models/Asset.php, User.php and Order.php): one
 * object whose fields are the tables, and one method per step, each proved to
 * leave the tables exactly as the matching function of module Ledger says.
 * A DB::transaction is a snapshot of the fields taken on entry and put back
 * when a step fails.
 */
module OrderController {
  import opened Wrappers
  import opened Fixed
  import opened Assets
  import opened Users
  import opened Orders
  import opened Trades
  import opened Tickers
  import opened Ledger
  import opened LedgerProofs

  class Exchange {
    /** users.balance, in cents */
    var balances: map<UserId, int>
    /** the assets table, one row per (user_id, ticker_id) */
    var assets: map<AssetKey, Asset>
    /** the orders table; the order with id n is row n - 1 */
    var orders: seq<Order>
    /** the trades table */
    var trades: seq<Trade>
    /** the tickers table, which no step writes */
    const tickers: seq<Ticker>

    function State(): Db
      reads this
    {
      Db(balances, assets, orders, trades)
    }

    /** An exchange with the given users, holdings and tickers, and no orders or trades yet. */
    constructor (balances: map<UserId, int>, holdings: map<AssetKey, int>, tickers: seq<Ticker>)
      requires Solvent(balances)
      requires forall k :: k in holdings ==> 0 <= holdings[k]
      ensures State() == Db(balances, map k | k in holdings :: Asset(holdings[k], 0), [], [])
      ensures this.tickers == tickers
      ensures Consistent(State())
    {
      this.balances := balances;
      this.assets := map k | k in holdings :: Asset(holdings[k], 0);
      this.orders := [];
      this.trades := [];
      this.tickers := tickers;
      new;
      EmptyExchangeConsistent(balances, holdings);
    }

    // -------------------------------------------------------------------------
    // Row methods of User

    /** User::addMoney: increment balance by round(amount × 100), with no check. */
    method AddMoney(user: UserId, money: int)
      requires user in balances
      modifies this
      ensures State() == old(State()).(balances := old(balances)[user := Credit(old(balances[user]), money)])
    {
      balances := balances[user := Credit(balances[user], money)];
    }

    /** User::deductMoney: decrement balance by round(amount × 100) when the (hundredfold) guard allows it. */
    method DeductMoney(user: UserId, money: int) returns (ok: bool)
      requires user in balances
      modifies this
      ensures ok <==> HasSufficientFunds(old(balances[user]), money)
      ensures ok ==> State() == old(State()).(balances := old(balances)[user := old(balances[user]) - FloatCents(money)])
      ensures !ok ==> State() == old(State())
    {
      var deducted := Deduct(balances[user], money);
      if deducted.None? {
        return false;
      }
      balances := balances[user := deducted.value];
      return true;
    }

    // -------------------------------------------------------------------------
    // Row methods of Asset

    /** Asset::getOrCreate: the stored row, or a new empty one inserted for (user, ticker). */
    method GetOrCreate(user: UserId, ticker: TickerId) returns (a: Asset)
      modifies this
      ensures a == Row(old(assets), AssetKey(user, ticker))
      ensures State() == old(State()).(assets := old(assets)[AssetKey(user, ticker) := a])
      ensures old(AssetKey(user, ticker) in assets) ==> State() == old(State())
    {
      var k := AssetKey(user, ticker);
      if k in assets {
        a := assets[k];
        assert assets[k := a] == assets;
      } else {
        a := EmptyAsset;
        assets := assets[k := a];
      }
    }

    /** Asset::lockAmount: raise locked_amount by x if that much is available. */
    method LockAmount(k: AssetKey, x: int) returns (ok: bool)
      requires k in assets
      modifies this
      ensures ok <==> old(assets[k]).HasSufficientAvailableAmount(x)
      ensures ok ==> State() == old(State()).(assets := old(assets)[k := Lock(old(assets[k]), x).value])
      ensures !ok ==> State() == old(State())
    {
      var locked := Lock(assets[k], x);
      if locked.None? {
        return false;
      }
      assets := assets[k := locked.value];
      return true;
    }

    /** Asset::unlockAmount: lower locked_amount by x if that much is locked. */
    method UnlockAmount(k: AssetKey, x: int) returns (ok: bool)
      requires k in assets
      modifies this
      ensures ok <==> x <= old(assets[k]).locked
      ensures ok ==> State() == old(State()).(assets := old(assets)[k := Unlock(old(assets[k]), x).value])
      ensures !ok ==> State() == old(State())
    {
      var unlocked := Unlock(assets[k], x);
      if unlocked.None? {
        return false;
      }
      assets := assets[k := unlocked.value];
      return true;
    }

    /** Asset::addAmount: raise amount by x, with no check. */
    method AddAmount(k: AssetKey, x: int)
      requires k in assets
      modifies this
      ensures State() == old(State()).(assets := old(assets)[k := Add(old(assets[k]), x)])
    {
      assets := assets[k := Add(assets[k], x)];
    }

    /** Asset::subtractAmount: lower amount by x if that much is available. */
    method SubtractAmount(k: AssetKey, x: int) returns (ok: bool)
      requires k in assets
      modifies this
      ensures ok <==> old(assets[k]).HasSufficientAvailableAmount(x)
      ensures ok ==> State() == old(State()).(assets := old(assets)[k := Subtract(old(assets[k]), x).value])
      ensures !ok ==> State() == old(State())
    {
      var subtracted := Subtract(assets[k], x);
      if subtracted.None? {
        return false;
      }
      assets := assets[k := subtracted.value];
      return true;
    }

    /** Asset::releaseLockedAmount: lower both locked_amount and amount by x if that much is locked. */
    method ReleaseLockedAmount(k: AssetKey, x: int) returns (ok: bool)
      requires k in assets
      modifies this
      ensures ok <==> x <= old(assets[k]).locked
      ensures ok ==> State() == old(State()).(assets := old(assets)[k := Release(old(assets[k]), x).value])
      ensures !ok ==> State() == old(State())
    {
      var released := Release(assets[k], x);
      if released.None? {
        return false;
      }
      assets := assets[k := released.value];
      return true;
    }

    // -------------------------------------------------------------------------
    // Row methods of Order

    /** Order::create: insert a row with the next id. */
    method CreateOrder(o: Order) returns (id: nat)
      requires o.id == |orders| + 1
      modifies this
      ensures id == o.id
      ensures State() == old(State()).(orders := old(orders) + [o])
    {
      orders := orders + [o];
      id := o.id;
    }

    /** Order::markAsFilled: status FILLED and filled_at, whatever the status was. */
    method MarkAsFilled(i: nat, now: int)
      requires i < |orders|
      modifies this
      ensures State() == old(State()).(orders := old(orders)[i := Filled(old(orders[i]), now)])
    {
      orders := orders[i := Filled(orders[i], now)];
    }

    /** Asset::getOrCreate followed by unlockAmount(x) on the user's row for the ticker. */
    method UnlockHolding(user: UserId, ticker: TickerId, x: int) returns (ok: bool)
      modifies this
      ensures var k := AssetKey(user, ticker);
              ok <==> Unlock(Row(old(assets), k), x).Some?
      ensures var k := AssetKey(user, ticker);
              ok ==> State() == old(State()).(assets := old(assets)[k := Unlock(Row(old(assets), k), x).value])
      ensures var k := AssetKey(user, ticker);
              !ok ==> State() == old(State()).(assets := old(assets)[k := Row(old(assets), k)])
    {
      var k := AssetKey(user, ticker);
      var a := GetOrCreate(user, ticker);
      ok := UnlockAmount(k, x);
      if ok {
        assert assets == old(assets)[k := Unlock(a, x).value];
      }
    }

    /** Order::markAsCancelled: status CANCELLED and cancelled_at, whatever the status was. */
    method MarkAsCancelled(i: nat, now: int)
      requires i < |orders|
      modifies this
      ensures State() == old(State()).(orders := old(orders)[i := Cancelled(old(orders[i]), now)])
    {
      orders := orders[i := Cancelled(orders[i], now)];
    }

    // -------------------------------------------------------------------------
    // The controller's steps

    /** processBuyOrder: check the funds, deduct the cost, create the order. */
    method ProcessBuyOrder(user: UserId, ticker: TickerId, price: int, amount: int, now: int) returns (r: Result<nat, Error>)
      requires user in balances
      modifies this
      ensures var spec := PlaceBuy(old(State()), user, ticker, price, amount, now);
              r.Success? ==> spec.Success? && State() == spec.value && r.value == |old(orders)| + 1
      ensures var spec := PlaceBuy(old(State()), user, ticker, price, amount, now);
              r.Failure? ==> spec.Failure? && r.error == spec.error && State() == old(State())
    {
      var cost := BuyCost(price, amount);
      if !HasSufficientFunds(balances[user], cost) {
        return Failure(InsufficientFunds);
      }
      var ok := DeductMoney(user, cost);
      if !ok {
        return Failure(DeductFailed);
      }
      var id := CreateOrder(OpenOrder(|orders| + 1, user, ticker, Buy, price, amount, now));
      return Success(id);
    }

    /**
     * processSellOrder: getOrCreate the holding, check and lock the amount,
     * create the order. A failure leaves the holding row getOrCreate inserted;
     * the surrounding transaction removes it.
     */
    method ProcessSellOrder(user: UserId, ticker: TickerId, price: int, amount: int, now: int) returns (r: Result<nat, Error>)
      modifies this
      ensures var spec := PlaceSell(old(State()), user, ticker, price, amount, now);
              r.Success? ==> spec.Success? && State() == spec.value && r.value == |old(orders)| + 1
      ensures var spec := PlaceSell(old(State()), user, ticker, price, amount, now);
              var k := AssetKey(user, ticker);
              r.Failure? ==> spec.Failure? && r.error == spec.error
                             && State() == old(State()).(assets := old(assets)[k := Row(old(assets), k)])
    {
      ghost var spec := PlaceSell(State(), user, ticker, price, amount, now);
      var k := AssetKey(user, ticker);
      var a := GetOrCreate(user, ticker);
      if !a.HasSufficientAvailableAmount(amount) {
        assert spec == Failure(InsufficientHoldings);
        return Failure(InsufficientHoldings);
      }
      var ok := LockAmount(k, amount);
      if !ok {
        return Failure(LockFailed);
      }
      assert assets == old(assets)[k := Lock(a, amount).value];
      var o := OpenOrder(|orders| + 1, user, ticker, Sell, price, amount, now);
      assert spec == Success(old(State()).(assets := assets, orders := old(orders) + [o]));
      var id := CreateOrder(o);
      return Success(id);
    }

    /** The foreach over the candidates with its break: the position of the first one of equal remaining quantity. */
    method FindExactMatch(cands: seq<Order>, remaining: int) returns (found: Option<nat>)
      ensures found == FirstExactMatch(cands, remaining)
    {
      var i := 0;
      while i < |cands|
        invariant 0 <= i <= |cands|
        invariant forall j :: 0 <= j < i ==> cands[j].Remaining() != remaining
      {
        if cands[i].Remaining() == remaining {
          return Some(i);
        }
        i := i + 1;
      }
      return None;
    }

    /**
     * attemptOrderMatching for the order in row `idx`: fetch the crossing
     * orders in priority order, find the first of equal remaining quantity,
     * and trade with it.
     */
    method AttemptOrderMatching(idx: nat, now: int) returns (r: Result<(), Error>)
      requires Integrity(State()) && idx < |orders|
      modifies this
      ensures var spec := Match(old(State()), idx, now);
              r.Success? ==> spec.Success? && State() == spec.value
      ensures var spec := Match(old(State()), idx, now);
              r.Failure? ==> spec.Failure? && r.error == spec.error && State() == old(State())
    {
      var target := FindMatchingOrder(orders[idx]);
      if target.None? {
        return Success(());
      }
      r := ExecuteTrade(idx, target.value, now);
    }

    /** The query and the foreach of attemptOrderMatching: the row of the order to trade with, if any. */
    method FindMatchingOrder(o: Order) returns (target: Option<nat>)
      requires Indexed(orders)
      ensures target == Counterparty(orders, o)
    {
      var cands := Candidates(orders, o);
      var found := FindExactMatch(cands, o.Remaining());
      if found.None? {
        return None;
      }
      CandidateRow(orders, o, found.value);
      return Some(cands[found.value].id - 1);
    }

    /**
     * executeTrade, in its own transaction: the trade row, the two filled
     * orders, then the settlement; a failed settlement puts every table back.
     */
    method ExecuteTrade(i1: nat, i2: nat, now: int) returns (r: Result<(), Error>)
      requires i1 < |orders| && i2 < |orders| && i1 != i2
      requires orders[i1].user in balances && orders[i2].user in balances
      modifies this
      ensures var spec := Execute(old(State()), i1, i2, now);
              r.Success? ==> spec.Success? && State() == spec.value
      ensures var spec := Execute(old(State()), i1, i2, now);
              r.Failure? ==> spec.Failure? && r.error == spec.error && State() == old(State())
    {
      var b, s := if orders[i1].side == Buy then i1 else i2, if orders[i1].side == Buy then i2 else i1;
      var buy, sell := orders[b], orders[s];
      var q := buy.Remaining();
      var value := MulValue(sell.price, q);
      var commission := ToDecimal2(Commission(value));
      ghost var recorded := Record(State(), b, s, q, now);
      var balances0, assets0, orders0, trades0 := balances, assets, orders, trades;
      trades := trades + [Trade(|trades| + 1, buy.id, sell.id, commission, commission)];
      orders := orders[b := FillBuy(buy, sell.price, q, now)];
      orders := orders[s := FillSell(sell, q, now)];
      assert State() == recorded;
      r := ProcessTradeSettlement(buy.user, sell.user, buy.ticker, q, Widen(NetOfCommission(value)));
      if r.Failure? {
        balances, assets, orders, trades := balances0, assets0, orders0, trades0;
      }
    }

    /**
     * processTradeSettlement: release q from the seller's locked holding, add
     * q to the buyer's holding, credit the seller the value less the sell
     * commission (`proceeds`, money at scale 24).
     */
    method ProcessTradeSettlement(buyer: UserId, seller: UserId, ticker: TickerId, q: int, proceeds: int) returns (r: Result<(), Error>)
      requires seller in balances
      modifies this
      ensures var spec := Settle(old(State()), buyer, seller, ticker, q, proceeds);
              r.Success? ==> spec.Success? && State() == spec.value
      ensures var spec := Settle(old(State()), buyer, seller, ticker, q, proceeds);
              var sk := AssetKey(seller, ticker);
              r.Failure? ==> spec.Failure? && r.error == spec.error
                             && State() == old(State()).(assets := old(assets)[sk := Row(old(assets), sk)])
    {
      ghost var db := State();
      ghost var spec := Settle(db, buyer, seller, ticker, q, proceeds);
      var sk := AssetKey(seller, ticker);
      var sellerAsset := GetOrCreate(seller, ticker);
      assert sellerAsset == Row(db.assets, sk);
      var ok := ReleaseLockedAmount(sk, q);
      if !ok {
        assert spec.Failure?;
        return Failure(ReleaseFailed);
      }
      ghost var released := db.assets[sk := Release(sellerAsset, q).value];
      assert assets == released;
      var bk := AssetKey(buyer, ticker);
      var buyerAsset := GetOrCreate(buyer, ticker);
      AddAmount(bk, q);
      assert assets == released[bk := Add(Row(released, bk), q)];
      AddMoney(seller, proceeds);
      assert balances == db.balances[seller := Credit(db.balances[seller], proceeds)];
      assert State() == spec.value;
      return Success(());
    }

    /**
     * store, from validation to the end of its transaction: place the order,
     * match it, and on any failure put every table back.
     */
    method PlaceOrder(user: UserId, req: OrderRequest, now: int) returns (r: Result<nat, Error>)
      requires Integrity(State()) && user in balances
      modifies this
      ensures var spec := Place(old(State()), tickers, user, req, now);
              r.Success? ==> spec.Success? && State() == spec.value && r.value == |old(orders)| + 1
      ensures var spec := Place(old(State()), tickers, user, req, now);
              r.Failure? ==> spec.Failure? && r.error == spec.error && State() == old(State())
      ensures old(Consistent(State())) ==> Consistent(State())
    {
      ghost var before := State();
      if !ValidRequest(req) {
        return Failure(ValidationFailed);
      }
      var ticker := FindBySymbol(tickers, req.symbol);
      if ticker.None? {
        return Failure(SymbolNotFound);
      }
      var balances0, assets0, orders0, trades0 := balances, assets, orders, trades;
      var t := ticker.value;
      var placed;
      if req.side == "BUY" {
        placed := ProcessBuyOrder(user, t.id, req.price, req.amount, now);
      } else {
        placed := ProcessSellOrder(user, t.id, req.price, req.amount, now);
      }
      PlacementKeepsIntegrity(before, user, t.id, if req.side == "BUY" then Buy else Sell, req.price, req.amount, now);
      if placed.Failure? {
        balances, assets, orders, trades := balances0, assets0, orders0, trades0;
        return Failure(placed.error);
      }
      var matched := AttemptOrderMatching(|orders0|, now);
      if matched.Failure? {
        balances, assets, orders, trades := balances0, assets0, orders0, trades0;
        return Failure(matched.error);
      }
      r := Success(placed.value);
      if Consistent(before) {
        PlaceKeepsConsistent(before, tickers, user, req, now);
      }
    }

    /**
     * The transaction in cancelOrder: refund a BUY or unlock a SELL and mark
     * the order cancelled; a failed unlock rolls the whole transaction back.
     */
    method CancelOpenOrder(i: nat, now: int) returns (r: Result<(), Error>)
      requires i < |orders| && orders[i].user in balances
      modifies this
      ensures var spec := CancelOpen(old(State()), i, now);
              r.Success? ==> spec.Success? && State() == spec.value
      ensures var spec := CancelOpen(old(State()), i, now);
              r.Failure? ==> spec.Failure? && r.error == spec.error && State() == old(State())
    {
      ghost var before := State();
      ghost var spec := CancelOpen(before, i, now);
      var o := orders[i];
      if o.side == Buy {
        AddMoney(o.user, Refund(o));
        MarkAsCancelled(i, now);
        assert spec == Success(before.(balances := before.balances[o.user := Credit(before.balances[o.user], Refund(o))],
                                       orders := before.orders[i := Cancelled(o, now)]));
      } else {
        var assets0 := assets;
        var ok := UnlockHolding(o.user, o.ticker, o.amount);
        if !ok {
          assets := assets0;
          return Failure(UnlockFailed);
        }
        MarkAsCancelled(i, now);
      }
      r := Success(());
    }

    /**
     * cancelOrder: find the caller's order, refuse it unless OPEN, then cancel
     * it in one transaction.
     */
    method CancelOrder(user: UserId, id: int, now: int) returns (r: Result<(), Error>)
      requires user in balances
      modifies this
      ensures var spec := Cancel(old(State()), user, id, now);
              r.Success? ==> spec.Success? && State() == spec.value
      ensures var spec := Cancel(old(State()), user, id, now);
              r.Failure? ==> spec.Failure? && r.error == spec.error && State() == old(State())
      ensures old(Consistent(State())) ==> Consistent(State())
    {
      ghost var before := State();
      var found := FindUserOrder(orders, id, user);
      if found.None? {
        return Failure(OrderNotFound);
      }
      var i := found.value;
      if orders[i].status != STATUS_OPEN {
        return Failure(NotOpen);
      }
      r := CancelOpenOrder(i, now);
      CancelPreservesConsistent(before, user, id, now);
    }
  }
}
