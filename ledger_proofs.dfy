/**
 * The invariant the exchange's tables keep across placement, matching and
 * cancellation, and the properties of each step that follow from it: no
 * holding is ever locked beyond what is owned, every lock is backed by an open
 * SELL order, no balance goes negative, and the internal failures (a deduction,
 * lock, release or unlock refused after its check passed) never happen.
 */
module LedgerProofs {
  import opened Wrappers
  import opened Fixed
  import opened Collections
  import opened Assets
  import opened Users
  import opened Orders
  import opened Trades
  import opened Tickers
  import opened Ledger

  // ---------------------------------------------------------------------------
  // The invariant

  /** An order row as the exchange writes it: a known status, positive price and amount, filled all or nothing. */
  predicate WellFormed(o: Order)
  {
    ValidStatus(o.status) && MIN_PRICE <= o.price && 0 < o.amount && 0 <= o.filled <= o.amount
    && (o.IsOpen() ==> o.filled == 0)
    && (o.IsFilled() ==> o.filled == o.amount)
  }

  predicate OrdersWellFormed(orders: seq<Order>)
  {
    forall i :: 0 <= i < |orders| ==> WellFormed(orders[i])
  }

  /** No user's cash is negative. */
  predicate Solvent(balances: map<UserId, int>)
  {
    forall u :: u in balances ==> 0 <= balances[u]
  }

  /** Every stored holding has 0 <= locked_amount <= amount. */
  predicate RowsConsistent(assets: map<AssetKey, Asset>)
  {
    forall k :: k in assets ==> assets[k].Consistent()
  }

  /** Every holding's locked_amount is exactly the quantity of the open SELL orders against it. */
  ghost predicate LocksMatch(assets: map<AssetKey, Asset>, orders: seq<Order>)
  {
    forall k :: Row(assets, k).locked == OpenSellVolume(orders, k)
  }

  /** The order `id` exists, is on side `side` and is filled. */
  predicate RecordsFill(orders: seq<Order>, id: nat, side: Side)
  {
    1 <= id <= |orders| && orders[id - 1].side == side && orders[id - 1].IsFilled()
  }

  /** Trades have consecutive ids, name a filled BUY and a filled SELL order, and carry non-negative commissions. */
  predicate TradesRecorded(trades: seq<Trade>, orders: seq<Order>)
  {
    forall i :: 0 <= i < |trades| ==>
      trades[i].id == i + 1
      && RecordsFill(orders, trades[i].buyOrderId, Buy)
      && RecordsFill(orders, trades[i].sellOrderId, Sell)
      && 0 <= trades[i].buyCommission && 0 <= trades[i].sellCommission
  }

  ghost predicate Consistent(db: Db)
  {
    Integrity(db) && Solvent(db.balances) && OrdersWellFormed(db.orders)
    && RowsConsistent(db.assets) && LocksMatch(db.assets, db.orders)
    && TradesRecorded(db.trades, db.orders)
  }

  /** An empty exchange: users with non-negative cash and holdings nobody has locked. */
  lemma EmptyExchangeConsistent(balances: map<UserId, int>, holdings: map<AssetKey, int>)
    requires Solvent(balances)
    requires forall k :: k in holdings ==> 0 <= holdings[k]
    ensures var assets := map k | k in holdings :: Asset(holdings[k], 0);
            Consistent(Db(balances, assets, [], []))
  {
  }

  // ---------------------------------------------------------------------------
  // Frame facts about the order table

  lemma WellFormedAppend(orders: seq<Order>, o: Order)
    requires OrdersWellFormed(orders) && WellFormed(o)
    ensures OrdersWellFormed(orders + [o])
  {
  }

  lemma WellFormedUpdate(orders: seq<Order>, i: nat, o: Order)
    requires OrdersWellFormed(orders) && i < |orders| && WellFormed(o)
    ensures OrdersWellFormed(orders[i := o])
  {
  }

  lemma NonNegative(orders: seq<Order>)
    requires OrdersWellFormed(orders)
    ensures NonNegativeAmounts(orders)
  {
  }

  lemma TradesAppendOrder(trades: seq<Trade>, orders: seq<Order>, o: Order)
    requires TradesRecorded(trades, orders)
    ensures TradesRecorded(trades, orders + [o])
  {
    forall i | 0 <= i < |trades|
      ensures RecordsFill(orders + [o], trades[i].buyOrderId, Buy)
      ensures RecordsFill(orders + [o], trades[i].sellOrderId, Sell)
    {
      assert (orders + [o])[trades[i].buyOrderId - 1] == orders[trades[i].buyOrderId - 1];
      assert (orders + [o])[trades[i].sellOrderId - 1] == orders[trades[i].sellOrderId - 1];
    }
  }

  /** Rewriting an unfilled row as any row of the same side keeps every trade's references. */
  lemma TradesUpdateOrder(trades: seq<Trade>, orders: seq<Order>, i: nat, o: Order)
    requires TradesRecorded(trades, orders) && i < |orders|
    requires o.side == orders[i].side && (orders[i].IsFilled() ==> o.IsFilled())
    ensures TradesRecorded(trades, orders[i := o])
  {
  }

  lemma LocksAppendOrder(assets: map<AssetKey, Asset>, orders: seq<Order>, o: Order)
    requires LocksMatch(assets, orders) && !(o.IsOpen() && o.side == Sell)
    ensures LocksMatch(assets, orders + [o])
  {
    forall k ensures Row(assets, k).locked == OpenSellVolume(orders + [o], k) {
      OpenSellVolumeAppend(orders, o, k);
    }
  }

  lemma IntegrityAppend(db: Db, o: Order)
    requires Integrity(db) && o.id == |db.orders| + 1 && o.user in db.balances
    ensures Integrity(db.(orders := db.orders + [o]))
  {
  }

  // ---------------------------------------------------------------------------
  // Placement

  /** processBuyOrder keeps the invariant; its only failure is the funds check. */
  lemma PlaceBuyKeepsConsistent(db: Db, user: UserId, ticker: TickerId, price: int, amount: int, now: int)
    requires Consistent(db) && user in db.balances && MIN_PRICE <= price && 0 < amount
    ensures PlaceBuy(db, user, ticker, price, amount, now).Success? ==>
              Consistent(PlaceBuy(db, user, ticker, price, amount, now).value)
  {
    var r := PlaceBuy(db, user, ticker, price, amount, now);
    if r.Success? {
      var cost := BuyCost(price, amount);
      var o := OpenOrder(|db.orders| + 1, user, ticker, Buy, price, amount, now);
      var left := Deduct(db.balances[user], cost).value;
      assert r.value == db.(balances := db.balances[user := left], orders := db.orders + [o]);
      DeductKeepsBalanceNonNegative(db.balances[user], cost);
      IntegrityAppend(db, o);
      WellFormedAppend(db.orders, o);
      LocksAppendOrder(db.assets, db.orders, o);
      TradesAppendOrder(db.trades, db.orders, o);
    }
  }

  /** Locking `o.amount` in the row of a new open SELL order `o` keeps every lock equal to its open SELL volume. */
  lemma LocksAppendSell(assets: map<AssetKey, Asset>, orders: seq<Order>, o: Order, a: Asset)
    requires LocksMatch(assets, orders) && o.IsOpen() && o.side == Sell
    requires a.locked == Row(assets, o.Key()).locked + o.amount
    ensures LocksMatch(assets[o.Key() := a], orders + [o])
  {
    var after := assets[o.Key() := a];
    forall k ensures Row(after, k).locked == OpenSellVolume(orders + [o], k) {
      OpenSellVolumeAppend(orders, o, k);
      if k != o.Key() {
        assert Row(after, k) == Row(assets, k);
      }
    }
  }

  lemma RowsReplace(assets: map<AssetKey, Asset>, k: AssetKey, a: Asset)
    requires RowsConsistent(assets) && a.Consistent()
    ensures RowsConsistent(assets[k := a])
  {
  }

  /** getOrCreate never returns an inconsistent row. */
  lemma RowConsistent(assets: map<AssetKey, Asset>, k: AssetKey)
    requires RowsConsistent(assets)
    ensures Row(assets, k).Consistent()
  {
  }

  /** processSellOrder keeps the invariant; its only failure is the available-amount check. */
  lemma PlaceSellKeepsConsistent(db: Db, user: UserId, ticker: TickerId, price: int, amount: int, now: int)
    requires Consistent(db) && user in db.balances && MIN_PRICE <= price && 0 < amount
    ensures PlaceSell(db, user, ticker, price, amount, now).Success? ==>
              Consistent(PlaceSell(db, user, ticker, price, amount, now).value)
  {
    var r := PlaceSell(db, user, ticker, price, amount, now);
    if r.Success? {
      var k := AssetKey(user, ticker);
      var o := OpenOrder(|db.orders| + 1, user, ticker, Sell, price, amount, now);
      var a := Row(db.assets, k);
      var locked := Lock(a, amount).value;
      assert r.value == db.(assets := db.assets[k := locked], orders := db.orders + [o]);
      RowConsistent(db.assets, k);
      OperationsPreserveConsistency(a, amount);
      RowsReplace(db.assets, k, locked);
      IntegrityAppend(db, o);
      WellFormedAppend(db.orders, o);
      LocksAppendSell(db.assets, db.orders, o, locked);
      TradesAppendOrder(db.trades, db.orders, o);
    }
  }

  // ---------------------------------------------------------------------------
  // Execution and settlement

  /**
   * What attemptOrderMatching guarantees about the pair it hands to
   * executeTrade: two distinct open orders on opposite sides of one ticker with
   * the same remaining quantity.
   */
  predicate Executable(db: Db, i1: nat, i2: nat)
  {
    i1 < |db.orders| && i2 < |db.orders| && i1 != i2
    && db.orders[i1].IsOpen() && db.orders[i2].IsOpen()
    && db.orders[i1].side != db.orders[i2].side
    && db.orders[i1].ticker == db.orders[i2].ticker
    && db.orders[i1].Remaining() == db.orders[i2].Remaining()
  }

  /** Filling an open BUY and an open SELL of equal amount removes exactly the SELL's lock from the open volume. */
  lemma FillPairVolume(orders: seq<Order>, b: nat, s: nat, q: int, now: int, k: AssetKey)
    requires b < |orders| && s < |orders| && b != s
    requires orders[b].side == Buy && orders[s].side == Sell
    ensures OpenSellVolume(FillPair(orders, b, s, q, now), k) == OpenSellVolume(orders, k) - SellLock(orders[s], k)
  {
    var once := orders[b := FillBuy(orders[b], orders[s].price, q, now)];
    OpenSellVolumeUpdate(orders, b, FillBuy(orders[b], orders[s].price, q, now), k);
    assert once[s] == orders[s];
    OpenSellVolumeUpdate(once, s, FillSell(orders[s], q, now), k);
  }

  lemma FillPairWellFormed(orders: seq<Order>, b: nat, s: nat, q: int, now: int)
    requires OrdersWellFormed(orders) && b < |orders| && s < |orders| && b != s
    requires orders[b].IsOpen() && orders[s].IsOpen() && q == orders[b].amount == orders[s].amount
    ensures OrdersWellFormed(FillPair(orders, b, s, q, now))
  {
    var once := orders[b := FillBuy(orders[b], orders[s].price, q, now)];
    WellFormedUpdate(orders, b, FillBuy(orders[b], orders[s].price, q, now));
    WellFormedUpdate(once, s, FillSell(orders[s], q, now));
  }

  lemma FillPairTrades(trades: seq<Trade>, orders: seq<Order>, b: nat, s: nat, q: int, now: int)
    requires TradesRecorded(trades, orders) && b < |orders| && s < |orders| && b != s
    ensures TradesRecorded(trades, FillPair(orders, b, s, q, now))
  {
    var once := orders[b := FillBuy(orders[b], orders[s].price, q, now)];
    TradesUpdateOrder(trades, orders, b, FillBuy(orders[b], orders[s].price, q, now));
    TradesUpdateOrder(trades, once, s, FillSell(orders[s], q, now));
  }

  lemma FillPairIntegrity(db: Db, b: nat, s: nat, q: int, now: int)
    requires Integrity(db) && b < |db.orders| && s < |db.orders| && b != s
    ensures Integrity(db.(orders := FillPair(db.orders, b, s, q, now)))
  {
  }

  /** Moving q out of the seller's lock, when the seller's row held exactly q more than its open SELL volume, makes every lock exact. */
  lemma LocksAfterTransfer(before: map<AssetKey, Asset>, after: map<AssetKey, Asset>, orders: seq<Order>,
                           seller: UserId, buyer: UserId, ticker: TickerId, q: int)
    requires Transferred(before, after, seller, buyer, ticker, q)
    requires forall k :: Row(before, k).locked == OpenSellVolume(orders, k) + (if k == AssetKey(seller, ticker) then q else 0)
    ensures LocksMatch(after, orders)
  {
    var sk := AssetKey(seller, ticker);
    var bk := AssetKey(buyer, ticker);
    forall k ensures Row(after, k).locked == OpenSellVolume(orders, k) {
      assert Row(before, k).locked == OpenSellVolume(orders, k) + (if k == sk then q else 0);
      if k != sk && k != bk {
        if k in before {
          assert Row(after, k) == Row(before, k);
        } else {
          assert Row(after, k) == Row(before, k);
        }
      }
    }
  }

  /** A transfer of no more than the seller has locked leaves every row consistent. */
  lemma RowsAfterTransfer(before: map<AssetKey, Asset>, after: map<AssetKey, Asset>, seller: UserId, buyer: UserId, ticker: TickerId, q: int)
    requires RowsConsistent(before) && Transferred(before, after, seller, buyer, ticker, q)
    requires 0 <= q <= Row(before, AssetKey(seller, ticker)).locked
    ensures RowsConsistent(after)
  {
    var sk := AssetKey(seller, ticker);
    var bk := AssetKey(buyer, ticker);
    RowConsistent(before, sk);
    RowConsistent(before, bk);
    forall k | k in after ensures after[k].Consistent() {
      if k != sk && k != bk {
        assert after[k] == before[k];
      }
    }
  }

  lemma SolventCredit(balances: map<UserId, int>, u: UserId, v: int)
    requires Solvent(balances) && 0 <= v
    ensures Solvent(balances[u := v])
  {
  }

  lemma TradesAppend(trades: seq<Trade>, orders: seq<Order>, t: Trade)
    requires TradesRecorded(trades, orders) && t.id == |trades| + 1
    requires RecordsFill(orders, t.buyOrderId, Buy) && RecordsFill(orders, t.sellOrderId, Sell)
    requires 0 <= t.buyCommission && 0 <= t.sellCommission
    ensures TradesRecorded(trades + [t], orders)
  {
  }

  /** The value of a trade and the proceeds credited for it are never negative. */
  lemma ProceedsNonNegative(price: int, q: int)
    requires 0 <= price && 0 <= q
    ensures 0 <= MulValue(price, q)
    ensures 0 <= ToDecimal2(Commission(MulValue(price, q)))
    ensures 0 <= Widen(NetOfCommission(MulValue(price, q)))
  {
    MulMonotone(0, price, q);
    SellerProceedsBounds(MulValue(price, q));
  }

  /** processTradeSettlement credits the seller with the proceeds in cents and leaves every other balance alone. */
  lemma SettleCredits(db: Db, buyer: UserId, seller: UserId, ticker: TickerId, q: int, proceeds: int)
    requires seller in db.balances && Settle(db, buyer, seller, ticker, q, proceeds).Success?
    ensures var r := Settle(db, buyer, seller, ticker, q, proceeds).value;
            seller in r.balances && r.balances[seller] == db.balances[seller] + FloatCents(proceeds)
            && (forall u :: u != seller && u in db.balances ==> u in r.balances && r.balances[u] == db.balances[u])
  {
  }

  /** Settlement writes only holdings and cash. */
  lemma SettleFrame(db: Db, buyer: UserId, seller: UserId, ticker: TickerId, q: int, proceeds: int)
    requires seller in db.balances && Settle(db, buyer, seller, ticker, q, proceeds).Success?
    ensures Settle(db, buyer, seller, ticker, q, proceeds).value.orders == db.orders
    ensures Settle(db, buyer, seller, ticker, q, proceeds).value.trades == db.trades
  {
  }
  /**
   * Settlement as written moves nothing and charges the seller: every holding
   * reads as before (a missing row is only created empty) and the seller's cash
   * falls by the sell commission, whatever quantity was traded.
   */
  lemma SettleAsWrittenMovesNothing(db: Db, buyer: UserId, seller: UserId, ticker: TickerId, sellCommission: int)
    requires seller in db.balances && 0 <= Row(db.assets, AssetKey(seller, ticker)).locked
    ensures var r := SettleAsWritten(db, buyer, seller, ticker, sellCommission);
            r.Success?
            && (forall k :: Row(r.value.assets, k) == Row(db.assets, k))
            && r.value.balances == db.balances[seller := db.balances[seller] - sellCommission]
  {
    var m := Widen(0 - sellCommission * CENT_18);
    assert m == (0 - sellCommission) * CENT_24;
    assert FloatCents(m) == 0 - sellCommission by {
      RoundDivExact(0 - sellCommission, CENT_24);
    }
  }

  /**
   * The two settlements part for every trade of a positive quantity q on
   * consistent tables: the code as written leaves the seller's lock where it
   * was, where the intended settlement takes q out of it.
   */
  lemma SettleAsWrittenKeepsLock(db: Db, buyer: UserId, seller: UserId, ticker: TickerId, q: int, proceeds: int, sellCommission: int)
    requires seller in db.balances && 0 < q <= Row(db.assets, AssetKey(seller, ticker)).locked
    ensures Settle(db, buyer, seller, ticker, q, proceeds).Success?
    ensures Row(SettleAsWritten(db, buyer, seller, ticker, sellCommission).value.assets, AssetKey(seller, ticker)).locked
            == Row(Settle(db, buyer, seller, ticker, q, proceeds).value.assets, AssetKey(seller, ticker)).locked + q
  {
    SettleAsWrittenMovesNothing(db, buyer, seller, ticker, sellCommission);
    SettleTransfers(db, buyer, seller, ticker, q, proceeds);
  }


  /**
   * processTradeSettlement on tables whose only imbalance is the SELL order just
   * filled: moving q out of the seller's lock restores the invariant.
   */
  lemma SettleKeepsConsistent(db: Db, buyer: UserId, seller: UserId, ticker: TickerId, q: int, proceeds: int)
    requires Integrity(db) && Solvent(db.balances) && OrdersWellFormed(db.orders)
    requires RowsConsistent(db.assets) && TradesRecorded(db.trades, db.orders)
    requires seller in db.balances && 0 <= proceeds && 0 <= q <= Row(db.assets, AssetKey(seller, ticker)).locked
    requires forall k :: Row(db.assets, k).locked == OpenSellVolume(db.orders, k) + (if k == AssetKey(seller, ticker) then q else 0)
    ensures Settle(db, buyer, seller, ticker, q, proceeds).Success?
    ensures Consistent(Settle(db, buyer, seller, ticker, q, proceeds).value)
  {
    var r := Settle(db, buyer, seller, ticker, q, proceeds);
    SettleTransfers(db, buyer, seller, ticker, q, proceeds);
    LocksAfterTransfer(db.assets, r.value.assets, db.orders, seller, buyer, ticker, q);
    RowsAfterTransfer(db.assets, r.value.assets, seller, buyer, ticker, q);
    SolventCredit(db.balances, seller, Credit(db.balances[seller], proceeds));
  }

  /**
   * executeTrade keeps the invariant: both orders become filled, the seller's
   * lock shrinks by exactly the SELL order's quantity, and the trade names the
   * two filled orders. In particular settlement's release never fails.
   */
  lemma ExecuteKeepsConsistent(db: Db, i1: nat, i2: nat, now: int)
    requires Consistent(db) && Executable(db, i1, i2)
    ensures Execute(db, i1, i2, now).Success?
    ensures Consistent(Execute(db, i1, i2, now).value)
  {
    var b := BuyIndex(db, i1, i2);
    var s := SellIndex(db, i1, i2);
    var buy := db.orders[b];
    var sell := db.orders[s];
    var q := buy.Remaining();
    assert q == buy.amount == sell.amount;
    var value := MulValue(sell.price, q);
    var commission := ToDecimal2(Commission(value));
    var trade := Trade(|db.trades| + 1, buy.id, sell.id, commission, commission);
    var filled := FillPair(db.orders, b, s, q, now);
    var db1 := Record(db, b, s, q, now);
    assert db1.orders == filled && db1.trades == db.trades + [trade] && db1.assets == db.assets && db1.balances == db.balances;
    var proceeds := Widen(NetOfCommission(value));
    var sk := AssetKey(sell.user, buy.ticker);
    assert sk == sell.Key();
    forall k ensures Row(db1.assets, k).locked == OpenSellVolume(filled, k) + (if k == sk then q else 0) {
      FillPairVolume(db.orders, b, s, q, now, k);
    }
    NonNegative(db.orders);
    SellLockAtMostVolume(db.orders, s, sk);
    FillPairWellFormed(db.orders, b, s, q, now);
    FillPairIntegrity(db, b, s, q, now);
    FillPairTrades(db.trades, db.orders, b, s, q, now);
    ProceedsNonNegative(sell.price, q);
    TradesAppend(db.trades, filled, trade);
    SettleKeepsConsistent(db1, buy.user, sell.user, buy.ticker, q, proceeds);
  }

  // ---------------------------------------------------------------------------
  // Matching and the whole placement

  /** attemptOrderMatching for an open order keeps the invariant and never fails. */
  lemma MatchKeepsConsistent(db: Db, idx: nat, now: int)
    requires Consistent(db) && idx < |db.orders| && db.orders[idx].IsOpen()
    ensures Match(db, idx, now).Success?
    ensures Consistent(Match(db, idx, now).value)
  {
    var t := Counterparty(db.orders, db.orders[idx]);
    if t.Some? {
      assert Executable(db, idx, t.value);
      ExecuteKeepsConsistent(db, idx, t.value, now);
    }
  }

  /** The order a successful placement adds is open and sits in the next row. */
  lemma PlacedOrderIsOpen(db: Db, user: UserId, ticker: TickerId, side: Side, price: int, amount: int, now: int)
    requires user in db.balances
    ensures var r := if side == Buy then PlaceBuy(db, user, ticker, price, amount, now)
                     else PlaceSell(db, user, ticker, price, amount, now);
            r.Success? ==> r.value.orders == db.orders + [OpenOrder(|db.orders| + 1, user, ticker, side, price, amount, now)]
  {
  }

  /**
   * store keeps the invariant, and its only failures are the four a client can
   * cause: validation, an unknown symbol, too little cash, too little holding.
   */
  lemma PlaceKeepsConsistent(db: Db, tickers: seq<Ticker>, user: UserId, req: OrderRequest, now: int)
    requires Consistent(db) && user in db.balances
    ensures Place(db, tickers, user, req, now).Success? ==> Consistent(Place(db, tickers, user, req, now).value)
    ensures Place(db, tickers, user, req, now).Failure? ==>
              Place(db, tickers, user, req, now).error in {ValidationFailed, SymbolNotFound, InsufficientFunds, InsufficientHoldings}
  {
    if ValidRequest(req) {
      var ticker := FindBySymbol(tickers, req.symbol);
      if ticker.Some? {
        var t := ticker.value.id;
        var side := if req.side == "BUY" then Buy else Sell;
        var placed := if req.side == "BUY" then PlaceBuy(db, user, t, req.price, req.amount, now)
                      else PlaceSell(db, user, t, req.price, req.amount, now);
        if placed.Success? {
          if req.side == "BUY" {
            PlaceBuyKeepsConsistent(db, user, t, req.price, req.amount, now);
          } else {
            PlaceSellKeepsConsistent(db, user, t, req.price, req.amount, now);
          }
          PlacedOrderIsOpen(db, user, t, side, req.price, req.amount, now);
          assert placed.value.orders[|db.orders|].IsOpen();
          MatchKeepsConsistent(placed.value, |db.orders|, now);
        }
      }
    }
  }

  // ---------------------------------------------------------------------------
  // Cancellation

  /** Cancelling the open order in row i keeps every row well formed and every trade's references. */
  lemma CancelRowKeepsOrders(db: Db, i: nat, now: int)
    requires Consistent(db) && i < |db.orders| && db.orders[i].IsOpen()
    ensures Integrity(db.(orders := db.orders[i := Cancelled(db.orders[i], now)]))
    ensures OrdersWellFormed(db.orders[i := Cancelled(db.orders[i], now)])
    ensures TradesRecorded(db.trades, db.orders[i := Cancelled(db.orders[i], now)])
  {
    WellFormedUpdate(db.orders, i, Cancelled(db.orders[i], now));
    TradesUpdateOrder(db.trades, db.orders, i, Cancelled(db.orders[i], now));
  }

  /** Cancelling an open BUY order changes no open SELL volume. */
  lemma LocksCancelBuy(assets: map<AssetKey, Asset>, orders: seq<Order>, i: nat, now: int)
    requires LocksMatch(assets, orders) && i < |orders| && orders[i].side == Buy
    ensures LocksMatch(assets, orders[i := Cancelled(orders[i], now)])
  {
    forall k ensures Row(assets, k).locked == OpenSellVolume(orders[i := Cancelled(orders[i], now)], k) {
      OpenSellVolumeUpdate(orders, i, Cancelled(orders[i], now), k);
    }
  }

  /** Unlocking an open SELL order's amount while cancelling it keeps every lock exact. */
  lemma LocksCancelSell(assets: map<AssetKey, Asset>, orders: seq<Order>, i: nat, now: int, a: Asset)
    requires LocksMatch(assets, orders) && i < |orders| && orders[i].side == Sell && orders[i].IsOpen()
    requires a.locked == Row(assets, orders[i].Key()).locked - orders[i].amount
    ensures LocksMatch(assets[orders[i].Key() := a], orders[i := Cancelled(orders[i], now)])
  {
    var after := assets[orders[i].Key() := a];
    forall k ensures Row(after, k).locked == OpenSellVolume(orders[i := Cancelled(orders[i], now)], k) {
      OpenSellVolumeUpdate(orders, i, Cancelled(orders[i], now), k);
      if k != orders[i].Key() {
        assert Row(after, k) == Row(assets, k);
      }
    }
  }

  /** CancelKeepsConsistent as one implication, for callers that do not know the invariant holds. */
  lemma CancelPreservesConsistent(db: Db, user: UserId, id: int, now: int)
    requires user in db.balances
    ensures Consistent(db) && Cancel(db, user, id, now).Success? ==> Consistent(Cancel(db, user, id, now).value)
  {
    if Consistent(db) {
      CancelKeepsConsistent(db, user, id, now);
    }
  }

  /**
   * cancelOrder keeps the invariant, and its only failures are the two a client
   * can cause: no such order of theirs, or an order no longer open. The unlock
   * of a SELL order never fails.
   */
  lemma CancelKeepsConsistent(db: Db, user: UserId, id: int, now: int)
    requires Consistent(db) && user in db.balances
    ensures Cancel(db, user, id, now).Success? ==> Consistent(Cancel(db, user, id, now).value)
    ensures Cancel(db, user, id, now).Failure? ==> Cancel(db, user, id, now).error in {OrderNotFound, NotOpen}
  {
    var found := FindUserOrder(db.orders, id, user);
    if found.Some? && db.orders[found.value].IsOpen() {
      var i := found.value;
      var o := db.orders[i];
      CancelRowKeepsOrders(db, i, now);
      if o.side == Buy {
        LocksCancelBuy(db.assets, db.orders, i, now);
        MulMonotone(0, o.amount, o.price);
        SolventCredit(db.balances, user, Credit(db.balances[user], Refund(o)));
      } else {
        var k := AssetKey(user, o.ticker);
        NonNegative(db.orders);
        SellLockAtMostVolume(db.orders, i, k);
        var unlocked := Unlock(Row(db.assets, k), o.amount).value;
        RowConsistent(db.assets, k);
        OperationsPreserveConsistency(Row(db.assets, k), o.amount);
        RowsReplace(db.assets, k, unlocked);
        LocksCancelSell(db.assets, db.orders, i, now, unlocked);
      }
    }
  }

  /** Looking up the newest order by its own id and owner finds its row. */
  lemma FindNewest(orders: seq<Order>, o: Order)
    requires Indexed(orders + [o])
    ensures FindUserOrder(orders + [o], |orders| + 1, o.user) == Some(|orders|)
  {
    var r := FindUserOrder(orders + [o], |orders| + 1, o.user);
    assert (orders + [o])[|orders|] == o;
  }

  /**
   * Cancelling a BUY order straight after placing it gives back exactly the
   * cash its placement debited: the refund amount × price, rounded to cents,
   * equals the rounded bcmul debit. Holdings are untouched throughout.
   */
  lemma CancelUndoesBuy(db: Db, user: UserId, ticker: TickerId, price: int, amount: int, now: int, later: int)
    requires Consistent(db) && user in db.balances && MIN_PRICE <= price && 0 < amount
    requires PlaceBuy(db, user, ticker, price, amount, now).Success?
    ensures var placed := PlaceBuy(db, user, ticker, price, amount, now).value;
            var cancelled := Cancel(placed, user, |db.orders| + 1, later);
            cancelled.Success?
            && cancelled.value.balances == db.balances
            && cancelled.value.assets == db.assets
            && cancelled.value.orders == db.orders + [Cancelled(OpenOrder(|db.orders| + 1, user, ticker, Buy, price, amount, now), later)]
  {
    var o := OpenOrder(|db.orders| + 1, user, ticker, Buy, price, amount, now);
    var placed := PlaceBuy(db, user, ticker, price, amount, now).value;
    PlaceBuyKeepsConsistent(db, user, ticker, price, amount, now);
    PlacedOrderIsOpen(db, user, ticker, Buy, price, amount, now);
    FindNewest(db.orders, o);
    RefundMatchesDebit(price, amount);
    assert Refund(o) == price * amount;
    assert placed.balances[user] + FloatCents(Refund(o)) == db.balances[user];
    assert (db.orders + [o])[|db.orders| := Cancelled(o, later)] == db.orders + [Cancelled(o, later)];
  }

  /**
   * Cancelling a SELL order straight after placing it unlocks exactly what its
   * placement locked; the only trace left is the holding row getOrCreate may
   * have inserted. Cash is untouched throughout.
   */
  lemma CancelUndoesSell(db: Db, user: UserId, ticker: TickerId, price: int, amount: int, now: int, later: int)
    requires Consistent(db) && user in db.balances && MIN_PRICE <= price && 0 < amount
    requires PlaceSell(db, user, ticker, price, amount, now).Success?
    ensures var placed := PlaceSell(db, user, ticker, price, amount, now).value;
            var cancelled := Cancel(placed, user, |db.orders| + 1, later);
            var k := AssetKey(user, ticker);
            cancelled.Success?
            && cancelled.value.balances == db.balances
            && cancelled.value.assets == db.assets[k := Row(db.assets, k)]
            && cancelled.value.orders == db.orders + [Cancelled(OpenOrder(|db.orders| + 1, user, ticker, Sell, price, amount, now), later)]
  {
    var o := OpenOrder(|db.orders| + 1, user, ticker, Sell, price, amount, now);
    var k := AssetKey(user, ticker);
    PlaceSellKeepsConsistent(db, user, ticker, price, amount, now);
    PlacedOrderIsOpen(db, user, ticker, Sell, price, amount, now);
    FindNewest(db.orders, o);
    var locked := Lock(Row(db.assets, k), amount).value;
    assert Unlock(locked, amount) == Some(Row(db.assets, k));
    assert (db.orders + [o])[|db.orders| := Cancelled(o, later)] == db.orders + [Cancelled(o, later)];
  }

  // ---------------------------------------------------------------------------
  // What matching chooses and what a trade does

  /** The scan finds nothing exactly when no crossing open order has the same remaining quantity. */
  lemma NoExactMatch(orders: seq<Order>, o: Order)
    ensures FirstExactMatch(Candidates(orders, o), o.Remaining()).None? ==>
              forall c :: c in orders && Crosses(c, o) ==> c.Remaining() != o.Remaining()
    ensures FirstExactMatch(Candidates(orders, o), o.Remaining()).Some? ==>
              exists c :: c in orders && Crosses(c, o) && c.Remaining() == o.Remaining()
  {
    var cands := Candidates(orders, o);
    var f := FirstExactMatch(cands, o.Remaining());
    if f.None? {
      forall c | c in orders && Crosses(c, o) ensures c.Remaining() != o.Remaining() {
        assert c in cands;
        var j :| 0 <= j < |cands| && cands[j] == c;
      }
    } else {
      assert cands[f.value] in cands;
    }
  }

  /** When the scan finds an exact match, Counterparty names that match's row. */
  lemma CounterpartyIsFirstExact(orders: seq<Order>, o: Order)
    requires Indexed(orders) && FirstExactMatch(Candidates(orders, o), o.Remaining()).Some?
    ensures var c := Candidates(orders, o)[FirstExactMatch(Candidates(orders, o), o.Remaining()).value];
            Counterparty(orders, o) == Some(c.id - 1) && orders[c.id - 1] == c
  {
    CandidateRow(orders, o, FirstExactMatch(Candidates(orders, o), o.Remaining()).value);
  }

  /** In a sorted candidate list, the first exact match sorts no later than any other exact match. */
  lemma FirstExactIsFirstInOrder(cands: seq<Order>, key: Order -> Key, remaining: int, j: nat)
    requires Sorted(cands, key) && j < |cands| && cands[j].Remaining() == remaining
    ensures FirstExactMatch(cands, remaining).Some?
    ensures KeyLe(key(cands[FirstExactMatch(cands, remaining).value]), key(cands[j]))
  {
    var f := FirstExactMatch(cands, remaining).value;
    if f < j {
      assert KeyLe(key(cands[f]), key(cands[j]));
    }
  }

  /**
   * Price-time priority: the order the scan trades with is a crossing open order
   * of equal remaining quantity, and no other such order has a better price, or
   * the same price and an earlier created_at.
   */
  lemma BestPricedExactMatch(orders: seq<Order>, o: Order)
    ensures var cands := Candidates(orders, o);
            var f := FirstExactMatch(cands, o.Remaining());
            f.Some? ==>
              cands[f.value] in orders && Crosses(cands[f.value], o) && cands[f.value].Remaining() == o.Remaining()
              && forall c :: c in orders && Crosses(c, o) && c.Remaining() == o.Remaining() ==>
                   KeyLe(PriorityKey(o)(cands[f.value]), PriorityKey(o)(c))
  {
    var cands := Candidates(orders, o);
    var f := FirstExactMatch(cands, o.Remaining());
    if f.Some? {
      var best := cands[f.value];
      var key := PriorityKey(o);
      assert best in cands;
      forall c | c in orders && Crosses(c, o) && c.Remaining() == o.Remaining()
        ensures KeyLe(key(best), key(c))
      {
        assert c in cands;
        var j :| 0 <= j < |cands| && cands[j] == c;
        FirstExactIsFirstInOrder(cands, key, o.Remaining(), j);
      }
    }
  }

  /** When the scan finds no exact match, attemptOrderMatching changes nothing. */
  lemma MatchWithoutExactChangesNothing(db: Db, idx: nat, now: int)
    requires Integrity(db) && idx < |db.orders|
    requires FirstExactMatch(Candidates(db.orders, db.orders[idx]), db.orders[idx].Remaining()).None?
    ensures Match(db, idx, now) == Success(db)
  {
  }

  /**
   * When the scan finds an exact match, attemptOrderMatching records exactly one
   * trade, between the new order and that match (the one BestPricedExactMatch
   * characterises), each on its own side.
   */
  lemma MatchTradesWithFirstExact(db: Db, idx: nat, now: int)
    requires Integrity(db) && idx < |db.orders|
    requires FirstExactMatch(Candidates(db.orders, db.orders[idx]), db.orders[idx].Remaining()).Some?
    ensures var o := db.orders[idx];
            var c := Candidates(db.orders, o)[FirstExactMatch(Candidates(db.orders, o), o.Remaining()).value];
            var r := Match(db, idx, now);
            r.Success? ==>
              |r.value.trades| == |db.trades| + 1
              && r.value.trades[|db.trades|].buyOrderId == (if o.side == Buy then o.id else c.id)
              && r.value.trades[|db.trades|].sellOrderId == (if o.side == Buy then c.id else o.id)
  {
    var o := db.orders[idx];
    CounterpartyIsFirstExact(db.orders, o);
    var t := Counterparty(db.orders, o).value;
    assert Match(db, idx, now) == Execute(db, idx, t, now);
    if Execute(db, idx, t, now).Success? {
      ExecuteRecordsTrade(db, idx, t, now);
    }
  }

  /** Settlement's release never fails after a match: the SELL order's quantity is locked in its holding. */
  lemma ExecuteSucceeds(db: Db, i1: nat, i2: nat, now: int)
    requires Consistent(db) && Executable(db, i1, i2)
    ensures Execute(db, i1, i2, now).Success?
  {
    var b := BuyIndex(db, i1, i2);
    var s := SellIndex(db, i1, i2);
    var sell := db.orders[s];
    var q := db.orders[b].Remaining();
    NonNegative(db.orders);
    SellLockAtMostVolume(db.orders, s, sell.Key());
    assert Row(db.assets, sell.Key()).locked == OpenSellVolume(db.orders, sell.Key());
    assert Record(db, b, s, q, now).assets == db.assets;
  }

  /**
   * The trade row executeTrade records: the next id, the BUY and SELL order
   * ids, and the same commission on both sides, 1.5% of the SELL price times
   * the BUY order's remaining quantity, read back at two decimals.
   */
  lemma ExecuteRecordsTrade(db: Db, i1: nat, i2: nat, now: int)
    requires i1 < |db.orders| && i2 < |db.orders| && i1 != i2
    requires db.orders[i1].user in db.balances && db.orders[i2].user in db.balances
    requires Execute(db, i1, i2, now).Success?
    ensures var buy := db.orders[BuyIndex(db, i1, i2)];
            var sell := db.orders[SellIndex(db, i1, i2)];
            var c := ToDecimal2(Commission(MulValue(sell.price, buy.Remaining())));
            var r := Execute(db, i1, i2, now).value;
            r.trades == db.trades + [Trade(|db.trades| + 1, buy.id, sell.id, c, c)]
  {
    var b := BuyIndex(db, i1, i2);
    var s := SellIndex(db, i1, i2);
    var buy := db.orders[b];
    var sell := db.orders[s];
    var q := buy.Remaining();
    var db1 := Record(db, b, s, q, now);
    var proceeds := Widen(NetOfCommission(MulValue(sell.price, q)));
    assert Execute(db, i1, i2, now) == Settle(db1, buy.user, sell.user, buy.ticker, q, proceeds);
    SettleFrame(db1, buy.user, sell.user, buy.ticker, q, proceeds);
  }

  /** The two order rows executeTrade rewrites: the BUY one at the SELL price, both filled by the BUY order's remaining quantity. */
  lemma ExecuteFillsOrders(db: Db, i1: nat, i2: nat, now: int)
    requires i1 < |db.orders| && i2 < |db.orders| && i1 != i2
    requires db.orders[i1].user in db.balances && db.orders[i2].user in db.balances
    requires Execute(db, i1, i2, now).Success?
    ensures var b := BuyIndex(db, i1, i2);
            var s := SellIndex(db, i1, i2);
            var q := db.orders[b].Remaining();
            Execute(db, i1, i2, now).value.orders == FillPair(db.orders, b, s, q, now)
  {
    var b := BuyIndex(db, i1, i2);
    var s := SellIndex(db, i1, i2);
    var buy := db.orders[b];
    var sell := db.orders[s];
    var q := buy.Remaining();
    var db1 := Record(db, b, s, q, now);
    var proceeds := Widen(NetOfCommission(MulValue(sell.price, q)));
    assert Execute(db, i1, i2, now) == Settle(db1, buy.user, sell.user, buy.ticker, q, proceeds);
    SettleFrame(db1, buy.user, sell.user, buy.ticker, q, proceeds);
  }

  /**
   * Filling an open BUY and an open SELL of equal quantity completes both: each
   * is FILLED with filled_quantity equal to its amount, and both carry the SELL
   * price.
   */
  lemma FillPairCompletes(orders: seq<Order>, b: nat, s: nat, now: int)
    requires b < |orders| && s < |orders| && b != s
    requires WellFormed(orders[b]) && WellFormed(orders[s]) && orders[b].IsOpen() && orders[s].IsOpen()
    requires orders[b].Remaining() == orders[s].Remaining()
    ensures var r := FillPair(orders, b, s, orders[b].Remaining(), now);
            |r| == |orders|
            && r[b].price == orders[s].price && r[s].price == orders[s].price
            && r[b].IsFilled() && r[s].IsFilled()
            && r[b].filled == orders[b].amount && r[s].filled == orders[s].amount
  {
  }

  /** The rows executeTrade writes before settling. */
  lemma RecordWrites(db: Db, b: nat, s: nat, q: int, now: int)
    requires b < |db.orders| && s < |db.orders| && b != s
    ensures var r := Record(db, b, s, q, now);
            var c := ToDecimal2(Commission(MulValue(db.orders[s].price, q)));
            |r.trades| == |db.trades| + 1
            && r.trades[|db.trades|] == Trade(|db.trades| + 1, db.orders[b].id, db.orders[s].id, c, c)
            && |r.orders| == |db.orders|
            && r.orders[b] == FillBuy(db.orders[b], db.orders[s].price, q, now)
            && r.orders[s] == FillSell(db.orders[s], q, now)
  {
  }

  /**
   * The cash side of a trade's settlement: the seller is credited the value
   * less the sell commission, and the buyer's cash is not touched (the buyer
   * paid at placement).
   */
  lemma ExecuteCreditsSeller(db: Db, i1: nat, i2: nat, now: int)
    requires Consistent(db) && Executable(db, i1, i2)
    ensures var b := BuyIndex(db, i1, i2);
            var s := SellIndex(db, i1, i2);
            var buy := db.orders[b];
            var sell := db.orders[s];
            var r := Execute(db, i1, i2, now);
            r.Success?
            && r.value.balances[sell.user] == db.balances[sell.user] + SellerProceeds(MulValue(sell.price, buy.Remaining()))
            && (buy.user != sell.user ==> r.value.balances[buy.user] == db.balances[buy.user])
  {
    ExecuteSucceeds(db, i1, i2, now);
    var b := BuyIndex(db, i1, i2);
    var s := SellIndex(db, i1, i2);
    var buy := db.orders[b];
    var sell := db.orders[s];
    var q := buy.Remaining();
    var db1 := Record(db, b, s, q, now);
    var proceeds := Widen(NetOfCommission(MulValue(sell.price, q)));
    assert Execute(db, i1, i2, now) == Settle(db1, buy.user, sell.user, buy.ticker, q, proceeds);
    assert db1.balances == db.balances;
    SettleCredits(db1, buy.user, sell.user, buy.ticker, q, proceeds);
  }

  /** The holdings side of a trade's settlement: the quantity moves from the seller's lock to the buyer's holding. */
  lemma ExecuteMovesHoldings(db: Db, i1: nat, i2: nat, now: int)
    requires Consistent(db) && Executable(db, i1, i2)
    ensures var buy := db.orders[BuyIndex(db, i1, i2)];
            var sell := db.orders[SellIndex(db, i1, i2)];
            var r := Execute(db, i1, i2, now);
            r.Success? && Transferred(db.assets, r.value.assets, sell.user, buy.user, buy.ticker, buy.Remaining())
  {
    ExecuteSucceeds(db, i1, i2, now);
    var b := BuyIndex(db, i1, i2);
    var s := SellIndex(db, i1, i2);
    var buy := db.orders[b];
    var sell := db.orders[s];
    var q := buy.Remaining();
    var db1 := Record(db, b, s, q, now);
    var proceeds := Widen(NetOfCommission(MulValue(sell.price, q)));
    assert Execute(db, i1, i2, now) == Settle(db1, buy.user, sell.user, buy.ticker, q, proceeds);
    assert db1.assets == db.assets;
    SettleTransfers(db1, buy.user, sell.user, buy.ticker, q, proceeds);
  }

  // ---------------------------------------------------------------------------
  // Available cash

  lemma {:induction false} LockedForBuyOrdersAppend(orders: seq<Order>, o: Order, user: UserId)
    ensures LockedForBuyOrders(orders + [o], user) ==
              LockedForBuyOrders(orders, user) + (if o.user == user && o.side == Buy && o.IsOpen() then o.amount * o.price else 0)
  {
    if orders != [] {
      assert (orders + [o])[1..] == orders[1..] + [o];
      LockedForBuyOrdersAppend(orders[1..], o, user);
    }
  }

  /**
   * A BUY placement lowers the available balance twice over: the cash falls by
   * the cost in cents and the open-BUY total rises by the exact cost as well.
   */
  lemma AvailableAfterBuy(db: Db, user: UserId, ticker: TickerId, price: int, amount: int, now: int)
    requires user in db.balances && PlaceBuy(db, user, ticker, price, amount, now).Success?
    ensures var before := AvailableBalance(db, user);
            var after := AvailableBalance(PlaceBuy(db, user, ticker, price, amount, now).value, user);
            after.total == before.total - FloatCents(BuyCost(price, amount)) as real / 100.0
            && after.locked == before.locked + MoneyDollars(amount * price)
  {
    var o := OpenOrder(|db.orders| + 1, user, ticker, Buy, price, amount, now);
    LockedForBuyOrdersAppend(db.orders, o, user);
  }

  /**
   * A user with $10,000 who places a BUY of one unit at $50 is left with $9,950
   * of cash and is shown $9,900 available: the $50 order is subtracted twice.
   */
  lemma AvailableBalanceCountsBuysTwice()
    ensures var db := Db(map[1 := 1_000_000], map[], [], []);
            var placed := PlaceBuy(db, 1, 1, 50 * PRICE_ONE, AMOUNT_ONE, 0);
            placed.Success?
            && AvailableBalance(placed.value, 1).total == 9_950.0
            && AvailableBalance(placed.value, 1).available == 9_900.0
  {
    var db := Db(map[1 := 1_000_000], map[], [], []);
    assert MulValue(50 * PRICE_ONE, AMOUNT_ONE) == 50 * AMOUNT_ONE by {
      DivUnique(50 * PRICE_ONE * AMOUNT_ONE, PRICE_ONE, 50 * AMOUNT_ONE, 0);
    }
    assert FloatCents(BuyCost(50 * PRICE_ONE, AMOUNT_ONE)) == 5_000 by {
      DivUnique(2 * (50 * AMOUNT_ONE * PRICE_ONE) + CENT_24, 2 * CENT_24, 5_000, CENT_24);
    }
    FundsCheckIsHundredfold(1_000_000, BuyCost(50 * PRICE_ONE, AMOUNT_ONE));
    AvailableAfterBuy(db, 1, 1, 50 * PRICE_ONE, AMOUNT_ONE, 0);
  }
}
