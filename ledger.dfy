/**
 * The exchange's tables as one value, and what each step of order placement,
 * matching, execution, settlement and cancellation does to them
 * (app/Http/Controllers/Api/OrderController.php).  The methods of
 * OrderController.Exchange are proved to compute exactly these functions; the
 * lemmas in LedgerProofs are about the functions.
 */
module Ledger {
  import opened Wrappers
  import opened Fixed
  import opened Collections
  import opened Assets
  import opened Users
  import opened Orders
  import opened Trades
  import opened Tickers

  /** Why a request fails; each failure is answered with the HttpStatus below. */
  datatype Error =
    | ValidationFailed
    | SymbolNotFound
    | InsufficientFunds
    | DeductFailed
    | InsufficientHoldings
    | LockFailed
    | ReleaseFailed
    | OrderNotFound
    | NotOpen
    | UnlockFailed

  function HttpStatus(e: Error): (code: int)
    ensures code == 422 <==> e == ValidationFailed
    ensures code == 404 <==> e == SymbolNotFound || e == OrderNotFound
    ensures code == 400 <==> e == NotOpen
    ensures code == 422 || code == 404 || code == 400 || code == 500
  {
    match e
    case ValidationFailed => 422
    case SymbolNotFound => 404
    case OrderNotFound => 404
    case NotOpen => 400
    case _ => 500
  }

  /**
   * The tables an order touches: users.balance in cents, the assets rows by
   * (user_id, ticker_id), and the orders and trades tables in id order.
   */
  datatype Db = Db(
    balances: map<UserId, int>,
    assets: map<AssetKey, Asset>,
    orders: seq<Order>,
    trades: seq<Trade>)

  /** The row getOrCreate returns: the stored one, or a fresh empty one. */
  function Row(assets: map<AssetKey, Asset>, k: AssetKey): Asset
  {
    if k in assets then assets[k] else EmptyAsset
  }

  /** Auto-increment ids: the order with id n is the n-th row. */
  predicate Indexed(orders: seq<Order>)
  {
    forall i :: 0 <= i < |orders| ==> orders[i].id == i + 1
  }

  /** The foreign keys the schema enforces on the orders table. */
  predicate Integrity(db: Db)
  {
    Indexed(db.orders) && forall i :: 0 <= i < |db.orders| ==> db.orders[i].user in db.balances
  }

  // ---------------------------------------------------------------------------
  // Placement (store, processBuyOrder, processSellOrder)

  /** The validation rules of store. */
  datatype OrderRequest = OrderRequest(symbol: string, side: string, price: int, amount: int)

  predicate ValidRequest(req: OrderRequest)
  {
    0 < |req.symbol| <= 10
    && (req.side == "BUY" || req.side == "SELL")
    && MIN_PRICE <= req.price
    && MIN_AMOUNT <= req.amount
  }

  /** The row Order::create inserts: open, nothing filled. */
  function OpenOrder(id: nat, user: UserId, ticker: TickerId, side: Side, price: int, amount: int, now: int): Order
  {
    Order(id, user, ticker, side, price, amount, 0, STATUS_OPEN, now, None, None)
  }

  /** bcmul(price, amount, 18) as money: what placing a BUY order costs. */
  function BuyCost(price: int, amount: int): int
  {
    Widen(MulValue(price, amount))
  }

  /** processBuyOrder: check the funds, deduct the cost, create the order. */
  function PlaceBuy(db: Db, user: UserId, ticker: TickerId, price: int, amount: int, now: int): (r: Result<Db, Error>)
    requires user in db.balances
    ensures r.Success? ==> HasSufficientFunds(db.balances[user], BuyCost(price, amount))
    ensures r.Success? ==> |r.value.orders| == |db.orders| + 1 && r.value.orders[|db.orders|].side == Buy
    ensures r.Failure? ==> !HasSufficientFunds(db.balances[user], BuyCost(price, amount)) && r.error == InsufficientFunds
  {
    var cost := BuyCost(price, amount);
    if !HasSufficientFunds(db.balances[user], cost) then Failure(InsufficientFunds)
    else
      var deducted := Deduct(db.balances[user], cost);
      if deducted.None? then Failure(DeductFailed)
      else
        Success(db.(balances := db.balances[user := deducted.value],
                    orders := db.orders + [OpenOrder(|db.orders| + 1, user, ticker, Buy, price, amount, now)]))
  }

  /** processSellOrder: getOrCreate the holding, check and lock the amount, create the order. */
  function PlaceSell(db: Db, user: UserId, ticker: TickerId, price: int, amount: int, now: int): (r: Result<Db, Error>)
    ensures r.Success? ==> Row(db.assets, AssetKey(user, ticker)).Available() >= amount
    ensures r.Success? ==> |r.value.orders| == |db.orders| + 1 && r.value.orders[|db.orders|].side == Sell
    ensures r.Failure? ==> Row(db.assets, AssetKey(user, ticker)).Available() < amount && r.error == InsufficientHoldings
  {
    var k := AssetKey(user, ticker);
    var a := Row(db.assets, k);
    if !a.HasSufficientAvailableAmount(amount) then Failure(InsufficientHoldings)
    else
      var locked := Lock(a, amount);
      if locked.None? then Failure(LockFailed)
      else
        Success(db.(assets := db.assets[k := locked.value],
                    orders := db.orders + [OpenOrder(|db.orders| + 1, user, ticker, Sell, price, amount, now)]))
  }

  // ---------------------------------------------------------------------------
  // Matching (attemptOrderMatching)

  /** The where-clauses of the matching query: same ticker, other side, open, price crossing. */
  predicate Crosses(c: Order, o: Order)
  {
    c.ticker == o.ticker && c.side != o.side && c.IsOpen()
    && (if o.side == Buy then c.price <= o.price else c.price >= o.price)
  }

  /** The orderBy clauses: best price first (lowest ask for a BUY, highest bid for a SELL), then oldest. */
  function PriorityKey(o: Order): Order -> Key
  {
    if o.side == Buy then (c: Order) => Key(c.price, c.createdAt)
    else (c: Order) => Key(-c.price, c.createdAt)
  }

  /** The rows the matching query fetches for `o`, in the order it fetches them. */
  function Candidates(orders: seq<Order>, o: Order): (r: seq<Order>)
    ensures forall c :: c in r <==> c in orders && Crosses(c, o)
    ensures Sorted(r, PriorityKey(o))
  {
    var f := Filter(orders, (c: Order) => Crosses(c, o));
    var r := SortBy(f, PriorityKey(o));
    assert forall c :: c in r <==> c in multiset(r);
    r
  }

  /** The foreach with break: the first candidate whose remaining quantity equals `remaining`. */
  function FirstExactMatch(cands: seq<Order>, remaining: int): (r: Option<nat>)
    ensures r.Some? ==> r.value < |cands| && cands[r.value].Remaining() == remaining
    ensures r.Some? ==> forall j :: 0 <= j < r.value ==> cands[j].Remaining() != remaining
    ensures r.None? ==> forall j :: 0 <= j < |cands| ==> cands[j].Remaining() != remaining
  {
    if cands == [] then None
    else if cands[0].Remaining() == remaining then Some(0)
    else
      match FirstExactMatch(cands[1..], remaining)
      case None => None
      case Some(j) => Some(j + 1)
  }

  /** An order found by the query is the row its id names. */
  lemma CandidatePosition(orders: seq<Order>, c: Order)
    requires Indexed(orders) && c in orders
    ensures 1 <= c.id <= |orders| && orders[c.id - 1] == c
  {
  }

  /** The j-th candidate for `o` is a row of the table, on the other side of the book. */
  lemma CandidateRow(orders: seq<Order>, o: Order, j: nat)
    requires Indexed(orders) && j < |Candidates(orders, o)|
    ensures var c := Candidates(orders, o)[j];
            1 <= c.id <= |orders| && orders[c.id - 1] == c && Crosses(c, o) && c.side != o.side
  {
    var c := Candidates(orders, o)[j];
    assert c in Candidates(orders, o);
    CandidatePosition(orders, c);
  }

  /** The row of the order attemptOrderMatching trades `o` with: the first exact candidate, if any. */
  function Counterparty(orders: seq<Order>, o: Order): (t: Option<nat>)
    requires Indexed(orders)
    ensures t.Some? ==> t.value < |orders| && Crosses(orders[t.value], o) && orders[t.value].Remaining() == o.Remaining()
  {
    var cands := Candidates(orders, o);
    var found := FirstExactMatch(cands, o.Remaining());
    if found.None? then None
    else
      CandidateRow(orders, o, found.value);
      Some(cands[found.value].id - 1)
  }

  /** attemptOrderMatching for the order in row `idx`: trade with the first exact match, if any. */
  function Match(db: Db, idx: nat, now: int): Result<Db, Error>
    requires Integrity(db) && idx < |db.orders|
  {
    var t := Counterparty(db.orders, db.orders[idx]);
    if t.None? then Success(db)
    else Execute(db, idx, t.value, now)
  }

  // ---------------------------------------------------------------------------
  // Execution and settlement (executeTrade, processTradeSettlement)

  /** The update executeTrade makes to the BUY order: executed price, filled, filled_at. */
  function FillBuy(o: Order, price: int, q: int, now: int): Order
  {
    o.(price := price, filled := o.filled + q, status := STATUS_FILLED, filledAt := Some(now))
  }

  /** The update executeTrade makes to the SELL order. */
  function FillSell(o: Order, q: int, now: int): Order
  {
    o.(filled := o.filled + q, status := STATUS_FILLED, filledAt := Some(now))
  }

  /** The order table after executeTrade's two updates: the BUY row at the SELL price, both filled by q. */
  function FillPair(orders: seq<Order>, b: nat, s: nat, q: int, now: int): seq<Order>
    requires b < |orders| && s < |orders|
  {
    orders[b := FillBuy(orders[b], orders[s].price, q, now)][s := FillSell(orders[s], q, now)]
  }

  /** Which of the two rows is the BUY order. */
  function BuyIndex(db: Db, i1: nat, i2: nat): nat
    requires i1 < |db.orders|
  {
    if db.orders[i1].side == Buy then i1 else i2
  }

  function SellIndex(db: Db, i1: nat, i2: nat): nat
    requires i1 < |db.orders|
  {
    if db.orders[i1].side == Buy then i2 else i1
  }

  /**
   * The writes executeTrade makes before settling: the trade row (both
   * commissions are the value's 1.5%, read back at two decimals) and the two
   * filled orders.
   */
  function Record(db: Db, b: nat, s: nat, q: int, now: int): Db
    requires b < |db.orders| && s < |db.orders|
  {
    var commission := ToDecimal2(Commission(MulValue(db.orders[s].price, q)));
    var trade := Trade(|db.trades| + 1, db.orders[b].id, db.orders[s].id, commission, commission);
    db.(orders := FillPair(db.orders, b, s, q, now), trades := db.trades + [trade])
  }

  /** executeTrade: record the trade at the sell price for the buy order's remaining quantity, then settle. */
  function Execute(db: Db, i1: nat, i2: nat, now: int): Result<Db, Error>
    requires i1 < |db.orders| && i2 < |db.orders| && i1 != i2
    requires db.orders[i1].user in db.balances && db.orders[i2].user in db.balances
  {
    var b := BuyIndex(db, i1, i2);
    var s := SellIndex(db, i1, i2);
    var buy := db.orders[b];
    var sell := db.orders[s];
    var q := buy.Remaining();
    Settle(Record(db, b, s, q, now), buy.user, sell.user, buy.ticker, q, Widen(NetOfCommission(MulValue(sell.price, q))))
  }

  /**
   * The holdings after `q` of `ticker` passes from `seller` to `buyer`: the
   * seller's row loses q owned and q locked, the buyer's row gains q owned, and
   * no other row changes.
   */
  ghost predicate Transferred(before: map<AssetKey, Asset>, after: map<AssetKey, Asset>,
                        seller: UserId, buyer: UserId, ticker: TickerId, q: int)
  {
    var sk := AssetKey(seller, ticker);
    var bk := AssetKey(buyer, ticker);
    sk in after && bk in after
    && (forall k :: k != sk && k != bk ==> (k in after <==> k in before))
    && (forall k :: k != sk && k != bk && k in before ==> after[k] == before[k])
    && after[sk].locked == Row(before, sk).locked - q
    && (if sk == bk then after[sk].amount == Row(before, sk).amount
        else after[sk].amount == Row(before, sk).amount - q
             && after[bk].amount == Row(before, bk).amount + q
             && after[bk].locked == Row(before, bk).locked)
  }

  /**
   * processTradeSettlement: release q from the seller's lock, add q to the
   * buyer's holding, credit the seller `proceeds` (money, scale 24).
   */
  function Settle(db: Db, buyer: UserId, seller: UserId, ticker: TickerId, q: int, proceeds: int): (r: Result<Db, Error>)
    requires seller in db.balances
    ensures r.Success? ==> Row(db.assets, AssetKey(seller, ticker)).locked >= q
    ensures r.Success? ==> r.value.balances == db.balances[seller := Credit(db.balances[seller], proceeds)]
    ensures r.Failure? ==> Row(db.assets, AssetKey(seller, ticker)).locked < q && r.error == ReleaseFailed
  {
    var sk := AssetKey(seller, ticker);
    var released := Release(Row(db.assets, sk), q);
    if released.None? then Failure(ReleaseFailed)
    else
      var assets := db.assets[sk := released.value];
      var bk := AssetKey(buyer, ticker);
      Success(db.(assets := assets[bk := Add(Row(assets, bk), q)],
                  balances := db.balances[seller := Credit(db.balances[seller], proceeds)]))
  }
  /**
   * processTradeSettlement as the code is written: Trade has no `quantity` or
   * `price` attribute, so both read as null and bcmath takes them as 0. The
   * release and the transfer then move nothing (the two holding rows are only
   * created if missing), the trade value is 0, and the seller is "credited"
   * 0 minus the sell commission read back in cents.
   */
  function SettleAsWritten(db: Db, buyer: UserId, seller: UserId, ticker: TickerId, sellCommission: int): (r: Result<Db, Error>)
    requires seller in db.balances
  {
    Settle(db, buyer, seller, ticker, 0, Widen(0 - sellCommission * CENT_18))
  }


  /** The seller's own row, released and then credited back: the locked part drops, the holding does not. */
  lemma TransferToSelf(before: map<AssetKey, Asset>, released: Asset, sk: AssetKey, q: int)
    requires released.amount == Row(before, sk).amount - q
    requires released.locked == Row(before, sk).locked - q
    ensures var assets := before[sk := released];
            var after := assets[sk := Add(Row(assets, sk), q)];
            sk in after && after[sk].locked == Row(before, sk).locked - q && after[sk].amount == Row(before, sk).amount
  {
  }

  /** Two different rows: the seller's loses q owned and q locked, the buyer's gains q owned. */
  lemma TransferBetween(before: map<AssetKey, Asset>, released: Asset, sk: AssetKey, bk: AssetKey, q: int)
    requires sk != bk
    requires released.amount == Row(before, sk).amount - q
    requires released.locked == Row(before, sk).locked - q
    ensures var assets := before[sk := released];
            var after := assets[bk := Add(Row(assets, bk), q)];
            sk in after && bk in after
            && after[sk].locked == Row(before, sk).locked - q
            && after[sk].amount == Row(before, sk).amount - q
            && after[bk].amount == Row(before, bk).amount + q
            && after[bk].locked == Row(before, bk).locked
  {
  }

  /** Replacing the seller's row by its released version and then adding q to the buyer's row is a transfer of q. */
  lemma TransferRows(before: map<AssetKey, Asset>, released: Asset, seller: UserId, buyer: UserId, ticker: TickerId, q: int)
    requires released.amount == Row(before, AssetKey(seller, ticker)).amount - q
    requires released.locked == Row(before, AssetKey(seller, ticker)).locked - q
    ensures var sk := AssetKey(seller, ticker);
            var bk := AssetKey(buyer, ticker);
            var assets := before[sk := released];
            Transferred(before, assets[bk := Add(Row(assets, bk), q)], seller, buyer, ticker, q)
  {
    var sk := AssetKey(seller, ticker);
    var bk := AssetKey(buyer, ticker);
    if sk == bk {
      TransferToSelf(before, released, sk, q);
    } else {
      TransferBetween(before, released, sk, bk, q);
    }
  }

  /** Settlement moves exactly q from the seller's locked holding to the buyer's holding. */
  lemma SettleTransfers(db: Db, buyer: UserId, seller: UserId, ticker: TickerId, q: int, proceeds: int)
    requires seller in db.balances && Settle(db, buyer, seller, ticker, q, proceeds).Success?
    ensures Transferred(db.assets, Settle(db, buyer, seller, ticker, q, proceeds).value.assets, seller, buyer, ticker, q)
  {
    var released := Release(Row(db.assets, AssetKey(seller, ticker)), q).value;
    TransferRows(db.assets, released, seller, buyer, ticker, q);
  }



  /** Placing an order keeps the foreign keys: the new row has the next id and an existing user. */
  lemma PlacementKeepsIntegrity(db: Db, user: UserId, ticker: TickerId, side: Side, price: int, amount: int, now: int)
    requires Integrity(db) && user in db.balances
    ensures var r := if side == Buy then PlaceBuy(db, user, ticker, price, amount, now)
                     else PlaceSell(db, user, ticker, price, amount, now);
            r.Success? ==> Integrity(r.value)
  {
  }

  /** store, from validation to the end of the transaction; a failure leaves every table as it was. */
  function Place(db: Db, tickers: seq<Ticker>, user: UserId, req: OrderRequest, now: int): Result<Db, Error>
    requires Integrity(db) && user in db.balances
  {
    if !ValidRequest(req) then Failure(ValidationFailed)
    else
      var ticker := FindBySymbol(tickers, req.symbol);
      if ticker.None? then Failure(SymbolNotFound)
      else
        var t := ticker.value;
        var placed :=
          if req.side == "BUY" then PlaceBuy(db, user, t.id, req.price, req.amount, now)
          else PlaceSell(db, user, t.id, req.price, req.amount, now);
        PlacementKeepsIntegrity(db, user, t.id, if req.side == "BUY" then Buy else Sell, req.price, req.amount, now);
        if placed.Failure? then placed
        else Match(placed.value, |db.orders|, now)
  }

  // ---------------------------------------------------------------------------
  // Cancellation (cancelOrder)

  /** where('id', id)->where('user_id', user)->first(), as a row index. */
  function FindUserOrder(orders: seq<Order>, id: int, user: UserId): (r: Option<nat>)
    ensures r.Some? ==> r.value < |orders| && orders[r.value].id == id && orders[r.value].user == user
    ensures r.Some? ==> forall i :: 0 <= i < r.value ==> !(orders[i].id == id && orders[i].user == user)
    ensures r.None? ==> forall i :: 0 <= i < |orders| ==> !(orders[i].id == id && orders[i].user == user)
  {
    FindFirst(orders, (o: Order) => o.id == id && o.user == user)
  }

  /** The refund of a cancelled BUY order: the exact amount × price, as money. */
  function Refund(o: Order): int
  {
    o.amount * o.price
  }

  /** The transaction in cancelOrder: refund a BUY or unlock a SELL, then mark the order cancelled. */
  function CancelOpen(db: Db, i: nat, now: int): Result<Db, Error>
    requires i < |db.orders| && db.orders[i].user in db.balances
  {
    var o := db.orders[i];
    if o.side == Buy then
      Success(db.(balances := db.balances[o.user := Credit(db.balances[o.user], Refund(o))],
                  orders := db.orders[i := Cancelled(o, now)]))
    else
      var k := AssetKey(o.user, o.ticker);
      var unlocked := Unlock(Row(db.assets, k), o.amount);
      if unlocked.None? then Failure(UnlockFailed)
      else Success(db.(assets := db.assets[k := unlocked.value], orders := db.orders[i := Cancelled(o, now)]))
  }

  /** cancelOrder: the caller's own order, still open, is cancelled in one transaction. */
  function Cancel(db: Db, user: UserId, id: int, now: int): Result<Db, Error>
    requires user in db.balances
  {
    var found := FindUserOrder(db.orders, id, user);
    if found.None? then Failure(OrderNotFound)
    else if db.orders[found.value].status != STATUS_OPEN then Failure(NotOpen)
    else CancelOpen(db, found.value, now)
  }

  // ---------------------------------------------------------------------------
  // Available cash (getAvailableBalance)

  /** sum(amount × price) over the user's open BUY orders, as exact money. */
  function LockedForBuyOrders(orders: seq<Order>, user: UserId): int
  {
    if orders == [] then 0
    else
      var o := orders[0];
      (if o.user == user && o.side == Buy && o.IsOpen() then o.amount * o.price else 0)
        + LockedForBuyOrders(orders[1..], user)
  }

  /** A money value (scale 24) in dollars. */
  function MoneyDollars(money: int): (d: real)
    ensures d * 100.0 * CENT_24 as real == money as real
  {
    money as real / (100.0 * CENT_24 as real)
  }

  datatype BalanceView = BalanceView(available: real, total: real, locked: real)

  /**
   * getAvailableBalance: the cash balance less the value of the user's open BUY
   * orders, floored at 0. The cash was already debited when those orders were
   * placed, so they are counted twice.
   */
  function AvailableBalance(db: Db, user: UserId): (v: BalanceView)
    requires user in db.balances
    ensures v.total == CashBalance(db.balances[user])
    ensures v.locked == MoneyDollars(LockedForBuyOrders(db.orders, user))
    ensures 0.0 <= v.available && v.total - v.locked <= v.available
    ensures v.available == 0.0 || v.available == v.total - v.locked
  {
    var cash := CashBalance(db.balances[user]);
    var locked := MoneyDollars(LockedForBuyOrders(db.orders, user));
    BalanceView(if cash - locked > 0.0 then cash - locked else 0.0, cash, locked)
  }
}
