/**
 * The read side of the book (app/Http/Controllers/Api/OrderBookController.php
 * `index`, and the statistics of OrderController::getOrderBook): the best open
 * bids and asks of one ticker, and the market price, spread, volumes and
 * values computed from them. Prices are at scale 6, amounts at scale 18 and
 * values as scale-24 money; PHP's float conversions are taken as exact.
 */
module OrderBook {
  import opened Wrappers
  import opened Fixed
  import opened Collections
  import opened Assets
  import opened Orders
  import opened Tickers
  import opened Ledger

  /** The where-clauses of one side of the book. */
  predicate OnSide(o: Order, ticker: TickerId, side: Side)
  {
    o.ticker == ticker && o.side == side && o.IsOpen()
  }

  /** orderBy('price', 'desc') for bids, orderBy('price', 'asc') for asks; equal prices keep table order. */
  function PriceOrder(side: Side): Order -> Key
  {
    if side == Buy then (o: Order) => Key(-o.price, 0) else (o: Order) => Key(o.price, 0)
  }

  /** The open orders of `side` on `ticker`, in table order. */
  function SideOrders(orders: seq<Order>, ticker: TickerId, side: Side): (r: seq<Order>)
  {
    Filter(orders, (o: Order) => OnSide(o, ticker, side))
  }

  /**
   * One side of the book: the open orders of `side` on `ticker`, best price
   * first, as many as `limit` allows.
   */
  function BookSide(orders: seq<Order>, ticker: TickerId, side: Side, limit: nat): (r: seq<Order>)
    ensures |r| == if limit < |SideOrders(orders, ticker, side)| then limit else |SideOrders(orders, ticker, side)|
    ensures multiset(r) <= multiset(SideOrders(orders, ticker, side))
    ensures forall i :: 0 <= i < |r| ==> r[i] in orders && OnSide(r[i], ticker, side)
  {
    var f := SideOrders(orders, ticker, side);
    SortedPrefixIsLeast(f, limit, PriceOrder(side));
    SortedPrefixIsSubMultiset(f, limit, PriceOrder(side));
    Take(SortBy(f, PriceOrder(side)), limit)
  }

  /** The rows shown are in price order: non-increasing for bids, non-decreasing for asks. */
  lemma BookSideSorted(orders: seq<Order>, ticker: TickerId, side: Side, limit: nat)
    ensures var r := BookSide(orders, ticker, side, limit);
            forall i, j :: 0 <= i < j < |r| ==> if side == Buy then r[j].price <= r[i].price else r[i].price <= r[j].price
  {
    var f := SideOrders(orders, ticker, side);
    var r := BookSide(orders, ticker, side, limit);
    assert r == SortBy(f, PriceOrder(side))[..|r|];
    assert forall i, j :: 0 <= i < j < |r| ==> KeyLe(PriceOrder(side)(r[i]), PriceOrder(side)(r[j]));
  }

  /**
   * The limit drops only the worst-priced rows: an open order of that side left
   * out bids no more (asks no less) than any row shown.
   */
  lemma BookSideBest(orders: seq<Order>, ticker: TickerId, side: Side, limit: nat)
    ensures var r := BookSide(orders, ticker, side, limit);
            forall x, i :: x in orders && OnSide(x, ticker, side) && x !in r && 0 <= i < |r| ==>
              if side == Buy then x.price <= r[i].price else r[i].price <= x.price
  {
    var f := SideOrders(orders, ticker, side);
    SortedPrefixIsLeast(f, limit, PriceOrder(side));
  }

  /** A side is empty only when the ticker has no open order on it (or the limit is 0). */
  lemma BookSideEmpty(orders: seq<Order>, ticker: TickerId, side: Side, limit: nat)
    ensures BookSide(orders, ticker, side, limit) == [] <==> limit == 0 || forall x :: x in orders ==> !OnSide(x, ticker, side)
  {
    var f := SideOrders(orders, ticker, side);
    assert |BookSide(orders, ticker, side, limit)| == if limit < |f| then limit else |f|;
    if limit > 0 && exists x :: x in orders && OnSide(x, ticker, side) {
      var x :| x in orders && OnSide(x, ticker, side);
      assert x in f;
    }
  }

  // ---------------------------------------------------------------------------
  // Best prices

  /** The largest price in a non-empty list. */
  function MaxPrice(s: seq<Order>): (m: int)
    requires s != []
    ensures forall i :: 0 <= i < |s| ==> s[i].price <= m
    ensures exists i :: 0 <= i < |s| && s[i].price == m
  {
    if |s| == 1 then s[0].price
    else
      var rest := MaxPrice(s[1..]);
      assert forall i :: 1 <= i < |s| ==> s[i] == s[1..][i - 1];
      if s[0].price >= rest then s[0].price else rest
  }

  /** The smallest price in a non-empty list. */
  function MinPrice(s: seq<Order>): (m: int)
    requires s != []
    ensures forall i :: 0 <= i < |s| ==> m <= s[i].price
    ensures exists i :: 0 <= i < |s| && s[i].price == m
  {
    if |s| == 1 then s[0].price
    else
      var rest := MinPrice(s[1..]);
      assert forall i :: 1 <= i < |s| ==> s[i] == s[1..][i - 1];
      if s[0].price <= rest then s[0].price else rest
  }

  /** $buyOrders->max('price') ?? 0 */
  function HighestBid(buys: seq<Order>): int
  {
    if buys == [] then 0 else MaxPrice(buys)
  }

  /** $sellOrders->min('price') ?? 0 */
  function LowestAsk(sells: seq<Order>): int
  {
    if sells == [] then 0 else MinPrice(sells)
  }

  /**
   * highest_bid is the best bid of the whole book, not just of the rows shown:
   * no open BUY order of the ticker bids more, some open BUY order bids exactly
   * that, and it is 0 only when there is no open BUY order.
   */
  lemma HighestBidIsBestBid(orders: seq<Order>, ticker: TickerId, limit: nat)
    requires 1 <= limit
    ensures var bid := HighestBid(BookSide(orders, ticker, Buy, limit));
            (forall x :: x in orders && OnSide(x, ticker, Buy) ==> x.price <= bid)
            && (BookSide(orders, ticker, Buy, limit) != [] ==> exists x :: x in orders && OnSide(x, ticker, Buy) && x.price == bid)
            && (BookSide(orders, ticker, Buy, limit) == [] <==> forall x :: x in orders ==> !OnSide(x, ticker, Buy))
  {
    var buys := BookSide(orders, ticker, Buy, limit);
    BookSideBest(orders, ticker, Buy, limit);
    BookSideEmpty(orders, ticker, Buy, limit);
    BookSideSorted(orders, ticker, Buy, limit);
    if buys != [] {
      var bid := MaxPrice(buys);
      forall x | x in orders && OnSide(x, ticker, Buy) ensures x.price <= bid {
        if x !in buys {
          assert x.price <= buys[0].price;
        } else {
          var i :| 0 <= i < |buys| && buys[i] == x;
        }
      }
      var i :| 0 <= i < |buys| && buys[i].price == bid;
      assert buys[i] in orders && OnSide(buys[i], ticker, Buy);
    }
  }

  /** lowest_ask is the best ask of the whole book, and 0 only when there is no open SELL order. */
  lemma LowestAskIsBestAsk(orders: seq<Order>, ticker: TickerId, limit: nat)
    requires 1 <= limit
    ensures var ask := LowestAsk(BookSide(orders, ticker, Sell, limit));
            (BookSide(orders, ticker, Sell, limit) != [] ==>
               (forall x :: x in orders && OnSide(x, ticker, Sell) ==> ask <= x.price)
               && exists x :: x in orders && OnSide(x, ticker, Sell) && x.price == ask)
            && (BookSide(orders, ticker, Sell, limit) == [] <==> forall x :: x in orders ==> !OnSide(x, ticker, Sell))
  {
    var sells := BookSide(orders, ticker, Sell, limit);
    BookSideBest(orders, ticker, Sell, limit);
    BookSideEmpty(orders, ticker, Sell, limit);
    BookSideSorted(orders, ticker, Sell, limit);
    if sells != [] {
      var ask := MinPrice(sells);
      forall x | x in orders && OnSide(x, ticker, Sell) ensures ask <= x.price {
        if x !in sells {
          assert sells[0].price <= x.price;
        } else {
          var i :| 0 <= i < |sells| && sells[i] == x;
        }
      }
      var i :| 0 <= i < |sells| && sells[i].price == ask;
      assert sells[i] in orders && OnSide(sells[i], ticker, Sell);
    }
  }

  /** The midpoint when both sides quote, otherwise whichever side quotes, otherwise 0. */
  function MarketPrice(bid: int, ask: int): (p: real)
    ensures bid > 0 && ask > 0 ==> (bid <= ask ==> bid as real <= p <= ask as real) && (ask <= bid ==> ask as real <= p <= bid as real)
    ensures bid > 0 && ask <= 0 ==> p == bid as real
    ensures bid <= 0 && ask > 0 ==> p == ask as real
    ensures p == 0.0 <==> bid <= 0 && ask <= 0
  {
    if bid > 0 && ask > 0 then (bid + ask) as real / 2.0
    else if bid > 0 then bid as real
    else if ask > 0 then ask as real
    else 0.0
  }

  /** ask − bid when both sides quote, otherwise 0. */
  function Spread(bid: int, ask: int): int
  {
    if ask > 0 && bid > 0 then ask - bid else 0
  }

  /** When both sides quote, the market price sits half a spread above the bid and half a spread below the ask. */
  lemma MarketPriceIsMidSpread(bid: int, ask: int)
    requires bid > 0 && ask > 0
    ensures MarketPrice(bid, ask) == bid as real + Spread(bid, ask) as real / 2.0
    ensures MarketPrice(bid, ask) == ask as real - Spread(bid, ask) as real / 2.0
  {
  }

  // ---------------------------------------------------------------------------
  // Volumes and values

  /** sum('amount'): original quantities. */
  function SumAmount(s: seq<Order>): int
  {
    if s == [] then 0 else s[0].amount + SumAmount(s[1..])
  }

  /** sum('remaining'): amount − filled_quantity. */
  function SumRemaining(s: seq<Order>): int
  {
    if s == [] then 0 else s[0].Remaining() + SumRemaining(s[1..])
  }

  /** sum(remaining × price), as exact money. */
  function SumRemainingValue(s: seq<Order>): int
  {
    if s == [] then 0 else s[0].Remaining() * s[0].price + SumRemainingValue(s[1..])
  }

  /** Orders nothing has been filled on: every order the book shows, in a consistent table. */
  predicate Unfilled(s: seq<Order>)
  {
    forall i :: 0 <= i < |s| ==> s[i].filled == 0
  }

  /** On unfilled orders the remaining-based volume of getOrderBook equals the amount-based volume of index. */
  lemma {:induction false} RemainingIsAmount(s: seq<Order>)
    requires Unfilled(s)
    ensures SumRemaining(s) == SumAmount(s)
  {
    if s != [] {
      RemainingIsAmount(s[1..]);
    }
  }

  /** One unfilled order: its total in cents, scaled back to money, is its exact value truncated to a cent. */
  lemma TotalTruncatesValue(o: Order)
    requires o.filled == 0 && 0 <= o.price && 0 <= o.amount
    ensures Total(o) * CENT_24 <= o.Remaining() * o.price < Total(o) * CENT_24 + CENT_24
  {
    MulMonotone(0, o.price, o.amount);
    assert o.Remaining() * o.price == o.price * o.amount;
  }

  /**
   * index's side value, the sum of each order's total truncated to cents, falls
   * short of the exact value getOrderBook reports for unfilled orders by less
   * than a cent per order.
   */
  lemma {:induction false} TotalsTruncateValue(s: seq<Order>)
    requires Unfilled(s)
    requires forall i :: 0 <= i < |s| ==> 0 <= s[i].price && 0 <= s[i].amount
    ensures TotalValue(s) * CENT_24 <= SumRemainingValue(s)
    ensures s != [] ==> SumRemainingValue(s) < TotalValue(s) * CENT_24 + |s| * CENT_24
  {
    if s != [] {
      TotalsTruncateValue(s[1..]);
      TotalTruncatesValue(s[0]);
      var t, rest := Total(s[0]), TotalValue(s[1..]);
      assert TotalValue(s) == t + rest;
      assert SumRemainingValue(s) == s[0].Remaining() * s[0].price + SumRemainingValue(s[1..]);
      assert (t + rest) * CENT_24 == t * CENT_24 + rest * CENT_24;
      assert |s| * CENT_24 == CENT_24 + |s[1..]| * CENT_24;
    }
  }

  // ---------------------------------------------------------------------------
  // The two endpoints

  datatype Stats = Stats(
    marketPrice: real,
    highestBid: int,
    lowestAsk: int,
    spread: int,
    buyVolume: int,
    sellVolume: int,
    buyValue: int,
    sellValue: int)

  /**
   * A response: the two sides, the top-level market_price (present only in
   * index's answer for an unknown symbol) and the stats (absent there).
   */
  datatype Book = Book(buyOrders: seq<Order>, sellOrders: seq<Order>, marketPrice: Option<real>, stats: Option<Stats>)

  /** symbol: required|string|max:10, limit: sometimes|integer|min:1|max:1000 */
  predicate ValidQuery(symbol: string, limit: Option<int>)
  {
    0 < |symbol| <= 10 && (limit.Some? ==> 1 <= limit.value <= 1000)
  }

  function LimitOrDefault(limit: Option<int>): nat
    requires limit.Some? ==> 1 <= limit.value
  {
    if limit.Some? then limit.value else 100
  }

  /** The price statistics both endpoints share, with the side volumes and values given. */
  function PriceStats(buys: seq<Order>, sells: seq<Order>, buyVolume: int, sellVolume: int, buyValue: int, sellValue: int): Stats
  {
    var bid := HighestBid(buys);
    var ask := LowestAsk(sells);
    Stats(MarketPrice(bid, ask), bid, ask, Spread(bid, ask), buyVolume, sellVolume, buyValue, sellValue)
  }

  /** OrderBookController::index. An unknown symbol is answered with an empty book, not an error. */
  function Index(tickers: seq<Ticker>, orders: seq<Order>, symbol: string, limit: Option<int>): (r: Result<Book, Error>)
    ensures r.Failure? ==> !ValidQuery(symbol, limit) && r.error == ValidationFailed
    ensures r.Success? ==> ValidQuery(symbol, limit)
    ensures r.Success? && FindBySymbol(tickers, symbol).None? ==> r.value == Book([], [], Some(0.0), None)
    ensures r.Success? && FindBySymbol(tickers, symbol).Some? ==> r.value.stats.Some? && r.value.marketPrice.None?
  {
    if !ValidQuery(symbol, limit) then Failure(ValidationFailed)
    else
      var ticker := FindBySymbol(tickers, symbol);
      if ticker.None? then Success(Book([], [], Some(0.0), None))
      else
        var n := LimitOrDefault(limit);
        var buys := BookSide(orders, ticker.value.id, Buy, n);
        var sells := BookSide(orders, ticker.value.id, Sell, n);
        Success(Book(buys, sells, None,
          Some(PriceStats(buys, sells, SumAmount(buys), SumAmount(sells), TotalValue(buys) * CENT_24, TotalValue(sells) * CENT_24))))
  }

  /** The statistics of OrderController::getOrderBook; an unknown symbol is a 404. */
  function GetOrderBook(tickers: seq<Ticker>, orders: seq<Order>, symbol: string, limit: Option<int>): (r: Result<Book, Error>)
    ensures r.Failure? ==> r.error == ValidationFailed || r.error == SymbolNotFound
    ensures r.Failure? && r.error == ValidationFailed ==> !ValidQuery(symbol, limit)
    ensures r.Failure? && r.error == SymbolNotFound ==> FindBySymbol(tickers, symbol).None?
    ensures r.Success? ==> ValidQuery(symbol, limit) && FindBySymbol(tickers, symbol).Some? && r.value.stats.Some?
  {
    if !ValidQuery(symbol, limit) then Failure(ValidationFailed)
    else
      var ticker := FindBySymbol(tickers, symbol);
      if ticker.None? then Failure(SymbolNotFound)
      else
        var n := LimitOrDefault(limit);
        var buys := BookSide(orders, ticker.value.id, Buy, n);
        var sells := BookSide(orders, ticker.value.id, Sell, n);
        Success(Book(buys, sells, None,
          Some(PriceStats(buys, sells, SumRemaining(buys), SumRemaining(sells), SumRemainingValue(buys), SumRemainingValue(sells)))))
  }

  /** Open orders in a table where open orders are unfilled. */
  predicate OpenUnfilled(orders: seq<Order>)
  {
    forall i :: 0 <= i < |orders| ==> orders[i].IsOpen() ==> orders[i].filled == 0 && 0 <= orders[i].price && 0 <= orders[i].amount
  }

  lemma BookSideUnfilled(orders: seq<Order>, ticker: TickerId, side: Side, limit: nat)
    requires OpenUnfilled(orders)
    ensures Unfilled(BookSide(orders, ticker, side, limit))
    ensures forall i :: 0 <= i < |BookSide(orders, ticker, side, limit)| ==>
              0 <= BookSide(orders, ticker, side, limit)[i].price && 0 <= BookSide(orders, ticker, side, limit)[i].amount
  {
    var r := BookSide(orders, ticker, side, limit);
    forall i | 0 <= i < |r| ensures r[i].filled == 0 && 0 <= r[i].price && 0 <= r[i].amount {
      assert r[i] in orders;
      var j :| 0 <= j < |orders| && orders[j] == r[i];
    }
  }

  /**
   * The two endpoints agree where a table keeps open orders unfilled: the same
   * rows, prices and volumes, and values that differ only by index's truncation
   * of each order's total to cents.
   */
  lemma EndpointsAgree(tickers: seq<Ticker>, orders: seq<Order>, symbol: string, limit: Option<int>)
    requires OpenUnfilled(orders)
    requires GetOrderBook(tickers, orders, symbol, limit).Success?
    ensures var a := Index(tickers, orders, symbol, limit).value;
            var b := GetOrderBook(tickers, orders, symbol, limit).value;
            var sa := a.stats.value;
            var sb := b.stats.value;
            a.buyOrders == b.buyOrders && a.sellOrders == b.sellOrders
            && sa.marketPrice == sb.marketPrice && sa.highestBid == sb.highestBid && sa.lowestAsk == sb.lowestAsk
            && sa.spread == sb.spread && sa.buyVolume == sb.buyVolume && sa.sellVolume == sb.sellVolume
            && sa.buyValue <= sb.buyValue && (a.buyOrders != [] ==> sb.buyValue < sa.buyValue + |a.buyOrders| * CENT_24)
            && sa.sellValue <= sb.sellValue && (a.sellOrders != [] ==> sb.sellValue < sa.sellValue + |a.sellOrders| * CENT_24)
  {
    var t := FindBySymbol(tickers, symbol).value;
    var n := LimitOrDefault(limit);
    var buys := BookSide(orders, t.id, Buy, n);
    var sells := BookSide(orders, t.id, Sell, n);
    BookSideUnfilled(orders, t.id, Buy, n);
    BookSideUnfilled(orders, t.id, Sell, n);
    RemainingIsAmount(buys);
    RemainingIsAmount(sells);
    TotalsTruncateValue(buys);
    TotalsTruncateValue(sells);
  }
}
