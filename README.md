# traderapp exchange core, modelled in Dafny

This project models the order engine of the traderapp exchange, a Laravel application. In that application:

- Users hold cash, kept in integer cents, and holdings per ticker, kept as an owned amount and a locked amount.
- Placing a BUY order debits its cost at once.
- Placing a SELL order locks the quantity.
- A new order then trades with the first opposite order of exactly equal remaining quantity, taken in best-price, oldest-first order.
- The trade executes at the SELL price with a 1.5% commission per side.
- Settlement is meant to move the quantity to the buyer and the proceeds, less the sell commission, to the seller. As written, it moves nothing and charges the seller the commission; see the settlement item below.
- Cancelling an open order refunds its cash or unlocks its quantity.

The read side is modelled too:

- the order book of OrderBookController::index and OrderController::getOrderBook;
- OrderController::getAvailableBalance;
- the lookups and sums of the Ticker, Trade and Order models.

Layout:

- `fixed.dfy` (module `Fixed`) covers the bcmath fixed-point arithmetic:
  - prices count millionths of a dollar;
  - amounts count 10^-18 of a unit;
  - bcmath results are at scale 18;
  - "money" is an exact price × amount at scale 24;
  - balances and commissions are in cents.
  - Truncation (bcmath) and round-half-away-from-zero (PHP `round`, the `decimal:2` cast) are written out explicitly.
- `asset.dfy`, `user.dfy`, `order.dfy`, `trade.dfy` and `ticker.dfy` hold the rows of the five models as values. Each operation is a function that says what it does to a row.
- `collections.dfy` holds `where`, `first()`, `orderBy` (as an insertion sort) and `limit` over sequences.
- `ledger.dfy` (module `Ledger`) models each controller action as a function on the whole database `Db`:
  - the tables are balances, assets, orders and trades;
  - `Result` carries the failure that makes the action's transaction roll back.
- `ledger_proofs.dfy` (module `LedgerProofs`) defines the invariant `Consistent` and proves the properties of those functions. `Consistent` requires:
  - no negative cash;
  - 0 ≤ locked ≤ amount for every holding;
  - every holding's locked amount is exactly the quantity of the open SELL orders against it;
  - open orders have nothing filled, and filled orders are filled completely;
  - trades name a filled BUY and a filled SELL order.
- `order_controller.dfy` (class `OrderController.Exchange`) is the imperative form of the actions:
  - the tables are fields;
  - each Eloquent row method and each controller step is a method that updates them in place;
  - a `DB::transaction` is a snapshot of the fields, put back when a step fails;
  - every method is proved to leave the fields exactly as the corresponding `Ledger` function says;
  - `PlaceOrder` and `CancelOrder` are also proved to keep `Consistent`.
- `order_book.dfy` (module `OrderBook`) is the read side.

Where the code does something other than what an exchange of this kind would be expected to do, the model follows the code, except for settlement, as that item says:

- **The funds check mixes units.**
  - `hasSufficientFunds` and `deductMoney` compare the balance accessor (stored cents / 100) with `round(x × 100)`. The result is that a purchase needs a balance a hundred times its cost in cents.
  - So a user holding $10,000 cannot place a BUY of 1 unit at $9,000 (`Users.TenThousandCannotSpendNineThousand`).
- **`filled_quantity` is written but never stored.**
  - executeTrade writes `filled_quantity` through `update()` (OrderController.php:291 and 297). `filled_quantity` is not in Order's fillable list (Order.php:18-28), so `fill()` discards it, and the remaining quantity `amount − filled_quantity` always reads as the full amount.
  - The model keeps a `filled` field that starts at 0 and is set to the amount on the two rows executeTrade marks FILLED.
  - No modelled operation can see the difference. `filled` changes only on rows that become FILLED. Matching, the book and the trade quantity read the remaining quantity only on OPEN rows, where `filled` is 0 either way.
  - getUserOrders, which is not modelled, also lists FILLED rows (OrderController.php:404-416). For those, the code shows `filled` 0 and the whole amount remaining, where the model's field would give the amount filled and nothing remaining.
- **Settlement reads a quantity and a price the trade does not have.**
  - processTradeSettlement reads `$trade->quantity` and `$trade->price`. The trades table and the Trade model have neither, so both are null and bcmath reads them as 0.
  - As written, `releaseLockedAmount` and `addAmount` therefore move nothing and the trade value is 0. The seller is credited 0 minus the sell commission: the seller's quantity stays locked, the buyer receives nothing and the seller loses the commission.
  - `Ledger.SettleAsWritten` models this, and `LedgerProofs.SettleAsWrittenMovesNothing` proves its effect (see "## Findings").
  - The rest of the model settles as intended instead: with the quantity and price executeTrade computes, the BUY order's remaining quantity and the SELL price (`Ledger.Settle`). So `Ledger.Execute`, `Ledger.Match`, `Ledger.Place`, the `OrderController.Exchange` methods that call them, and the `LedgerProofs` lemmas about them all describe the intended settlement, not the code as written.
- **executeTrade writes the trade row before the order rows.** The model writes them in the same order; the resulting tables do not depend on it.
- **Available balance counts open BUY orders twice.**
  - getAvailableBalance subtracts the value of open BUY orders from a balance already debited for them.
  - A BUY of cost C lowers the cash by C in cents and raises the amount subtracted by its value, so the available balance drops twice (`LedgerProofs.AvailableAfterBuy`).
  - With $10,000, a BUY of one unit at $50 leaves $9,950 of cash but only $9,900 available (`LedgerProofs.AvailableBalanceCountsBuysTwice`).
- **Filled and cancelled orders are not immutable.** `markAsFilled` and `markAsCancelled` have no guard on the prior status.
- **The buy commission is recorded but never charged.** The buyer is also never refunded the difference when a BUY trades below its own price.
- **Search is a `LIKE` pattern.** The search term is spliced into `'%term%'` unescaped, so a `%` or `_` in the term acts as a wildcard, and letters match regardless of ASCII case (`Tickers.Like`).

## Model

| member | source | states |
|---|---|---|
| Fixed.TruncDiv | app/Http/Controllers/Api/OrderController.php:158 | bcmath's digit dropping: the quotient truncated toward zero, with its remainder bounds for either sign |
| Fixed.RoundDiv | app/Models/User.php:40 | PHP round(): the nearest quotient, halves away from zero, for either sign |
| Fixed.Commission | app/Http/Controllers/Api/OrderController.php:273-275 | bcmul(value, 0.015, 18) is 1.5% of the value truncated at scale 18 and is non-negative for a non-negative value |
| Fixed.WidenedCents | app/Http/Controllers/Api/OrderController.php:340-341 | rounding a scale-18 value to cents through the float path agrees with its decimal:2 rounding |
| Fixed.RefundMatchesDebit | app/Http/Controllers/Api/OrderController.php:458-461 | the cents refunded on cancelling a BUY (exact amount × price) equal the cents debited at placement (product truncated to 18 digits) |
| Fixed.SellerProceedsBounds | app/Http/Controllers/Api/OrderController.php:339-341 | the seller is credited the value in cents minus the commission in cents, which lies between 0 and the value |
| Fixed.SellerPaidFromBuyerDebit | app/Http/Controllers/Api/OrderController.php:265-270 | a trade at a sell price no higher than the buy price never credits the seller more cents than the buyer was debited |
| Fixed.OneUnitAtNineThousand | app/Http/Controllers/Api/OrderController.php:265-275 | one unit at $9,000: a $135.00 commission and $8,865.00 to the seller |
| Assets.AvailableIsOwned | app/Models/Asset.php:69-80 | with a non-negative lock, an amount available is also owned |
| Assets.Lock | app/Models/Asset.php:85-93 | lockAmount succeeds iff available ≥ x, and then only locked_amount changes, lowering the available amount by x |
| Assets.Unlock | app/Models/Asset.php:98-106 | unlockAmount succeeds iff locked_amount ≥ x, and then amount is unchanged and the available amount rises by x |
| Assets.Add | app/Models/Asset.php:111-115 | addAmount leaves locked_amount unchanged and raises the available amount by x |
| Assets.Subtract | app/Models/Asset.php:120-128 | subtractAmount succeeds iff available ≥ x, and then locked_amount is unchanged and the available amount falls by x |
| Assets.Release | app/Models/Asset.php:133-142 | releaseLockedAmount succeeds iff locked_amount ≥ x, and then amount falls by x and the available amount is unchanged |
| Assets.OperationsPreserveConsistency | app/Models/Asset.php:85-142 | for x ≥ 0 every successful operation keeps 0 ≤ locked_amount ≤ amount |
| Assets.NegativeLockBreaksConsistency | app/Models/Asset.php:85-93 | lockAmount has no sign check: locking −1 on an empty row succeeds and leaves a negative lock |
| Users.RoundReal | app/Models/User.php:40 | round(v) is the nearest integer, halves away from zero |
| Users.Dollars | app/Models/User.php:39 | the balance accessor is stored cents / 100 |
| Users.BalanceRoundTrip | app/Models/User.php:36-42 | storing what the accessor returns gives back the same stored cents |
| Users.CashBalance | app/Models/User.php:115-118 | getCashBalance is the accessor value |
| Users.FundsCheckIsHundredfold | app/Models/User.php:64-67 | hasSufficientFunds(x) holds iff stored cents ≥ 100 × round(x × 100) |
| Users.TenThousandCannotSpendNineThousand | app/Models/User.php:64-67 | a $10,000 balance fails the funds check for a $9,000 purchase |
| Users.Deduct | app/Models/User.php:51-61 | deductMoney succeeds iff hasSufficientFunds holds, and then lowers the stored cents by round(x × 100) |
| Users.DeductKeepsBalanceNonNegative | app/Models/User.php:51-61 | a successful non-negative deduction from a non-negative balance leaves it non-negative |
| Users.Credit | app/Models/User.php:45-48 | addMoney raises the stored cents by exactly round(x × 100), with no sign check |
| Orders.StatusText | app/Models/Order.php:69-77 | status_text is "Unknown" iff the status is not 1, 2 or 3 |
| Orders.StatusTextInjective | app/Models/Order.php:69-77 | the three valid statuses have three different texts |
| Orders.ExactlyOneStatus | app/Models/Order.php:122-141 | a valid status answers exactly one of isOpen/isFilled/isCancelled; any other answers none |
| Orders.Total | app/Models/Order.php:106-109 | total is price × amount truncated to cents: t cents ≤ price × amount < t + 1 cents |
| Orders.CancelAnnouncesCancelled | app/Models/Order.php:265-277 | the update hook reports "cancelled" for markAsCancelled iff the order was not already cancelled, otherwise "updated" |
| Orders.FillAnnouncesFilled | app/Models/Order.php:265-277 | the update hook reports "filled" for markAsFilled iff the order was not already filled, otherwise "updated" |
| Orders.Filled | app/Models/Order.php:146-152 | markAsFilled's row: status FILLED and filled_at set, with no guard on the prior status; its effect is stated by Orders.FillAnnouncesFilled and LedgerProofs.FillPairCompletes |
| Orders.Cancelled | app/Models/Order.php:157-163 | markAsCancelled's row: status CANCELLED and cancelled_at set, with no guard on the prior status; its effect is stated by Orders.CancelAnnouncesCancelled and LedgerProofs.CancelKeepsConsistent |
| Orders.UpdateAction | app/Models/Order.php:259-283 | the action the updated hook announces; Orders.FillAnnouncesFilled and Orders.CancelAnnouncesCancelled state it for both status changes |
| Orders.TotalValue | app/Models/Order.php:232-235 | getTotalValue of orders with non-negative prices and amounts is non-negative |
| Orders.TotalValueAppend | app/Models/Order.php:232-235 | getTotalValue is additive: one more order adds its total |
| Orders.LockedAmountCoversOpenSells | app/Models/Order.php:240-247 | getLockedAmountForUserAndTicker counts open orders of both sides, so it bounds from above the quantity locked by open SELL orders |
| Orders.LockedAmountForUserAndTicker | app/Models/Order.php:240-247 | the open orders' amount of the user on the ticker, both sides; Orders.LockedAmountCoversOpenSells bounds the open-SELL lock by it |
| Trades.FindOrder | app/Models/Trade.php:39-50 | the buyOrder/sellOrder relation finds an order with that id, or there is none |
| Trades.ForTicker | app/Models/Trade.php:79-86 | forTicker keeps exactly the trades whose buy order or sell order is on the ticker |
| Trades.Recent | app/Models/Trade.php:91-94 | recent(n) returns min(n, count) distinct rows of the table (a sub-multiset), in descending id order, and every trade left out has a smaller id than each one kept |
| Tickers.AvailableTypes | app/Models/Ticker.php:110-113 | there are four ticker types |
| Tickers.TypeNameKnownIffAvailable | app/Models/Ticker.php:27-36 | type_name is a known name exactly for the four available types |
| Tickers.TypeName | app/Models/Ticker.php:27-36 | the type_name attribute; Tickers.TypeNameKnownIffAvailable states it is known exactly for the four available types |
| Tickers.WhereType | app/Models/Ticker.php:44-80 | each type scope keeps exactly the tickers of that type |
| Tickers.Search | app/Models/Ticker.php:89-92 | search keeps exactly the tickers whose symbol matches the LIKE pattern `%term%`, the term spliced in unescaped |
| Tickers.LikeLiteral | app/Models/Ticker.php:89-92 | a LIKE pattern without `%` or `_` matches exactly the strings equal to it up to ASCII case |
| Tickers.LikeLeadingPercent | app/Models/Ticker.php:89-92 | a leading `%` matches iff the rest of the pattern matches some suffix of the string |
| Tickers.LikePrefix | app/Models/Ticker.php:89-92 | a wildcard-free term followed by `%` matches exactly the strings that start with the term up to case |
| Tickers.LikeContains | app/Models/Ticker.php:89-92 | for a wildcard-free term, `%term%` matches iff the term occurs in the string up to case |
| Tickers.SearchLiteralTerm | app/Models/Ticker.php:89-92 | a search for a term without wildcards keeps exactly the tickers whose symbol contains it, ignoring ASCII case |
| Tickers.SearchPercentKeepsAll | app/Models/Ticker.php:89-92 | the term "%" is itself a wildcard and keeps every ticker |
| Tickers.SearchExamples | app/Models/Ticker.php:89-92 | "btc" and "B_C" both find BTC, and "ETH" does not |
| Tickers.SearchEmptyTermKeepsAll | app/Models/Ticker.php:89-92 | an empty search term keeps every ticker, in order |
| Tickers.FindBySymbol | app/Http/Controllers/Api/OrderController.php:94 | where('symbol')->first() returns the first ticker whose symbol equals the given one, or there is none |
| Tickers.SearchFindsSymbol | app/Models/Ticker.php:89-92 | searching for an existing symbol finds its ticker, even when the symbol holds a wildcard character |
| Tickers.LikeSelf | app/Models/Ticker.php:89-92 | every string matches itself as a pattern, wildcards included |
| Tickers.LockedAtMostHoldings | app/Models/Ticker.php:126-137 | over consistent holdings, 0 ≤ total_locked_amount ≤ total_holdings |
| Tickers.TotalHoldings | app/Models/Ticker.php:126-137 | total_holdings as the sum of amount; Tickers.LockedAtMostHoldings bounds total_locked_amount by it |
| Tickers.TotalLocked | app/Models/Ticker.php:126-137 | total_locked_amount as the sum of locked_amount; Tickers.LockedAtMostHoldings states 0 ≤ it ≤ total_holdings over consistent rows |
| Collections.Filter | app/Http/Controllers/Api/OrderController.php:220-222 | the where clauses keep exactly the rows that satisfy them |
| Collections.FilterAppend | app/Http/Controllers/Api/OrderController.php:220-222 | filtering keeps table order: a row appended to the table is appended to the result iff it passes |
| Collections.FindFirst | app/Http/Controllers/Api/OrderController.php:438-440 | first() after a where is the first row that satisfies it, or none when no row does |
| Collections.SortBy | app/Http/Controllers/Api/OrderController.php:223-233 | orderBy returns a sorted permutation of its input |
| Collections.Take | app/Http/Controllers/Api/OrderBookController.php:43 | limit(n) is the first min(n, count) rows |
| Collections.SortedPrefixIsLeast | app/Http/Controllers/Api/OrderBookController.php:42-43 | orderBy then limit keeps rows of the table, and no dropped row sorts before a kept one |
| Collections.SortedPrefixIsSubMultiset | app/Http/Controllers/Api/OrderBookController.php:42-43 | orderBy then limit keeps each row at most as often as the table holds it: the rows shown are a sub-multiset of the table |
| Ledger.HttpStatus | app/Http/Controllers/Api/OrderController.php:76-150 | validation failures answer 422, a missing symbol or order 404, a non-open order 400, a failure inside the transaction 500 |
| Ledger.PlaceBuy | app/Http/Controllers/Api/OrderController.php:155-180 | a BUY succeeds only when the funds check passes, and then appends one BUY order; it fails with InsufficientFunds exactly when the check fails |
| Ledger.PlaceSell | app/Http/Controllers/Api/OrderController.php:185-210 | a SELL succeeds only when the available holding covers the amount, and then appends one SELL order; it fails with InsufficientHoldings exactly when it does not |
| Ledger.Candidates | app/Http/Controllers/Api/OrderController.php:217-234 | the matching query returns exactly the open opposite-side orders on the ticker at a crossing price, sorted by best price then oldest |
| Ledger.FirstExactMatch | app/Http/Controllers/Api/OrderController.php:236-247 | the scan stops at the first candidate whose remaining quantity equals the new order's, and finds none only if no candidate's does |
| Ledger.CandidateRow | app/Http/Controllers/Api/OrderController.php:217-234 | every row the matching query returns is the table row its id names, crosses the order and sits on the other side |
| Ledger.Counterparty | app/Http/Controllers/Api/OrderController.php:215-248 | the order traded with is a row of the table that crosses the order (other side, same ticker, open, price no worse) and has the same remaining quantity |
| Ledger.Match | app/Http/Controllers/Api/OrderController.php:215-248 | attemptOrderMatching; LedgerProofs.MatchKeepsConsistent (never fails, keeps the invariant), LedgerProofs.MatchTradesWithFirstExact (one trade with the first exact match) and LedgerProofs.MatchWithoutExactChangesNothing state its effect |
| Ledger.Record | app/Http/Controllers/Api/OrderController.php:265-300 | executeTrade's writes before settling; LedgerProofs.ExecuteRecordsTrade (the trade row) and LedgerProofs.ExecuteFillsOrders with LedgerProofs.FillPairCompletes (the two filled orders) state them |
| Ledger.Execute | app/Http/Controllers/Api/OrderController.php:253-308 | executeTrade with the intended settlement (see "## Findings"); LedgerProofs.ExecuteRecordsTrade, ExecuteFillsOrders, ExecuteCreditsSeller, ExecuteMovesHoldings, ExecuteSucceeds and ExecuteKeepsConsistent state its effect |
| Ledger.Settle | app/Http/Controllers/Api/OrderController.php:313-344 | settlement fails with ReleaseFailed iff the seller has less than q locked; otherwise only the seller's cash changes, by the proceeds |
| Ledger.SettleAsWritten | app/Http/Controllers/Api/OrderController.php:318-341 | processTradeSettlement as written, with the null quantity and price read as 0; LedgerProofs.SettleAsWrittenMovesNothing and LedgerProofs.SettleAsWrittenKeepsLock state its effect |
| LedgerProofs.SettleAsWrittenMovesNothing | app/Http/Controllers/Api/OrderController.php:318-341 | settlement as written, reading a null quantity and price, always succeeds on a non-negative lock, leaves every holding as it was and lowers the seller's cash by the sell commission |
| LedgerProofs.SettleAsWrittenKeepsLock | app/Http/Controllers/Api/OrderController.php:318-330 | for every positive quantity, settlement as written leaves the seller's lock q above where the intended settlement leaves it |
| Fixed.RoundDivExact | app/Models/User.php:47 | round() of a whole number of cents is that number, for either sign |
| Ledger.SettleTransfers | app/Http/Controllers/Api/OrderController.php:327-337 | settlement moves q from the seller's locked holding to the buyer's holding and touches no other row |
| Ledger.PlacementKeepsIntegrity | app/Http/Controllers/Api/OrderController.php:171-179 | a placed order gets the next id and an existing user |
| Ledger.Place | app/Http/Controllers/Api/OrderController.php:76-150 | store from validation to the end of its transaction; LedgerProofs.PlacedOrderIsOpen, LedgerProofs.PlaceKeepsConsistent (keeps the invariant, fails only for the four client-caused errors) and Ledger.PlacementKeepsIntegrity state its effect |
| Ledger.FindUserOrder | app/Http/Controllers/Api/OrderController.php:438-440 | the lookup finds the first order with that id belonging to the user, or there is none |
| Ledger.Refund | app/Http/Controllers/Api/OrderController.php:460 | the refund of a cancelled BUY, amount × price as exact money; Fixed.RefundMatchesDebit and LedgerProofs.CancelUndoesBuy state that it gives back the debited cents |
| Ledger.CancelOpen | app/Http/Controllers/Api/OrderController.php:456-469 | cancelOrder's transaction; OrderController.Exchange.CancelOpenOrder is proved equal to it, and LedgerProofs.CancelUndoesBuy and CancelUndoesSell state its effect |
| Ledger.Cancel | app/Http/Controllers/Api/OrderController.php:434-489 | cancelOrder; LedgerProofs.CancelKeepsConsistent (keeps the invariant, fails only with not found or not open), LedgerProofs.CancelUndoesBuy and LedgerProofs.CancelUndoesSell state its effect |
| Ledger.AvailableBalance | app/Http/Controllers/Api/OrderController.php:50-71 | total is the cash balance, locked is the exact value of the user's open BUY orders, and available is max(0, total − locked) |
| Ledger.LockedForBuyOrders | app/Http/Controllers/Api/OrderController.php:56-62 | the sum of amount × price over the user's open BUY orders; LedgerProofs.LockedForBuyOrdersAppend and LedgerProofs.AvailableAfterBuy state how a BUY changes it |
| LedgerProofs.PlaceBuyKeepsConsistent | app/Http/Controllers/Api/OrderController.php:155-180 | a successful BUY placement keeps the ledger invariant (cash stays non-negative) |
| LedgerProofs.PlaceSellKeepsConsistent | app/Http/Controllers/Api/OrderController.php:185-210 | a successful SELL placement keeps the invariant: the lock grows by exactly the new open SELL quantity |
| LedgerProofs.SettleKeepsConsistent | app/Http/Controllers/Api/OrderController.php:313-344 | with q locked by the just-filled SELL order, settlement succeeds and restores the invariant |
| LedgerProofs.ExecuteKeepsConsistent | app/Http/Controllers/Api/OrderController.php:253-308 | executing two open, crossing, equal-quantity orders never fails and keeps the invariant |
| LedgerProofs.MatchKeepsConsistent | app/Http/Controllers/Api/OrderController.php:215-248 | matching an open order never fails and keeps the invariant |
| LedgerProofs.PlacedOrderIsOpen | app/Http/Controllers/Api/OrderController.php:171-179 | a placement appends exactly one OPEN order with the requested side, price and amount and nothing filled |
| LedgerProofs.PlaceKeepsConsistent | app/Http/Controllers/Api/OrderController.php:76-150 | placing an order keeps the invariant, and from a consistent ledger it fails only by validation, unknown symbol, insufficient funds or insufficient holdings |
| LedgerProofs.CancelKeepsConsistent | app/Http/Controllers/Api/OrderController.php:434-489 | cancelling keeps the invariant, and fails only with "not found" or "not open" |
| LedgerProofs.CancelUndoesBuy | app/Http/Controllers/Api/OrderController.php:458-461 | cancelling a just-placed BUY restores every balance and holding; the order remains as CANCELLED |
| LedgerProofs.CancelUndoesSell | app/Http/Controllers/Api/OrderController.php:462-467 | cancelling a just-placed SELL restores every balance and holding, except that the holding row getOrCreate inserted stays |
| LedgerProofs.NoExactMatch | app/Http/Controllers/Api/OrderController.php:236-247 | the scan finds a match iff some crossing open order has equal remaining quantity |
| LedgerProofs.BestPricedExactMatch | app/Http/Controllers/Api/OrderController.php:220-247 | the order matched has price-time priority over every other crossing order of equal remaining quantity |
| LedgerProofs.MatchWithoutExactChangesNothing | app/Http/Controllers/Api/OrderController.php:236-247 | with no exact match, matching changes no table and the new order stays open |
| LedgerProofs.CounterpartyIsFirstExact | app/Http/Controllers/Api/OrderController.php:236-247 | when the scan finds an exact match, the row traded with is exactly that match |
| LedgerProofs.FirstExactIsFirstInOrder | app/Http/Controllers/Api/OrderController.php:236-247 | in a list sorted by the query's keys, the first exact match exists whenever any exact match does and sorts no later than it |
| LedgerProofs.MatchTradesWithFirstExact | app/Http/Controllers/Api/OrderController.php:236-247 | with an exact match, a matching that succeeds writes exactly one trade, between the new order and that match, each in its side's column (MatchKeepsConsistent shows it succeeds) |
| LedgerProofs.ExecuteRecordsTrade | app/Http/Controllers/Api/OrderController.php:265-283 | a trade that executes appends exactly one trade row: the next id, the BUY and SELL order ids, and both commissions equal to 1.5% of sell price × buy remaining, read back in cents |
| LedgerProofs.ExecuteFillsOrders | app/Http/Controllers/Api/OrderController.php:288-300 | a trade that executes rewrites exactly the two order rows: the BUY one at the SELL price, both filled by the BUY order's remaining quantity |
| LedgerProofs.FillPairCompletes | app/Http/Controllers/Api/OrderController.php:288-300 | for an open BUY and an open SELL of equal remaining quantity, both rows end FILLED with filled_quantity equal to their amount and carry the SELL price |
| LedgerProofs.ExecuteSucceeds | app/Http/Controllers/Api/OrderController.php:253-308 | on consistent tables a trade between an open BUY and an open SELL of equal remaining quantity never fails |
| LedgerProofs.ExecuteCreditsSeller | app/Http/Controllers/Api/OrderController.php:313-344 | the seller is credited the value less the commission and a different buyer's cash is untouched |
| LedgerProofs.ExecuteMovesHoldings | app/Http/Controllers/Api/OrderController.php:313-344 | the quantity moves from the seller's lock to the buyer's holding and no other row changes |
| LedgerProofs.SettleCredits | app/Http/Controllers/Api/OrderController.php:339-341 | settlement credits the seller with the proceeds rounded to cents and leaves every other balance alone |
| LedgerProofs.LockedForBuyOrdersAppend | app/Http/Controllers/Api/OrderController.php:56-62 | the open-BUY sum grows by amount × price of an appended open BUY order of the user |
| LedgerProofs.AvailableAfterBuy | app/Http/Controllers/Api/OrderController.php:50-71 | after a BUY, total falls by its cost while locked rises by its value, so the available balance drops twice |
| LedgerProofs.AvailableBalanceCountsBuysTwice | app/Http/Controllers/Api/OrderController.php:56-64 | $10,000 buying one unit at $50 leaves a $9,950 balance but only $9,900 available |
| OrderBook.BookSide | app/Http/Controllers/Api/OrderBookController.php:39-60 | each side lists min(limit, n) distinct rows (a sub-multiset) of the ticker's n open orders on that side |
| OrderBook.BookSideSorted | app/Http/Controllers/Api/OrderBookController.php:39-60 | bids are in non-increasing and asks in non-decreasing price order |
| OrderBook.BookSideBest | app/Http/Controllers/Api/OrderBookController.php:39-60 | every open order left out by the limit is priced no better than each one listed |
| OrderBook.BookSideEmpty | app/Http/Controllers/Api/OrderBookController.php:39-60 | a side is empty iff the limit is 0 or the ticker has no open order on that side |
| OrderBook.MaxPrice | app/Http/Controllers/Api/OrderBookController.php:73 | max('price') bounds every row and is the price of one |
| OrderBook.MinPrice | app/Http/Controllers/Api/OrderBookController.php:74 | min('price') bounds every row and is the price of one |
| OrderBook.HighestBidIsBestBid | app/Http/Controllers/Api/OrderBookController.php:73 | for any limit of at least 1, highest_bid is the best open bid of the ticker, and 0 iff there is none |
| OrderBook.LowestAskIsBestAsk | app/Http/Controllers/Api/OrderBookController.php:74 | for any limit of at least 1, lowest_ask is the best open ask of the ticker, and 0 iff there is none |
| OrderBook.HighestBid | app/Http/Controllers/Api/OrderBookController.php:73 | max('price') ?? 0; OrderBook.HighestBidIsBestBid states that no open bid of the ticker is higher, that one equals it when any is shown, and that none is shown exactly when there is none |
| OrderBook.LowestAsk | app/Http/Controllers/Api/OrderBookController.php:74 | min('price') ?? 0; OrderBook.LowestAskIsBestAsk states that, when any ask is shown, no open ask of the ticker is lower and one equals it, and that none is shown exactly when there is none |
| OrderBook.Spread | app/Http/Controllers/Api/OrderBookController.php:83 | ask − bid when both are positive, else 0; OrderBook.MarketPriceIsMidSpread relates it to the market price |
| OrderBook.MarketPrice | app/Http/Controllers/Api/OrderBookController.php:75-77 | between bid and ask when both are positive, else whichever is positive, else 0, and 0 only then |
| OrderBook.MarketPriceIsMidSpread | app/Http/Controllers/Api/OrderBookController.php:75-83 | with both sides present, market_price is bid + spread/2 and ask − spread/2 |
| OrderBook.RemainingIsAmount | app/Http/Controllers/Api/OrderController.php:571-572 | over unfilled orders the remaining volume equals the amount volume |
| OrderBook.TotalTruncatesValue | app/Http/Controllers/Api/OrderBookController.php:86-87 | an order's total is within one cent below remaining × price |
| OrderBook.TotalsTruncateValue | app/Http/Controllers/Api/OrderBookController.php:84-87 | a side's sum of totals is at most its remaining × price value, and less than a cent per order below it |
| OrderBook.Index | app/Http/Controllers/Api/OrderBookController.php:15-96 | an invalid query fails validation; an unknown symbol answers empty lists, market_price 0 and no stats; a known one answers with stats |
| OrderBook.GetOrderBook | app/Http/Controllers/Api/OrderController.php:494-588 | fails only with a validation error or an unknown symbol (404), and otherwise answers with stats |
| OrderBook.EndpointsAgree | app/Http/Controllers/Api/OrderController.php:559-579 | while open orders are unfilled, both endpoints list the same rows with the same prices and volumes, and their values differ by less than a cent per order |
| OrderController.Exchange.AddMoney | app/Models/User.php:45-48 | the user's stored cents rise by round(x × 100); nothing else changes |
| OrderController.Exchange.DeductMoney | app/Models/User.php:51-61 | returns true iff hasSufficientFunds, then lowers the user's cents by round(x × 100); false changes nothing |
| OrderController.Exchange.GetOrCreate | app/Models/Asset.php:179-185 | returns the stored row or inserts an empty one; an existing row changes nothing |
| OrderController.Exchange.LockAmount | app/Models/Asset.php:85-93 | returns true iff available ≥ x and then writes the locked row; false changes nothing |
| OrderController.Exchange.UnlockAmount | app/Models/Asset.php:98-106 | returns true iff locked ≥ x and then writes the unlocked row; false changes nothing |
| OrderController.Exchange.AddAmount | app/Models/Asset.php:111-115 | rewrites only that row, with x more owned |
| OrderController.Exchange.SubtractAmount | app/Models/Asset.php:120-128 | returns true iff available ≥ x and then writes the reduced row; false changes nothing |
| OrderController.Exchange.ReleaseLockedAmount | app/Models/Asset.php:133-142 | returns true iff locked ≥ x and then writes the released row; false changes nothing |
| OrderController.Exchange.CreateOrder | app/Http/Controllers/Api/OrderController.php:171-179 | appends the row and returns its id |
| OrderController.Exchange.MarkAsFilled | app/Models/Order.php:146-152 | rewrites only that order, as FILLED with filled_at, whatever its status was |
| OrderController.Exchange.UnlockHolding | app/Http/Controllers/Api/OrderController.php:463-466 | getOrCreate then unlockAmount: succeeds iff the row (or an empty one) has that much locked, and then writes the unlocked row; on failure only the inserted empty row remains |
| OrderController.Exchange.MarkAsCancelled | app/Models/Order.php:157-163 | rewrites only that order, as CANCELLED with cancelled_at, whatever its status was |
| OrderController.Exchange.ProcessBuyOrder | app/Http/Controllers/Api/OrderController.php:155-180 | leaves the tables as Ledger.PlaceBuy says and returns the new order's id; on failure nothing changes |
| OrderController.Exchange.ProcessSellOrder | app/Http/Controllers/Api/OrderController.php:185-210 | leaves the tables as Ledger.PlaceSell says; on failure only getOrCreate's row remains |
| OrderController.Exchange.FindExactMatch | app/Http/Controllers/Api/OrderController.php:236-247 | the foreach with break returns the first candidate of equal remaining quantity, as Ledger.FirstExactMatch |
| OrderController.Exchange.FindMatchingOrder | app/Http/Controllers/Api/OrderController.php:217-247 | the query and scan return the row Ledger.Counterparty names |
| OrderController.Exchange.AttemptOrderMatching | app/Http/Controllers/Api/OrderController.php:215-248 | leaves the tables as Ledger.Match says; on failure nothing changes |
| OrderController.Exchange.ExecuteTrade | app/Http/Controllers/Api/OrderController.php:253-308 | leaves the tables as Ledger.Execute says; a failed settlement rolls every table back |
| OrderController.Exchange.ProcessTradeSettlement | app/Http/Controllers/Api/OrderController.php:313-344 | leaves the tables as Ledger.Settle says; on failure only getOrCreate's row remains |
| OrderController.Exchange.PlaceOrder | app/Http/Controllers/Api/OrderController.php:76-150 | leaves the tables as Ledger.Place says, rolls back on any failure, and keeps the ledger invariant |
| OrderController.Exchange.CancelOpenOrder | app/Http/Controllers/Api/OrderController.php:456-469 | the transaction leaves the tables as Ledger.CancelOpen says; a failed unlock rolls everything back |
| OrderController.Exchange.CancelOrder | app/Http/Controllers/Api/OrderController.php:434-489 | leaves the tables as Ledger.Cancel says, rolls back on any failure, and keeps the ledger invariant |

## Left out

- Event broadcasting is not modelled: OrderUpdated, TradeExecuted, ProfileUpdated, the `created`/`deleted` hooks and broadcastProfileUpdate are notification only, provided broadcasts are queued asynchronously. The queue configuration is not part of this model. On a synchronous queue, TradeExecuted::broadcastWith would run inside executeTrade's transaction. It reads `$$this->trade` (app/Events/TradeExecuted.php:64), which would raise an Error, and store's `catch (\Exception)` does not catch that Error. Of the hooks, only the action the `updated` hook chooses is modelled.
- Concurrency and row locking are not modelled. Each transaction is one atomic step, and its rollback is a snapshot put back.
- Float arithmetic is idealised as exact decimal arithmetic rounded to cents. It covers the `(float)` casts, `round(x × 100)` and the float sums of the order book. It also covers two float products: `$order->amount * $order->price` in getAvailableBalance (OrderController.php:61), which `Ledger.AvailableBalance` takes as exact, and the BUY refund `amount * price` in cancelOrder (OrderController.php:460). `Fixed.RefundMatchesDebit`'s equality of refund and debit holds only under that idealisation.
- Logging, JSON message texts, the `formatted_*` and side_icon accessors and ISO timestamps are not modelled.
- The hard-coded price table getCurrentPrice and the holdings valuation getUserHoldings are not modelled. getUserOrders and the User portfolio and profile values are not modelled either; they are float display arithmetic and call a Ticker::getPrice that does not exist.
- Order::getTotalInOrders and getOpenOrdersTotal are not modelled: they call an `orders()` relation that Order does not have.
- The Asset, Order and Trade query scopes are not modelled as functions of their own. They appear only as the filters of the queries that use them.
- Authentication is not modelled: the acting user is a parameter. `now()` is a timestamp parameter, and `opened_at`/`created_at` are one field.
- Request validation is modelled on typed values. The price and amount are already integers at their scale, and non-numeric or over-precise input is not represented.
- The width limits of the decimal columns are not modelled; values are unbounded integers.
- OrderController.Exchange.constructor: builds an exchange with no orders or trades from given balances and holdings. This stands in for the seeders, which are not modelled.
- OrderController.Exchange.ProcessSellOrder and OrderController.Exchange.ProcessTradeSettlement: on failure they keep the holding row getOrCreate inserted, as the code does. Only the enclosing transaction in PlaceOrder and ExecuteTrade removes it.
- Tickers.Search: `LIKE` is modelled with its two wildcards and ASCII case folding only. MySQL's default escape character `\` is not modelled, nor is the accent and non-ASCII folding of the `*_unicode_ci` collations.
- Tickers.FindBySymbol: compares symbols character for character, as SQLite's `=` or a binary collation does. Under MySQL's default case-insensitive collations, `where('symbol', …)` also ignores letter case and trailing spaces; the model does not capture that, because the database engine is not part of the application's code.
- Ledger.Candidates and OrderBook.BookSide: rows that tie on every ORDER BY key keep table (id) order. For matching the keys are price and created_at; for the book they are price alone. This tie order is the model's choice: SQL leaves it unspecified, and because created_at has one-second resolution, the code does not fix which of two such exact matches trades. The priority lemmas LedgerProofs.BestPricedExactMatch and OrderBook.BookSideBest hold whatever the tie order.

## Findings

| source | as written | input that shows it | evidently intended | confidence | as-written member | corrected member |
|---|---|---|---|---|---|---|
| app/Http/Controllers/Api/OrderController.php:318-341 | settlement reads `$trade->quantity` and `$trade->price`, which the Trade model does not have. Both read as 0, so nothing is released or transferred, and the seller is credited 0 minus the sell commission | any trade with a positive quantity, e.g. 1 unit at $9,000: the seller keeps the unit locked, the buyer receives nothing, and the seller's cash falls by $135.00 | release the traded quantity from the seller's lock, add it to the buyer's holding and credit the seller the value less the commission | high; not executed | LedgerProofs.SettleAsWrittenKeepsLock | LedgerProofs.ExecuteMovesHoldings |
