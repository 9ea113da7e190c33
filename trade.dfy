/**
 * A trade row (app/Models/Trade.php): the matched BUY and SELL orders and the
 * commission charged on each side, stored in cents (decimal(10,2)).
 */
module Trades {
  import opened Wrappers
  import opened Collections
  import opened Assets
  import opened Orders

  datatype Trade = Trade(id: nat, buyOrderId: nat, sellOrderId: nat, buyCommission: int, sellCommission: int)

  /** The order a foreign key points at: the first row with that id. */
  function FindOrder(orders: seq<Order>, id: nat): (r: Option<Order>)
    ensures r.Some? ==> r.value in orders && r.value.id == id
    ensures r.None? ==> forall i :: 0 <= i < |orders| ==> orders[i].id != id
  {
    var i := FindFirst(orders, (o: Order) => o.id == id);
    if i.None? then None else Some(orders[i.value])
  }

  /** whereHas('buyOrder', ticker) orWhereHas('sellOrder', ticker). */
  predicate InvolvesTicker(t: Trade, orders: seq<Order>, ticker: TickerId)
  {
    var b := FindOrder(orders, t.buyOrderId);
    var s := FindOrder(orders, t.sellOrderId);
    (b.Some? && b.value.ticker == ticker) || (s.Some? && s.value.ticker == ticker)
  }

  /** The forTicker scope. */
  function ForTicker(trades: seq<Trade>, orders: seq<Order>, ticker: TickerId): (r: seq<Trade>)
    ensures forall x :: x in r <==> x in trades && InvolvesTicker(x, orders, ticker)
  {
    Filter(trades, x => InvolvesTicker(x, orders, ticker))
  }

  function IdDescending(t: Trade): Key
  {
    Key(-(t.id as int), 0)
  }

  /** The recent scope: orderBy('id', 'desc')->limit(limit), newest first. */
  function Recent(trades: seq<Trade>, limit: nat := 100): (r: seq<Trade>)
    ensures |r| == if limit < |trades| then limit else |trades|
    ensures multiset(r) <= multiset(trades)
    ensures forall i :: 0 <= i < |r| ==> r[i] in trades
    ensures forall i, j :: 0 <= i < j < |r| ==> r[j].id <= r[i].id
    ensures forall x, i :: x in trades && x !in r && 0 <= i < |r| ==> x.id <= r[i].id
  {
    var t := SortBy(trades, IdDescending);
    var r := Take(t, limit);
    assert multiset(r) <= multiset(trades) by {
      SortedPrefixIsSubMultiset(trades, limit, IdDescending);
    }
    assert (forall i :: 0 <= i < |r| ==> r[i] in trades)
        && (forall x, i :: x in trades && x !in r && 0 <= i < |r| ==> x.id <= r[i].id) by {
      SortedPrefixIsLeast(trades, limit, IdDescending);
      forall x, i | x in trades && x !in r && 0 <= i < |r| ensures x.id <= r[i].id {
        assert KeyLe(IdDescending(r[i]), IdDescending(x));
      }
    }
    assert forall i, j :: 0 <= i < j < |r| ==> r[j].id <= r[i].id by {
      assert r == t[..|r|];
      forall i, j | 0 <= i < j < |r| ensures r[j].id <= r[i].id {
        assert KeyLe(IdDescending(t[i]), IdDescending(t[j]));
      }
    }
    r
  }
}
