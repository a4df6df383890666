/** The trade handlers: manual entry with the pip-model profit, delete by
    (trade id, user id), and the paged listing. */
module Trades {
  import opened Common
  import opened Text
  import opened Tables
  import Ordering

  datatype TradeError =
    | MissingFields  // 400: symbol, type, lots or entryPrice falsy
    | NotFound       // 404 from delete
    | InvalidPaging  // PostgreSQL rejects a negative LIMIT or OFFSET (the 500 path)

  /** The body of `POST /api/trades` after JSON decoding. */
  datatype ManualTrade = ManualTrade(
    symbol: string,
    side: string,
    lots: Option<real>,
    entryPrice: Option<real>,
    exitPrice: Option<real>,
    openedAt: Option<int>,
    closedAt: Option<int>)

  const PipsPerPriceUnit: real := 10000.0
  const PipValue: real := 10.0

  predicate ManualTradeComplete(m: ManualTrade)
  {
    m.symbol != [] && m.side != [] && Truthy(m.lots) && Truthy(m.entryPrice)
  }

  /** +1 for a buy (in any letter case), -1 for anything else. */
  function Direction(side: string): (d: real)
    ensures d == 1.0 <==> Lower(side) == "buy"
    ensures d == -1.0 <==> Lower(side) != "buy"
  {
    if Lower(side) == "buy" then 1.0 else -1.0
  }

  /** The stored upper-cased side keeps the direction of the one sent. */
  lemma DirectionOfStoredSide(side: string)
    ensures Direction(Upper(side)) == Direction(side)
  {
    LowerOfUpper(side);
  }

  /** The simplified pip model: no profit without a (truthy) exit price. */
  function ManualProfit(side: string, lots: real, entry: real, exit: Option<real>): real
  {
    if Truthy(exit) then (exit.value - entry) * PipsPerPriceUnit * lots * PipValue * Direction(side)
    else 0.0
  }

  /** With an exit price, the profit is 100000 account units per unit of
      price move per lot, signed by direction, whatever the sign of `lots`. */
  lemma ManualProfitFormula(side: string, lots: real, entry: real, exit: real)
    requires exit != 0.0
    ensures ManualProfit(side, lots, entry, Some(exit)) == 100000.0 * (exit - entry) * lots * Direction(side)
  {
    var p := ManualProfit(side, lots, entry, Some(exit));
    assert p == (exit - entry) * 10000.0 * lots * 10.0 * Direction(side);
  }

  /** For a positive lot size a buy gains when the price rises and a sell
      when it falls. */
  lemma ManualProfitSign(side: string, lots: real, entry: real, exit: real)
    requires exit != 0.0 && lots > 0.0
    ensures Lower(side) == "buy" ==> (ManualProfit(side, lots, entry, Some(exit)) > 0.0 <==> exit > entry)
    ensures Lower(side) != "buy" ==> (ManualProfit(side, lots, entry, Some(exit)) > 0.0 <==> exit < entry)
  {
    var p := ManualProfit(side, lots, entry, Some(exit));
    var m := (exit - entry) * lots;
    assert p == 100000.0 * m * Direction(side);
    if exit > entry { assert m > 0.0; }
    if exit < entry { assert m < 0.0; }
    if exit == entry { assert m == 0.0; }
  }

  /** Buying and selling the same move are mirror images. */
  lemma ManualProfitMirror(lots: real, entry: real, exit: Option<real>)
    ensures ManualProfit("buy", lots, entry, exit) == -ManualProfit("sell", lots, entry, exit)
  {
    assert Lower("buy") == "buy";
    assert Lower("sell") != "buy" by { assert Lower("sell")[0] == 's'; }
  }

  /** Validation and the row the insert stores. */
  function NewManualTrade(id: nat, userId: nat, m: ManualTrade): (r: Result<Trade, TradeError>)
    ensures r.Err? <==> !ManualTradeComplete(m)
    ensures r.Err? ==> r.error == MissingFields
    ensures r.Ok? ==> && r.value.id == id && r.value.userId == userId
                      && r.value.symbol == m.symbol && r.value.side == Upper(m.side)
                      && r.value.lots == m.lots.value && r.value.entryPrice == m.entryPrice.value
                      && r.value.exitPrice == m.exitPrice
                      && r.value.openedAt == m.openedAt && r.value.closedAt == m.closedAt
    ensures r.Ok? ==> r.value.profit == ManualProfit(m.side, m.lots.value, m.entryPrice.value, m.exitPrice)
    ensures r.Ok? && !Truthy(m.exitPrice) ==> r.value.profit == 0.0
  {
    if !ManualTradeComplete(m) then Err(MissingFields)
    else
      Ok(Trade(id, userId, m.symbol, Upper(m.side), m.lots.value, m.entryPrice.value, m.exitPrice,
               ManualProfit(m.side, m.lots.value, m.entryPrice.value, m.exitPrice),
               m.openedAt, m.closedAt))
  }

  // ---------------------------------------------------------------- delete

  predicate Matches(t: Trade, tradeId: nat, userId: nat)
  {
    t.id == tradeId && t.userId == userId
  }

  /** `DELETE FROM trades WHERE id = $1 AND user_id = $2`: the table without
      the matching rows, other rows in their order. */
  function Without(ts: seq<Trade>, tradeId: nat, userId: nat): (r: seq<Trade>)
    ensures |r| <= |ts|
    ensures forall k :: 0 <= k < |r| ==> r[k] in ts && !Matches(r[k], tradeId, userId)
  {
    if ts == [] then []
    else
      var last := ts[|ts| - 1];
      Without(ts[..|ts| - 1], tradeId, userId) + (if Matches(last, tradeId, userId) then [] else [last])
  }

  /** Delete reports "found" exactly when some row matched, and every row
      that did not match is kept. */
  lemma {:induction false} WithoutSpec(ts: seq<Trade>, tradeId: nat, userId: nat)
    ensures |Without(ts, tradeId, userId)| < |ts| <==> exists k :: 0 <= k < |ts| && Matches(ts[k], tradeId, userId)
    ensures forall t :: t in ts && !Matches(t, tradeId, userId) ==> t in Without(ts, tradeId, userId)
  {
    if ts != [] {
      var init := ts[..|ts| - 1];
      WithoutSpec(init, tradeId, userId);
      assert ts == init + [ts[|ts| - 1]];
      assert forall k :: 0 <= k < |init| ==> init[k] == ts[k];
      if exists k :: 0 <= k < |ts| && Matches(ts[k], tradeId, userId) {
        var k :| 0 <= k < |ts| && Matches(ts[k], tradeId, userId);
        if k < |init| { assert Matches(init[k], tradeId, userId); }
      }
    }
  }

  /** Deleting one user's trade leaves every other user's trades as they were. */
  lemma {:induction false} WithoutOtherUsers(ts: seq<Trade>, tradeId: nat, userId: nat, other: nat)
    requires other != userId
    ensures TradesOf(Without(ts, tradeId, userId), other) == TradesOf(ts, other)
  {
    if ts != [] {
      var init := ts[..|ts| - 1];
      var last := ts[|ts| - 1];
      WithoutOtherUsers(init, tradeId, userId, other);
      if !Matches(last, tradeId, userId) {
        TradesOfAppend(Without(init, tradeId, userId), last, other);
      } else {
        assert Without(ts, tradeId, userId) == Without(init, tradeId, userId);
        assert TradesOf(ts, other) == TradesOf(init, other) + [] == TradesOf(init, other);
      }
    }
  }

  /** Trade ids strictly increase along the table (serial ids, appended). */
  ghost predicate IdsIncreasing(ts: seq<Trade>)
  {
    forall i, j :: 0 <= i < j < |ts| ==> ts[i].id < ts[j].id
  }

  lemma {:induction false} WithoutUnmatched(ts: seq<Trade>, tradeId: nat, userId: nat)
    requires forall k :: 0 <= k < |ts| ==> !Matches(ts[k], tradeId, userId)
    ensures Without(ts, tradeId, userId) == ts
  {
    if ts != [] {
      WithoutUnmatched(ts[..|ts| - 1], tradeId, userId);
      assert ts[..|ts| - 1] + [ts[|ts| - 1]] == ts;
    }
  }

  lemma AppendKeepsIdsIncreasing(ts: seq<Trade>, t: Trade)
    requires IdsIncreasing(ts)
    requires forall k :: 0 <= k < |ts| ==> ts[k].id < t.id
    ensures IdsIncreasing(ts + [t])
  {
  }

  /** Deleting keeps ids increasing. */
  lemma {:induction false} WithoutKeepsIdsIncreasing(ts: seq<Trade>, tradeId: nat, userId: nat)
    requires IdsIncreasing(ts)
    ensures IdsIncreasing(Without(ts, tradeId, userId))
  {
    if ts != [] {
      var init := ts[..|ts| - 1];
      var last := ts[|ts| - 1];
      WithoutKeepsIdsIncreasing(init, tradeId, userId);
      var w := Without(init, tradeId, userId);
      forall k | 0 <= k < |w| ensures w[k].id < last.id {
        var i :| 0 <= i < |init| && init[i] == w[k];
      }
      if !Matches(last, tradeId, userId) {
        AppendKeepsIdsIncreasing(w, last);
      } else {
        assert Without(ts, tradeId, userId) == w;
      }
    }
  }

  /** With unique ids, a successful delete removes exactly one row. */
  lemma {:induction false} WithoutRemovesOne(ts: seq<Trade>, tradeId: nat, userId: nat)
    requires IdsIncreasing(ts)
    requires exists k :: 0 <= k < |ts| && Matches(ts[k], tradeId, userId)
    ensures |Without(ts, tradeId, userId)| == |ts| - 1
  {
    var init := ts[..|ts| - 1];
    var last := ts[|ts| - 1];
    if Matches(last, tradeId, userId) {
      assert forall k :: 0 <= k < |init| ==> init[k].id < last.id;
      WithoutUnmatched(init, tradeId, userId);
    } else {
      var k :| 0 <= k < |ts| && Matches(ts[k], tradeId, userId);
      assert Matches(init[k], tradeId, userId);
      WithoutRemovesOne(init, tradeId, userId);
    }
  }

  // --------------------------------------------------------------- listing

  const DefaultLimit: int := 50

  /** `ORDER BY closed_at DESC NULLS FIRST`: may `a` come before `b`? */
  predicate ClosedLatestFirst(a: Trade, b: Trade)
  {
    match (a.closedAt, b.closedAt)
    case (None, _) => true
    case (Some(_), None) => false
    case (Some(x), Some(y)) => x >= y
  }

  lemma ClosedLatestFirstIsTotalPreorder()
    ensures Ordering.TotalPreorder(ClosedLatestFirst)
  {
  }

  /** The response of `GET /api/trades`. */
  datatype TradePage = TradePage(trades: seq<Trade>, total: nat, limit: int, offset: int)

  /** `LIMIT limit OFFSET offset` over an ordered result. */
  function Window<T>(s: seq<T>, limit: nat, offset: nat): (r: seq<T>)
    ensures |r| <= limit
    ensures offset >= |s| ==> r == []
    ensures offset < |s| ==> r == s[offset..Min(offset + limit, |s|)]
  {
    if offset >= |s| then [] else s[offset..Min(offset + limit, |s|)]
  }

  /** Consecutive pages of the same size neither skip nor repeat a row:
      together they are the page of twice the size. */
  lemma WindowConsecutive<T>(s: seq<T>, limit: nat, offset: nat)
    ensures Window(s, limit, offset) + Window(s, limit, offset + limit) == Window(s, 2 * limit, offset)
  {
  }

  /** The order has no tiebreaker: two open trades may be listed either way
      round, and pages cut from two such orders need not fit together. */
  lemma TiedPagesMayRepeat(a: Trade, b: Trade)
    requires a.closedAt.None? && b.closedAt.None? && a != b
    ensures Ordering.SortedBy([a, b], ClosedLatestFirst) && Ordering.SortedBy([b, a], ClosedLatestFirst)
    ensures multiset([a, b]) == multiset([b, a])
    ensures Window([b, a], 1, 0) + Window([a, b], 1, 1) == [b, b]
  {
    assert [b, a][0..1] == [b];
    assert [a, b][1..2] == [b];
  }

  /** The user's trades, latest close first with open trades before all
      closed ones. */
  function OrderedTrades(ts: seq<Trade>, userId: nat): (r: seq<Trade>)
    ensures Ordering.SortedBy(r, ClosedLatestFirst)
    ensures multiset(r) == multiset(TradesOf(ts, userId))
    ensures |r| == |TradesOf(ts, userId)|
  {
    ClosedLatestFirstIsTotalPreorder();
    Ordering.Sort(TradesOf(ts, userId), ClosedLatestFirst)
  }

  /** The user's ordered trades, paged with limit 50 and offset 0 by default. */
  function ListTrades(ts: seq<Trade>, userId: nat, limitQuery: Option<int>, offsetQuery: Option<int>)
    : (r: Result<TradePage, TradeError>)
    ensures r.Err? <==> IntOr(limitQuery, DefaultLimit) < 0 || IntOr(offsetQuery, 0) < 0
    ensures r.Err? ==> r.error == InvalidPaging
    ensures r.Ok? ==> && r.value.total == |TradesOf(ts, userId)|
                      && r.value.limit == IntOr(limitQuery, DefaultLimit)
                      && r.value.offset == IntOr(offsetQuery, 0)
                      && |r.value.trades| == (if r.value.offset >= r.value.total then 0
                                              else Min(r.value.limit, r.value.total - r.value.offset))
                      && Ordering.SortedBy(r.value.trades, ClosedLatestFirst)
                      && multiset(r.value.trades) <= multiset(TradesOf(ts, userId))
    ensures r.Ok? ==> r.value.trades == Window(OrderedTrades(ts, userId), r.value.limit, r.value.offset)
  {
    var limit := IntOr(limitQuery, DefaultLimit);
    var offset := IntOr(offsetQuery, 0);
    if limit < 0 || offset < 0 then Err(InvalidPaging)
    else
      var ordered := OrderedTrades(ts, userId);
      WindowIsSortedSubset(ordered, limit, offset);
      Ok(TradePage(Window(ordered, limit, offset), |TradesOf(ts, userId)|, limit, offset))
  }

  lemma WindowIsSortedSubset(s: seq<Trade>, limit: nat, offset: nat)
    requires Ordering.SortedBy(s, ClosedLatestFirst)
    ensures Ordering.SortedBy(Window(s, limit, offset), ClosedLatestFirst)
    ensures multiset(Window(s, limit, offset)) <= multiset(s)
    ensures |Window(s, limit, offset)| == if offset >= |s| then 0 else Min(limit, |s| - offset)
  {
    if offset < |s| {
      var hi := Min(offset + limit, |s|);
      assert s == s[..offset] + s[offset..hi] + s[hi..];
    }
  }

  /** One page large enough returns every trade of the user and no other. */
  lemma ListTradesWholeTable(ts: seq<Trade>, userId: nat, limit: int)
    requires limit >= |TradesOf(ts, userId)|
    ensures ListTrades(ts, userId, Some(limit), None).Ok?
    ensures multiset(ListTrades(ts, userId, Some(limit), None).value.trades) == multiset(TradesOf(ts, userId))
  {
    WindowWhole(OrderedTrades(ts, userId), IntOr(Some(limit), DefaultLimit));
  }

  /** A page from offset 0 at least as large as the input is the whole input. */
  lemma WindowWhole<T>(s: seq<T>, limit: nat)
    requires limit >= |s|
    ensures Window(s, limit, 0) == s
  {
    if s != [] {
      assert s[0..|s|] == s;
    }
  }
}
