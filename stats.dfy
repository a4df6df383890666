/** The dashboard statistics of `GET /api/stats`, recomputed from the
    tables on every request. Counts, sums and extremes range over the
    user's CLOSED trades; the two sums of the profit factor range over ALL
    the user's trades, open ones included. Every division is guarded and
    yields 0 when its denominator is not positive. */
module Stats {
  import opened Common
  import opened Tables
  import Equity

  /** `... AND closed_at IS NOT NULL`, keeping order. */
  function Closed(ts: seq<Trade>): (r: seq<Trade>)
    ensures |r| <= |ts|
    ensures forall k :: 0 <= k < |r| ==> r[k] in ts && r[k].closedAt.Some?
  {
    if ts == [] then []
    else
      var last := ts[|ts| - 1];
      Closed(ts[..|ts| - 1]) + (if last.closedAt.Some? then [last] else [])
  }

  /** Every closed trade is kept, and nothing else. */
  lemma {:induction false} ClosedMembers(ts: seq<Trade>, t: Trade)
    ensures t in Closed(ts) <==> t in ts && t.closedAt.Some?
  {
    if ts != [] {
      var init := ts[..|ts| - 1];
      ClosedMembers(init, t);
      assert ts == init + [ts[|ts| - 1]];
    }
  }

  function CountWinning(ts: seq<Trade>): nat
  {
    if ts == [] then 0 else CountWinning(ts[..|ts| - 1]) + (if ts[|ts| - 1].profit > 0.0 then 1 else 0)
  }

  function CountLosing(ts: seq<Trade>): nat
  {
    if ts == [] then 0 else CountLosing(ts[..|ts| - 1]) + (if ts[|ts| - 1].profit < 0.0 then 1 else 0)
  }

  function CountFlat(ts: seq<Trade>): nat
  {
    if ts == [] then 0 else CountFlat(ts[..|ts| - 1]) + (if ts[|ts| - 1].profit == 0.0 then 1 else 0)
  }

  /** `SUM(profit)`, with the empty sum 0. */
  function SumProfit(ts: seq<Trade>): real
  {
    if ts == [] then 0.0 else SumProfit(ts[..|ts| - 1]) + ts[|ts| - 1].profit
  }

  /** `SUM(profit) ... AND profit > 0`. */
  function GrossProfit(ts: seq<Trade>): (r: real)
    ensures r >= 0.0
  {
    if ts == [] then 0.0
    else GrossProfit(ts[..|ts| - 1]) + (if ts[|ts| - 1].profit > 0.0 then ts[|ts| - 1].profit else 0.0)
  }

  /** `SUM(ABS(profit)) ... AND profit < 0`. */
  function GrossLoss(ts: seq<Trade>): (r: real)
    ensures r >= 0.0
  {
    if ts == [] then 0.0
    else GrossLoss(ts[..|ts| - 1]) + (if ts[|ts| - 1].profit < 0.0 then -ts[|ts| - 1].profit else 0.0)
  }

  /** `MAX(profit)` of a non-empty selection. */
  function Best(ts: seq<Trade>): (r: real)
    requires ts != []
    ensures exists k :: 0 <= k < |ts| && ts[k].profit == r
    ensures forall k :: 0 <= k < |ts| ==> ts[k].profit <= r
  {
    if |ts| == 1 then ts[0].profit
    else
      var init := ts[..|ts| - 1];
      var b := Best(init);
      assert forall k :: 0 <= k < |init| ==> ts[k] == init[k];
      if ts[|ts| - 1].profit > b then ts[|ts| - 1].profit else b
  }

  /** `MIN(profit)` of a non-empty selection. */
  function Worst(ts: seq<Trade>): (r: real)
    requires ts != []
    ensures exists k :: 0 <= k < |ts| && ts[k].profit == r
    ensures forall k :: 0 <= k < |ts| ==> r <= ts[k].profit
  {
    if |ts| == 1 then ts[0].profit
    else
      var init := ts[..|ts| - 1];
      var w := Worst(init);
      assert forall k :: 0 <= k < |init| ==> ts[k] == init[k];
      if ts[|ts| - 1].profit < w then ts[|ts| - 1].profit else w
  }

  /** The JSON body of `GET /api/stats` (before `toFixed` rounding). */
  datatype Summary = Summary(
    equity: real,
    totalTrades: nat,
    winningTrades: nat,
    losingTrades: nat,
    winRate: real,
    profitFactor: real,
    totalProfit: real,
    avgProfit: real,
    bestTrade: real,
    worstTrade: real)

  function WinRate(winning: nat, total: nat): real
  {
    if total > 0 then winning as real / total as real * 100.0 else 0.0
  }

  function ProfitFactor(gains: real, losses: real): real
  {
    if losses > 0.0 then gains / losses else 0.0
  }

  function Compute(ts: seq<Trade>, snapshots: seq<EquitySnapshot>, userId: nat): Summary
  {
    var mine := TradesOf(ts, userId);
    var closed := Closed(mine);
    var total := |closed|;
    Summary(
      Equity.CurrentEquity(snapshots, userId),
      total,
      CountWinning(closed),
      CountLosing(closed),
      WinRate(CountWinning(closed), total),
      ProfitFactor(GrossProfit(mine), GrossLoss(mine)),
      SumProfit(closed),
      if total > 0 then SumProfit(closed) / total as real else 0.0,
      if total > 0 then Best(closed) else 0.0,
      if total > 0 then Worst(closed) else 0.0)
  }

  // ---------------------------------------------------- arithmetic helpers

  lemma ScaleMonotone(n: real, a: real, b: real)
    requires n >= 0.0 && a <= b
    ensures n * a <= n * b
  {
  }

  lemma QuotientBetween(n: real, lo: real, sum: real, hi: real)
    requires n > 0.0 && n * lo <= sum <= n * hi
    ensures lo <= sum / n <= hi
  {
    var q := sum / n;
    assert n * q == sum;
    ScaleCancel(n, lo, q);
    ScaleCancel(n, q, hi);
  }

  lemma ScaleCancel(n: real, a: real, b: real)
    requires n > 0.0 && n * a <= n * b
    ensures a <= b
  {
  }

  lemma WinRateRange(winning: nat, total: nat)
    requires winning <= total
    ensures 0.0 <= WinRate(winning, total) <= 100.0
    ensures WinRate(winning, total) == 0.0 <==> winning == 0
  {
    if total > 0 {
      var n := total as real;
      QuotientBetween(n, 0.0, winning as real, 1.0);
      var q := winning as real / n;
      assert n * q == winning as real;
    }
  }

  lemma ProfitFactorRange(gains: real, losses: real)
    requires gains >= 0.0 && losses >= 0.0
    ensures ProfitFactor(gains, losses) >= 0.0
    ensures ProfitFactor(gains, losses) == 0.0 <==> gains == 0.0 || losses == 0.0
  {
    if losses > 0.0 {
      QuotientBetween(losses, 0.0, gains, gains / losses);
      var q := gains / losses;
      assert losses * q == gains;
    }
  }

  // ---------------------------------------------------------------- lemmas

  /** Every trade is winning, losing or flat, and exactly one of them. */
  lemma {:induction false} CountsPartition(ts: seq<Trade>)
    ensures CountWinning(ts) + CountLosing(ts) + CountFlat(ts) == |ts|
  {
    if ts != [] { CountsPartition(ts[..|ts| - 1]); }
  }

  /** Winning and losing trades are closed trades with positive and
      negative profit; zero-profit trades count as neither. */
  lemma WinningLosingBound(ts: seq<Trade>, snapshots: seq<EquitySnapshot>, userId: nat)
    ensures var s := Compute(ts, snapshots, userId);
      && s.winningTrades + s.losingTrades + CountFlat(Closed(TradesOf(ts, userId))) == s.totalTrades
      && s.winningTrades + s.losingTrades <= s.totalTrades
  {
    CountsPartition(Closed(TradesOf(ts, userId)));
  }

  lemma {:induction false} CountWinningBound(ts: seq<Trade>)
    ensures CountWinning(ts) <= |ts|
  {
    if ts != [] { CountWinningBound(ts[..|ts| - 1]); }
  }

  /** The win rate is a percentage; it is 0 exactly when there is no closed
      winning trade, in particular when there is no closed trade at all. */
  lemma WinRateSpec(ts: seq<Trade>, snapshots: seq<EquitySnapshot>, userId: nat)
    ensures var s := Compute(ts, snapshots, userId);
      && 0.0 <= s.winRate <= 100.0
      && (s.winRate == 0.0 <==> s.winningTrades == 0)
      && (s.totalTrades > 0 ==> s.winRate == s.winningTrades as real / s.totalTrades as real * 100.0)
  {
    var closed := Closed(TradesOf(ts, userId));
    CountWinningBound(closed);
    WinRateRange(CountWinning(closed), |closed|);
    if |closed| == 0 {
      assert CountWinning(closed) == 0;
    }
  }

  /** Gross loss is positive exactly when some trade lost money. */
  lemma {:induction false} GrossLossPositive(ts: seq<Trade>)
    ensures GrossLoss(ts) > 0.0 <==> exists k :: 0 <= k < |ts| && ts[k].profit < 0.0
  {
    if ts != [] {
      var init := ts[..|ts| - 1];
      GrossLossPositive(init);
      assert forall k :: 0 <= k < |init| ==> ts[k] == init[k];
    }
  }

  /** Gross profit is positive exactly when some trade made money. */
  lemma {:induction false} GrossProfitPositive(ts: seq<Trade>)
    ensures GrossProfit(ts) > 0.0 <==> exists k :: 0 <= k < |ts| && ts[k].profit > 0.0
  {
    if ts != [] {
      var init := ts[..|ts| - 1];
      GrossProfitPositive(init);
      assert forall k :: 0 <= k < |init| ==> ts[k] == init[k];
    }
  }

  /** The profit factor of a list of trades: never negative, 0 exactly when
      none lost money or none made money, gross profit over gross loss
      otherwise. */
  lemma ProfitFactorOfTrades(ts: seq<Trade>)
    ensures var pf := ProfitFactor(GrossProfit(ts), GrossLoss(ts));
      && pf >= 0.0
      && (pf == 0.0 <==> (forall k :: 0 <= k < |ts| ==> ts[k].profit >= 0.0) ||
                         (forall k :: 0 <= k < |ts| ==> ts[k].profit <= 0.0))
      && (GrossLoss(ts) > 0.0 <==> exists k :: 0 <= k < |ts| && ts[k].profit < 0.0)
      && (GrossLoss(ts) > 0.0 ==> pf == GrossProfit(ts) / GrossLoss(ts))
  {
    GrossLossPositive(ts);
    GrossProfitPositive(ts);
    ProfitFactorRange(GrossProfit(ts), GrossLoss(ts));
  }

  /** The dashboard's profit factor is the ratio of gross profit to gross
      loss over ALL the user's trades, open ones included, and never
      negative. */
  lemma ProfitFactorSpec(ts: seq<Trade>, snapshots: seq<EquitySnapshot>, userId: nat)
    ensures var mine := TradesOf(ts, userId);
      var pf := Compute(ts, snapshots, userId).profitFactor;
      && pf >= 0.0
      && (GrossLoss(mine) > 0.0 ==> pf == GrossProfit(mine) / GrossLoss(mine))
  {
    ProfitFactorOfTrades(TradesOf(ts, userId));
  }

  /** The profit factor is 0 exactly when none of the user's trades (open
      or closed) lost money, or none made money. */
  lemma ProfitFactorZero(ts: seq<Trade>, snapshots: seq<EquitySnapshot>, userId: nat)
    ensures var mine := TradesOf(ts, userId);
      (Compute(ts, snapshots, userId).profitFactor == 0.0 <==>
         (forall k :: 0 <= k < |mine| ==> mine[k].profit >= 0.0) ||
         (forall k :: 0 <= k < |mine| ==> mine[k].profit <= 0.0))
  {
    ProfitFactorOfTrades(TradesOf(ts, userId));
  }

  /** `n` copies of `x` added up, so that the bounds below stay linear. */
  function Times(n: nat, x: real): real
  {
    if n == 0 then 0.0 else Times(n - 1, x) + x
  }

  lemma {:induction false} TimesMonotone(n: nat, a: real, b: real)
    requires a <= b
    ensures Times(n, a) <= Times(n, b)
  {
    if n > 0 { TimesMonotone(n - 1, a, b); }
  }

  lemma {:induction false} TimesIsProduct(n: nat, x: real)
    ensures Times(n, x) == n as real * x
  {
    if n > 0 { TimesIsProduct(n - 1, x); }
  }

  lemma {:induction false} SumBetweenExtremes(ts: seq<Trade>)
    requires ts != []
    ensures Times(|ts|, Worst(ts)) <= SumProfit(ts) <= Times(|ts|, Best(ts))
  {
    if |ts| == 1 {
      assert ts[..0] == [];
    } else {
      var init := ts[..|ts| - 1];
      SumBetweenExtremes(init);
      TimesMonotone(|init|, Worst(ts), Worst(init));
      TimesMonotone(|init|, Best(init), Best(ts));
    }
  }

  lemma AverageOfBounds(n: nat, lo: real, sum: real, hi: real)
    requires n > 0 && Times(n, lo) <= sum <= Times(n, hi)
    ensures lo <= sum / n as real <= hi
  {
    TimesIsProduct(n, lo);
    TimesIsProduct(n, hi);
    QuotientBetween(n as real, lo, sum, hi);
  }

  /** The average of a non-empty selection lies between its extremes. */
  lemma AverageBetweenExtremes(ts: seq<Trade>)
    requires ts != []
    ensures Worst(ts) <= SumProfit(ts) / |ts| as real <= Best(ts)
  {
    SumBetweenExtremes(ts);
    AverageOfBounds(|ts|, Worst(ts), SumProfit(ts), Best(ts));
  }

  /** Best, worst and average come from the closed trades: best and worst
      are the profit of some closed trade and bound all of them, and the
      average lies between them. Without closed trades all three are 0. */
  lemma ExtremesSpec(ts: seq<Trade>, snapshots: seq<EquitySnapshot>, userId: nat)
    ensures var s := Compute(ts, snapshots, userId);
      var closed := Closed(TradesOf(ts, userId));
      && (closed == [] ==> s.bestTrade == 0.0 && s.worstTrade == 0.0 && s.avgProfit == 0.0 && s.totalProfit == 0.0)
      && (closed != [] ==>
            && (exists k :: 0 <= k < |closed| && closed[k].profit == s.bestTrade)
            && (exists k :: 0 <= k < |closed| && closed[k].profit == s.worstTrade)
            && (forall k :: 0 <= k < |closed| ==> s.worstTrade <= closed[k].profit <= s.bestTrade)
            && s.worstTrade <= s.avgProfit <= s.bestTrade)
  {
    var closed := Closed(TradesOf(ts, userId));
    if closed != [] {
      AverageBetweenExtremes(closed);
    }
  }

  /** The reported equity is that of the user's most recent snapshot, or 0
      when the user has none. */
  lemma EquitySpec(ts: seq<Trade>, snapshots: seq<EquitySnapshot>, userId: nat)
    ensures var e := Compute(ts, snapshots, userId).equity;
      && ((forall k :: 0 <= k < |snapshots| ==> snapshots[k].userId != userId) ==> e == 0.0)
      && ((exists k :: 0 <= k < |snapshots| && snapshots[k].userId == userId) ==>
            exists x :: x in snapshots && x.userId == userId && x.equity == e
              && forall k :: 0 <= k < |snapshots| && snapshots[k].userId == userId ==>
                   snapshots[k].recordedAt <= x.recordedAt)
  {
    var latest := Equity.Latest(snapshots, userId);
    if latest.Some? {
      assert latest.value in snapshots && latest.value.equity == Compute(ts, snapshots, userId).equity;
    }
  }

  /** Division-by-zero safety: a user with no closed trade gets zeros
      (the profit factor, which also counts open trades, is covered by
      `ProfitFactorZero`). */
  lemma NoClosedTradesGivesZeros(ts: seq<Trade>, snapshots: seq<EquitySnapshot>, userId: nat)
    requires Closed(TradesOf(ts, userId)) == []
    ensures var s := Compute(ts, snapshots, userId);
      s.totalTrades == 0 && s.winningTrades == 0 && s.losingTrades == 0 && s.winRate == 0.0
      && s.avgProfit == 0.0 && s.bestTrade == 0.0 && s.worstTrade == 0.0 && s.totalProfit == 0.0
  {
  }

  /** Recording a new open trade changes no closed-trade figure, yet it
      does enter the profit factor. */
  lemma OpenTradeOnlyMovesProfitFactor(ts: seq<Trade>, snapshots: seq<EquitySnapshot>, t: Trade)
    requires t.closedAt.None?
    ensures var before := Compute(ts, snapshots, t.userId);
      var after := Compute(ts + [t], snapshots, t.userId);
      after == before.(profitFactor := after.profitFactor)
  {
    TradesOfAppend(ts, t, t.userId);
    var mine := TradesOf(ts, t.userId);
    assert (mine + [t])[..|mine|] == mine;
    assert Closed(mine + [t]) == Closed(mine);
  }

  /** The open-trade quirk is real: one losing closed trade and one
      winning open trade give a profit factor of 2, not 0. */
  lemma OpenTradeCountsInProfitFactor()
    ensures var closedLoss := Trade(1, 7, "EURUSD", "SELL", 1.0, 1.1, Some(1.1005), -50.0, None, Some(100));
      var openGain := Trade(2, 7, "EURUSD", "BUY", 1.0, 1.1, Some(1.101), 100.0, None, None);
      var s := Compute([closedLoss, openGain], [], 7);
      s.totalTrades == 1 && s.winningTrades == 0 && s.profitFactor == 2.0
  {
    var closedLoss := Trade(1, 7, "EURUSD", "SELL", 1.0, 1.1, Some(1.1005), -50.0, None, Some(100));
    var openGain := Trade(2, 7, "EURUSD", "BUY", 1.0, 1.1, Some(1.101), 100.0, None, None);
    var ts := [closedLoss, openGain];
    assert ts[..1] == [closedLoss];
    assert [closedLoss][..0] == [];
    assert TradesOf([closedLoss], 7) == [closedLoss];
    assert TradesOf(ts, 7) == ts;
    assert Closed([closedLoss]) == [closedLoss];
    assert Closed(ts) == [closedLoss];
    assert GrossProfit([closedLoss]) == 0.0;
    assert GrossProfit(ts) == 100.0;
    assert GrossLoss([closedLoss]) == 50.0;
    assert GrossLoss(ts) == 50.0;
    assert CountWinning([closedLoss]) == 0;
  }
}
