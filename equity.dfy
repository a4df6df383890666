/** Equity snapshots: validation of a manual snapshot, the most recent
    equity, and the equity history of the last `days` days. The clock is
    the parameter `now` (seconds). */
module Equity {
  import opened Common
  import opened Tables
  import Ordering

  datatype EquityError = InvalidEquity  // 400: `!equity || isNaN(equity)`

  /** A missing, zero or non-numeric equity is rejected; any other value,
      negative ones included, is stored as given. */
  function CheckEquity(equity: Option<real>): (r: Result<real, EquityError>)
    ensures r.Ok? <==> equity.Some? && equity.value != 0.0
    ensures r.Ok? ==> r.value == equity.value
  {
    if !Truthy(equity) then Err(InvalidEquity) else Ok(equity.value)
  }

  /** `ORDER BY recorded_at DESC LIMIT 1` among the user's snapshots; of
      two with the same time the later row is taken. */
  function Latest(s: seq<EquitySnapshot>, userId: nat): (r: Option<EquitySnapshot>)
    ensures r.None? <==> forall k :: 0 <= k < |s| ==> s[k].userId != userId
    ensures r.Some? ==> r.value in s && r.value.userId == userId
    ensures r.Some? ==> forall k :: 0 <= k < |s| && s[k].userId == userId ==> s[k].recordedAt <= r.value.recordedAt
  {
    if s == [] then None
    else
      var init := s[..|s| - 1];
      var last := s[|s| - 1];
      var before := Latest(init, userId);
      assert forall k :: 0 <= k < |init| ==> s[k] == init[k];
      if last.userId == userId && (before.None? || before.value.recordedAt <= last.recordedAt) then Some(last)
      else before
  }

  /** `parseFloat(latest?.equity) || 0`. */
  function CurrentEquity(s: seq<EquitySnapshot>, userId: nat): real
  {
    match Latest(s, userId)
    case None => 0.0
    case Some(x) => x.equity
  }

  /** A snapshot appended no earlier than any other of the user's is the
      equity the dashboard reports next. */
  lemma CurrentEquityAfterAppend(s: seq<EquitySnapshot>, x: EquitySnapshot)
    requires forall k :: 0 <= k < |s| && s[k].userId == x.userId ==> s[k].recordedAt <= x.recordedAt
    ensures CurrentEquity(s + [x], x.userId) == x.equity
  {
    assert (s + [x])[..|s|] == s;
  }

  // --------------------------------------------------------------- history

  const SecondsPerDay: int := 86400
  const DefaultDays: int := 30

  /** `recorded_at > cutoff`, keeping order. */
  function Since(s: seq<EquitySnapshot>, cutoff: int): (r: seq<EquitySnapshot>)
    ensures forall k :: 0 <= k < |r| ==> r[k] in s && r[k].recordedAt > cutoff
  {
    if s == [] then []
    else
      var last := s[|s| - 1];
      Since(s[..|s| - 1], cutoff) + (if last.recordedAt > cutoff then [last] else [])
  }

  lemma {:induction false} SinceMembers(s: seq<EquitySnapshot>, cutoff: int, x: EquitySnapshot)
    ensures x in Since(s, cutoff) <==> x in s && x.recordedAt > cutoff
  {
    if s != [] {
      var init := s[..|s| - 1];
      SinceMembers(init, cutoff, x);
      assert s == init + [s[|s| - 1]];
    }
  }

  predicate RecordedNoLater(a: EquitySnapshot, b: EquitySnapshot)
  {
    a.recordedAt <= b.recordedAt
  }

  /** `recorded_at > NOW() - INTERVAL '1 day' * days`, `days` defaulting to 30. */
  function Cutoff(daysQuery: Option<int>, now: int): int
  {
    now - SecondsPerDay * IntOr(daysQuery, DefaultDays)
  }

  /** The user's snapshots inside the window, oldest first. */
  function HistoryRows(s: seq<EquitySnapshot>, userId: nat, daysQuery: Option<int>, now: int)
    : (r: seq<EquitySnapshot>)
    ensures forall i, j :: 0 <= i < j < |r| ==> r[i].recordedAt <= r[j].recordedAt
    ensures multiset(r) == multiset(Since(SnapshotsOf(s, userId), Cutoff(daysQuery, now)))
  {
    Ordering.Sort(Since(SnapshotsOf(s, userId), Cutoff(daysQuery, now)), RecordedNoLater)
  }

  /** Exactly the user's snapshots recorded after the cut-off appear. */
  lemma HistoryRowsMembers(s: seq<EquitySnapshot>, userId: nat, daysQuery: Option<int>, now: int,
                           x: EquitySnapshot)
    ensures x in HistoryRows(s, userId, daysQuery, now)
        <==> x in s && x.userId == userId && x.recordedAt > Cutoff(daysQuery, now)
  {
    var rows := HistoryRows(s, userId, daysQuery, now);
    var mine := SnapshotsOf(s, userId);
    assert x in rows <==> x in multiset(rows);
    SinceMembers(mine, Cutoff(daysQuery, now), x);
    SnapshotsOfMembers(s, userId, x);
  }

  datatype HistoryPoint = HistoryPoint(equity: real, date: int)

  function Point(e: EquitySnapshot): HistoryPoint
  {
    HistoryPoint(e.equity, e.recordedAt)
  }

  /** Each snapshot of `rows` as a chart point, in the same order. */
  function Points(rows: seq<EquitySnapshot>): (h: seq<HistoryPoint>)
    ensures |h| == |rows|
    ensures forall i :: 0 <= i < |h| ==> h[i] == Point(rows[i])
  {
    if rows == [] then [] else Points(rows[..|rows| - 1]) + [Point(rows[|rows| - 1])]
  }

  /** The response of `GET /api/equity-history`. */
  function History(s: seq<EquitySnapshot>, userId: nat, daysQuery: Option<int>, now: int)
    : (h: seq<HistoryPoint>)
    ensures |h| == |HistoryRows(s, userId, daysQuery, now)|
    ensures forall i, j :: 0 <= i < j < |h| ==> h[i].date <= h[j].date
    ensures forall i :: 0 <= i < |h| ==> h[i].date > Cutoff(daysQuery, now)
    ensures forall i :: 0 <= i < |h| ==> exists e :: e in s && e.userId == userId && h[i] == Point(e)
    ensures h == Points(HistoryRows(s, userId, daysQuery, now))
  {
    HistoryRowsSelected(s, userId, daysQuery, now);
    Points(HistoryRows(s, userId, daysQuery, now))
  }

  lemma HistoryRowsSelected(s: seq<EquitySnapshot>, userId: nat, daysQuery: Option<int>, now: int)
    ensures var rows := HistoryRows(s, userId, daysQuery, now);
      forall i :: 0 <= i < |rows| ==>
        rows[i] in s && rows[i].userId == userId && rows[i].recordedAt > Cutoff(daysQuery, now)
  {
    var rows := HistoryRows(s, userId, daysQuery, now);
    forall i | 0 <= i < |rows|
      ensures rows[i] in s && rows[i].userId == userId && rows[i].recordedAt > Cutoff(daysQuery, now)
    {
      assert rows[i] in multiset(rows);
      HistoryRowsMembers(s, userId, daysQuery, now, rows[i]);
    }
  }
}
