/** The four tables the handlers read and write, one datatype per row.
    Timestamps are integer seconds; money, prices and lot sizes are reals. */
module Tables {
  import opened Common

  /** A row of `users`. The password hash is produced outside the model. */
  datatype User = User(id: nat, email: string, passwordHash: string, name: string, createdAt: int)

  /** A row of `trades`. `exitPrice` and `closedAt` are NULL while the trade is open. */
  datatype Trade = Trade(
    id: nat,
    userId: nat,
    symbol: string,
    side: string,
    lots: real,
    entryPrice: real,
    exitPrice: Option<real>,
    profit: real,
    openedAt: Option<int>,
    closedAt: Option<int>)

  /** A row of `equity_snapshots`; `recordedAt` is the insertion time. */
  datatype EquitySnapshot = EquitySnapshot(id: nat, userId: nat, equity: real, recordedAt: int)

  /** A row of `broker_connections`. */
  datatype BrokerConnection = BrokerConnection(
    id: nat,
    userId: nat,
    platform: string,
    apiKey: string,
    apiSecret: string,
    accountNumber: string,
    active: bool,
    createdAt: int)

  /** `WHERE user_id = u` on `trades`, keeping table order. */
  function TradesOf(ts: seq<Trade>, u: nat): (r: seq<Trade>)
    ensures |r| <= |ts|
    ensures forall k :: 0 <= k < |r| ==> r[k] in ts && r[k].userId == u
  {
    if ts == [] then []
    else
      var last := ts[|ts| - 1];
      TradesOf(ts[..|ts| - 1], u) + (if last.userId == u then [last] else [])
  }

  /** Every trade of `u` is selected, and nothing else. */
  lemma {:induction false} TradesOfMembers(ts: seq<Trade>, u: nat, t: Trade)
    ensures t in TradesOf(ts, u) <==> t in ts && t.userId == u
  {
    if ts != [] {
      var init := ts[..|ts| - 1];
      TradesOfMembers(init, u, t);
      assert ts == init + [ts[|ts| - 1]];
    }
  }

  /** Appending a row extends the selection of its owner only. */
  lemma TradesOfAppend(ts: seq<Trade>, t: Trade, u: nat)
    ensures TradesOf(ts + [t], u) == TradesOf(ts, u) + (if t.userId == u then [t] else [])
  {
    assert (ts + [t])[..|ts|] == ts;
  }

  /** `WHERE user_id = u` on `equity_snapshots`, keeping table order. */
  function SnapshotsOf(s: seq<EquitySnapshot>, u: nat): (r: seq<EquitySnapshot>)
    ensures forall k :: 0 <= k < |r| ==> r[k] in s && r[k].userId == u
  {
    if s == [] then []
    else
      var last := s[|s| - 1];
      SnapshotsOf(s[..|s| - 1], u) + (if last.userId == u then [last] else [])
  }

  lemma {:induction false} SnapshotsOfMembers(s: seq<EquitySnapshot>, u: nat, x: EquitySnapshot)
    ensures x in SnapshotsOf(s, u) <==> x in s && x.userId == u
  {
    if s != [] {
      var init := s[..|s| - 1];
      SnapshotsOfMembers(init, u, x);
      assert s == init + [s[|s| - 1]];
    }
  }

  /** `WHERE user_id = u` on `broker_connections`, keeping table order. */
  function ConnectionsOf(rows: seq<BrokerConnection>, u: nat): (r: seq<BrokerConnection>)
    ensures forall k :: 0 <= k < |r| ==> r[k] in rows && r[k].userId == u
  {
    if rows == [] then []
    else
      var last := rows[|rows| - 1];
      ConnectionsOf(rows[..|rows| - 1], u) + (if last.userId == u then [last] else [])
  }

  lemma {:induction false} ConnectionsOfMembers(rows: seq<BrokerConnection>, u: nat, c: BrokerConnection)
    ensures c in ConnectionsOf(rows, u) <==> c in rows && c.userId == u
  {
    if rows != [] {
      var init := rows[..|rows| - 1];
      ConnectionsOfMembers(init, u, c);
      assert rows == init + [rows[|rows| - 1]];
    }
  }
}
