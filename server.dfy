/** The request handlers of the API as methods of one store that holds the
    four tables in memory. Each handler receives the authenticated user id
    (see `Auth.Authenticate`) and, where the database would read its
    clock, the current time `now`. */
module Server {
  import opened Common
  import opened Tables
  import Auth
  import Trades
  import Equity
  import Stats
  import Registry

  class Store {
    var users: seq<User>
    var trades: seq<Trade>
    var snapshots: seq<EquitySnapshot>
    var connections: seq<BrokerConnection>
    // next values of the tables' serial id columns
    var nextUserId: nat
    var nextTradeId: nat
    var nextSnapshotId: nat
    var nextConnectionId: nat

    ghost predicate Valid()
      reads this
    {
      && Auth.UsersWellFormed(users, nextUserId)
      && Trades.IdsIncreasing(trades)
      && (forall k :: 0 <= k < |trades| ==> trades[k].id < nextTradeId)
      && Registry.AtMostOneActive(connections)
    }

    constructor ()
      ensures Valid()
      ensures users == [] && trades == [] && snapshots == [] && connections == []
      ensures nextUserId == 1 && nextTradeId == 1 && nextSnapshotId == 1 && nextConnectionId == 1
    {
      users, trades, snapshots, connections := [], [], [], [];
      nextUserId, nextTradeId, nextSnapshotId, nextConnectionId := 1, 1, 1, 1;
    }

    // ------------------------------------------------------------ auth

    /** `POST /api/auth/register`; `passwordHash` is the bcrypt hash of
        `password`, computed by the caller. */
    method Register(email: string, password: string, name: string, fullName: string,
                    passwordHash: string, now: int) returns (r: Result<Auth.PublicUser, Auth.AuthError>)
      requires Valid()
      modifies this
      ensures Valid()
      ensures var check := Auth.CheckRegistration(old(users), email, password);
        && (check.Err? ==> r == Err(check.error) && users == old(users) && nextUserId == old(nextUserId))
        && (check.Ok? ==>
              && users == old(users) + [User(old(nextUserId), check.value, passwordHash,
                                             Auth.DisplayName(name, fullName), now)]
              && r == Ok(Auth.Public(users[|users| - 1]))
              && nextUserId == old(nextUserId) + 1)
      ensures trades == old(trades) && snapshots == old(snapshots) && connections == old(connections)
      ensures nextTradeId == old(nextTradeId) && nextSnapshotId == old(nextSnapshotId)
      ensures nextConnectionId == old(nextConnectionId)
    {
      var check := Auth.CheckRegistration(users, email, password);
      if check.Err? {
        r := Err(check.error);
        return;
      }
      Auth.RegisterKeepsUsersWellFormed(users, nextUserId, email, password, passwordHash,
                                        Auth.DisplayName(name, fullName), now);
      var user := User(nextUserId, check.value, passwordHash, Auth.DisplayName(name, fullName), now);
      users := users + [user];
      nextUserId := nextUserId + 1;
      r := Ok(Auth.Public(user));
    }

    /** `POST /api/auth/login`; `compare` stands for `bcrypt.compare`. */
    method Login(email: string, password: string, compare: (string, string) -> bool)
      returns (r: Result<Auth.PublicUser, Auth.AuthError>)
      ensures var login := Auth.Login(users, email, password, compare);
        && (login.Ok? ==> r == Ok(Auth.Public(login.value)))
        && (login.Err? ==> r == Err(login.error))
    {
      var login := Auth.Login(users, email, password, compare);
      if login.Ok? {
        r := Ok(Auth.Public(login.value));
      } else {
        r := Err(login.error);
      }
    }

    /** `GET /api/auth/me`. */
    method Me(userId: nat) returns (r: Result<Auth.Profile, Auth.AuthError>)
      ensures var me := Auth.CurrentUser(users, userId);
        && (me.Ok? ==> r == Ok(Auth.ProfileOf(me.value)))
        && (me.Err? ==> r == Err(me.error))
    {
      var me := Auth.CurrentUser(users, userId);
      if me.Ok? {
        r := Ok(Auth.ProfileOf(me.value));
      } else {
        r := Err(me.error);
      }
    }

    // ----------------------------------------------------------- stats

    /** `GET /api/stats`. */
    method GetStats(userId: nat) returns (s: Stats.Summary)
      ensures s == Stats.Compute(trades, snapshots, userId)
    {
      s := Stats.Compute(trades, snapshots, userId);
    }

    // ---------------------------------------------------------- trades

    /** `GET /api/trades`. */
    method ListTrades(userId: nat, limitQuery: Option<int>, offsetQuery: Option<int>)
      returns (r: Result<Trades.TradePage, Trades.TradeError>)
      ensures r == Trades.ListTrades(trades, userId, limitQuery, offsetQuery)
    {
      r := Trades.ListTrades(trades, userId, limitQuery, offsetQuery);
    }

    /** `POST /api/trades`: validate, compute the pip-model profit, insert. */
    method AddManualTrade(userId: nat, m: Trades.ManualTrade) returns (r: Result<Trade, Trades.TradeError>)
      requires Valid()
      modifies this
      ensures Valid()
      ensures r == Trades.NewManualTrade(old(nextTradeId), userId, m)
      ensures r.Ok? ==> trades == old(trades) + [r.value] && nextTradeId == old(nextTradeId) + 1
      ensures r.Err? ==> trades == old(trades) && nextTradeId == old(nextTradeId)
      ensures users == old(users) && snapshots == old(snapshots) && connections == old(connections)
      ensures nextUserId == old(nextUserId) && nextSnapshotId == old(nextSnapshotId)
      ensures nextConnectionId == old(nextConnectionId)
    {
      r := Trades.NewManualTrade(nextTradeId, userId, m);
      if r.Ok? {
        trades := trades + [r.value];
        nextTradeId := nextTradeId + 1;
      }
    }

    /** `DELETE /api/trades/:id`: removes the user's trade with that id, or
        reports not found; no other row is touched. */
    method DeleteTrade(userId: nat, tradeId: nat) returns (r: Result<nat, Trades.TradeError>)
      requires Valid()
      modifies this
      ensures Valid()
      ensures trades == Trades.Without(old(trades), tradeId, userId)
      ensures r.Ok? <==> exists k :: 0 <= k < |old(trades)| && Trades.Matches(old(trades)[k], tradeId, userId)
      ensures r.Ok? ==> r.value == tradeId && |trades| == |old(trades)| - 1
      ensures r.Err? ==> r.error == Trades.NotFound && trades == old(trades)
      ensures users == old(users) && snapshots == old(snapshots) && connections == old(connections)
      ensures nextUserId == old(nextUserId) && nextTradeId == old(nextTradeId)
      ensures nextSnapshotId == old(nextSnapshotId) && nextConnectionId == old(nextConnectionId)
    {
      var before := trades;
      Trades.WithoutSpec(before, tradeId, userId);
      Trades.WithoutKeepsIdsIncreasing(before, tradeId, userId);
      trades := Trades.Without(before, tradeId, userId);
      if |trades| == |before| {
        Trades.WithoutUnmatched(before, tradeId, userId);
        r := Err(Trades.NotFound);
      } else {
        Trades.WithoutRemovesOne(before, tradeId, userId);
        r := Ok(tradeId);
      }
    }

    // ---------------------------------------------------------- equity

    /** `GET /api/equity-history`. */
    method EquityHistory(userId: nat, daysQuery: Option<int>, now: int) returns (h: seq<Equity.HistoryPoint>)
      ensures h == Equity.History(snapshots, userId, daysQuery, now)
    {
      h := Equity.History(snapshots, userId, daysQuery, now);
    }

    /** `POST /api/equity-snapshot`: append one snapshot stamped `now`. */
    method AddEquitySnapshot(userId: nat, equity: Option<real>, now: int)
      returns (r: Result<EquitySnapshot, Equity.EquityError>)
      requires Valid()
      modifies this
      ensures Valid()
      ensures Equity.CheckEquity(equity).Err? ==> r == Err(Equity.InvalidEquity) && snapshots == old(snapshots)
      ensures Equity.CheckEquity(equity).Err? ==> nextSnapshotId == old(nextSnapshotId)
      ensures Equity.CheckEquity(equity).Ok? ==>
        && r == Ok(EquitySnapshot(old(nextSnapshotId), userId, equity.value, now))
        && snapshots == old(snapshots) + [r.value]
        && nextSnapshotId == old(nextSnapshotId) + 1
      ensures users == old(users) && trades == old(trades) && connections == old(connections)
      ensures nextUserId == old(nextUserId) && nextTradeId == old(nextTradeId)
      ensures nextConnectionId == old(nextConnectionId)
    {
      var check := Equity.CheckEquity(equity);
      if check.Err? {
        r := Err(check.error);
        return;
      }
      var snapshot := EquitySnapshot(nextSnapshotId, userId, check.value, now);
      snapshots := snapshots + [snapshot];
      nextSnapshotId := nextSnapshotId + 1;
      r := Ok(snapshot);
    }

    // ---------------------------------------------------------- broker

    /** `POST /api/broker/connect`: validate, switch off the user's active
        connection if there is one, store the new one as active. */
    method ConnectBroker(userId: nat, platform: string, apiKey: string, apiSecret: string,
                         accountNumber: string, now: int)
      returns (r: Result<Registry.ConnectReceipt, Registry.ConnectError>)
      requires Valid()
      modifies this
      ensures Valid()
      ensures var row := Registry.NewConnection(old(nextConnectionId), userId, platform, apiKey, apiSecret,
                                                accountNumber, now);
        && (row.Ok? ==> && r == Ok(Registry.Receipt(row.value))
                        && connections == Registry.Connected(old(connections), row.value)
                        && nextConnectionId == old(nextConnectionId) + 1)
        && (row.Err? ==> && r == Err(row.error)
                         && connections == old(connections) && nextConnectionId == old(nextConnectionId))
      ensures users == old(users) && trades == old(trades) && snapshots == old(snapshots)
      ensures nextUserId == old(nextUserId) && nextTradeId == old(nextTradeId)
      ensures nextSnapshotId == old(nextSnapshotId)
    {
      var check := Registry.CheckConnect(platform, apiKey, apiSecret, accountNumber);
      if check.Err? {
        r := Err(check.error);
        return;
      }
      var before := connections;
      if Registry.HasActive(connections, userId) {
        connections := Registry.Deactivate(connections, userId);
      }
      var row := BrokerConnection(nextConnectionId, userId, check.value, apiKey, apiSecret,
                                  accountNumber, true, now);
      connections := connections + [row];
      nextConnectionId := nextConnectionId + 1;
      Registry.ConnectKeepsAtMostOneActive(before, row);
      r := Ok(Registry.Receipt(row));
    }

    /** `GET /api/broker/connections`. */
    method Connections(userId: nat) returns (r: seq<Registry.ConnectionView>)
      ensures r == Registry.ListConnections(connections, userId)
    {
      r := Registry.ListConnections(connections, userId);
    }
  }
}
