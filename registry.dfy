/** The broker connection registry of `POST /api/broker/connect` and
    `GET /api/broker/connections`. A user has at most one active row;
    rows are deactivated, never deleted. */
module Registry {
  import opened Common
  import opened Text
  import opened Tables
  import Ordering

  datatype ConnectError =
    | MissingFields        // 400: platform, apiKey, apiSecret or accountNumber falsy
    | UnsupportedPlatform  // 400: lower-cased platform is neither mt4 nor mt5

  predicate SupportedPlatform(platform: string)
  {
    platform == "mt4" || platform == "mt5"
  }

  /** The two validation steps, in order; on success the lower-cased
      platform that is stored. */
  function CheckConnect(platform: string, apiKey: string, apiSecret: string, accountNumber: string)
    : (r: Result<string, ConnectError>)
    ensures r.Ok? <==> platform != [] && apiKey != [] && apiSecret != [] && accountNumber != []
                       && SupportedPlatform(Lower(platform))
    ensures r.Ok? ==> r.value == Lower(platform) && SupportedPlatform(r.value)
    ensures r == Err(MissingFields) <==> platform == [] || apiKey == [] || apiSecret == [] || accountNumber == []
  {
    if platform == [] || apiKey == [] || apiSecret == [] || accountNumber == [] then Err(MissingFields)
    else if !SupportedPlatform(Lower(platform)) then Err(UnsupportedPlatform)
    else Ok(Lower(platform))
  }

  /** `MT4`, `Mt5` and the like are accepted and stored lower case. */
  lemma PlatformLetterCase()
    ensures CheckConnect("MT4", "k", "s", "1") == Ok("mt4")
    ensures CheckConnect("Mt5", "k", "s", "1") == Ok("mt5")
    ensures CheckConnect("mt6", "k", "s", "1") == Err(UnsupportedPlatform)
  {
    assert Lower("MT4") == "mt4";
    assert Lower("Mt5") == "mt5";
    assert Lower("mt6") == "mt6";
  }

  predicate HasActive(rows: seq<BrokerConnection>, userId: nat)
  {
    exists k :: 0 <= k < |rows| && rows[k].userId == userId && rows[k].active
  }

  /** `UPDATE broker_connections SET is_active = false WHERE user_id = $1`. */
  function Deactivate(rows: seq<BrokerConnection>, userId: nat): (r: seq<BrokerConnection>)
    ensures |r| == |rows|
    ensures forall k :: 0 <= k < |rows| ==>
      r[k] == if rows[k].userId == userId then rows[k].(active := false) else rows[k]
  {
    seq(|rows|, k requires 0 <= k < |rows| =>
      if rows[k].userId == userId then rows[k].(active := false) else rows[k])
  }

  /** After deactivation the user has no active row left. */
  lemma DeactivateClears(rows: seq<BrokerConnection>, userId: nat)
    ensures !HasActive(Deactivate(rows, userId), userId)
  {
  }

  /** The table after a successful connect: the user's rows are turned off
      when one of them was active, then the new active row is appended. */
  function Connected(rows: seq<BrokerConnection>, row: BrokerConnection): seq<BrokerConnection>
  {
    (if HasActive(rows, row.userId) then Deactivate(rows, row.userId) else rows) + [row]
  }

  /** At most one active row per user. */
  ghost predicate AtMostOneActive(rows: seq<BrokerConnection>)
  {
    forall i, j ::
      (0 <= i < |rows| && 0 <= j < |rows| && rows[i].active && rows[j].active
       && rows[i].userId == rows[j].userId) ==> i == j
  }

  /** A connect leaves exactly one active connection for the user, the new
      row; older rows of the user keep everything but their active flag,
      which is off; other users' rows are unchanged; nothing is deleted. */
  lemma ConnectedSpec(rows: seq<BrokerConnection>, row: BrokerConnection)
    requires row.active
    ensures var r := Connected(rows, row);
      && |r| == |rows| + 1
      && r[|rows|] == row
      && (forall k :: 0 <= k < |rows| && rows[k].userId == row.userId ==>
            r[k] == rows[k].(active := false))
      && (forall k :: 0 <= k < |rows| && rows[k].userId != row.userId ==> r[k] == rows[k])
      && (forall k :: 0 <= k < |r| && r[k].userId == row.userId && r[k].active ==> k == |rows|)
  {
    var r := Connected(rows, row);
    if !HasActive(rows, row.userId) {
      forall k | 0 <= k < |rows| && rows[k].userId == row.userId
        ensures r[k] == rows[k].(active := false)
      {
        assert !rows[k].active;
        assert r[k] == rows[k];
      }
    }
  }

  /** The registry invariant survives every connect. */
  lemma ConnectKeepsAtMostOneActive(rows: seq<BrokerConnection>, row: BrokerConnection)
    requires AtMostOneActive(rows) && row.active
    ensures AtMostOneActive(Connected(rows, row))
  {
    ConnectedSpec(rows, row);
    var r := Connected(rows, row);
    forall i, j | 0 <= i < |r| && 0 <= j < |r| && r[i].active && r[j].active && r[i].userId == r[j].userId
      ensures i == j
    {
      if r[i].userId != row.userId && i < |rows| && j < |rows| {
        assert rows[i] == r[i] && rows[j] == r[j];
      }
    }
  }

  /** The row the insert stores. */
  function NewConnection(id: nat, userId: nat, platform: string, apiKey: string, apiSecret: string,
                         accountNumber: string, now: int): (r: Result<BrokerConnection, ConnectError>)
    ensures r.Ok? <==> CheckConnect(platform, apiKey, apiSecret, accountNumber).Ok?
    ensures r.Err? ==> r.error == CheckConnect(platform, apiKey, apiSecret, accountNumber).error
    ensures r.Ok? ==> r.value == BrokerConnection(id, userId, Lower(platform), apiKey, apiSecret,
                                                  accountNumber, true, now)
  {
    match CheckConnect(platform, apiKey, apiSecret, accountNumber)
    case Err(e) => Err(e)
    case Ok(p) => Ok(BrokerConnection(id, userId, p, apiKey, apiSecret, accountNumber, true, now))
  }

  // --------------------------------------------------------------- listing

  /** What `GET /api/broker/connections` reveals of a row: no credentials. */
  datatype ConnectionView = ConnectionView(id: nat, platform: string, accountNumber: string,
                                           active: bool, createdAt: int)

  function View(c: BrokerConnection): ConnectionView
  {
    ConnectionView(c.id, c.platform, c.accountNumber, c.active, c.createdAt)
  }

  predicate CreatedLatestFirst(a: BrokerConnection, b: BrokerConnection)
  {
    a.createdAt >= b.createdAt
  }

  /** The user's connections, newest first. */
  function OrderedConnections(rows: seq<BrokerConnection>, userId: nat): (r: seq<BrokerConnection>)
    ensures |r| == |ConnectionsOf(rows, userId)|
    ensures forall i, j :: 0 <= i < j < |r| ==> r[i].createdAt >= r[j].createdAt
    ensures forall i :: 0 <= i < |r| ==> r[i] in rows && r[i].userId == userId
    ensures multiset(r) == multiset(ConnectionsOf(rows, userId))
  {
    var ordered := Ordering.Sort(ConnectionsOf(rows, userId), CreatedLatestFirst);
    forall i | 0 <= i < |ordered| ensures ordered[i] in rows && ordered[i].userId == userId {
      assert ordered[i] in multiset(ordered);
      ConnectionsOfMembers(rows, userId, ordered[i]);
    }
    ordered
  }

  /** Each connection of `cs` without its credentials, in the same order. */
  function Views(cs: seq<BrokerConnection>): (r: seq<ConnectionView>)
    ensures |r| == |cs|
    ensures forall i :: 0 <= i < |r| ==> r[i] == View(cs[i])
  {
    if cs == [] then [] else Views(cs[..|cs| - 1]) + [View(cs[|cs| - 1])]
  }

  /** The user's connections, newest first, without their credentials. */
  function ListConnections(rows: seq<BrokerConnection>, userId: nat): (r: seq<ConnectionView>)
    ensures |r| == |ConnectionsOf(rows, userId)|
    ensures forall i, j :: 0 <= i < j < |r| ==> r[i].createdAt >= r[j].createdAt
    ensures forall i :: 0 <= i < |r| ==> exists c :: c in rows && c.userId == userId && r[i] == View(c)
    ensures r == Views(OrderedConnections(rows, userId))
  {
    var ordered := OrderedConnections(rows, userId);
    var r := Views(ordered);
    forall i | 0 <= i < |r| ensures exists c :: c in rows && c.userId == userId && r[i] == View(c) {
      assert ordered[i] in rows && r[i] == View(ordered[i]);
    }
    r
  }

  /** Every connection of the user is listed. */
  lemma ListConnectionsComplete(rows: seq<BrokerConnection>, userId: nat, c: BrokerConnection)
    requires c in rows && c.userId == userId
    ensures View(c) in ListConnections(rows, userId)
  {
    var ordered := OrderedConnections(rows, userId);
    ConnectionsOfMembers(rows, userId, c);
    assert c in multiset(ConnectionsOf(rows, userId));
    assert c in ordered;
    var i :| 0 <= i < |ordered| && ordered[i] == c;
    assert ListConnections(rows, userId)[i] == View(c);
  }

  /** What the connect response reveals of the new row. */
  datatype ConnectReceipt = ConnectReceipt(id: nat, platform: string, accountNumber: string, createdAt: int)

  function Receipt(c: BrokerConnection): ConnectReceipt
  {
    ConnectReceipt(c.id, c.platform, c.accountNumber, c.createdAt)
  }
}
