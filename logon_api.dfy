/**
 * The logon store as the endpoints see it: four tables behind one object.
 * `LogData` and `LogoffData` change it step by step, as `log_data` and
 * `logoff_data` do through their database session; `GetDashboard` only
 * reads it.
 */
module LogonApi {
  import opened Tables
  import opened DashboardQuery

  class EventStore {
    var clients: seq<Client>
    var nextClientId: int
    var servers: seq<Server>
    var nextServerId: int
    var logins: seq<Login>
    var nextLoginId: int
    var logoffs: seq<Logoff>
    var nextLogoffId: int

    /** The tables as one value. */
    function Db(): Database
      reads this
    {
      Database(clients, nextClientId, servers, nextServerId,
               logins, nextLoginId, logoffs, nextLogoffId)
    }

    ghost predicate Valid()
      reads this
    {
      Tables.Valid(Db())
    }

    /** A new store: four empty tables. */
    constructor ()
      ensures Valid() && Db() == Empty()
    {
      clients, nextClientId := [], 1;
      servers, nextServerId := [], 1;
      logins, nextLoginId := [], 1;
      logoffs, nextLogoffId := [], 1;
    }

    /** Get-or-create on `clients`: the key of the row named `name`, inserted
        with the next key when there is none. */
    method ResolveClient(name: string) returns (id: int)
      requires Valid()
      modifies this
      ensures Valid()
      ensures var r := Resolve(old(clients), old(nextClientId), name);
        clients == r.rows && nextClientId == r.nextId && id == r.id
      ensures servers == old(servers) && nextServerId == old(nextServerId)
      ensures logins == old(logins) && nextLoginId == old(nextLoginId)
      ensures logoffs == old(logoffs) && nextLogoffId == old(nextLogoffId)
    {
      ResolvePreservesTable(clients, nextClientId, name);
      RefsExistGrow(logins, clients, Resolve(clients, nextClientId, name).rows, servers, servers);
      RefsExistGrow(logoffs, clients, Resolve(clients, nextClientId, name).rows, servers, servers);
      var found := Lookup(clients, name);
      if found.Some? {
        id := found.value.id;
      } else {
        clients := clients + [NamedRow(nextClientId, name)];
        id := nextClientId;
        nextClientId := nextClientId + 1;
      }
    }

    /** Get-or-create on `servers`, in the same way. */
    method ResolveServer(name: string) returns (id: int)
      requires Valid()
      modifies this
      ensures Valid()
      ensures var r := Resolve(old(servers), old(nextServerId), name);
        servers == r.rows && nextServerId == r.nextId && id == r.id
      ensures clients == old(clients) && nextClientId == old(nextClientId)
      ensures logins == old(logins) && nextLoginId == old(nextLoginId)
      ensures logoffs == old(logoffs) && nextLogoffId == old(nextLogoffId)
    {
      ResolvePreservesTable(servers, nextServerId, name);
      RefsExistGrow(logins, clients, clients, servers, Resolve(servers, nextServerId, name).rows);
      RefsExistGrow(logoffs, clients, clients, servers, Resolve(servers, nextServerId, name).rows);
      var found := Lookup(servers, name);
      if found.Some? {
        id := found.value.id;
      } else {
        servers := servers + [NamedRow(nextServerId, name)];
        id := nextServerId;
        nextServerId := nextServerId + 1;
      }
    }

    /** `POST /api/log`: resolve both names, append one login carrying the
        caller's timestamp verbatim, and acknowledge. */
    method LogData(clientname: string, servername: string, time: string) returns (message: string)
      requires Valid()
      modifies this
      ensures Valid()
      ensures Db() == RecordLogin(old(Db()), clientname, servername, time)
      ensures message == "Data saved successfully"
    {
      ghost var db0 := Db();
      RecordLoginSpec(db0, clientname, servername, time);
      var clientId := ResolveClient(clientname);
      var serverId := ResolveServer(servername);
      logins := logins + [EventRow(nextLoginId, clientId, serverId, time)];
      nextLoginId := nextLoginId + 1;
      message := "Data saved successfully";
    }

    /** `POST /api/logoff`: resolve both names, append one logoff carrying
        the caller's timestamp verbatim, and acknowledge. */
    method LogoffData(clientname: string, servername: string, time: string) returns (message: string)
      requires Valid()
      modifies this
      ensures Valid()
      ensures Db() == RecordLogoff(old(Db()), clientname, servername, time)
      ensures message == "Logoff data saved successfully"
    {
      ghost var db0 := Db();
      RecordLogoffSpec(db0, clientname, servername, time);
      var clientId := ResolveClient(clientname);
      var serverId := ResolveServer(servername);
      logoffs := logoffs + [EventRow(nextLogoffId, clientId, serverId, time)];
      nextLogoffId := nextLogoffId + 1;
      message := "Logoff data saved successfully";
    }

    /** `GET /dashboard`: the rows handed to the template. The method has no
        modifies clause, so no table changes. */
    method GetDashboard() returns (rows: set<DashboardRow>)
      ensures rows == Dashboard(Db())
      ensures forall r :: r in rows <==> IsDashboardRow(Db(), r)
    {
      DashboardMatchesSpec(Db());
      rows := Dashboard(Db());
    }
  }

  /** A caller's view: the store's contracts alone fix what the dashboard
      shows after one login and one logoff. */
  method FirstSessionClient(loginTime: string, logoffTime: string) returns (rows: set<DashboardRow>)
    ensures rows == {DashboardRow("c1", "s1", loginTime, logoffTime)}
  {
    var store := new EventStore();
    var m1 := store.LogData("c1", "s1", loginTime);
    var m2 := store.LogoffData("c1", "s1", logoffTime);
    rows := store.GetDashboard();
    FirstSessionDashboard("c1", "s1", loginTime, logoffTime);
    assert m1 == "Data saved successfully" && m2 == "Logoff data saved successfully";
  }
}
