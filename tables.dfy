/**
 * The four relations of the logon store (clients, servers, logins, logoffs)
 * as values, the get-or-create step that resolves a client or server name
 * to its id, and the two insert operations behind `/api/log` and
 * `/api/logoff`.
 */
module Tables {

  datatype Option<T> = None | Some(value: T)

  /** A row of `clients` or of `servers`: an integer key and a unique name. */
  datatype NamedRow = NamedRow(id: int, name: string)

  type Client = NamedRow
  type Server = NamedRow

  /** A row of `logins` or of `logoffs`: its own key, the two foreign keys and
      the timestamp exactly as the caller sent it. */
  datatype EventRow = EventRow(id: int, clientId: int, serverId: int, timestamp: string)

  type Login = EventRow
  type Logoff = EventRow

  /** The whole store. Each table has the id the next inserted row receives:
      rows are never deleted, so SQLite hands out one more than the last. */
  datatype Database = Database(
    clients: seq<Client>, nextClientId: int,
    servers: seq<Server>, nextServerId: int,
    logins: seq<Login>, nextLoginId: int,
    logoffs: seq<Logoff>, nextLogoffId: int)

  /** The store as `create_all` leaves it: four empty tables. */
  function Empty(): (db: Database)
    ensures db.clients == [] && db.servers == [] && db.logins == [] && db.logoffs == []
    ensures db.nextClientId == 1 && db.nextServerId == 1 && db.nextLoginId == 1 && db.nextLogoffId == 1
  {
    Database([], 1, [], 1, [], 1, [], 1)
  }

  // ---------------------------------------------------------------------
  // Table invariants

  /** The `unique=True` constraint on `name`. */
  ghost predicate NamesUnique(rows: seq<NamedRow>)
  {
    forall i, j :: 0 <= i < |rows| && 0 <= j < |rows| && rows[i].name == rows[j].name ==> i == j
  }

  /** Keys grow with insertion order and stay below the next key to hand out,
      so the next key is unused. */
  ghost predicate KeysFresh(ids: seq<int>, nextId: int)
  {
    && 1 <= nextId
    && (forall i :: 0 <= i < |ids| ==> 1 <= ids[i] < nextId)
    && (forall i, j :: 0 <= i < j < |ids| ==> ids[i] < ids[j])
  }

  function RowIds(rows: seq<NamedRow>): (ids: seq<int>)
    ensures |ids| == |rows| && forall i :: 0 <= i < |rows| ==> ids[i] == rows[i].id
  {
    seq(|rows|, i requires 0 <= i < |rows| => rows[i].id)
  }

  function EventIds(es: seq<EventRow>): (ids: seq<int>)
    ensures |ids| == |es| && forall i :: 0 <= i < |es| ==> ids[i] == es[i].id
  {
    seq(|es|, i requires 0 <= i < |es| => es[i].id)
  }

  ghost predicate HasId(rows: seq<NamedRow>, id: int)
  {
    exists j :: 0 <= j < |rows| && rows[j].id == id
  }

  /** Every event's foreign keys name an existing client and server. */
  ghost predicate RefsExist(es: seq<EventRow>, clients: seq<Client>, servers: seq<Server>)
  {
    forall i :: 0 <= i < |es| ==> HasId(clients, es[i].clientId) && HasId(servers, es[i].serverId)
  }

  ghost predicate Valid(db: Database)
  {
    && NamesUnique(db.clients) && KeysFresh(RowIds(db.clients), db.nextClientId)
    && NamesUnique(db.servers) && KeysFresh(RowIds(db.servers), db.nextServerId)
    && KeysFresh(EventIds(db.logins), db.nextLoginId)
    && KeysFresh(EventIds(db.logoffs), db.nextLogoffId)
    && RefsExist(db.logins, db.clients, db.servers)
    && RefsExist(db.logoffs, db.clients, db.servers)
  }

  /** What `unique=True` guarantees: two rows with the same name are the
      same row. */
  lemma UniqueRow(rows: seq<NamedRow>, a: NamedRow, b: NamedRow)
    requires NamesUnique(rows) && a in rows && b in rows && a.name == b.name
    ensures a == b
  {
    var i :| 0 <= i < |rows| && rows[i] == a;
    var j :| 0 <= j < |rows| && rows[j] == b;
  }

  lemma EmptyValid()
    ensures Valid(Empty())
  {
  }

  // ---------------------------------------------------------------------
  // Get-or-create

  /** `query(...).filter(name == name).first()`: the first row with that name. */
  function Lookup(rows: seq<NamedRow>, name: string): (r: Option<NamedRow>)
    ensures r.Some? <==> exists i :: 0 <= i < |rows| && rows[i].name == name
    ensures r.Some? ==> r.value in rows && r.value.name == name
  {
    if |rows| == 0 then None
    else if rows[0].name == name then Some(rows[0])
    else
      assert forall i :: 1 <= i < |rows| ==> rows[i] == rows[1..][i - 1];
      Lookup(rows[1..], name)
  }

  /** With unique names, the row found is the only row with that name. */
  lemma LookupFindsRow(rows: seq<NamedRow>, row: NamedRow)
    requires NamesUnique(rows)
    requires row in rows
    ensures Lookup(rows, row.name) == Some(row)
  {
    var r := Lookup(rows, row.name);
    var i :| 0 <= i < |rows| && rows[i] == row;
    var j :| 0 <= j < |rows| && rows[j] == r.value;
  }

  /** The table, the next key and the key of the resolved row after one
      get-or-create step. */
  datatype Resolution = Resolution(rows: seq<NamedRow>, nextId: int, id: int)

  /** Look the name up; when it is missing insert a row with the next key
      and read that key back. */
  function Resolve(rows: seq<NamedRow>, nextId: int, name: string): (r: Resolution)
    ensures Lookup(r.rows, name) == Some(NamedRow(r.id, name))
    ensures rows <= r.rows && |r.rows| <= |rows| + 1
  {
    match Lookup(rows, name)
    case Some(row) => Resolution(rows, nextId, row.id)
    case None =>
      var rows' := rows + [NamedRow(nextId, name)];
      assert rows'[|rows|].name == name;
      Resolution(rows', nextId + 1, nextId)
  }

  /** Resolving an existing name returns that row's key and adds no row. */
  lemma ResolveExisting(rows: seq<NamedRow>, nextId: int, row: NamedRow)
    requires NamesUnique(rows)
    requires row in rows
    ensures Resolve(rows, nextId, row.name) == Resolution(rows, nextId, row.id)
  {
    LookupFindsRow(rows, row);
  }

  /** Resolving a missing name appends exactly one row carrying that name and
      a key no existing row has. */
  lemma ResolveMissing(rows: seq<NamedRow>, nextId: int, name: string)
    requires KeysFresh(RowIds(rows), nextId)
    requires forall i :: 0 <= i < |rows| ==> rows[i].name != name
    ensures var r := Resolve(rows, nextId, name);
      && r.rows == rows + [NamedRow(nextId, name)]
      && r.id == nextId && r.nextId == nextId + 1
      && !HasId(rows, r.id)
  {
  }

  /** A second resolution of the same name returns the same key and changes
      nothing. */
  lemma ResolveIdempotent(rows: seq<NamedRow>, nextId: int, name: string)
    ensures var r := Resolve(rows, nextId, name);
      Resolve(r.rows, r.nextId, name) == r
  {
  }

  /** Get-or-create keeps names pairwise distinct and keys fresh, and keeps
      every key that was there. */
  lemma ResolvePreservesTable(rows: seq<NamedRow>, nextId: int, name: string)
    requires NamesUnique(rows) && KeysFresh(RowIds(rows), nextId)
    ensures var r := Resolve(rows, nextId, name);
      && NamesUnique(r.rows) && KeysFresh(RowIds(r.rows), r.nextId)
      && (forall id :: HasId(rows, id) ==> HasId(r.rows, id))
      && HasId(r.rows, r.id)
  {
    var r := Resolve(rows, nextId, name);
    forall id | HasId(rows, id) ensures HasId(r.rows, id) {
      var j :| 0 <= j < |rows| && rows[j].id == id;
      assert r.rows[j] == rows[j];
    }
    assert NamedRow(r.id, name) in r.rows;
  }

  lemma RefsExistGrow(es: seq<EventRow>, clients: seq<Client>, clients': seq<Client>,
                      servers: seq<Server>, servers': seq<Server>)
    requires RefsExist(es, clients, servers)
    requires forall id :: HasId(clients, id) ==> HasId(clients', id)
    requires forall id :: HasId(servers, id) ==> HasId(servers', id)
    ensures RefsExist(es, clients', servers')
  {
  }

  // ---------------------------------------------------------------------
  // Recording events

  /** The database after both names are resolved, with the two keys. */
  datatype Resolved = Resolved(db: Database, clientId: int, serverId: int)

  /** The shared first half of `log_data` and `logoff_data`: get-or-create
      the client, then the server. */
  function ResolveNames(db: Database, clientname: string, servername: string): (r: Resolved)
    ensures r.db.logins == db.logins && r.db.nextLoginId == db.nextLoginId
    ensures r.db.logoffs == db.logoffs && r.db.nextLogoffId == db.nextLogoffId
    ensures Lookup(r.db.clients, clientname) == Some(NamedRow(r.clientId, clientname))
    ensures Lookup(r.db.servers, servername) == Some(NamedRow(r.serverId, servername))
  {
    var rc := Resolve(db.clients, db.nextClientId, clientname);
    var rs := Resolve(db.servers, db.nextServerId, servername);
    Resolved(db.(clients := rc.rows, nextClientId := rc.nextId,
                 servers := rs.rows, nextServerId := rs.nextId),
             rc.id, rs.id)
  }

  lemma ResolveNamesValid(db: Database, clientname: string, servername: string)
    requires Valid(db)
    ensures var r := ResolveNames(db, clientname, servername);
      Valid(r.db) && HasId(r.db.clients, r.clientId) && HasId(r.db.servers, r.serverId)
  {
    var r := ResolveNames(db, clientname, servername);
    ResolvePreservesTable(db.clients, db.nextClientId, clientname);
    ResolvePreservesTable(db.servers, db.nextServerId, servername);
    RefsExistGrow(db.logins, db.clients, r.db.clients, db.servers, r.db.servers);
    RefsExistGrow(db.logoffs, db.clients, r.db.clients, db.servers, r.db.servers);
  }

  /** `log_data`: resolve both names, then append one `Login` row. */
  function RecordLogin(db: Database, clientname: string, servername: string, time: string): (db': Database)
  {
    var r := ResolveNames(db, clientname, servername);
    r.db.(logins := r.db.logins + [EventRow(r.db.nextLoginId, r.clientId, r.serverId, time)],
          nextLoginId := r.db.nextLoginId + 1)
  }

  /** `logoff_data`: resolve both names, then append one `Logoff` row. */
  function RecordLogoff(db: Database, clientname: string, servername: string, time: string): (db': Database)
  {
    var r := ResolveNames(db, clientname, servername);
    r.db.(logoffs := r.db.logoffs + [EventRow(r.db.nextLogoffId, r.clientId, r.serverId, time)],
          nextLogoffId := r.db.nextLogoffId + 1)
  }

  lemma AppendKeepsKeysFresh(es: seq<EventRow>, nextId: int, e: EventRow)
    requires KeysFresh(EventIds(es), nextId) && e.id == nextId
    ensures KeysFresh(EventIds(es + [e]), nextId + 1)
  {
    var ids := EventIds(es + [e]);
    assert forall i :: 0 <= i < |es| ==> ids[i] == EventIds(es)[i];
  }

  /** `log_data` appends exactly one login, whatever its timestamp. The row
      refers to the client and server rows carrying the two names, holds the
      timestamp verbatim and has a fresh key; clients and servers only gain
      the rows get-or-create adds, logoffs are untouched, the invariant holds. */
  lemma RecordLoginSpec(db: Database, clientname: string, servername: string, time: string)
    requires Valid(db)
    ensures var db' := RecordLogin(db, clientname, servername, time);
      && Valid(db')
      && |db'.logins| == |db.logins| + 1
      && db'.logins[..|db.logins|] == db.logins
      && var e := db'.logins[|db.logins|];
      && e.timestamp == time
      && e.id !in EventIds(db.logins)
      && Lookup(db'.clients, clientname) == Some(NamedRow(e.clientId, clientname))
      && Lookup(db'.servers, servername) == Some(NamedRow(e.serverId, servername))
      && db.clients <= db'.clients && |db'.clients| <= |db.clients| + 1
      && db.servers <= db'.servers && |db'.servers| <= |db.servers| + 1
      && db'.clients == Resolve(db.clients, db.nextClientId, clientname).rows
      && db'.servers == Resolve(db.servers, db.nextServerId, servername).rows
      && db'.logoffs == db.logoffs && db'.nextLogoffId == db.nextLogoffId
  {
    var r := ResolveNames(db, clientname, servername);
    ResolveNamesValid(db, clientname, servername);
    var e := EventRow(r.db.nextLoginId, r.clientId, r.serverId, time);
    AppendKeepsKeysFresh(r.db.logins, r.db.nextLoginId, e);
    var db' := RecordLogin(db, clientname, servername, time);
    assert db'.logins[..|db.logins|] == db.logins;
    assert RefsExist(db'.logins, db'.clients, db'.servers) by {
      forall i | 0 <= i < |db'.logins|
        ensures HasId(db'.clients, db'.logins[i].clientId) && HasId(db'.servers, db'.logins[i].serverId)
      {
        if i < |db.logins| { assert db'.logins[i] == db.logins[i]; }
      }
    }
  }

  /** `logoff_data` appends exactly one logoff in the same way; logins are
      untouched. */
  lemma RecordLogoffSpec(db: Database, clientname: string, servername: string, time: string)
    requires Valid(db)
    ensures var db' := RecordLogoff(db, clientname, servername, time);
      && Valid(db')
      && |db'.logoffs| == |db.logoffs| + 1
      && db'.logoffs[..|db.logoffs|] == db.logoffs
      && var e := db'.logoffs[|db.logoffs|];
      && e.timestamp == time
      && e.id !in EventIds(db.logoffs)
      && Lookup(db'.clients, clientname) == Some(NamedRow(e.clientId, clientname))
      && Lookup(db'.servers, servername) == Some(NamedRow(e.serverId, servername))
      && db.clients <= db'.clients && |db'.clients| <= |db.clients| + 1
      && db.servers <= db'.servers && |db'.servers| <= |db.servers| + 1
      && db'.clients == Resolve(db.clients, db.nextClientId, clientname).rows
      && db'.servers == Resolve(db.servers, db.nextServerId, servername).rows
      && db'.logins == db.logins && db'.nextLoginId == db.nextLoginId
  {
    var r := ResolveNames(db, clientname, servername);
    ResolveNamesValid(db, clientname, servername);
    var e := EventRow(r.db.nextLogoffId, r.clientId, r.serverId, time);
    AppendKeepsKeysFresh(r.db.logoffs, r.db.nextLogoffId, e);
    var db' := RecordLogoff(db, clientname, servername, time);
    assert db'.logoffs[..|db.logoffs|] == db.logoffs;
    assert RefsExist(db'.logoffs, db'.clients, db'.servers) by {
      forall i | 0 <= i < |db'.logoffs|
        ensures HasId(db'.clients, db'.logoffs[i].clientId) && HasId(db'.servers, db'.logoffs[i].serverId)
      {
        if i < |db.logoffs| { assert db'.logoffs[i] == db.logoffs[i]; }
      }
    }
  }

  /** Recording with names that are already known adds no client or server. */
  lemma RecordKnownNames(db: Database, client: Client, server: Server, time: string)
    requires Valid(db)
    requires client in db.clients && server in db.servers
    ensures var db' := RecordLogin(db, client.name, server.name, time);
      && db'.clients == db.clients && db'.servers == db.servers
      && db'.logins[|db.logins|] == EventRow(db.nextLoginId, client.id, server.id, time)
    ensures var db' := RecordLogoff(db, client.name, server.name, time);
      && db'.clients == db.clients && db'.servers == db.servers
      && db'.logoffs[|db.logoffs|] == EventRow(db.nextLogoffId, client.id, server.id, time)
  {
    ResolveExisting(db.clients, db.nextClientId, client);
    ResolveExisting(db.servers, db.nextServerId, server);
  }
}
