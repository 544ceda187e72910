/**
 * The `/dashboard` query: the latest login and, independently, the latest
 * logoff of every (client, server) pair, joined with the two names. A pair
 * shows up only when it has both kinds of event.
 */
module DashboardQuery {
  import opened TimestampOrder
  import opened Tables

  /** The grouping key of both subqueries: (client_id, server_id). */
  type Pair = (int, int)

  function PairOf(e: EventRow): Pair
  {
    (e.clientId, e.serverId)
  }

  /** Some event of `es` belongs to pair `k`. */
  ghost predicate HasPair(es: seq<EventRow>, k: Pair)
  {
    exists i :: 0 <= i < |es| && PairOf(es[i]) == k
  }

  /** `t` is the timestamp of some event of pair `k`, and no event of that
      pair has a later one: the value of `max(timestamp)` for that group. */
  ghost predicate IsLatest(es: seq<EventRow>, k: Pair, t: string)
  {
    && (exists i :: 0 <= i < |es| && PairOf(es[i]) == k && es[i].timestamp == t)
    && (forall i :: 0 <= i < |es| && PairOf(es[i]) == k ==> Le(es[i].timestamp, t))
  }

  /** A group has one maximum, the order being total and antisymmetric. */
  lemma LatestUnique(es: seq<EventRow>, k: Pair, t1: string, t2: string)
    requires IsLatest(es, k, t1) && IsLatest(es, k, t2)
    ensures t1 == t2
  {
    var i :| 0 <= i < |es| && PairOf(es[i]) == k && es[i].timestamp == t1;
    var j :| 0 <= j < |es| && PairOf(es[j]) == k && es[j].timestamp == t2;
    LeAntisymmetric(t1, t2);
  }

  lemma LatestStep(init: seq<EventRow>, e: EventRow, m0: map<Pair, string>, t: string)
    requires forall k :: k in m0 <==> HasPair(init, k)
    requires forall k :: k in m0 ==> IsLatest(init, k, m0[k])
    requires t == if PairOf(e) in m0 then MaxTime(m0[PairOf(e)], e.timestamp) else e.timestamp
    ensures var es, m := init + [e], m0[PairOf(e) := t];
      && (forall k :: k in m <==> HasPair(es, k))
      && (forall k :: k in m ==> IsLatest(es, k, m[k]))
  {
    var es, m := init + [e], m0[PairOf(e) := t];
    var n := |init|;
    assert forall i :: 0 <= i < n ==> es[i] == init[i];
    assert es[n] == e;
    forall k ensures k in m <==> HasPair(es, k) {
      if HasPair(es, k) && k != PairOf(e) {
        var i :| 0 <= i < |es| && PairOf(es[i]) == k;
        assert PairOf(init[i]) == k;
      }
    }
    forall k | k in m ensures IsLatest(es, k, m[k]) {
      if k == PairOf(e) {
        LeReflexive(e.timestamp);
        if k in m0 {
          var j :| 0 <= j < n && PairOf(init[j]) == k && init[j].timestamp == m0[k];
          if t == m0[k] {
            assert PairOf(es[j]) == k && es[j].timestamp == t;
          } else {
            assert PairOf(es[n]) == k && es[n].timestamp == t;
          }
          forall i | 0 <= i < |es| && PairOf(es[i]) == k ensures Le(es[i].timestamp, t) {
            if i < n {
              LeTransitive(init[i].timestamp, m0[k], t);
            }
          }
        } else {
          forall i | 0 <= i < n ensures PairOf(init[i]) != k {
          }
          assert PairOf(es[n]) == k && es[n].timestamp == t;
        }
      } else {
        var j :| 0 <= j < n && PairOf(init[j]) == k && init[j].timestamp == m0[k];
        assert PairOf(es[j]) == k && es[j].timestamp == m[k];
      }
    }
  }

  /** `SELECT client_id, server_id, max(timestamp) ... GROUP BY client_id,
      server_id`: one entry per pair that has an event, holding that pair's
      latest timestamp in string order. */
  function LatestPerPair(es: seq<EventRow>): (m: map<Pair, string>)
    ensures forall k :: k in m <==> HasPair(es, k)
    ensures forall k :: k in m ==> IsLatest(es, k, m[k])
    decreases |es|
  {
    if |es| == 0 then map[]
    else
      var init, e := es[..|es| - 1], es[|es| - 1];
      assert es == init + [e];
      var m0 := LatestPerPair(init);
      var t := if PairOf(e) in m0 then MaxTime(m0[PairOf(e)], e.timestamp) else e.timestamp;
      LatestStep(init, e, m0, t);
      m0[PairOf(e) := t]
  }

  /** One row of the dashboard: `client_name`, `server_name`, `login_time`,
      `logoff_time`. */
  datatype DashboardRow = DashboardRow(clientName: string, serverName: string, loginTime: string, logoffTime: string)

  /** The join of clients, the login subquery, servers and the logoff
      subquery, matched on the client and server keys. The query has no
      ORDER BY, so the result is a set. */
  function Dashboard(db: Database): set<DashboardRow>
  {
    var latestLogin := LatestPerPair(db.logins);
    var latestLogoff := LatestPerPair(db.logoffs);
    set c, s | c in db.clients && s in db.servers
                 && (c.id, s.id) in latestLogin && (c.id, s.id) in latestLogoff
      :: DashboardRow(c.name, s.name, latestLogin[(c.id, s.id)], latestLogoff[(c.id, s.id)])
  }

  /** What a dashboard row is, stated without the group-by: the names of a
      client and a server and, for that pair, the latest login and the
      latest logoff, each over its own table. */
  ghost predicate IsDashboardRow(db: Database, r: DashboardRow)
  {
    exists c, s :: c in db.clients && s in db.servers
      && c.name == r.clientName && s.name == r.serverName
      && IsLatest(db.logins, (c.id, s.id), r.loginTime)
      && IsLatest(db.logoffs, (c.id, s.id), r.logoffTime)
  }

  /** The query's rows are exactly the rows of the reference description. */
  lemma DashboardMatchesSpec(db: Database)
    ensures forall r :: r in Dashboard(db) <==> IsDashboardRow(db, r)
  {
    var latestLogin := LatestPerPair(db.logins);
    var latestLogoff := LatestPerPair(db.logoffs);
    forall r ensures r in Dashboard(db) <==> IsDashboardRow(db, r) {
      if IsDashboardRow(db, r) {
        var c, s :| c in db.clients && s in db.servers
          && c.name == r.clientName && s.name == r.serverName
          && IsLatest(db.logins, (c.id, s.id), r.loginTime)
          && IsLatest(db.logoffs, (c.id, s.id), r.logoffTime);
        var k := (c.id, s.id);
        var i :| 0 <= i < |db.logins| && PairOf(db.logins[i]) == k && db.logins[i].timestamp == r.loginTime;
        var j :| 0 <= j < |db.logoffs| && PairOf(db.logoffs[j]) == k && db.logoffs[j].timestamp == r.logoffTime;
        assert HasPair(db.logins, k) && HasPair(db.logoffs, k);
        LatestUnique(db.logins, k, latestLogin[k], r.loginTime);
        LatestUnique(db.logoffs, k, latestLogoff[k], r.logoffTime);
        assert r == DashboardRow(c.name, s.name, latestLogin[k], latestLogoff[k]);
      }
    }
  }

  /** The client and the server a result row was built from. */
  lemma RowOrigin(db: Database, r: DashboardRow) returns (c: Client, s: Server)
    requires r in Dashboard(db)
    ensures c in db.clients && s in db.servers
    ensures c.name == r.clientName && s.name == r.serverName
    ensures IsLatest(db.logins, (c.id, s.id), r.loginTime)
    ensures IsLatest(db.logoffs, (c.id, s.id), r.logoffTime)
  {
    var latestLogin := LatestPerPair(db.logins);
    var latestLogoff := LatestPerPair(db.logoffs);
    c, s :| c in db.clients && s in db.servers
      && (c.id, s.id) in latestLogin && (c.id, s.id) in latestLogoff
      && r == DashboardRow(c.name, s.name, latestLogin[(c.id, s.id)], latestLogoff[(c.id, s.id)]);
  }

  /** Names are unique, so two rows for the same (client, server) names are
      the same row: at most one row per pair. */
  lemma DashboardOneRowPerPair(db: Database, r1: DashboardRow, r2: DashboardRow)
    requires NamesUnique(db.clients) && NamesUnique(db.servers)
    requires r1 in Dashboard(db) && r2 in Dashboard(db)
    requires r1.clientName == r2.clientName && r1.serverName == r2.serverName
    ensures r1 == r2
  {
    var c1, s1 := RowOrigin(db, r1);
    var c2, s2 := RowOrigin(db, r2);
    UniqueRow(db.clients, c1, c2);
    UniqueRow(db.servers, s1, s2);
    LatestUnique(db.logins, (c1.id, s1.id), r1.loginTime, r2.loginTime);
    LatestUnique(db.logoffs, (c1.id, s1.id), r1.logoffTime, r2.logoffTime);
  }

  /** The row a dashboard shows for a client and a server carries the
      latest login and the latest logoff of that pair. */
  lemma DashboardRowTimes(db: Database, c: Client, s: Server, r: DashboardRow)
    requires NamesUnique(db.clients) && NamesUnique(db.servers)
    requires c in db.clients && s in db.servers
    requires r in Dashboard(db) && r.clientName == c.name && r.serverName == s.name
    ensures IsLatest(db.logins, (c.id, s.id), r.loginTime)
    ensures IsLatest(db.logoffs, (c.id, s.id), r.logoffTime)
  {
    var c', s' := RowOrigin(db, r);
    UniqueRow(db.clients, c, c');
    UniqueRow(db.servers, s, s');
  }

  /** A client and server pair has a dashboard row exactly when it has at
      least one login and at least one logoff. */
  lemma DashboardRowForPair(db: Database, c: Client, s: Server)
    requires NamesUnique(db.clients) && NamesUnique(db.servers)
    requires c in db.clients && s in db.servers
    ensures (exists r :: r in Dashboard(db) && r.clientName == c.name && r.serverName == s.name)
        <==> HasPair(db.logins, (c.id, s.id)) && HasPair(db.logoffs, (c.id, s.id))
  {
    var k := (c.id, s.id);
    if HasPair(db.logins, k) && HasPair(db.logoffs, k) {
      var latestLogin := LatestPerPair(db.logins);
      var latestLogoff := LatestPerPair(db.logoffs);
      var r := DashboardRow(c.name, s.name, latestLogin[k], latestLogoff[k]);
      assert r in Dashboard(db);
    }
    if r :| r in Dashboard(db) && r.clientName == c.name && r.serverName == s.name {
      DashboardRowTimes(db, c, s, r);
      assert exists i :: 0 <= i < |db.logins| && PairOf(db.logins[i]) == k && db.logins[i].timestamp == r.loginTime;
      assert exists i :: 0 <= i < |db.logoffs| && PairOf(db.logoffs[i]) == k && db.logoffs[i].timestamp == r.logoffTime;
    }
  }

  /** The group-by over one more event: only that event's pair changes, to
      the larger of its old maximum and the new timestamp. */
  lemma LatestAppend(es: seq<EventRow>, e: EventRow)
    ensures var m, k := LatestPerPair(es), PairOf(e);
      LatestPerPair(es + [e]) == m[k := if k in m then MaxTime(m[k], e.timestamp) else e.timestamp]
  {
    var es' := es + [e];
    assert es'[..|es'| - 1] == es;
    assert es'[|es'| - 1] == e;
  }

  /** Recording an event no later than its pair's current latest leaves the
      grouped maximum as it was: timestamps are not checked for order. */
  lemma LatestIgnoresOlder(es: seq<EventRow>, e: EventRow)
    requires PairOf(e) in LatestPerPair(es)
    requires Le(e.timestamp, LatestPerPair(es)[PairOf(e)])
    ensures LatestPerPair(es + [e]) == LatestPerPair(es)
  {
    var m := LatestPerPair(es);
    var k := PairOf(e);
    MaxTimeAbsorbs(m[k], e.timestamp);
    LatestAppend(es, e);
    assert m[k := m[k]] == m;
  }

  /** Recording an event later than its pair's latest makes it the new latest. */
  lemma LatestTakesNewer(es: seq<EventRow>, e: EventRow)
    requires PairOf(e) in LatestPerPair(es) ==> Lt(LatestPerPair(es)[PairOf(e)], e.timestamp)
    ensures LatestPerPair(es + [e]) == LatestPerPair(es)[PairOf(e) := e.timestamp]
  {
    var m := LatestPerPair(es);
    var k := PairOf(e);
    LatestAppend(es, e);
    if k in m {
      assert MaxTime(m[k], e.timestamp) == e.timestamp;
    }
  }

  lemma LatestOfOne(e: EventRow)
    ensures LatestPerPair([e]) == map[PairOf(e) := e.timestamp]
  {
    assert [e][..0] == [];
  }

  /** A store holding one client, one server, one login and one logoff of
      that pair shows exactly one row. */
  lemma DashboardOfOnePair(db: Database, c: Client, s: Server, login: Login, logoff: Logoff)
    requires db.clients == [c] && db.servers == [s]
    requires db.logins == [login] && db.logoffs == [logoff]
    requires PairOf(login) == (c.id, s.id) && PairOf(logoff) == (c.id, s.id)
    ensures Dashboard(db) == {DashboardRow(c.name, s.name, login.timestamp, logoff.timestamp)}
  {
    LatestOfOne(login);
    LatestOfOne(logoff);
    var r := DashboardRow(c.name, s.name, login.timestamp, logoff.timestamp);
    assert r in Dashboard(db);
  }

  /** The first login into an empty store creates client 1, server 1 and
      login 1; a logoff for the same names then reuses both rows. */
  lemma FirstSession(clientname: string, servername: string, t1: string, t2: string)
    ensures RecordLogoff(RecordLogin(Empty(), clientname, servername, t1), clientname, servername, t2)
         == Database([NamedRow(1, clientname)], 2, [NamedRow(1, servername)], 2,
                     [EventRow(1, 1, 1, t1)], 2, [EventRow(1, 1, 1, t2)], 2)
  {
    EmptyValid();
    var db1 := RecordLogin(Empty(), clientname, servername, t1);
    assert db1 == Database([NamedRow(1, clientname)], 2, [NamedRow(1, servername)], 2,
                           [EventRow(1, 1, 1, t1)], 2, [], 1);
    RecordLoginSpec(Empty(), clientname, servername, t1);
    RecordKnownNames(db1, NamedRow(1, clientname), NamedRow(1, servername), t2);
  }

  /** After one login and one logoff of a fresh pair the dashboard holds
      exactly one row with both timestamps as sent, whichever of the two
      sorts first: nothing ties a logoff to a login, so `logoff_time` may be
      earlier than `login_time`. */
  lemma FirstSessionDashboard(clientname: string, servername: string, loginTime: string, logoffTime: string)
    ensures var db := RecordLogoff(RecordLogin(Empty(), clientname, servername, loginTime),
                                   clientname, servername, logoffTime);
      && Valid(db)
      && Dashboard(db) == {DashboardRow(clientname, servername, loginTime, logoffTime)}
  {
    FirstSession(clientname, servername, loginTime, logoffTime);
    var db := RecordLogoff(RecordLogin(Empty(), clientname, servername, loginTime),
                           clientname, servername, logoffTime);
    DashboardOfOnePair(db, NamedRow(1, clientname), NamedRow(1, servername),
                       EventRow(1, 1, 1, loginTime), EventRow(1, 1, 1, logoffTime));
  }
}
