# Logon store: a Dafny model

The logon API records login and logoff events between named clients and
servers. Two endpoints (`/api/log`, `/api/logoff`) resolve the client name
and the server name to row ids, creating a row the first time a name is
seen (get-or-create). Each then appends one `Login` or `Logoff` row holding
the two ids and the caller's timestamp string. The `/dashboard` endpoint
groups logins by (client, server) and takes the latest timestamp. It does
the same, independently, for logoffs, then inner-joins both groups with the
client and server names. A pair appears only when it has both a login and a
logoff, because the logoff groups are inner-joined (main.py:167-171;
`DashboardRowForPair`).

The model has four modules:

- `TimestampOrder` (`timestamp_order.dfy`) orders timestamps. SQLite's
  `max` over a text column compares with the BINARY collation, which for
  well-formed text is code-point order. It is modelled as the lexicographic
  order `Le` on `seq<char>`, proved to be a total order. `MaxTime` takes
  the larger of two timestamps.
- `Tables` (`tables.dfy`) holds the row shapes and the whole store as a
  `Database` value.
  - `clients` and `servers` share one shape, `NamedRow`, with the type
    synonyms `Client` and `Server`.
  - `logins` and `logoffs` share one shape, `EventRow`, with the type
    synonyms `Login` and `Logoff`.
  - Each table carries the key its next row will get. Rows are never
    deleted, so SQLite hands out keys 1, 2, 3, …, and the next key is one
    not used before.
  - The module also holds the invariant `Valid`, get-or-create (`Lookup`,
    `Resolve`) and the two insert operations as functions (`RecordLogin`,
    `RecordLogoff`).
- `DashboardQuery` (`dashboard.dfy`) holds the group-by maximum
  (`LatestPerPair`), the join (`Dashboard`), and a reference description
  of a dashboard row that does not use the group-by (`IsDashboardRow`).
  Lemmas relate the two.
- `LogonApi` (`logon_api.dfy`) holds the store object `EventStore`. Its
  fields are the four tables and their next keys. `LogData` and
  `LogoffData` update the fields step by step, as the endpoints do through
  their database session: get-or-create the client, get-or-create the
  server, then append the event. Each is proved to leave the store equal to
  `RecordLogin` or `RecordLogoff` of the old store. `GetDashboard` only
  reads the store.

The invariant `Valid` of a store says:

- names are pairwise distinct in `clients` and in `servers` (the `unique`
  constraints);
- keys rise with insertion order and stay below the next key;
- every event's foreign keys name an existing client and server.

Both endpoints keep it.

## Model

| member | source | states |
|---|---|---|
| `TimestampOrder.LeReflexive` | main.py:141 | with the next three lemmas, specifies `Le`, the text order of `max`: every timestamp sorts at or before itself in the string order used by `max` |
| `TimestampOrder.LeAntisymmetric` | main.py:141 | two timestamps that each sort at or before the other are equal, so a group's maximum is a single value |
| `TimestampOrder.LeTransitive` | main.py:151 | the string order is transitive |
| `TimestampOrder.LeTotal` | main.py:151 | any two timestamps are comparable |
| `TimestampOrder.MaxTime` | main.py:141 | the result is one of the two timestamps, and both sort at or before it |
| `TimestampOrder.MaxTimeAbsorbs` | main.py:141 | adding a timestamp no later than the current maximum leaves the maximum unchanged |
| `Tables.Empty` | main.py:59 | the freshly created store has four empty tables, and each hands out key 1 first |
| `Tables.UniqueRow` | main.py:21-30 | states what `NamesUnique`, the `unique=True` constraint on the client and server names, guarantees: two rows of one table with the same name are the same row |
| `Tables.EmptyValid` | main.py:59 | the empty store satisfies the table invariant `Valid`: unique names, fresh keys, foreign keys that point at existing rows |
| `Tables.Lookup` | main.py:83 | the name lookup finds a row exactly when some row has that name, and the row it finds has that name |
| `Tables.LookupFindsRow` | main.py:21 | with unique names, looking up a row's name returns that row |
| `Tables.Resolve` | main.py:83-89 | after get-or-create, looking the name up finds a row with that name and the returned key; the old rows are kept as a prefix, with at most one row added |
| `Tables.ResolveExisting` | main.py:83-85 | resolving an existing name returns that row's key, adds no row and uses no key |
| `Tables.ResolveMissing` | main.py:85-89 | resolving a missing name appends exactly one row with that name and the next key, a key no existing row has |
| `Tables.ResolveIdempotent` | main.py:83-97 | resolving the same name a second time returns the same key and changes nothing |
| `Tables.ResolvePreservesTable` | main.py:85-97 | get-or-create keeps names pairwise distinct and keys fresh, keeps every existing key, and the returned key is in the table |
| `Tables.ResolveNames` | main.py:110-124 | the shared first half of both endpoints leaves logins and logoffs alone, and afterwards the two names look up to the two returned keys |
| `Tables.ResolveNamesValid` | main.py:83-97 | resolving both names keeps the store invariant, and both returned keys exist |
| `Tables.RecordLoginSpec` | main.py:80-104 | specifies `RecordLogin`: `log_data` appends exactly one login whatever the timestamp: the old logins stay, and the new row has a fresh key, the caller's timestamp unchanged, and the keys of the rows named `clientname` and `servername`. The clients and servers tables become exactly those of get-or-create on the two names, so each gains at most one row and a known name adds none. Logoffs are untouched, and the invariant holds |
| `Tables.RecordLogoffSpec` | main.py:107-130 | specifies `RecordLogoff`: `logoff_data` appends exactly one logoff in the same way; logins are untouched |
| `Tables.RecordKnownNames` | main.py:99-102 | when both names already exist, neither endpoint adds a client or a server, and the new event carries the existing rows' keys |
| `DashboardQuery.LatestUnique` | main.py:141 | a group has at most one timestamp meeting `IsLatest` (the timestamp of one of the group's events, with no event of the group later), so `max` has one value |
| `DashboardQuery.LatestPerPair` | main.py:137-145 | the grouped maximum has an entry exactly for the (client_id, server_id) pairs that have an event; each entry is the timestamp of one of that pair's events, and no event of the pair is later |
| `DashboardQuery.DashboardMatchesSpec` | main.py:157-173 | specifies `Dashboard`, the join, against the reference description `IsDashboardRow`: a row is in the query result exactly when a client and a server carry its names and, for that pair, its login time is the latest login and its logoff time the latest logoff, each over its own table |
| `DashboardQuery.RowOrigin` | main.py:164-171 | every result row comes from a client and a server that carry its names; its two times are that pair's latest login and latest logoff |
| `DashboardQuery.DashboardOneRowPerPair` | main.py:164-171 | two result rows naming the same client and server are the same row |
| `DashboardQuery.DashboardRowTimes` | main.py:161-162 | the row shown for a client and a server carries that pair's latest login and, independently, its latest logoff |
| `DashboardQuery.DashboardRowForPair` | main.py:165-171 | a client and server pair has a row exactly when it has at least one login and at least one logoff; a pair with only logins or only logoffs has none |
| `DashboardQuery.LatestAppend` | main.py:143 | grouping one more event changes only that event's pair, which becomes the larger of its old maximum and the new timestamp |
| `DashboardQuery.LatestIgnoresOlder` | main.py:99-102 | an event that is not later than its pair's latest is accepted and leaves the grouped maximum unchanged, because there is no ordering check |
| `DashboardQuery.LatestTakesNewer` | main.py:147-155 | an event later than its pair's latest, or of a new pair, becomes that pair's entry |
| `DashboardQuery.LatestOfOne` | main.py:143 | one event forms one group holding its own timestamp |
| `DashboardQuery.DashboardOfOnePair` | main.py:157-173 | a store with one client, one server, one login and one logoff of that pair gives exactly one row |
| `DashboardQuery.FirstSession` | main.py:80-130 | on an empty store, a login then a logoff for the same names create client 1 and server 1, then reuse them |
| `DashboardQuery.FirstSessionDashboard` | main.py:137-173 | after one login and one logoff of a fresh pair, the dashboard is exactly that one row with both timestamps as sent, in either order: a logoff earlier than the login still pairs with it |
| `LogonApi.EventStore.constructor` | main.py:59 | a new store is valid and empty |
| `LogonApi.EventStore.ResolveClient` | main.py:83-89 | the clients table and its next key become those of `Resolve`, the returned key is `Resolve`'s, the other tables are unchanged, and the invariant holds |
| `LogonApi.EventStore.ResolveServer` | main.py:91-97 | the same for the servers table |
| `LogonApi.EventStore.LogData` | main.py:80-104 | the new store is `RecordLogin` of the old one, the invariant holds, and the reply is "Data saved successfully" |
| `LogonApi.EventStore.LogoffData` | main.py:107-130 | the new store is `RecordLogoff` of the old one, the invariant holds, and the reply is "Logoff data saved successfully" |
| `LogonApi.EventStore.GetDashboard` | main.py:133-173 | returns the query result, which is exactly the rows of the reference description; the method may change nothing |
| `LogonApi.FirstSessionClient` | main.py:80-173 | from the store's contracts alone, a caller that logs in and then off once sees exactly one dashboard row |

## Left out

- HTTP routing, request-body parsing and the application metadata are left
  out. The endpoints are methods that take `(clientname, servername, time)`
  and return the fixed message.
- Template rendering of the dashboard is left out. `GetDashboard` returns
  the rows the template would receive.
- Engine and session setup, `commit` and `refresh` are left out. The tables
  are sequences, and each table has a next-key counter in place of SQLite's
  rowid assignment.
- The ORM relationship back-references are left out. They only navigate
  and change nothing.
- Concurrent requests racing on get-or-create are left out. So are sessions
  that are never closed. Each operation runs alone and completes.
- Row order and duplicates in the result are left out. The query has no
  ORDER BY, so the dashboard is a set of rows. Since ids and names are
  unique, `DashboardOneRowPerPair` shows each pair gives at most one row,
  so nothing is lost by using a set.
- `Tables.Lookup` is modelled as the first row in insertion order with that
  name. SQL's `.first()` without ORDER BY guarantees no order. With unique
  names at most one row matches, so the two do not differ.
- Text comparison is on code points. SQLite compares UTF-8 bytes, which
  agrees with code-point order for well-formed text.
- Storage-engine failures are left out: an unavailable database, or a
  unique-constraint error raised by a racing insert. The model has no
  failure path, and the code has no handler for either.
- SQLite does not enforce foreign keys by default. The model still keeps
  every event's keys pointing at existing rows, because both endpoints only
  ever write keys they have just resolved.
