# linker: link registry and HTTP handlers

A URL shortener. A client registers a short identifier (`id`) that maps to a
destination URL (`href`). Requests for that identifier are then redirected to
the destination. This project models the two layers of that service in Dafny:

- **Links** (`links.dfy`, modelling `src/links.rs`) is the link registry.
  The store's `links` table is the field `table: map<string, string>` of class
  `Registry`. A map holds exactly one row per identifier by construction. Each
  SQL statement becomes one method:
  - `Insert` is an UPSERT with `RETURNING`;
  - `Delete` reports whether a row was affected;
  - `Get` is a point lookup;
  - `GetAll` is the full listing.

  Each method is specified by a pure function of the table (`Upserted`,
  `Removed`, `Lookup`) or by the predicate `ListsExactly`. The registry's
  properties are lemmas about those.
- **Handlers** (`handlers.dfy`, modelling `src/main.rs`) is the endpoint
  layer. A `Response` is one of five values:
  - `Redirect(location)`
  - `Status(code, body)`
  - `JsonLink(code, link)`
  - `JsonLinks(code, links)`
  - `NoBody(code)`

  Each handler's `match` together with `map_err(internal_error)?` becomes a
  function from a registry outcome to a response. Each handler becomes a method
  that makes the one registry call and applies that function.

Storage failures are an input. Every registry method takes
`fault: Option<StorageError>`. `Some(e)` stands for the store failing that
statement: the method returns `Err(e)` and the table is left as it was, because
one SQLite statement commits entirely or not at all. `None` means the statement
succeeds. This makes the error arm of every handler reachable, and every
handler's contract states it.

The read-only handlers (`HandleRedirect`, `GetLink`, `GetAllLinks`) and the
read-only registry methods (`Get`, `GetAll`) have no `modifies` clause.
Dafny's frame rule therefore guarantees that they leave the table unchanged.

## Model

| member | source | states |
|---|---|---|
| `Links.NewLink` | src/links.rs:11-13 | the record's `id` and `href` are exactly the two arguments |
| `Links.Upserted` | src/links.rs:19 | after an upsert the key is present with the new `href`, whether or not it was present before; the keys are the old keys plus `id`; every other row keeps its value |
| `Links.Removed` | src/links.rs:28 | after a delete the keys are the old keys minus `id`; every remaining row keeps its value |
| `Links.Lookup` | src/links.rs:36 | finds a row exactly when the key is in the table, and that row carries the key and its stored `href` |
| `Links.UpsertThenLookup` | src/links.rs:16-24 | round trip: a lookup after `insert(id, href)` gives `Link::new(id, href)` |
| `Links.UpsertOverwrites` | src/links.rs:19 | the last write wins: upserting `h1` then `h2` equals upserting `h2` alone, and a lookup then gives `h2` |
| `Links.OtherKeysUnchanged` | src/links.rs:16-33 | an upsert or delete of `id` leaves the lookup of every other key unchanged |
| `Links.UpsertSize` | src/links.rs:19 | an upsert adds a row exactly when the key was absent, and otherwise keeps the row count |
| `Links.RemoveSize` | src/links.rs:27-33 | after a delete the key is absent; the row count drops by one exactly when the key was present |
| `Links.RemoveAbsent` | src/links.rs:28-32 | deleting an absent key leaves the table unchanged |
| `Links.DistinctIdsCount` | src/links.rs:41-45 | a record sequence with distinct ids has as many ids as records |
| `Links.ListedLength` | src/links.rs:41-45 | a complete listing has exactly one record per key of the table |
| `Links.ListedEntries` | src/links.rs:41-45 | the set of records in a complete listing equals the set of the table's `(id, href)` pairs |
| `Links.OverwriteListedOnce` | src/links.rs:19 | after two upserts of one key, any complete listing holds exactly one record for that key, with the later `href` |
| `Links.UpsertAllContents` | src/links.rs:16-24 | after upserting records with distinct ids in sequence, the keys are the old keys plus those ids; each written id maps to its `href`; every untouched old key keeps its value |
| `Links.FreshUpsertsListed` | src/links.rs:41-45 | after upserting N records with distinct ids into an empty table, those records are a complete listing of it, and the table has N rows |
| `Links.Registry.constructor` | src/main.rs:49 | the registry handed to the handlers starts with the given table |
| `Links.Registry.Insert` | src/links.rs:16-25 | on success: the table becomes `Upserted(old table, id, href)` and the returned record has the given `id` and `href`. On storage error: the error is returned unchanged and the table is untouched |
| `Links.Registry.Delete` | src/links.rs:27-33 | on success: returns true exactly when `id` was in the table beforehand, and the table becomes `Removed(old table, id)`. On storage error: the error is returned and the table is untouched |
| `Links.Registry.Get` | src/links.rs:35-39 | `Ok(Some(Link(id, table[id])))` when present, `Ok(None)` when absent, the storage error otherwise; no state change |
| `Links.Registry.GetAll` | src/links.rs:41-45 | on success: a listing with no duplicate ids, whose ids are the table's keys and whose every record carries its stored `href`, with length equal to the number of keys. On storage error: the error is returned |
| `Handlers.InternalError` | src/main.rs:107-112 | a storage error becomes status 500 with the error's message as body |
| `Handlers.RedirectResponse` | src/main.rs:65-68 | error gives 500 with the message; `Some(link)` gives a redirect to `link.href`; `None` gives `(404, "Not Found")` |
| `Handlers.PutLinkResponse` | src/main.rs:76-79 | error gives 500 with the message; a written record gives 201 with exactly that record |
| `Handlers.DeleteLinkResponse` | src/main.rs:86-87 | error gives 500 with the message; `true` or `false` both give 204 |
| `Handlers.GetLinkResponse` | src/main.rs:94-97 | error gives 500 with the message; `Some(link)` gives `(200, link)`; `None` gives `(404, "Not Found")` |
| `Handlers.GetAllLinksResponse` | src/main.rs:103-104 | error gives 500 with the message; a listing gives 200 with exactly that list |
| `Handlers.LookupOutcomesDisjoint` | src/main.rs:61-98 | `redirect` and `get_link` answer 500 exactly on a storage error and 404 exactly on an absent row, so an error never becomes a 404 and an absence never becomes a 500 |
| `Handlers.OtherOutcomesNeverNotFound` | src/main.rs:71-105 | `put_link`, `delete_link` and `get_all_links` answer 500 exactly on a storage error, and never 404 |
| `Handlers.HandleRedirect` | src/main.rs:61-69 | redirects to the stored `href` when `id` is present; `(404, "Not Found")` when absent; `(500, msg)` on storage error; read-only |
| `Handlers.PutLink` | src/main.rs:71-80 | one upsert of `(id, payload.href)`, answered by 201 with that record; on storage error, 500 with the message and the table untouched |
| `Handlers.DeleteLink` | src/main.rs:82-88 | removes `id` and answers 204 whether or not it was present; on storage error, 500 with the message and the table untouched |
| `Handlers.GetLink` | src/main.rs:90-98 | `(200, Link(id, table[id]))` when present; `(404, "Not Found")` when absent; `(500, msg)` on storage error; read-only |
| `Handlers.GetAllLinks` | src/main.rs:100-105 | 200 with a complete, duplicate-free listing of the table, whose length is the number of rows; `(500, msg)` on storage error; read-only |
| `Handlers.PromoSession` | src/main.rs:61-98 | on an empty, healthy store: PUT `promo` gives 201 with the record; GET redirects to the destination; GET /debug gives 200 with the record; DELETE gives 204; GET then gives 404; a second DELETE still gives 204 |

## Left out

- `main` (src/main.rs:25-59) is left out because it is bootstrap and I/O:
  tracing setup, the SQLite connection and migrations, router construction,
  and TCP binding and serving. The routes it registers appear only as the
  handler comments.
- `EnvironmentVariables::from_env` (src/main.rs:125-139) is left out because
  it reads the process environment and `.env` and parses the port with Rust's
  `u16` parser. When `PORT` is unset it defaults to port 8000.
- JSON (de)serialisation of `Payload` and `Link` through serde is left out,
  because it is library behaviour. The same goes for the framework rejecting
  a malformed request body before the handler runs.
- The redirect's status code is left out. `Redirect::to` belongs to the web
  framework and sends 303 See Other (section 15.4.4 of RFC 9110). The model
  keeps only `Redirect(location)`.
- `Handlers.RedirectResponse`: does not capture the web framework's panic in
  `Redirect::to` when the stored `href` is not a valid header value (for
  example, one holding a control character such as a newline). Nothing
  checks `href` before it is stored (src/main.rs:74-76). In that case the
  connection closes with no response, where the model answers
  `Redirect(href)`. This is library behaviour, outside the shipped source.
  `Handlers.HandleRedirect` inherits the same gap.
- The not-found body is the plain text `"Not Found"` (src/main.rs:67, 96).
- Asynchronous, pooled and concurrent execution is left out. Each registry call
  is one atomic, sequential update of the table, as one SQLite statement is.
- Storage errors and their contents are left out. They are an injected
  `fault` parameter carrying an opaque message. The model does not say when
  the store fails, only what follows when it does.
- The SQL engine and the migration schema are left out. They are represented
  only by the `map<string, string>` field.
- `Links.Registry.GetAll` returns the rows in whatever order the key set yields
  them, like `SELECT *` without `ORDER BY`. The model does not capture the
  store's actual storage order.
