/** The link registry: a table keyed by a short identifier holding one
    destination per identifier, with upsert, delete, point lookup and a
    full listing. */
module Links {

  /** A stored record: the short identifier and its destination. */
  datatype Link = Link(id: string, href: string)

  /** The opaque error the store reports; only its message is visible. */
  datatype StorageError = StorageError(msg: string)

  datatype Option<T> = None | Some(value: T)

  /** Outcome of one statement against the store. */
  datatype Result<T> = Ok(value: T) | Err(error: StorageError)

  /** `Link::new`: the record built from its two fields. */
  function NewLink(id: string, href: string): (l: Link)
    ensures l.id == id && l.href == href
  {
    Link(id, href)
  }

  // ---------------------------------------------------------------------
  // The table as a value, and what each statement does to it
  // ---------------------------------------------------------------------

  type Table = map<string, string>

  /** The effect of `INSERT ... ON CONFLICT(id) DO UPDATE SET href=...`:
      the key is present afterwards with the new destination, whether or
      not it was present before, and every other row is kept. */
  function Upserted(m: Table, id: string, href: string): (m': Table)
    ensures m'.Keys == m.Keys + {id}
    ensures m'[id] == href
    ensures forall k :: k in m && k != id ==> m'[k] == m[k]
  {
    m[id := href]
  }

  /** The effect of `DELETE FROM links WHERE id=?`. */
  function Removed(m: Table, id: string): (m': Table)
    ensures m'.Keys == m.Keys - {id}
    ensures forall k :: k in m' ==> m'[k] == m[k]
  {
    m - {id}
  }

  /** The row `SELECT * FROM links WHERE id=?` finds, if any. */
  function Lookup(m: Table, id: string): (r: Option<Link>)
    ensures r.Some? <==> id in m
    ensures r.Some? ==> r.value.id == id && r.value.href == m[id]
  {
    if id in m then Some(Link(id, m[id])) else None
  }

  /** The set of identifiers a sequence of records mentions. */
  function IdsOf(links: seq<Link>): (ids: set<string>)
  {
    set i | 0 <= i < |links| :: links[i].id
  }

  ghost predicate NoDuplicateIds(links: seq<Link>)
  {
    forall i, j :: 0 <= i < j < |links| ==> links[i].id != links[j].id
  }

  /** The table's rows as a set of records. */
  function Entries(m: Table): (rows: set<Link>)
  {
    set k | k in m :: Link(k, m[k])
  }

  /** `links` is a listing of every row of `m`, in some order: each row
      appears exactly once and nothing else appears. */
  ghost predicate ListsExactly(links: seq<Link>, m: Table)
  {
    && NoDuplicateIds(links)
    && IdsOf(links) == m.Keys
    && forall i :: 0 <= i < |links| ==> m[links[i].id] == links[i].href
  }

  // ---------------------------------------------------------------------
  // Properties of the statements
  // ---------------------------------------------------------------------

  /** Round trip: a lookup after an upsert finds exactly what was written,
      whatever was stored under that key before. */
  lemma UpsertThenLookup(m: Table, id: string, href: string)
    ensures Lookup(Upserted(m, id, href), id) == Some(NewLink(id, href))
  {
  }

  /** The last write wins: an overwritten destination is not kept. */
  lemma UpsertOverwrites(m: Table, id: string, h1: string, h2: string)
    ensures Upserted(Upserted(m, id, h1), id, h2) == Upserted(m, id, h2)
    ensures Lookup(Upserted(Upserted(m, id, h1), id, h2), id) == Some(Link(id, h2))
  {
  }

  /** Upsert and delete leave every other key alone. */
  lemma OtherKeysUnchanged(m: Table, id: string, href: string, k: string)
    requires k != id
    ensures Lookup(Upserted(m, id, href), k) == Lookup(m, k)
    ensures Lookup(Removed(m, id), k) == Lookup(m, k)
  {
  }

  /** An upsert adds a row exactly when the key was absent. */
  lemma UpsertSize(m: Table, id: string, href: string)
    ensures |Upserted(m, id, href)| == if id in m then |m| else |m| + 1
  {
  }

  /** A delete removes a row exactly when the key was present; after it
      the key is absent. */
  lemma RemoveSize(m: Table, id: string)
    ensures Lookup(Removed(m, id), id) == None
    ensures |Removed(m, id)| == if id in m then |m| - 1 else |m|
  {
  }

  /** Deleting an absent key is not an error and changes nothing. */
  lemma RemoveAbsent(m: Table, id: string)
    requires id !in m
    ensures Removed(m, id) == m
  {
  }

  /** Appending a record adds exactly its identifier. */
  lemma IdsOfAppend(links: seq<Link>, l: Link)
    ensures IdsOf(links + [l]) == IdsOf(links) + {l.id}
  {
    var s := links + [l];
    assert s[|links|] == l;
    forall k | k in IdsOf(links) ensures k in IdsOf(s) {
      var i :| 0 <= i < |links| && links[i].id == k;
      assert s[i] == links[i];
    }
  }

  /** A record sequence whose identifiers are distinct has as many
      identifiers as records. */
  lemma {:induction false} DistinctIdsCount(links: seq<Link>)
    requires NoDuplicateIds(links)
    ensures |IdsOf(links)| == |links|
  {
    if links != [] {
      var rest, last := links[..|links| - 1], links[|links| - 1];
      assert NoDuplicateIds(rest);
      DistinctIdsCount(rest);
      assert IdsOf(links) == IdsOf(rest) + {last.id};
      assert last.id !in IdsOf(rest);
    }
  }

  /** A complete listing has one record per key. */
  lemma ListedLength(links: seq<Link>, m: Table)
    requires ListsExactly(links, m)
    ensures |links| == |m|
  {
    DistinctIdsCount(links);
    assert |m| == |m.Keys|;
  }

  /** A complete listing holds precisely the table's (id, href) pairs. */
  lemma ListedEntries(links: seq<Link>, m: Table)
    requires ListsExactly(links, m)
    ensures (set i | 0 <= i < |links| :: links[i]) == Entries(m)
  {
  }

  /** A key is listed once, with its current destination: two upserts
      of one key leave a single record carrying the later value. */
  lemma OverwriteListedOnce(links: seq<Link>, m: Table, id: string, h1: string, h2: string)
    requires ListsExactly(links, Upserted(Upserted(m, id, h1), id, h2))
    ensures exists i :: 0 <= i < |links| && links[i] == Link(id, h2)
    ensures forall i, j :: 0 <= i < |links| && 0 <= j < |links| && links[i].id == id && links[j].id == id ==> i == j
  {
  }

  /** The table after a sequence of upserts, applied in order. */
  function UpsertAll(m: Table, links: seq<Link>): (m': Table)
    decreases |links|
  {
    if links == [] then m else UpsertAll(Upserted(m, links[0].id, links[0].href), links[1..])
  }

  lemma {:induction false} UpsertAllContents(m: Table, links: seq<Link>)
    requires NoDuplicateIds(links)
    ensures UpsertAll(m, links).Keys == m.Keys + IdsOf(links)
    ensures forall i :: 0 <= i < |links| ==> UpsertAll(m, links)[links[i].id] == links[i].href
    ensures forall k :: k in m && k !in IdsOf(links) ==> UpsertAll(m, links)[k] == m[k]
    decreases |links|
  {
    if links != [] {
      var rest := links[1..];
      assert NoDuplicateIds(rest);
      UpsertAllContents(Upserted(m, links[0].id, links[0].href), rest);
      assert IdsOf(links) == {links[0].id} + IdsOf(rest);
      forall i | 0 <= i < |links|
        ensures UpsertAll(m, links)[links[i].id] == links[i].href
      {
        if i > 0 {
          assert links[i] == rest[i - 1];
        } else {
          assert links[0].id !in IdsOf(rest);
        }
      }
    }
  }

  /** Listing completeness: after upserting N records with distinct
      identifiers into an empty table, those records are a complete
      listing of it, and so the table has exactly N rows. */
  lemma FreshUpsertsListed(links: seq<Link>)
    requires NoDuplicateIds(links)
    ensures ListsExactly(links, UpsertAll(map[], links))
    ensures |UpsertAll(map[], links)| == |links|
  {
    UpsertAllContents(map[], links);
    ListedLength(links, UpsertAll(map[], links));
  }

  // ---------------------------------------------------------------------
  // The store
  // ---------------------------------------------------------------------

  /** The `links` table of the store. Each operation is one statement,
      applied atomically. `fault` stands for the store's own failure
      (connectivity, I/O): when it is `Some(e)` the statement reports
      `e` and commits nothing. */
  class Registry {
    var table: Table

    constructor (initial: Table)
      ensures table == initial
    {
      table := initial;
    }

    /** `insert`: upsert, returning the record as written. */
    method Insert(link: Link, fault: Option<StorageError>) returns (r: Result<Link>)
      modifies this
      ensures fault.Some? ==> r == Err(fault.value) && table == old(table)
      ensures fault.None? ==> r.Ok? && r.value.id == link.id && r.value.href == link.href
      ensures fault.None? ==> table == Upserted(old(table), link.id, link.href)
    {
      if fault.Some? {
        return Err(fault.value);
      }
      table := table[link.id := link.href];
      // RETURNING id, href reads back the row just written
      r := Ok(Link(link.id, table[link.id]));
    }

    /** `delete`: true exactly when a row was removed. */
    method Delete(id: string, fault: Option<StorageError>) returns (r: Result<bool>)
      modifies this
      ensures fault.Some? ==> r == Err(fault.value) && table == old(table)
      ensures fault.None? ==> r == Ok(id in old(table))
      ensures fault.None? ==> table == Removed(old(table), id)
    {
      if fault.Some? {
        return Err(fault.value);
      }
      var rowsAffected := if id in table then 1 else 0;
      table := table - {id};
      r := Ok(rowsAffected > 0);
    }

    /** `get`: the row for `id`, or `None`; absence is not an error. */
    method Get(id: string, fault: Option<StorageError>) returns (r: Result<Option<Link>>)
      ensures fault.Some? ==> r == Err(fault.value)
      ensures fault.None? && id in table ==> r == Ok(Some(Link(id, table[id])))
      ensures fault.None? && id !in table ==> r == Ok(None)
    {
      if fault.Some? {
        return Err(fault.value);
      }
      r := Ok(Lookup(table, id));
    }

    /** `get_all`: every row exactly once, in an unspecified order. */
    method GetAll(fault: Option<StorageError>) returns (r: Result<seq<Link>>)
      ensures fault.Some? ==> r == Err(fault.value)
      ensures fault.None? ==> r.Ok? && ListsExactly(r.value, table)
      ensures fault.None? ==> r.Ok? && |r.value| == |table|
    {
      if fault.Some? {
        return Err(fault.value);
      }
      var rest := table.Keys;
      var links: seq<Link> := [];
      while rest != {}
        invariant rest <= table.Keys
        invariant IdsOf(links) == table.Keys - rest
        invariant NoDuplicateIds(links)
        invariant forall i :: 0 <= i < |links| ==> links[i].id in table && table[links[i].id] == links[i].href
        decreases rest
      {
        var k :| k in rest;
        assert k !in IdsOf(links);
        IdsOfAppend(links, Link(k, table[k]));
        links := links + [Link(k, table[k])];
        rest := rest - {k};
      }
      ListedLength(links, table);
      r := Ok(links);
    }
  }
}
