/** The `repositories` table and the statement the crawl runs against it:
    `INSERT ... ON CONFLICT (id) DO UPDATE SET star_count = EXCLUDED.star_count`,
    executed once per record by `executemany` (src/crawler.py:49-54), on a table
    whose primary key is `id` (setup_postgres.py:9-14). */
module Repositories {

  /** The provider-assigned repository id, the table's primary key. */
  type NodeId = string

  /** A creation time, kept as the ISO-8601 text handed to the timestamp parser. */
  datatype Timestamp = Timestamp(iso: string)

  /** One tuple of the `executemany` argument list: (id, full_name, star_count, created_at). */
  datatype Record = Record(id: NodeId, fullName: string, stars: int, createdAt: Timestamp)

  /** The non-key columns of one stored row. */
  datatype Row = Row(fullName: string, stars: int, createdAt: Timestamp)

  /** The table, keyed by `id`. */
  type Table = map<NodeId, Row>

  /** `text.replace('Z', '+00:00')`: every `Z` (the UTC designator) becomes an
      explicit `+00:00` offset, since the parser of the time does not accept `Z`. */
  function NormalizeUtc(text: string): (r: string)
    ensures 'Z' !in r
    ensures |r| >= |text|
  {
    if text == [] then []
    else (if text[0] == 'Z' then "+00:00" else [text[0]]) + NormalizeUtc(text[1..])
  }

  /** Text without a `Z` is passed through unchanged; in particular normalizing
      twice is the same as normalizing once. */
  lemma {:induction false} NormalizeUtcKeepsText(text: string)
    requires 'Z' !in text
    ensures NormalizeUtc(text) == text
  {
    if text != [] {
      assert text[0] != 'Z';
      NormalizeUtcKeepsText(text[1..]);
    }
  }

  lemma NormalizeUtcIdempotent(text: string)
    ensures NormalizeUtc(NormalizeUtc(text)) == NormalizeUtc(text)
  {
    NormalizeUtcKeepsText(NormalizeUtc(text));
  }

  /** The replacement works character by character, so it distributes over
      concatenation. */
  lemma {:induction false} NormalizeUtcAppend(a: string, b: string)
    ensures NormalizeUtc(a + b) == NormalizeUtc(a) + NormalizeUtc(b)
    decreases |a|
  {
    if a == [] {
      assert a + b == b;
    } else {
      var head := if a[0] == 'Z' then "+00:00" else [a[0]];
      NormalizeUtcFirst(a + b);
      assert (a + b)[1..] == a[1..] + b;
      NormalizeUtcAppend(a[1..], b);
      AppendAssociative(head, NormalizeUtc(a[1..]), NormalizeUtc(b));
    }
  }

  /** One unfolding of `NormalizeUtc` on a non-empty text. */
  lemma NormalizeUtcFirst(text: string)
    requires text != []
    ensures NormalizeUtc(text) == (if text[0] == 'Z' then "+00:00" else [text[0]]) + NormalizeUtc(text[1..])
  {
  }

  lemma AppendAssociative(a: string, b: string, c: string)
    ensures a + (b + c) == (a + b) + c
  {
  }

  /** A timestamp in the provider's form, a date and time without offset
      followed by the `Z` designator, reaches the parser with an explicit
      `+00:00` offset in place of the `Z` and is otherwise unchanged. */
  lemma UtcDesignatorReplaced(dateTime: string)
    requires 'Z' !in dateTime
    ensures NormalizeUtc(dateTime + "Z") == dateTime + "+00:00"
  {
    NormalizeUtcAppend(dateTime, "Z");
    NormalizeUtcKeepsText(dateTime);
    assert NormalizeUtc("Z") == "+00:00" + NormalizeUtc([]);
  }

  /** The effect of one executed statement: a new id inserts the whole record, an
      existing id only takes the record's star count. */
  function Upsert(t: Table, r: Record): Table
  {
    if r.id in t then t[r.id := t[r.id].(stars := r.stars)]
    else t[r.id := Row(r.fullName, r.stars, r.createdAt)]
  }

  /** One statement stores the record's id and no other: the row under it takes
      the record's star count, keeps its full name and creation time when the
      id was already stored and takes the record's otherwise, and every other
      row is unchanged. */
  lemma UpsertEffect(t: Table, r: Record)
    ensures Upsert(t, r).Keys == t.Keys + {r.id}
    ensures Upsert(t, r)[r.id].stars == r.stars
    ensures r.id in t ==> Upsert(t, r)[r.id] == Row(t[r.id].fullName, r.stars, t[r.id].createdAt)
    ensures r.id !in t ==> Upsert(t, r)[r.id] == Row(r.fullName, r.stars, r.createdAt)
    ensures forall id :: id in t && id != r.id ==> Upsert(t, r)[id] == t[id]
  {
  }

  /** The effect of `executemany`: the statement once per record, in order. */
  function UpsertAll(t: Table, rs: seq<Record>): Table
    decreases |rs|
  {
    if rs == [] then t else UpsertAll(Upsert(t, rs[0]), rs[1..])
  }

  /** The ids a page of records carries. */
  function Ids(rs: seq<Record>): set<NodeId>
    decreases |rs|
  {
    if rs == [] then {} else {rs[0].id} + Ids(rs[1..])
  }

  /** The ids of two pages in turn are the ids of each. */
  lemma {:induction false} IdsAppend(a: seq<Record>, b: seq<Record>)
    ensures Ids(a + b) == Ids(a) + Ids(b)
    decreases |a|
  {
    if a == [] {
      assert a + b == b;
    } else {
      assert (a + b)[0] == a[0];
      assert (a + b)[1..] == a[1..] + b;
      IdsAppend(a[1..], b);
    }
  }

  /** The first record of `rs` with the given id. */
  function FirstWith(rs: seq<Record>, id: NodeId): (r: Record)
    requires id in Ids(rs)
    ensures r in rs && r.id == id
    decreases |rs|
  {
    if rs[0].id == id then rs[0] else FirstWith(rs[1..], id)
  }

  /** The last record of `rs` with the given id. */
  function LastWith(rs: seq<Record>, id: NodeId): (r: Record)
    requires id in Ids(rs)
    ensures r in rs && r.id == id
    decreases |rs|
  {
    if id in Ids(rs[1..]) then LastWith(rs[1..], id) else rs[0]
  }

  /** What `executemany` leaves under one id. An id the page does not carry is
      untouched (present with the same row, or still absent). An id it carries is
      present afterwards; its star count is the last such record's; its full name
      and creation time are the old row's if the id was stored before, and
      otherwise the first such record's (that record inserted the row, the later
      ones conflicted with it). */
  lemma {:induction false} UpsertAllAt(t: Table, rs: seq<Record>, id: NodeId)
    ensures id !in Ids(rs) ==> (id in UpsertAll(t, rs) <==> id in t)
    ensures id !in Ids(rs) && id in t ==> UpsertAll(t, rs)[id] == t[id]
    ensures id in Ids(rs) && id in t ==>
              id in UpsertAll(t, rs) &&
              UpsertAll(t, rs)[id] == Row(t[id].fullName, LastWith(rs, id).stars, t[id].createdAt)
    ensures id in Ids(rs) && id !in t ==>
              id in UpsertAll(t, rs) &&
              UpsertAll(t, rs)[id] == Row(FirstWith(rs, id).fullName, LastWith(rs, id).stars, FirstWith(rs, id).createdAt)
    decreases |rs|
  {
    if rs != [] {
      UpsertAllAt(Upsert(t, rs[0]), rs[1..], id);
    }
  }

  /** The stored ids after a page are the ids before plus the page's ids. */
  lemma UpsertAllKeys(t: Table, rs: seq<Record>)
    ensures UpsertAll(t, rs).Keys == t.Keys + Ids(rs)
  {
    forall id | id in t.Keys + Ids(rs) ensures id in UpsertAll(t, rs) {
      UpsertAllAt(t, rs, id);
    }
    forall id | id in UpsertAll(t, rs) ensures id in t.Keys + Ids(rs) {
      UpsertAllAt(t, rs, id);
    }
  }

  /** Executing the same page a second time changes nothing. */
  lemma UpsertAllIdempotent(t: Table, rs: seq<Record>)
    ensures UpsertAll(UpsertAll(t, rs), rs) == UpsertAll(t, rs)
  {
    var once := UpsertAll(t, rs);
    var twice := UpsertAll(once, rs);
    forall id | id in twice || id in once ensures id in twice && id in once && twice[id] == once[id] {
      UpsertAllAt(t, rs, id);
      UpsertAllAt(once, rs, id);
    }
  }

  /** Executing two pages one after the other is executing their concatenation. */
  lemma {:induction false} UpsertAllAppend(t: Table, a: seq<Record>, b: seq<Record>)
    ensures UpsertAll(t, a + b) == UpsertAll(UpsertAll(t, a), b)
    decreases |a|
  {
    if a != [] {
      assert (a + b)[0] == a[0];
      assert (a + b)[1..] == a[1..] + b;
      UpsertAllAppend(Upsert(t, a[0]), a[1..], b);
    } else {
      assert a + b == b;
    }
  }

  /** The database reached through the connection pool. */
  class RepositoryStore {
    /** The contents of the `repositories` table. */
    var rows: Table
    /** Whether `close()` has been called on the pool. */
    var closed: bool

    /** A pool over the table as provisioning and earlier runs left it:
        `CREATE TABLE IF NOT EXISTS` keeps an existing table, so the table is
        empty only after the first provisioning. */
    constructor (existing: Table)
      ensures rows == existing && !closed
    {
      rows := existing;
      closed := false;
    }

    /** One execution of the insert-or-update statement. */
    method ExecuteUpsert(r: Record)
      requires !closed
      modifies this
      ensures rows == Upsert(old(rows), r)
      ensures !closed
      ensures r.id in rows
      ensures forall id :: id in old(rows) && id != r.id ==> id in rows && rows[id] == old(rows)[id]
    {
      if r.id in rows {
        rows := rows[r.id := rows[r.id].(stars := r.stars)];
      } else {
        rows := rows[r.id := Row(r.fullName, r.stars, r.createdAt)];
      }
    }

    /** `conn.executemany(statement, records)` on a connection taken from the pool. */
    method ExecuteMany(records: seq<Record>)
      requires !closed
      modifies this
      ensures rows == UpsertAll(old(rows), records)
      ensures rows.Keys == old(rows).Keys + Ids(records)
      ensures !closed
    {
      var i := 0;
      while i < |records|
        invariant 0 <= i <= |records|
        invariant !closed
        invariant UpsertAll(rows, records[i..]) == UpsertAll(old(rows), records)
      {
        assert records[i..][1..] == records[i + 1..];
        ExecuteUpsert(records[i]);
        i := i + 1;
      }
      UpsertAllKeys(old(rows), records);
    }

    /** `db_pool.close()`: the table keeps its contents. */
    method Close()
      modifies this
      ensures closed && rows == old(rows)
    {
      closed := true;
    }
  }
}
