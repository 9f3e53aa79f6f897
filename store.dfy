/** The entry repository: the TodoList table behind the SQLite handle and
    the four operations the program runs on it (`todoCount`, `todoAdd`,
    `todoGetUnfinishedEntries` and the DELETE of the delete command). The
    SQL engine is replaced by the table's rows; a failing query or insert
    is a parameter. */
module Store {
  import opened Wrappers
  import opened Entries

  /** The table's identity invariant: ids are positive, below the next id
      AUTOINCREMENT hands out, and ascending in table order (rows are kept
      in insertion order and AUTOINCREMENT ids only grow). */
  predicate IdsAscending(rows: seq<Entry>, nextId: int) {
    && nextId >= 1
    && (forall k :: 0 <= k < |rows| ==> 1 <= rows[k].id < nextId)
    && (forall j, k :: 0 <= j < k < |rows| ==> rows[j].id < rows[k].id)
  }

  lemma AscendingDistinct(rows: seq<Entry>, nextId: int)
    requires IdsAscending(rows, nextId)
    ensures DistinctIds(rows)
  {
  }

  /** A row in front of an ascending table keeps it ascending when its id is
      below every id of the table. */
  lemma ConsAscending(x: Entry, rest: seq<Entry>, nextId: int)
    requires IdsAscending(rest, nextId) && 1 <= x.id < nextId
    requires forall k :: 0 <= k < |rest| ==> x.id < rest[k].id
    ensures IdsAscending([x] + rest, nextId)
  {
    var r := [x] + rest;
    forall j, k | 0 <= j < k < |r| ensures r[j].id < r[k].id {
      assert r[k] == rest[k - 1];
      if j > 0 {
        assert r[j] == rest[j - 1];
      }
    }
  }

  /** Every row that survives a deletion was in the table. */
  lemma SurvivorIndex(rows: seq<Entry>, ids: set<int>, k: nat) returns (j: nat)
    requires k < |Without(rows, ids)|
    ensures j < |rows| && rows[j] == Without(rows, ids)[k]
  {
    var x := Without(rows, ids)[k];
    WithoutMembers(rows, ids);
    assert x in Without(rows, ids);
    j :| 0 <= j < |rows| && rows[j] == x;
  }

  lemma TailAscending(rows: seq<Entry>, nextId: int)
    requires IdsAscending(rows, nextId) && |rows| > 0
    ensures IdsAscending(rows[1..], nextId)
  {
    forall k | 0 <= k < |rows| - 1 ensures rows[1..][k] == rows[k + 1] { }
  }

  /** The rows that survive a deletion from the tail all come after the head. */
  lemma SurvivorsAfterHead(rows: seq<Entry>, nextId: int, ids: set<int>)
    requires IdsAscending(rows, nextId) && |rows| > 0
    ensures forall k :: 0 <= k < |Without(rows[1..], ids)| ==> rows[0].id < Without(rows[1..], ids)[k].id
  {
    var tail := rows[1..];
    forall k | 0 <= k < |Without(tail, ids)| ensures rows[0].id < Without(tail, ids)[k].id {
      var j := SurvivorIndex(tail, ids, k);
      assert tail[j] == rows[j + 1];
    }
  }

  /** Deleting rows keeps the invariant. */
  lemma {:induction false} WithoutAscending(rows: seq<Entry>, nextId: int, ids: set<int>)
    requires IdsAscending(rows, nextId)
    ensures IdsAscending(Without(rows, ids), nextId)
  {
    if |rows| > 0 {
      var rest := Without(rows[1..], ids);
      TailAscending(rows, nextId);
      WithoutAscending(rows[1..], nextId, ids);
      if rows[0].id !in ids {
        SurvivorsAfterHead(rows, nextId, ids);
        ConsAscending(rows[0], rest, nextId);
        assert Without(rows, ids) == [rows[0]] + rest;
      } else {
        assert Without(rows, ids) == [] + rest;
        assert [] + rest == rest;
      }
    }
  }

  /** Appending a row with the next id keeps the invariant for the id after it. */
  lemma AppendAscending(rows: seq<Entry>, nextId: int, e: Entry)
    requires IdsAscending(rows, nextId) && e.id == nextId
    ensures IdsAscending(rows + [e], nextId + 1)
  {
    var r := rows + [e];
    forall j, k | 0 <= j < k < |r| ensures r[j].id < r[k].id {
      assert r[j] == rows[j];
    }
  }

  /** `DELETE ... WHERE id=?i` for an id no row has is a harmless no-op. */
  lemma DeleteAbsentId(rows: seq<Entry>, id: int)
    requires forall k :: 0 <= k < |rows| ==> rows[k].id != id
    ensures Without(rows, {id}) == rows
  {
    WithoutAbsent(rows, {id});
  }

  /** Round trip of an insert: the row an insert appends shows up in the
      listing of its topic, and it was not there before. */
  lemma InsertedRowListed(rows: seq<Entry>, nextId: int, topic: string, content: string, now: int)
    requires IdsAscending(rows, nextId)
    ensures Entry(nextId, topic, content, now) in Cursor(rows + [Entry(nextId, topic, content, now)], Some(topic))
    ensures Entry(nextId, topic, content, now) !in Cursor(rows, Some(topic))
  {
    var e := Entry(nextId, topic, content, now);
    SelectAppend(rows, e, Some(topic));
    assert e in Select(rows + [e], Some(topic));
    assert e in multiset(Cursor(rows + [e], Some(topic)));
    assert e !in rows;
    assert e !in multiset(Cursor(rows, Some(topic)));
  }

  /** The TodoList table. */
  class TodoStore {
    var rows: seq<Entry>
    /** The id AUTOINCREMENT gives the next row. */
    var nextId: int

    ghost predicate Valid()
      reads this
    {
      IdsAscending(rows, nextId)
    }

    /** `CREATE TABLE IF NOT EXISTS TodoList(...)` on a new database. */
    constructor ()
      ensures Valid()
      ensures rows == [] && nextId == 1
    {
      rows := [];
      nextId := 1;
    }

    /** `todoCount`: the number of rows of the topic, or -1 when the query
        yields no row (the store could not be queried). */
    method TodoCount(topic: string, fails: bool) returns (count: int)
      ensures count == if fails then -1 else TopicCount(rows, topic)
      ensures count >= -1
    {
      if fails {
        count := -1;
      } else {
        count := |Select(rows, Some(topic))|;
      }
    }

    /** `todoGetUnfinishedEntries`: copies the cursor's rows one by one onto
        the tail of the result, so the result is the cursor, in cursor order. */
    method GetUnfinishedEntries(topic: Option<string>) returns (entries: seq<Entry>)
      ensures entries == Cursor(rows, topic)
      ensures Sorted(entries)
      ensures multiset(entries) == multiset(Select(rows, topic))
    {
      var cursor := Cursor(rows, topic);
      entries := [];
      var k := 0;
      while k < |cursor|
        invariant 0 <= k <= |cursor|
        invariant entries == cursor[..k]
      {
        var row := cursor[k];
        var entry := Entry(row.id, row.topic, row.content, row.createAt);
        entries := entries + [entry];
        k := k + 1;
      }
    }

    /** `todoAdd`: INSERT with the current time; 1 on success, 0 when the
        insert fails, in which case nothing changes. */
    method TodoAdd(topic: string, content: string, now: int, fails: bool) returns (ok: int)
      requires Valid()
      modifies this
      ensures Valid()
      ensures ok == if fails then 0 else 1
      ensures fails ==> rows == old(rows) && nextId == old(nextId)
      ensures !fails ==> rows == old(rows) + [Entry(old(nextId), topic, content, now)]
      ensures !fails ==> nextId == old(nextId) + 1
    {
      if fails {
        return 0;
      }
      rows := rows + [Entry(nextId, topic, content, now)];
      nextId := nextId + 1;
      return 1;
    }

    /** `DELETE FROM TodoList WHERE id=?i`. */
    method DeleteEntry(id: int)
      modifies this
      ensures rows == Without(old(rows), {id})
      ensures nextId == old(nextId)
      ensures old(Valid()) ==> Valid()
    {
      if Valid() {
        WithoutAscending(rows, nextId, {id});
      }
      rows := Without(rows, {id});
    }
  }
}
