/** The rows of the TodoList table and the two reads the SQL engine answers
    for the program: the WHERE filter and the ORDER BY topic, create_at. */
module Entries {
  import opened Wrappers

  /** One row: `id`, `topic`, `content`, `create_at`. The timestamp is an
      opaque comparable value; its conversion to local time is the engine's. */
  datatype Entry = Entry(id: int, topic: string, content: string, createAt: int)

  // ---------------------------------------------------------------------
  // ORDER BY topic, create_at

  /** SQLite's BINARY collation on TEXT: character by character, a proper
      prefix first. */
  predicate StrLeq(a: string, b: string) {
    if |a| == 0 then true
    else if |b| == 0 then false
    else if a[0] != b[0] then a[0] < b[0]
    else StrLeq(a[1..], b[1..])
  }

  lemma {:induction false} StrLeqTotal(a: string, b: string)
    ensures StrLeq(a, b) || StrLeq(b, a)
  {
    if |a| > 0 && |b| > 0 && a[0] == b[0] {
      StrLeqTotal(a[1..], b[1..]);
    }
  }

  lemma {:induction false} StrLeqAntisymmetric(a: string, b: string)
    requires StrLeq(a, b) && StrLeq(b, a)
    ensures a == b
  {
    if |a| > 0 && |b| > 0 {
      StrLeqAntisymmetric(a[1..], b[1..]);
      assert a == [a[0]] + a[1..] && b == [b[0]] + b[1..];
    }
  }

  lemma {:induction false} StrLeqTransitive(a: string, b: string, c: string)
    requires StrLeq(a, b) && StrLeq(b, c)
    ensures StrLeq(a, c)
  {
    if |a| > 0 && |b| > 0 && |c| > 0 && a[0] == b[0] == c[0] {
      StrLeqTransitive(a[1..], b[1..], c[1..]);
    }
  }

  /** The sort key of `ORDER BY topic, create_at`. */
  predicate KeyLeq(x: Entry, y: Entry) {
    if x.topic != y.topic then StrLeq(x.topic, y.topic) else x.createAt <= y.createAt
  }

  lemma KeyLeqTotal(x: Entry, y: Entry)
    ensures KeyLeq(x, y) || KeyLeq(y, x)
  {
    StrLeqTotal(x.topic, y.topic);
  }

  lemma KeyLeqTransitive(x: Entry, y: Entry, z: Entry)
    requires KeyLeq(x, y) && KeyLeq(y, z)
    ensures KeyLeq(x, z)
  {
    if x.topic != y.topic && y.topic != z.topic {
      StrLeqTransitive(x.topic, y.topic, z.topic);
      if x.topic == z.topic {
        StrLeqAntisymmetric(x.topic, y.topic);
      }
    }
  }

  /** Ascending by (topic, create_at), stated on neighbours. */
  predicate Sorted(s: seq<Entry>) {
    forall k :: 0 < k < |s| ==> KeyLeq(s[k - 1], s[k])
  }

  // ---------------------------------------------------------------------
  // WHERE topic = ?s

  /** A row the query keeps: every row when no topic is given, otherwise
      the rows whose topic is exactly (case-sensitively) the given one. */
  predicate Matches(e: Entry, topic: Option<string>) {
    topic.None? || e.topic == topic.value
  }

  /** The rows the WHERE clause keeps, in table order. */
  function Select(rows: seq<Entry>, topic: Option<string>): (r: seq<Entry>)
    ensures |r| <= |rows|
    ensures forall k :: 0 <= k < |r| ==> Matches(r[k], topic)
    ensures forall x :: x in r <==> x in rows && Matches(x, topic)
  {
    if |rows| == 0 then []
    else
      assert rows == [rows[0]] + rows[1..];
      (if Matches(rows[0], topic) then [rows[0]] else []) + Select(rows[1..], topic)
  }

  /** The WHERE clause keeps every matching row as often as the table holds
      it, and no other row. */
  lemma {:induction false} SelectMultiset(rows: seq<Entry>, topic: Option<string>)
    ensures forall x :: multiset(Select(rows, topic))[x] == if Matches(x, topic) then multiset(rows)[x] else 0
  {
    if |rows| > 0 {
      SelectMultiset(rows[1..], topic);
      assert rows == [rows[0]] + rows[1..];
    }
  }

  /** Selecting from rows with one more row at the end. */
  lemma {:induction false} SelectAppend(rows: seq<Entry>, e: Entry, topic: Option<string>)
    ensures Select(rows + [e], topic) == Select(rows, topic) + (if Matches(e, topic) then [e] else [])
  {
    if |rows| > 0 {
      assert (rows + [e])[1..] == rows[1..] + [e];
      SelectAppend(rows[1..], e, topic);
    } else {
      assert rows + [e] == [e];
    }
  }

  /** The number of rows of a topic, `SELECT COUNT(*) ... WHERE topic=?s`. */
  function TopicCount(rows: seq<Entry>, topic: string): (n: nat)
    ensures n <= |rows|
    ensures n == 0 <==> forall x :: x in rows ==> x.topic != topic
  {
    var r := Select(rows, Some(topic));
    assert r != [] ==> r[0] in r;
    |r|
  }

  // ---------------------------------------------------------------------
  // DELETE FROM TodoList WHERE id=?i

  /** The table after deleting every row whose id is in `ids`; the remaining
      rows keep their order. */
  function Without(rows: seq<Entry>, ids: set<int>): (r: seq<Entry>)
    ensures |r| <= |rows|
  {
    if |rows| == 0 then []
    else (if rows[0].id in ids then [] else [rows[0]]) + Without(rows[1..], ids)
  }

  /** A row survives the deletion exactly when it was in the table and its
      id was not deleted. */
  lemma {:induction false} WithoutMembers(rows: seq<Entry>, ids: set<int>)
    ensures forall x :: x in Without(rows, ids) <==> x in rows && x.id !in ids
  {
    if |rows| > 0 {
      WithoutMembers(rows[1..], ids);
      assert rows == [rows[0]] + rows[1..];
    }
  }

  /** Deleting in two steps is deleting the union. */
  lemma {:induction false} WithoutWithout(rows: seq<Entry>, a: set<int>, b: set<int>)
    ensures Without(Without(rows, a), b) == Without(rows, a + b)
  {
    if |rows| > 0 {
      var rest := Without(rows[1..], a);
      WithoutWithout(rows[1..], a, b);
      if rows[0].id in a {
        assert Without(rows, a) == rest;
      } else {
        var x := Without(rows, a);
        assert x == [rows[0]] + rest;
        assert x[0] == rows[0] && x[1..] == rest;
        assert Without(x, b) == (if rows[0].id in b then [] else [rows[0]]) + Without(rest, b);
      }
    }
  }

  /** Deleting ids that no row carries leaves the table as it is. */
  lemma {:induction false} WithoutAbsent(rows: seq<Entry>, ids: set<int>)
    requires forall k :: 0 <= k < |rows| ==> rows[k].id !in ids
    ensures Without(rows, ids) == rows
  {
    if |rows| > 0 {
      WithoutAbsent(rows[1..], ids);
      assert rows == [rows[0]] + rows[1..];
    }
  }

  /** Deleting never adds rows to a topic. */
  lemma {:induction false} TopicCountWithout(rows: seq<Entry>, ids: set<int>, topic: string)
    ensures TopicCount(Without(rows, ids), topic) <= TopicCount(rows, topic)
  {
    if |rows| > 0 {
      TopicCountWithout(rows[1..], ids, topic);
      assert Without(rows, ids)[(if rows[0].id in ids then 0 else 1)..] == Without(rows[1..], ids);
    }
  }

  // ---------------------------------------------------------------------
  // Identities

  /** No two rows share an id. */
  predicate DistinctIds(s: seq<Entry>) {
    forall j, k :: 0 <= j < |s| && 0 <= k < |s| && s[j].id == s[k].id ==> j == k
  }

  /** Putting a row with a new id in front keeps ids distinct. */
  lemma DistinctCons(x: Entry, t: seq<Entry>)
    requires DistinctIds(t)
    requires forall y :: y in t ==> y.id != x.id
    ensures DistinctIds([x] + t)
  {
    var r := [x] + t;
    forall j, k | 0 <= j < |r| && 0 <= k < |r| && j != k ensures r[j].id != r[k].id {
      if j > 0 && k > 0 {
        assert r[j] == t[j - 1] && r[k] == t[k - 1];
      } else if j > 0 {
        assert r[j] in t;
      } else {
        assert r[k] in t;
      }
    }
  }

  lemma {:induction false} SelectDistinct(rows: seq<Entry>, topic: Option<string>)
    requires DistinctIds(rows)
    ensures DistinctIds(Select(rows, topic))
  {
    if |rows| > 0 {
      var rest := Select(rows[1..], topic);
      SelectDistinct(rows[1..], topic);
      forall y | y in rest ensures y.id != rows[0].id {
        assert y in rows[1..];
      }
      if Matches(rows[0], topic) {
        DistinctCons(rows[0], rest);
      } else {
        assert Select(rows, topic) == [] + rest;
        assert [] + rest == rest;
      }
    }
  }

  // ---------------------------------------------------------------------
  // The cursor: the selected rows in ORDER BY order

  /** Places `e` before the first element it does not sort after. */
  function Insert(e: Entry, s: seq<Entry>): (r: seq<Entry>)
    ensures |r| == |s| + 1
    ensures multiset(r) == multiset(s) + multiset{e}
    ensures r[0] == e || (|s| > 0 && r[0] == s[0])
    ensures Sorted(s) ==> Sorted(r)
  {
    if |s| == 0 then [e]
    else if KeyLeq(e, s[0]) then [e] + s
    else
      KeyLeqTotal(e, s[0]);
      assert s == [s[0]] + s[1..];
      [s[0]] + Insert(e, s[1..])
  }

  /** A stable insertion sort by (topic, create_at): rows with equal keys
      keep table order. */
  function SortByKey(s: seq<Entry>): (r: seq<Entry>)
    ensures Sorted(r)
    ensures multiset(r) == multiset(s)
  {
    if |s| == 0 then []
    else
      assert s == [s[0]] + s[1..];
      Insert(s[0], SortByKey(s[1..]))
  }

  lemma {:induction false} InsertDistinct(e: Entry, s: seq<Entry>)
    requires DistinctIds(s)
    requires forall y :: y in s ==> y.id != e.id
    ensures DistinctIds(Insert(e, s))
  {
    if |s| == 0 {
      DistinctCons(e, s);
    } else if KeyLeq(e, s[0]) {
      DistinctCons(e, s);
    } else {
      var rest := Insert(e, s[1..]);
      assert s == [s[0]] + s[1..];
      InsertDistinct(e, s[1..]);
      forall y | y in rest ensures y.id != s[0].id {
        assert y in multiset(rest);
      }
      DistinctCons(s[0], rest);
    }
  }

  lemma {:induction false} SortDistinct(s: seq<Entry>)
    requires DistinctIds(s)
    ensures DistinctIds(SortByKey(s))
  {
    if |s| > 0 {
      var rest := SortByKey(s[1..]);
      SortDistinct(s[1..]);
      forall y | y in rest ensures y.id != s[0].id {
        assert y in multiset(rest);
      }
      InsertDistinct(s[0], rest);
    }
  }

  /** The rows `SELECT ... [WHERE topic=?s] ORDER BY topic, create_at`
      yields: the selected rows, rearranged into ascending order. */
  function Cursor(rows: seq<Entry>, topic: Option<string>): (r: seq<Entry>)
    ensures Sorted(r)
    ensures multiset(r) == multiset(Select(rows, topic))
  {
    SortByKey(Select(rows, topic))
  }

  /** The cursor holds exactly the matching rows, each as often as the table
      does; with a topic given, they all carry it and come in order of
      creation. */
  lemma CursorContents(rows: seq<Entry>, topic: Option<string>)
    ensures forall x :: multiset(Cursor(rows, topic))[x] == if Matches(x, topic) then multiset(rows)[x] else 0
    ensures forall k :: 0 <= k < |Cursor(rows, topic)| ==> Matches(Cursor(rows, topic)[k], topic)
    ensures topic.Some? ==> forall k :: 0 < k < |Cursor(rows, topic)| ==> Cursor(rows, topic)[k - 1].createAt <= Cursor(rows, topic)[k].createAt
  {
    SelectMultiset(rows, topic);
    var r := Cursor(rows, topic);
    forall k | 0 <= k < |r| ensures Matches(r[k], topic) {
      assert r[k] in multiset(r);
    }
  }

  /** Distinct ids in the table give distinct ids in every listing. */
  lemma CursorDistinct(rows: seq<Entry>, topic: Option<string>)
    requires DistinctIds(rows)
    ensures DistinctIds(Cursor(rows, topic))
  {
    SelectDistinct(rows, topic);
    SortDistinct(Select(rows, topic));
  }
}
