/** The request handler the bot framework calls for every message, working
    on the store in place: it counts, inserts, fetches and deletes through
    the store's operations, builds the `/del` selection in a bitmap and walks
    the fetched listing position by position. */
module Bot {
  import opened Wrappers
  import opened Text
  import opened Selection
  import opened Entries
  import opened Listing
  import opened Store
  import opened Commands

  /** `/add` (the branch taken when `argc >= 2`). */
  method HandleAdd(db: TodoStore, br: Request, countFails: bool, insertFails: bool, now: int) returns (reply: Reply)
    requires db.Valid()
    requires |br.argv| >= 2
    modifies db
    ensures db.Valid()
    ensures Outcome(db.rows, db.nextId, Some(reply))
         == AddOutcome(old(db.rows), old(db.nextId), br, if countFails then -1 else TopicCount(old(db.rows), br.argv[1]), insertFails, now)
  {
    var topic := br.argv[1];
    var count := db.TodoCount(topic, countFails);
    if count < 0 {
      return Reply(FailedToAdd, true);
    } else if count > BitMapSize {
      return Reply(TooManyTodos, true);
    }
    var content := DropFirst(br.request, |br.argv[0]|);
    content := Trim(content);
    content := DropFirst(content, |topic|);
    content := Trim(content);
    var _ := db.TodoAdd(topic, content, now, insertFails);
    return Reply(RememberToDo, true);
  }

  /** `/ls` and `/ls <topic>`. */
  method HandleList(db: TodoStore, br: Request) returns (reply: Reply)
    ensures reply == Reply(Render(Cursor(db.rows, if |br.argv| > 1 then Some(br.argv[1]) else None)), false)
  {
    var entries := db.GetUnfinishedEntries(if |br.argv| > 1 then Some(br.argv[1]) else None);
    var msg := PrintTodoEntries(entries);
    return Reply(msg, false);
  }

  /** The first half of `/del`: a cleared bitmap into which every argument's
      `atoi` value is set. */
  method SelectPositions(args: seq<string>) returns (todel: BitMap)
    ensures fresh(todel)
    ensures forall j :: todel.Get(j) == if j in Positions(args) then 1 else 0
  {
    todel := new BitMap();
    todel.Empty();
    var k := 0;
    while k < |args|
      invariant 0 <= k <= |args|
      invariant forall j :: todel.Get(j) == if j in Positions(args[..k]) then 1 else 0
    {
      assert args[..k + 1][..k] == args[..k];
      var _ := todel.Set(Atoi(args[k]));
      k := k + 1;
    }
    assert args[..k] == args;
  }

  /** The table after the walk has passed the first `n` positions. */
  ghost predicate Walked(rows0: seq<Entry>, entries: seq<Entry>, sel: set<int>, n: nat, rows: seq<Entry>)
    requires n <= |entries|
  {
    rows == Without(rows0, Doomed(entries, sel, n))
  }

  /** One position of the walk: deleting the row at a selected position
      extends the deletion by its id; an unselected position changes nothing. */
  lemma DeleteStep(rows0: seq<Entry>, entries: seq<Entry>, sel: set<int>, i: nat, rows: seq<Entry>)
    requires 1 <= i <= |entries|
    requires Walked(rows0, entries, sel, i - 1, rows)
    ensures i in sel ==> Walked(rows0, entries, sel, i, Without(rows, {entries[i - 1].id}))
    ensures i !in sel ==> Walked(rows0, entries, sel, i, rows)
  {
    var doomed := Doomed(entries, sel, i - 1);
    if i in sel {
      assert Doomed(entries, sel, i) == doomed + {entries[i - 1].id};
      WithoutWithout(rows0, doomed, {entries[i - 1].id});
    } else {
      assert Doomed(entries, sel, i) == doomed;
    }
  }

  /** The second half of `/del`: walks the fetched listing with a 1-based
      position and deletes the row of every position the bitmap selects. */
  method DeleteSelected(db: TodoStore, entries: seq<Entry>, todel: BitMap, ghost sel: set<int>)
    requires db.Valid()
    requires forall j :: todel.Get(j) == if j in sel then 1 else 0
    modifies db
    ensures db.Valid() && db.nextId == old(db.nextId)
    ensures db.rows == Without(old(db.rows), Doomed(entries, sel, |entries|))
  {
    ghost var rows0 := db.rows;
    WithoutAbsent(rows0, {});
    var i := 1;
    while i <= |entries|
      invariant 1 <= i <= |entries| + 1
      invariant db.nextId == old(db.nextId)
      invariant Walked(rows0, entries, sel, i - 1, db.rows)
    {
      DeleteStep(rows0, entries, sel, i, db.rows);
      assert todel.Get(i) == 1 <==> i in sel;
      if todel.Get(i) == 1 {
        db.DeleteEntry(entries[i - 1].id);
      }
      i := i + 1;
    }
    WithoutAscending(rows0, db.nextId, Doomed(entries, sel, |entries|));
  }

  /** `/del <topic> <positions>` (the branch taken when `argc >= 3`). */
  method HandleDelete(db: TodoStore, br: Request) returns (reply: Reply)
    requires db.Valid()
    requires |br.argv| >= 3
    modifies db
    ensures db.Valid()
    ensures Outcome(db.rows, db.nextId, Some(reply)) == DeleteOutcome(old(db.rows), old(db.nextId), br)
  {
    var todel := SelectPositions(br.argv[2..]);
    var entries := db.GetUnfinishedEntries(Some(br.argv[1]));
    DeleteSelected(db, entries, todel, Positions(br.argv[2..]));
    return Reply(Good, true);
  }

  /** `handleRequest`: no answer for an empty request, otherwise exactly one. */
  method HandleRequest(db: TodoStore, br: Request, countFails: bool, insertFails: bool, now: int) returns (reply: Option<Reply>)
    requires db.Valid()
    modifies db
    ensures db.Valid()
    ensures Outcome(db.rows, db.nextId, reply) == Handle(old(db.rows), old(db.nextId), br, countFails, insertFails, now)
  {
    if |br.argv| == 0 {
      return None;
    }
    var cmd := br.argv[0];
    if CaseEq(cmd, "/add") && |br.argv| >= 2 {
      var r := HandleAdd(db, br, countFails, insertFails, now);
      reply := Some(r);
    } else if CaseEq(cmd, "/ls") {
      var r := HandleList(db, br);
      reply := Some(r);
    } else if CaseEq(cmd, "/del") && |br.argv| >= 3 {
      var r := HandleDelete(db, br);
      reply := Some(r);
    } else {
      reply := Some(Reply(HelpMsg, false));
    }
  }
}
