/** What the bot does with one request, as a function of the table before it:
    the chat commands `/add`, `/ls` and `/del`, the help text for anything
    else, and no answer at all for an empty request. */
module Commands {
  import opened Wrappers
  import opened Text
  import opened Selection
  import opened Entries
  import opened Listing
  import opened Store

  /** A chat request: its full text and its words (`argv`, `argc == |argv|`). */
  datatype Request = Request(request: string, argv: seq<string>)

  /** A message sent back to the chat of the request; `quoted` when it is sent
      as an answer to the request's message id, not when sent with id 0. */
  datatype Reply = Reply(text: string, quoted: bool)

  /** The table after a request, and what the bot sent, if anything. */
  datatype Outcome = Outcome(rows: seq<Entry>, nextId: int, reply: Option<Reply>)

  const FailedToAdd: string := "OOPS! Failed to add!"
  const TooManyTodos: string := "OOPS! You have too many todos! Finish them!"
  const RememberToDo: string := "Ok, remember to do."
  const Good: string := "GOOD!"
  const HelpMsg: string := "/add <topic> <content>\n/ls\n/ls <topic>\n/del <topic> 1 2 3\n"

  // ---------------------------------------------------------------------
  // /add

  /** The content `/add` stores: the request without the command's length,
      trimmed, then without the topic's length, trimmed again. */
  function ExtractContent(request: string, cmdLen: nat, topic: string): (c: string)
    ensures Trimmed(c)
  {
    Trim(DropFirst(Trim(DropFirst(request, cmdLen)), |topic|))
  }

  /** `/add` with the row count of its topic (`count`, -1 when it could not
      be queried): refused with a count that is negative or above the size
      of the selection bitmap, otherwise the row is inserted (unless the
      insert fails) and the bot confirms either way. */
  function AddOutcome(rows: seq<Entry>, nextId: int, br: Request, count: int, insertFails: bool, now: int): (o: Outcome)
    requires |br.argv| >= 2
    ensures o.reply.Some? && o.reply.value.quoted
    ensures o.reply.value.text == RememberToDo <==> 0 <= count <= BitMapSize
    ensures count < 0 ==> o.reply.value.text == FailedToAdd
    ensures count > BitMapSize ==> o.reply.value.text == TooManyTodos
    ensures !(0 <= count <= BitMapSize) || insertFails ==> o.rows == rows && o.nextId == nextId
    ensures 0 <= count <= BitMapSize && !insertFails ==>
              o.rows == rows + [Entry(nextId, br.argv[1], ExtractContent(br.request, |br.argv[0]|, br.argv[1]), now)] &&
              o.nextId == nextId + 1
  {
    if count < 0 then Outcome(rows, nextId, Some(Reply(FailedToAdd, true)))
    else if count > BitMapSize then Outcome(rows, nextId, Some(Reply(TooManyTodos, true)))
    else
      var topic := br.argv[1];
      var content := ExtractContent(br.request, |br.argv[0]|, topic);
      if insertFails then Outcome(rows, nextId, Some(Reply(RememberToDo, true)))
      else Outcome(rows + [Entry(nextId, topic, content, now)], nextId + 1, Some(Reply(RememberToDo, true)))
  }

  // ---------------------------------------------------------------------
  // /del

  /** The positions `/del` selects: the in-range values `atoi` reads from the
      arguments; the others are ignored. */
  function Positions(args: seq<string>): (sel: set<int>)
    ensures forall i :: i in sel ==> InRange(i)
  {
    if |args| == 0 then {}
    else
      var a := Atoi(args[|args| - 1]);
      Positions(args[..|args| - 1]) + (if InRange(a) then {a} else {})
  }

  /** The ids of the first `n` listed entries whose 1-based position is
      selected. */
  function Doomed(listing: seq<Entry>, sel: set<int>, n: nat): set<int>
    requires n <= |listing|
  {
    if n == 0 then {}
    else Doomed(listing, sel, n - 1) + (if n in sel then {listing[n - 1].id} else {})
  }

  /** `/del <topic> <positions>`: the rows of the topic's listing at the
      selected positions are deleted; the bot answers "GOOD!". */
  function DeleteOutcome(rows: seq<Entry>, nextId: int, br: Request): (o: Outcome)
    requires |br.argv| >= 3
    ensures o.reply == Some(Reply(Good, true)) && o.nextId == nextId
    ensures |o.rows| <= |rows|
  {
    var listing := Cursor(rows, Some(br.argv[1]));
    Outcome(Without(rows, Doomed(listing, Positions(br.argv[2..]), |listing|)), nextId, Some(Reply(Good, true)))
  }

  // ---------------------------------------------------------------------
  // The dispatcher

  /** `handleRequest`, with the outcome of the store's count query and insert
      as parameters and `now` the time of the insert. */
  function Handle(rows: seq<Entry>, nextId: int, br: Request, countFails: bool, insertFails: bool, now: int): (o: Outcome)
    ensures o.reply.None? <==> |br.argv| == 0
    ensures o.reply.Some? && !o.reply.value.quoted ==> o.rows == rows && o.nextId == nextId
  {
    if |br.argv| == 0 then Outcome(rows, nextId, None)
    else
      var cmd := br.argv[0];
      if CaseEq(cmd, "/add") && |br.argv| >= 2 then
        var count := if countFails then -1 else TopicCount(rows, br.argv[1]);
        AddOutcome(rows, nextId, br, count, insertFails, now)
      else if CaseEq(cmd, "/ls") then
        var topic := if |br.argv| > 1 then Some(br.argv[1]) else None;
        Outcome(rows, nextId, Some(Reply(Render(Cursor(rows, topic)), false)))
      else if CaseEq(cmd, "/del") && |br.argv| >= 3 then
        DeleteOutcome(rows, nextId, br)
      else
        Outcome(rows, nextId, Some(Reply(HelpMsg, false)))
  }

  // ---------------------------------------------------------------------
  // The content of /add

  /** Dropping exactly a prefix leaves what follows it. */
  lemma DropPrefix(a: string, b: string)
    ensures DropFirst(a + b, |a|) == b
  {
    if |b| == 0 {
      assert a + b == a;
    } else {
      assert (a + b)[|a|..] == b;
    }
  }

  /** Nothing after the topic: the content is empty. */
  lemma ExtractNoContent(cmd: string, p1: string, topic: string, p2: string)
    requires Padding(p1) && Padding(p2) && Trimmed(topic)
    ensures ExtractContent(cmd + (p1 + topic + p2), |cmd|, topic) == []
  {
    DropPrefix(cmd, p1 + topic + p2);
    TrimOfPadded(p1, topic, p2);
    DropPrefix(topic, []);
    assert topic + [] == topic;
    TrimTrimmed([]);
  }

  /** An empty topic: the content is what follows the blanks. */
  lemma ExtractWithoutTopic(cmd: string, p1: string, c: string, p3: string)
    requires Padding(p1) && Padding(p3) && Trimmed(c)
    ensures ExtractContent(cmd + (p1 + c + p3), |cmd|, []) == c
  {
    DropPrefix(cmd, p1 + c + p3);
    TrimOfPadded(p1, c, p3);
    assert DropFirst(c, 0) == c;
    TrimTrimmed(c);
  }

  /** A topic and a content: the first trim keeps both, dropping the topic
      leaves the blanks and the content, the second trim the content. */
  lemma ExtractTopicAndContent(cmd: string, p1: string, topic: string, p2: string, c: string, p3: string)
    requires Padding(p1) && Padding(p2) && Padding(p3)
    requires Trimmed(topic) && |topic| > 0 && Trimmed(c) && |c| > 0
    ensures ExtractContent(cmd + (p1 + (topic + (p2 + c)) + p3), |cmd|, topic) == c
  {
    var m := topic + (p2 + c);
    assert Trimmed(m) by {
      assert m[0] == topic[0];
      assert m[|m| - 1] == c[|c| - 1];
    }
    DropPrefix(cmd, p1 + m + p3);
    TrimOfPadded(p1, m, p3);
    DropPrefix(topic, p2 + c);
    assert p2 + c + [] == p2 + c;
    TrimOfPadded(p2, c, []);
  }

  /** The content `/add` stores is the text typed after the topic: for a
      request made of the command, blanks, the topic, blanks, the content and
      blanks, with a topic and a content that have no blank at either end,
      it is exactly that content (empty when nothing follows the topic). */
  lemma ExtractContentRoundTrip(cmd: string, p1: string, topic: string, p2: string, c: string, p3: string)
    requires Padding(p1) && Padding(p2) && Padding(p3)
    requires Trimmed(topic) && Trimmed(c)
    ensures ExtractContent(cmd + p1 + topic + p2 + c + p3, |cmd|, topic) == c
  {
    var s := cmd + p1 + topic + p2 + c + p3;
    if |c| == 0 {
      PaddingConcat(p2, p3);
      assert s == cmd + (p1 + topic + (p2 + p3));
      ExtractNoContent(cmd, p1, topic, p2 + p3);
    } else if |topic| == 0 {
      PaddingConcat(p1, p2);
      assert s == cmd + ((p1 + p2) + c + p3);
      ExtractWithoutTopic(cmd, p1 + p2, c, p3);
    } else {
      assert s == cmd + (p1 + (topic + (p2 + c)) + p3);
      ExtractTopicAndContent(cmd, p1, topic, p2, c, p3);
    }
  }

  // ---------------------------------------------------------------------
  // The selection of /del

  /** A position is selected exactly when it is in range and some argument
      reads as it. */
  lemma {:induction false} PositionsMembers(args: seq<string>)
    ensures forall i :: i in Positions(args) <==> InRange(i) && exists k :: 0 <= k < |args| && Atoi(args[k]) == i
  {
    if |args| > 0 {
      var init := args[..|args| - 1];
      PositionsMembers(init);
      forall i ensures i in Positions(args) <==> InRange(i) && exists k :: 0 <= k < |args| && Atoi(args[k]) == i {
        if i in Positions(init) {
          var k :| 0 <= k < |init| && Atoi(init[k]) == i;
          assert args[k] == init[k];
        }
        if InRange(i) && exists k :: 0 <= k < |args| && Atoi(args[k]) == i {
          var k :| 0 <= k < |args| && Atoi(args[k]) == i;
          if k < |args| - 1 {
            assert init[k] == args[k];
          }
        }
      }
    }
  }

  /** An id is doomed exactly when some selected position among the first
      `n` carries it. */
  lemma {:induction false} DoomedMembers(listing: seq<Entry>, sel: set<int>, n: nat)
    requires n <= |listing|
    ensures forall id :: id in Doomed(listing, sel, n) <==> exists p :: 0 <= p < n && p + 1 in sel && listing[p].id == id
  {
    if n > 0 {
      DoomedMembers(listing, sel, n - 1);
    }
  }

  /** Each of the first `n` positions dooms at most one id. */
  lemma {:induction false} DoomedSize(listing: seq<Entry>, sel: set<int>, n: nat)
    requires n <= |listing|
    ensures |Doomed(listing, sel, n)| <= n
  {
    if n > 0 {
      DoomedSize(listing, sel, n - 1);
    }
  }

  /** With distinct ids, a listed entry's id is doomed exactly when its
      position is selected. */
  lemma DoomedExactly(listing: seq<Entry>, sel: set<int>)
    requires DistinctIds(listing)
    ensures forall p :: 0 <= p < |listing| ==> (listing[p].id in Doomed(listing, sel, |listing|) <==> p + 1 in sel)
  {
    DoomedMembers(listing, sel, |listing|);
    forall p | 0 <= p < |listing| ensures listing[p].id in Doomed(listing, sel, |listing|) <==> p + 1 in sel {
      if listing[p].id in Doomed(listing, sel, |listing|) {
        var q :| 0 <= q < |listing| && q + 1 in sel && listing[q].id == listing[p].id;
        assert q == p;
      }
    }
  }

  /** A listing drawn from a table with distinct ids, all of one topic,
      dooms no row of another topic. */
  lemma DoomedOtherTopics(rows: seq<Entry>, listing: seq<Entry>, sel: set<int>, topic: string)
    requires DistinctIds(rows)
    requires forall p :: 0 <= p < |listing| ==> listing[p] in rows && listing[p].topic == topic
    ensures forall x :: x in rows && x.topic != topic ==> x.id !in Doomed(listing, sel, |listing|)
  {
    DoomedMembers(listing, sel, |listing|);
    forall x, p | x in rows && x.topic != topic && 0 <= p < |listing| ensures listing[p].id != x.id {
      var j :| 0 <= j < |rows| && rows[j] == x;
      var k :| 0 <= k < |rows| && rows[k] == listing[p];
      assert rows[j].topic != rows[k].topic;
    }
  }

  /** The rows of a topic's listing, all in the table and all of that topic. */
  lemma ListingRows(rows: seq<Entry>, topic: string)
    ensures forall p :: 0 <= p < |Cursor(rows, Some(topic))| ==> Cursor(rows, Some(topic))[p] in rows && Cursor(rows, Some(topic))[p].topic == topic
  {
    var listing := Cursor(rows, Some(topic));
    CursorContents(rows, Some(topic));
    forall p | 0 <= p < |listing| ensures listing[p] in rows && listing[p].topic == topic {
      assert listing[p] in multiset(listing);
    }
  }

  /** `/del` deletes exactly the listed rows at the selected positions: a
      listed row survives exactly when its position is not selected, every
      row of another topic survives, and no row appears. */
  lemma DeleteRemovesExactlySelected(rows: seq<Entry>, nextId: int, br: Request)
    requires IdsAscending(rows, nextId) && |br.argv| >= 3
    ensures var listing := Cursor(rows, Some(br.argv[1]));
            var after := DeleteOutcome(rows, nextId, br).rows;
            && (forall p :: 0 <= p < |listing| ==> (listing[p] in after <==> p + 1 !in Positions(br.argv[2..])))
            && (forall x :: x in rows && x.topic != br.argv[1] ==> x in after)
            && (forall x :: x in after ==> x in rows)
  {
    var topic := br.argv[1];
    var listing := Cursor(rows, Some(topic));
    var sel := Positions(br.argv[2..]);
    AscendingDistinct(rows, nextId);
    CursorDistinct(rows, Some(topic));
    ListingRows(rows, topic);
    DoomedExactly(listing, sel);
    DoomedOtherTopics(rows, listing, sel, topic);
    WithoutMembers(rows, Doomed(listing, sel, |listing|));
  }

  /** `/del` whose positions all lie past the end of the topic's listing
      (or are out of range and so ignored) changes nothing. */
  lemma DeleteUnlistedPositions(rows: seq<Entry>, nextId: int, br: Request)
    requires |br.argv| >= 3
    requires forall i :: i in Positions(br.argv[2..]) ==> i > |Cursor(rows, Some(br.argv[1]))|
    ensures DeleteOutcome(rows, nextId, br).rows == rows
  {
    var listing := Cursor(rows, Some(br.argv[1]));
    var doomed := Doomed(listing, Positions(br.argv[2..]), |listing|);
    DoomedMembers(listing, Positions(br.argv[2..]), |listing|);
    assert forall k :: 0 <= k < |rows| ==> rows[k].id !in doomed;
    WithoutAbsent(rows, doomed);
  }

  /** A single argument that prints an in-range number selects exactly it. */
  lemma PositionOfNumber(n: nat)
    requires InRange(n)
    ensures Positions([Decimal(n)]) == {n}
  {
    assert [Decimal(n)][..0] == [];
    AtoiDecimal(n);
  }

  /** What `/ls <topic>` shows can be deleted by its number: the entry at
      position `p` is printed as number `p + 1`, and `/del <topic> <that
      number>` deletes that entry and keeps the topic's others. */
  lemma ListThenDelete(rows: seq<Entry>, nextId: int, request: string, cmd: string, topic: string, p: nat)
    requires IdsAscending(rows, nextId)
    requires p < |Cursor(rows, Some(topic))| && p < BitMapSize
    ensures RunNumber(Cursor(rows, Some(topic)), p) == p + 1
    ensures var listing := Cursor(rows, Some(topic));
            var after := DeleteOutcome(rows, nextId, Request(request, [cmd, topic, Decimal(p + 1)])).rows;
            forall q :: 0 <= q < |listing| ==> (listing[q] in after <==> q != p)
  {
    var listing := Cursor(rows, Some(topic));
    ListingRows(rows, topic);
    SingleTopicNumbering(listing, p);
    var br := Request(request, [cmd, topic, Decimal(p + 1)]);
    assert br.argv[2..] == [Decimal(p + 1)];
    PositionOfNumber(p + 1);
    DeleteOnePosition(rows, nextId, br, p);
  }

  /** `/del` selecting the one position `p + 1` deletes the listed row at
      index `p` and keeps the others. */
  lemma DeleteOnePosition(rows: seq<Entry>, nextId: int, br: Request, p: nat)
    requires IdsAscending(rows, nextId) && |br.argv| >= 3
    requires Positions(br.argv[2..]) == {p + 1}
    ensures var listing := Cursor(rows, Some(br.argv[1]));
            var after := DeleteOutcome(rows, nextId, br).rows;
            forall q :: 0 <= q < |listing| ==> (listing[q] in after <==> q != p)
  {
    DeleteRemovesExactlySelected(rows, nextId, br);
  }

  // ---------------------------------------------------------------------
  // Invariants of the dispatcher

  /** `/add` keeps the table's id invariant. */
  lemma AddKeepsIds(rows: seq<Entry>, nextId: int, br: Request, count: int, insertFails: bool, now: int)
    requires IdsAscending(rows, nextId) && |br.argv| >= 2
    ensures IdsAscending(AddOutcome(rows, nextId, br, count, insertFails, now).rows, AddOutcome(rows, nextId, br, count, insertFails, now).nextId)
  {
    var o := AddOutcome(rows, nextId, br, count, insertFails, now);
    if 0 <= count <= BitMapSize && !insertFails {
      var e := Entry(nextId, br.argv[1], ExtractContent(br.request, |br.argv[0]|, br.argv[1]), now);
      AppendAscending(rows, nextId, e);
      assert o.rows == rows + [e] && o.nextId == nextId + 1;
    } else {
      assert o.rows == rows && o.nextId == nextId;
    }
  }

  /** `/del` keeps the table's id invariant. */
  lemma DeleteKeepsIds(rows: seq<Entry>, nextId: int, br: Request)
    requires IdsAscending(rows, nextId) && |br.argv| >= 3
    ensures IdsAscending(DeleteOutcome(rows, nextId, br).rows, DeleteOutcome(rows, nextId, br).nextId)
  {
    var listing := Cursor(rows, Some(br.argv[1]));
    WithoutAscending(rows, nextId, Doomed(listing, Positions(br.argv[2..]), |listing|));
  }

  /** Every request keeps the table's id invariant. */
  lemma HandleKeepsIds(rows: seq<Entry>, nextId: int, br: Request, countFails: bool, insertFails: bool, now: int)
    requires IdsAscending(rows, nextId)
    ensures IdsAscending(Handle(rows, nextId, br, countFails, insertFails, now).rows, Handle(rows, nextId, br, countFails, insertFails, now).nextId)
  {
    if |br.argv| > 0 {
      var cmd := br.argv[0];
      if CaseEq(cmd, "/add") && |br.argv| >= 2 {
        AddKeepsIds(rows, nextId, br, if countFails then -1 else TopicCount(rows, br.argv[1]), insertFails, now);
      } else if !CaseEq(cmd, "/ls") && CaseEq(cmd, "/del") && |br.argv| >= 3 {
        DeleteKeepsIds(rows, nextId, br);
      }
    }
  }

  /** No topic holds more than one row beyond the positions `/del` can
      select. */
  ghost predicate Capped(rows: seq<Entry>) {
    forall t :: TopicCount(rows, t) <= BitMapSize + 1
  }

  /** `/add` keeps every topic capped: a topic only grows while it holds at
      most BitMapSize rows. */
  lemma AddKeepsCap(rows: seq<Entry>, nextId: int, br: Request, count: int, insertFails: bool, now: int)
    requires Capped(rows) && |br.argv| >= 2
    requires count < 0 || count == TopicCount(rows, br.argv[1])
    ensures Capped(AddOutcome(rows, nextId, br, count, insertFails, now).rows)
  {
    if 0 <= count <= BitMapSize && !insertFails {
      var e := Entry(nextId, br.argv[1], ExtractContent(br.request, |br.argv[0]|, br.argv[1]), now);
      assert AddOutcome(rows, nextId, br, count, insertFails, now).rows == rows + [e];
      forall t ensures TopicCount(rows + [e], t) <= BitMapSize + 1 {
        SelectAppend(rows, e, Some(t));
        assert TopicCount(rows, t) <= BitMapSize + 1;
        if t == br.argv[1] {
          assert TopicCount(rows, t) == count;
        } else {
          assert !Matches(e, Some(t));
        }
      }
    }
  }

  /** `/del` keeps every topic capped: deleting never adds rows. */
  lemma DeleteKeepsCap(rows: seq<Entry>, nextId: int, br: Request)
    requires Capped(rows) && |br.argv| >= 3
    ensures Capped(DeleteOutcome(rows, nextId, br).rows)
  {
    var listing := Cursor(rows, Some(br.argv[1]));
    forall t ensures TopicCount(DeleteOutcome(rows, nextId, br).rows, t) <= BitMapSize + 1 {
      TopicCountWithout(rows, Doomed(listing, Positions(br.argv[2..]), |listing|), t);
    }
  }

  /** The `/add` guard keeps every topic capped. */
  lemma HandleKeepsCap(rows: seq<Entry>, nextId: int, br: Request, countFails: bool, insertFails: bool, now: int)
    requires Capped(rows)
    ensures Capped(Handle(rows, nextId, br, countFails, insertFails, now).rows)
  {
    if |br.argv| > 0 {
      var cmd := br.argv[0];
      if CaseEq(cmd, "/add") && |br.argv| >= 2 {
        AddKeepsCap(rows, nextId, br, if countFails then -1 else TopicCount(rows, br.argv[1]), insertFails, now);
      } else if !CaseEq(cmd, "/ls") && CaseEq(cmd, "/del") && |br.argv| >= 3 {
        DeleteKeepsCap(rows, nextId, br);
      }
    }
  }

  /** The cap is reached: `/add` to a topic of exactly BitMapSize rows is
      accepted and leaves BitMapSize + 1 rows. */
  lemma CapIsReached(rows: seq<Entry>, nextId: int, br: Request, now: int)
    requires |br.argv| >= 2 && CaseEq(br.argv[0], "/add")
    requires TopicCount(rows, br.argv[1]) == BitMapSize
    ensures Handle(rows, nextId, br, false, false, now).reply == Some(Reply(RememberToDo, true))
    ensures TopicCount(Handle(rows, nextId, br, false, false, now).rows, br.argv[1]) == BitMapSize + 1
  {
    var topic := br.argv[1];
    var e := Entry(nextId, topic, ExtractContent(br.request, |br.argv[0]|, topic), now);
    SelectAppend(rows, e, Some(topic));
  }

  /** While a topic holds BitMapSize + 1 rows, its last listed row cannot be
      selected: position BitMapSize + 1 is out of the bitmap's range. */
  lemma CapRowUndeletable(rows: seq<Entry>, nextId: int, br: Request)
    requires IdsAscending(rows, nextId) && |br.argv| >= 3
    requires |Cursor(rows, Some(br.argv[1]))| == BitMapSize + 1
    ensures Cursor(rows, Some(br.argv[1]))[BitMapSize] in DeleteOutcome(rows, nextId, br).rows
  {
    DeleteRemovesExactlySelected(rows, nextId, br);
  }

  /** Round trip of `/add` and `/ls <topic>`: an accepted `/add` whose insert
      succeeds puts a new row, carrying the extracted content, into the
      topic's listing. */
  lemma AddThenList(rows: seq<Entry>, nextId: int, br: Request, now: int)
    requires IdsAscending(rows, nextId)
    requires |br.argv| >= 2 && CaseEq(br.argv[0], "/add") && TopicCount(rows, br.argv[1]) <= BitMapSize
    ensures var o := Handle(rows, nextId, br, false, false, now);
            var e := Entry(nextId, br.argv[1], ExtractContent(br.request, |br.argv[0]|, br.argv[1]), now);
            && o.reply == Some(Reply(RememberToDo, true))
            && e in Cursor(o.rows, Some(br.argv[1]))
            && e !in Cursor(rows, Some(br.argv[1]))
  {
    InsertedRowListed(rows, nextId, br.argv[1], ExtractContent(br.request, |br.argv[0]|, br.argv[1]), now);
  }

  // ---------------------------------------------------------------------
  // Commands are matched ignoring case

  lemma CaseEqReplace(a: string, b: string, c: string)
    requires CaseEq(a, b)
    ensures CaseEq(a, c) == CaseEq(b, c)
  {
  }

  /** `strcasecmp` dispatch: a command word that differs only in letter case
      (`/ADD`, `/Ls`, `/DeL`) does exactly what the lower-case one does. */
  lemma HandleIgnoresCommandCase(rows: seq<Entry>, nextId: int, br: Request, cmd: string, countFails: bool, insertFails: bool, now: int)
    requires |br.argv| > 0 && CaseEq(cmd, br.argv[0])
    ensures Handle(rows, nextId, Request(br.request, [cmd] + br.argv[1..]), countFails, insertFails, now)
         == Handle(rows, nextId, br, countFails, insertFails, now)
  {
    var br2 := Request(br.request, [cmd] + br.argv[1..]);
    assert br2.argv[1..] == br.argv[1..];
    if |br.argv| >= 2 {
      assert br2.argv[2..] == br.argv[2..];
    }
    CaseEqReplace(cmd, br.argv[0], "/add");
    CaseEqReplace(cmd, br.argv[0], "/ls");
    CaseEqReplace(cmd, br.argv[0], "/del");
  }

  // ---------------------------------------------------------------------
  // Refusals and the help text

  /** `/add` to a topic that already holds more rows than the selection
      bitmap can number is refused and the table is left as it was. */
  lemma AddOverCapRefused(rows: seq<Entry>, nextId: int, br: Request, insertFails: bool, now: int)
    requires |br.argv| >= 2 && CaseEq(br.argv[0], "/add")
    requires TopicCount(rows, br.argv[1]) > BitMapSize
    ensures Handle(rows, nextId, br, false, insertFails, now) == Outcome(rows, nextId, Some(Reply(TooManyTodos, true)))
  {
  }

  /** `/add` whose count query fails is refused and the table is left as
      it was. */
  lemma AddCountFailureRefused(rows: seq<Entry>, nextId: int, br: Request, insertFails: bool, now: int)
    requires |br.argv| >= 2 && CaseEq(br.argv[0], "/add")
    ensures Handle(rows, nextId, br, true, insertFails, now) == Outcome(rows, nextId, Some(Reply(FailedToAdd, true)))
  {
  }

  /** `/add` without a topic gets the help text. */
  lemma AddWithoutTopicGetsHelp(rows: seq<Entry>, nextId: int, br: Request, countFails: bool, insertFails: bool, now: int)
    requires |br.argv| == 1 && CaseEq(br.argv[0], "/add")
    ensures Handle(rows, nextId, br, countFails, insertFails, now) == Outcome(rows, nextId, Some(Reply(HelpMsg, false)))
  {
    assert !CaseEq(br.argv[0], "/ls");
  }

  /** `/del` without positions (with or without a topic) gets the help
      text. */
  lemma DeleteWithoutPositionsGetsHelp(rows: seq<Entry>, nextId: int, br: Request, countFails: bool, insertFails: bool, now: int)
    requires 1 <= |br.argv| <= 2 && CaseEq(br.argv[0], "/del")
    ensures Handle(rows, nextId, br, countFails, insertFails, now) == Outcome(rows, nextId, Some(Reply(HelpMsg, false)))
  {
    assert Lower("/del"[1]) != Lower("/add"[1]);
    CaseEqReplace(br.argv[0], "/del", "/add");
    assert !CaseEq(br.argv[0], "/ls");
  }

  // ---------------------------------------------------------------------
  // A session

  lemma GroceriesContent(add: Request)
    requires add == Request("/add groceries buy milk", ["/add", "groceries", "buy", "milk"])
    ensures ExtractContent(add.request, |add.argv[0]|, add.argv[1]) == "buy milk"
  {
    var cmd, topic, c := add.argv[0], add.argv[1], "buy milk";
    assert add.request == cmd + " " + topic + " " + c + "";
    ExtractContentRoundTrip(cmd, " ", topic, " ", c, "");
  }

  /** The first `/add` on an empty table is accepted and stores its
      content under id 1. */
  lemma FirstAdd(add: Request, content: string, now: int)
    requires |add.argv| >= 2 && CaseEq(add.argv[0], "/add")
    requires ExtractContent(add.request, |add.argv[0]|, add.argv[1]) == content
    ensures Handle([], 1, add, false, false, now) == Outcome([Entry(1, add.argv[1], content, now)], 2, Some(Reply(RememberToDo, true)))
  {
    assert TopicCount([], add.argv[1]) == 0;
    assert Handle([], 1, add, false, false, now) == AddOutcome([], 1, add, 0, false, now);
  }

  lemma GroceriesAdded(add: Request, now: int)
    requires add == Request("/add groceries buy milk", ["/add", "groceries", "buy", "milk"])
    ensures Handle([], 1, add, false, false, now) == Outcome([Entry(1, "groceries", "buy milk", now)], 2, Some(Reply(RememberToDo, true)))
  {
    assert CaseEq(add.argv[0], add.argv[0]);
    GroceriesContent(add);
    FirstAdd(add, "buy milk", now);
  }

  lemma GroceriesListed(ls: Request, now: int)
    requires ls == Request("/ls", ["/ls"])
    ensures Handle([Entry(1, "groceries", "buy milk", now)], 2, ls, false, false, now).reply == Some(Reply("groceries:\n    1   buy milk\n", false))
  {
    var e := Entry(1, "groceries", "buy milk", now);
    assert [e][1..] == [];
    assert Select([e], None) == [e];
    assert Cursor([e], None) == [e];
    assert !CaseEq(ls.argv[0], "/add") && CaseEq(ls.argv[0], "/ls");
    GroceriesListing(1, now);
  }

  lemma GroceriesDeleted(del: Request, now: int)
    requires del == Request("/del groceries 1", ["/del", "groceries", "1"])
    ensures Handle([Entry(1, "groceries", "buy milk", now)], 2, del, false, false, now) == Outcome([], 2, Some(Reply(Good, true)))
  {
    var e := Entry(1, "groceries", "buy milk", now);
    assert [e][1..] == [];
    assert Select([e], Some("groceries")) == [e];
    assert Cursor([e], Some("groceries")) == [e];
    assert del.argv[2..] == [Decimal(1)];
    PositionOfNumber(1);
    assert Doomed([e], {1}, 1) == {1};
    assert Without([e], {1}) == [];
    assert Lower("/del"[1]) != Lower("/add"[1]);
    CaseEqReplace(del.argv[0], "/del", "/add");
    assert !CaseEq(del.argv[0], "/ls");
  }

  lemma GroceriesEmptied(ls: Request, now: int)
    requires ls == Request("/ls groceries", ["/ls", "groceries"])
    ensures Handle([], 2, ls, false, false, now) == Outcome([], 2, Some(Reply(NothingToDo, false)))
  {
    assert Select([], Some("groceries")) == [];
    assert Cursor([], Some("groceries")) == [];
    assert !CaseEq(ls.argv[0], "/add") && CaseEq(ls.argv[0], "/ls");
  }

  /** A session on an empty table: `/add groceries buy milk` is confirmed
      and stores "buy milk" under "groceries" with id 1; a following `/ls`
      shows it as entry 1 of that topic; `/del groceries 1` deletes it and
      answers "GOOD!"; and `/ls groceries` then finds nothing to do. */
  lemma GroceriesSession(add: Request, ls: Request, del: Request, lsTopic: Request, now: int)
    requires add == Request("/add groceries buy milk", ["/add", "groceries", "buy", "milk"])
    requires ls == Request("/ls", ["/ls"])
    requires del == Request("/del groceries 1", ["/del", "groceries", "1"])
    requires lsTopic == Request("/ls groceries", ["/ls", "groceries"])
    ensures var added := Handle([], 1, add, false, false, now);
            var listed := Handle(added.rows, added.nextId, ls, false, false, now);
            var deleted := Handle(listed.rows, listed.nextId, del, false, false, now);
            var relisted := Handle(deleted.rows, deleted.nextId, lsTopic, false, false, now);
            && added.reply == Some(Reply(RememberToDo, true))
            && added.rows == [Entry(1, "groceries", "buy milk", now)]
            && listed.reply == Some(Reply("groceries:\n    1   buy milk\n", false))
            && deleted.reply == Some(Reply(Good, true))
            && deleted.rows == []
            && relisted.reply == Some(Reply(NothingToDo, false))
  {
    GroceriesAdded(add, now);
    GroceriesListed(ls, now);
    GroceriesDeleted(del, now);
    GroceriesEmptied(lsTopic, now);
  }
}
