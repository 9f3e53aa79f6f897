/** The listing formatter `printTodoEntries`: a header line at every change
    of topic, then one numbered line per entry, the number counting from 1
    within each run of equal topics. */
module Listing {
  import opened Wrappers
  import opened Text
  import opened Entries

  const NothingToDo: string := "Nothing to do\n"

  /** `"%s:\n"` for a topic. */
  function Header(topic: string): (h: string)
    ensures |h| == |topic| + 2 && h[..|topic|] == topic
  {
    topic + ":\n"
  }

  /** `"    %-3d %s\n"` for a number and a content. */
  function Line(n: nat, content: string): string {
    "    " + LeftJustified3(n) + " " + content + "\n"
  }

  /** A numbered line is indented by four spaces, gives the number at least
      three columns and a space, and ends with the content and a newline. */
  lemma LineLayout(n: nat, content: string)
    ensures var l := Line(n, content);
            && |l| >= |content| + 9
            && l[..4] == "    "
            && l[|l| - 1 - |content|..|l| - 1] == content
            && l[|l| - 1] == '\n'
  {
    var l := Line(n, content);
    var m := LeftJustified3(n);
    assert l == ("    " + m + " ") + content + "\n";
  }

  /** Entry `k` begins a maximal run of equal topics. */
  predicate StartsRun(es: seq<Entry>, k: nat)
    requires k < |es|
  {
    k == 0 || es[k - 1].topic != es[k].topic
  }

  /** The number printed for entry `k`: 1 at the start of a run, one more
      than the previous entry's number inside a run. */
  function RunNumber(es: seq<Entry>, k: nat): (n: nat)
    requires k < |es|
    ensures 1 <= n <= k + 1
  {
    if StartsRun(es, k) then 1 else RunNumber(es, k - 1) + 1
  }

  /** What is printed for entry `k`: its topic header if it starts a run,
      then its numbered line. */
  function Piece(es: seq<Entry>, k: nat): string
    requires k < |es|
  {
    (if StartsRun(es, k) then Header(es[k].topic) else "") + Line(RunNumber(es, k), es[k].content)
  }

  /** What is printed for the first `n` entries, in list order. */
  function Pieces(es: seq<Entry>, n: nat): string
    requires n <= |es|
  {
    if n == 0 then "" else Pieces(es, n - 1) + Piece(es, n - 1)
  }

  /** The whole listing. */
  function Render(es: seq<Entry>): (s: string)
    ensures |es| > 0 ==> Header(es[0].topic) + Line(1, es[0].content) <= s
  {
    if |es| == 0 then NothingToDo else PiecesStart(es, |es|); Pieces(es, |es|)
  }

  /** Whatever follows, the text for the first `n > 0` entries begins with
      the first entry's header and its line numbered 1. */
  lemma {:induction false} PiecesStart(es: seq<Entry>, n: nat)
    requires 0 < n <= |es|
    ensures Header(es[0].topic) + Line(1, es[0].content) <= Pieces(es, n)
  {
    if n > 1 {
      PiecesStart(es, n - 1);
    } else {
      assert Pieces(es, 1) == "" + Piece(es, 0);
    }
  }

  /** The formatter's state after the first `k` entries: the text so far,
      the topic of the last header (none before the first entry) and the
      number the next line of the same run gets. */
  ghost predicate Printed(es: seq<Entry>, k: nat, s: string, currentTopic: Option<string>, i: int)
    requires k <= |es|
  {
    && s == Pieces(es, k)
    && (currentTopic.None? <==> k == 0)
    && (currentTopic.Some? ==> currentTopic.value == es[k - 1].topic)
    && i == if k == 0 then 1 else RunNumber(es, k - 1) + 1
  }

  /** One step of the formatter's loop: a header when the topic changes,
      then the numbered line, keeps the state in step with the entries. */
  lemma PrintStep(es: seq<Entry>, k: nat, s: string, currentTopic: Option<string>, i: int)
    requires k < |es|
    requires Printed(es, k, s, currentTopic, i)
    ensures var header := currentTopic.None? || es[k].topic != currentTopic.value;
            var s1 := if header then s + Header(es[k].topic) else s;
            var i1 := if header then 1 else i;
            Printed(es, k + 1, s1 + Line(i1, es[k].content), Some(es[k].topic), i1 + 1)
  {
    var header := currentTopic.None? || es[k].topic != currentTopic.value;
    assert header == StartsRun(es, k);
    if header {
      assert s + Header(es[k].topic) + Line(1, es[k].content) == s + (Header(es[k].topic) + Line(1, es[k].content));
    } else {
      assert Piece(es, k) == [] + Line(i, es[k].content) == Line(i, es[k].content);
    }
  }

  /** `printTodoEntries`: walks the list keeping the text built so far, the
      topic of the last header and the running counter. */
  method PrintTodoEntries(entries: seq<Entry>) returns (s: string)
    ensures s == Render(entries)
  {
    if |entries| == 0 {
      s := NothingToDo;
      return;
    }
    s := "";
    var currentTopic: Option<string> := None;
    var i: nat := 1;
    var k := 0;
    while k < |entries|
      invariant 0 <= k <= |entries|
      invariant Printed(entries, k, s, currentTopic, i)
    {
      var entry := entries[k];
      var header := currentTopic.None? || entry.topic != currentTopic.value;
      ghost var s0, i0 := s, i;
      PrintStep(entries, k, s, currentTopic, i);
      if header {
        s := s + Header(entry.topic);
        currentTopic := Some(entry.topic);
        i := 1;
      }
      assert s == (if header then s0 + Header(entry.topic) else s0) && i == (if header then 1 else i0);
      s := s + Line(i, entry.content);
      k := k + 1;
      i := i + 1;
    }
    assert k == |entries|;
  }

  /** The number printed for an entry is 1 plus the number of entries before
      it in its maximal run of equal topics: counting back `RunNumber - 1`
      entries reaches the start of the run, every entry on the way has the
      same topic, and no run starts in between. */
  lemma {:induction false} RunNumberCounts(es: seq<Entry>, k: nat)
    requires k < |es|
    ensures StartsRun(es, k + 1 - RunNumber(es, k))
    ensures forall j :: k + 1 - RunNumber(es, k) < j <= k ==> !StartsRun(es, j)
    ensures forall j :: k + 1 - RunNumber(es, k) <= j <= k ==> es[j].topic == es[k].topic
  {
    if !StartsRun(es, k) {
      RunNumberCounts(es, k - 1);
    }
  }

  /** In a listing of one topic, which is what `/ls <topic>` and `/del
      <topic>` fetch, only the first entry starts a run and entry `k` is
      printed as number `k + 1`: the displayed number is the 1-based
      position. */
  lemma {:induction false} SingleTopicNumbering(es: seq<Entry>, k: nat)
    requires k < |es|
    requires forall j :: 0 <= j < |es| ==> es[j].topic == es[0].topic
    ensures StartsRun(es, k) <==> k == 0
    ensures RunNumber(es, k) == k + 1
  {
    if k > 0 {
      SingleTopicNumbering(es, k - 1);
    }
  }

  /** The numbered lines of a one-topic listing, positions 1 .. n. */
  function NumberedLines(es: seq<Entry>, n: nat): string
    requires n <= |es|
  {
    if n == 0 then "" else NumberedLines(es, n - 1) + Line(n, es[n - 1].content)
  }

  /** A listing of one topic is one header followed by the entries' lines
      numbered 1, 2, 3, ... in list order. */
  lemma {:induction false} SingleTopicRender(es: seq<Entry>, n: nat)
    requires 0 < n <= |es|
    requires forall j :: 0 <= j < |es| ==> es[j].topic == es[0].topic
    ensures Pieces(es, n) == Header(es[0].topic) + NumberedLines(es, n)
  {
    SingleTopicNumbering(es, n - 1);
    var line := Line(n, es[n - 1].content);
    if n > 1 {
      SingleTopicRender(es, n - 1);
      assert Piece(es, n - 1) == [] + line;
      EmptyLeft(line);
      Associative(Header(es[0].topic), NumberedLines(es, n - 1), line);
    } else {
      assert Piece(es, 0) == Header(es[0].topic) + line;
      EmptyLeft(Piece(es, 0));
      EmptyLeft(line);
    }
  }

  // The two sequence identities below hold without proof; they are stated
  // as lemmas so that the proof above instantiates them for its own terms
  // instead of searching for them among all the concatenations in scope.

  lemma Associative(a: string, b: string, c: string)
    ensures a + b + c == a + (b + c)
  {
  }

  lemma EmptyLeft(a: string)
    ensures [] + a == a
  {
  }

  /** Number 1 is printed left-justified in three columns. */
  lemma FirstLine(content: string)
    ensures Line(1, content) == "    1   " + content + "\n"
  {
    assert DigitChar(1) == '1';
    assert Decimal(1) == "1";
    assert Spaces(2) == "  ";
    assert LeftJustified3(1) == "1  ";
  }

  /** A listing of one entry: its topic's header and the entry as number 1. */
  lemma RenderOne(e: Entry)
    ensures Render([e]) == e.topic + ":\n" + "    1   " + e.content + "\n"
  {
    FirstLine(e.content);
    assert Pieces([e], 1) == "" + Piece([e], 0);
    assert Piece([e], 0) == Header(e.topic) + Line(1, e.content);
  }

  /** The listing of one entry "buy milk" under "groceries". */
  lemma GroceriesListing(id: int, createAt: int)
    ensures Render([Entry(id, "groceries", "buy milk", createAt)]) == "groceries:\n    1   buy milk\n"
  {
    RenderOne(Entry(id, "groceries", "buy milk", createAt));
  }
}
