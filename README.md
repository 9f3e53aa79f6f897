# jptodo in Dafny

jptodo is a chat bot that keeps a todo list per topic in an SQLite table
`TodoList(id, topic, content, create_at)`. It understands four commands:

- `/add <topic> <content>` stores an entry.
- `/ls` lists every entry, grouped by topic.
- `/ls <topic>` lists the entries of one topic.
- `/del <topic> 1 2 3` deletes entries of a topic by the numbers `/ls <topic>` shows.

Anything else gets the help text.

This project models `jptodo.c`:

- the selection bitmap;
- the fetch of the ordered listing;
- the listing formatter;
- count and insert on the table;
- the request handler.

It also proves that the number `/ls <topic>` shows for an entry is the number by which `/del <topic>` deletes it.

Modules, in dependency order:

- `Wrappers` (`wrappers.dfy`): `Option`.
- `Text` (`text.dfy`): the string primitives the handler uses.
  - `sdstrim(s, " ")`, `sdsrange(s, n, -1)` and `strcasecmp`;
  - `atoi`, and the `%d` / `%-3d` conversions.
- `Selection` (`selection.dfy`): `BitMapEmpty`, `BitMapSet` and `BitMapGet`.
  - The `long long` bitmap is a class over a `bv64` field.
- `Entries` (`entries.dfy`): the table row and the SQL the program runs.
  - `WHERE topic=?s`; `ORDER BY topic, create_at`; `DELETE ... WHERE id=?i`; `COUNT(*)`.
- `Listing` (`listing.dfy`): `printTodoEntries`.
  - A method with the source's loop, proved against the function `Render`.
- `Store` (`store.dfy`): the table as the class `TodoStore`, whose rows and AUTOINCREMENT counter the methods update.
  - The methods are `todoCount`, `todoAdd`, `todoGetUnfinishedEntries` and the DELETE.
  - The invariant: ids are positive, ascending and below the next id.
- `Commands` (`commands.dfy`): `handleRequest` as a function `Handle` from the table before a request to the table after it and the reply.
  - It also holds the lemmas about it.
- `Bot` (`bot.dfy`): `handleRequest` as the C code runs it, in place on a `TodoStore`.
  - The `/del` part fills a `BitMap` in a loop, then walks the fetched listing in a second loop.
  - Each method is proved equal to `Handle`.

## Modelling decisions

- **Failures are parameters.** A failing `COUNT(*)` query or `INSERT` is a boolean parameter, and `now` stands for `DATETIME('now')`. `create_at` is an integer timestamp, compared as the `ORDER BY` compares it.
- **The SQL sort.** `ORDER BY topic, create_at` is a stable insertion sort of the filtered rows, so rows with equal keys keep table order. Topics compare by code point, as SQLite's BINARY collation does.
- **`sdstrim(s, " ")` strips NUL as well as the space.** `strchr(" ", c)` also finds the set's terminating NUL, so both characters are stripped. No other white space, such as a tab or a newline, is stripped (jptodo.c:162, 164).
- **Word splitting is the bot framework's.** A request carries its full text and its words (`argv`), and the model never re-splits the text.
- **No reply to an empty request.** A request with no words gets no reply at all (jptodo.c:141); every other request gets exactly one. `Handle` returns `None` there.
- **The cap lets a topic reach 65 entries.** `/add` is refused only when the topic already has more than 64 entries (`count > BitMapSize`, jptodo.c:155), one more than the bitmap can number:
  - a 65th entry can be added, and no topic can get a 66th;
  - while the topic holds 65 rows, its last listed row cannot be selected by position, since 65 is outside the bitmap's range;
  - `Commands.CapIsReached` and `Commands.CapRowUndeletable` state this.

## Model

| member | source | states |
|---|---|---|
| Text.Trim | jptodo.c:162-164 | the result has no space or NUL at either end; it is the slice of the input that starts after the leading strippable run, and only strippable characters follow it |
| Text.TrimOfPadded | jptodo.c:162-164 | trimming undoes padding: any strippable padding around a trimmed middle trims back to exactly that middle |
| Text.TrimTrimmed | jptodo.c:162-164 | trimming an already trimmed string changes nothing |
| Text.DropFirst | jptodo.c:161-163 | `sdsrange(s, n, -1)` keeps what follows the first `n` characters; an offset at or past the end gives the empty string |
| Text.Atoi | jptodo.c:181 | an argument with no digit, such as a word, reads as 0, which no position has |
| Text.DecimalDigits | jptodo.c:115 | `%d` prints decimal digits, with no leading zero, that denote the number |
| Text.LeftJustified3Shape | jptodo.c:115 | `%-3d` is at least three characters: the number's digits, then spaces |
| Text.Lower | jptodo.c:148-177 | `strcasecmp` folds exactly the upper-case ASCII letters to lower case and leaves every other character as it is |
| Text.CaseEq | jptodo.c:148-177 | equal strings compare equal ignoring case, and strings that compare equal have the same length |
| Text.Decimal | jptodo.c:115 | `%d` of a number prints at least one character |
| Text.LeftJustified3 | jptodo.c:115 | `%-3d` of a number prints at least three characters |
| Text.AtoiDecimal | jptodo.c:115-181 | `atoi` reads back exactly the number that `%d` or `%-3d` printed |
| Selection.OrMaskAt | jptodo.c:42-50 | or-ing in the mask of `i` makes the bit of `j` set exactly when `j == i` or it was already set |
| Selection.Mask | jptodo.c:42-50 | the intended mask of a position in 1 .. 64 has exactly one bit set, bit `i - 1` |
| Selection.WrittenMask | jptodo.c:42-50 | the mask as written agrees with the intended mask for positions 1 .. 31 |
| Selection.WrittenMaskWraps | jptodo.c:42-50 | the mask as written for positions 33 .. 63 is the intended mask of position `i - 32` |
| Selection.Bit | jptodo.c:46-51 | `BitMapGet` on a word is 0 or 1, and 1 only for a position in 1 .. 64 |
| Selection.BitOfZero | jptodo.c:34-36 | the cleared word selects no position |
| Selection.BitOfSet | jptodo.c:38-51 | after setting position `i`, position `i` reads 1 and every other position, in range or not, reads as before |
| Selection.WrittenBit | jptodo.c:46-51 | `BitMapGet` with the mask as written is 0 or 1 |
| Selection.WrittenMaskAliases | jptodo.c:42 | with the 32-bit shift as written, setting 33 selects position 1 and setting 40 selects position 8; with the intended mask neither does |
| Selection.BitMap.Get | jptodo.c:46-51 | `BitMapGet` is 0 or 1, and 1 only for a position in range |
| Selection.BitMap.Empty | jptodo.c:34-36 | after `BitMapEmpty` every position reads 0 |
| Selection.BitMap.Set | jptodo.c:38-44 | returns 1 and selects `i` when 1 <= i <= 64; returns 0 otherwise; no other position changes either way |
| Entries.StrLeqTotal | jptodo.c:17-23 | the topic collation is total |
| Entries.StrLeqAntisymmetric | jptodo.c:17-23 | the topic collation is antisymmetric |
| Entries.StrLeqTransitive | jptodo.c:17-23 | the topic collation is transitive |
| Entries.KeyLeqTotal | jptodo.c:17-23 | the `(topic, create_at)` order is total |
| Entries.KeyLeqTransitive | jptodo.c:17-23 | the `(topic, create_at)` order is transitive |
| Entries.Select | jptodo.c:21-23 | `WHERE topic=?s` keeps a row exactly when the table has it and its topic is the given one; with no topic it keeps every row |
| Entries.SelectMultiset | jptodo.c:21-23 | the filter keeps each matching row as often as the table holds it, and no other row |
| Entries.SelectAppend | jptodo.c:21-26 | filtering a table with one more row at the end appends that row exactly when it matches |
| Entries.Without | jptodo.c:28 | deleting never lengthens the table |
| Entries.WithoutMembers | jptodo.c:28 | a row survives `DELETE ... WHERE id=?i` exactly when it was in the table and its id is not deleted |
| Entries.WithoutWithout | jptodo.c:186-192 | deleting one id after another is deleting them all at once |
| Entries.WithoutAbsent | jptodo.c:28 | deleting ids that no row carries leaves the table unchanged |
| Entries.TopicCount | jptodo.c:124 | `COUNT(*) ... WHERE topic=?s` is at most the table's size, and 0 exactly when no row has the topic |
| Entries.TopicCountWithout | jptodo.c:28 | deleting never adds rows to a topic |
| Entries.Insert | jptodo.c:17-23 | inserting into a sorted sequence gives a sorted permutation with the entry added |
| Entries.SortByKey | jptodo.c:17-23 | the sort's result is sorted by `(topic, create_at)` and is a permutation of its input |
| Entries.Cursor | jptodo.c:17-23 | what the SELECT returns is sorted and is a permutation of the filtered rows |
| Entries.CursorContents | jptodo.c:17-23 | the listing holds each matching row as often as the table does, and no other row; with a topic, all rows carry it, in non-decreasing `create_at` |
| Entries.CursorDistinct | jptodo.c:11-23 | with primary-key ids in the table, a listing has no two rows with the same id |
| Listing.Header | jptodo.c:111 | a header is the topic followed by two characters, `":\n"` |
| Listing.LineLayout | jptodo.c:115 | a numbered line starts with four spaces, is at least nine characters longer than its content, and ends with the content and a newline |
| Listing.Render | jptodo.c:104-120 | a listing of at least one entry begins with the first entry's header and its line numbered 1 |
| Listing.PiecesStart | jptodo.c:109-118 | the text for the first entries begins with the first entry's header and line |
| Listing.RunNumber | jptodo.c:108-117 | the number printed for entry `k` is between 1 and `k + 1` |
| Listing.PrintStep | jptodo.c:110-117 | one turn of the loop (a header when the topic changes, then the numbered line) keeps the text, the current topic and the counter in step with `Render` |
| Listing.PrintTodoEntries | jptodo.c:104-120 | the loop's text is `Render` of the entries: "Nothing to do\n" for none, otherwise a header per change of topic and one numbered line per entry |
| Listing.RunNumberCounts | jptodo.c:110-117 | an entry's number is 1 plus the number of entries before it in its run of equal topics: the run starts exactly there and no run starts inside it |
| Listing.SingleTopicNumbering | jptodo.c:110-117 | in a one-topic listing only the first entry starts a run, and entry `k` is number `k + 1` |
| Listing.SingleTopicRender | jptodo.c:104-120 | a one-topic listing is its one header followed by lines numbered 1, 2, 3, ... in list order |
| Listing.FirstLine | jptodo.c:115 | entry 1 is printed as four spaces, "1", two spaces, a space, the content and a newline |
| Listing.RenderOne | jptodo.c:104-120 | a listing of one entry is its topic's header and the entry as number 1 |
| Listing.GroceriesListing | jptodo.c:104-120 | a single entry "buy milk" under "groceries" is printed as "groceries:\n    1   buy milk\n" |
| Store.AscendingDistinct | jptodo.c:11 | ascending AUTOINCREMENT ids are distinct |
| Store.WithoutAscending | jptodo.c:28 | deleting rows keeps the id invariant |
| Store.AppendAscending | jptodo.c:11-26 | inserting a row with the next AUTOINCREMENT id keeps the invariant for the id after it |
| Store.DeleteAbsentId | jptodo.c:28 | deleting an id that no row carries is a no-op |
| Store.InsertedRowListed | jptodo.c:17-26 | an inserted row appears in its topic's listing, and it was not there before |
| Store.TodoStore.constructor | jptodo.c:9-15 | a new table is empty, its next id is 1, and it satisfies the invariant |
| Store.TodoStore.TodoCount | jptodo.c:122-128 | the number of rows of the topic, or -1 when the query yields no row |
| Store.TodoStore.GetUnfinishedEntries | jptodo.c:79-102 | the loop copies the cursor in order: the listing is sorted and is a permutation of the filtered rows |
| Store.TodoStore.TodoAdd | jptodo.c:130-132 | returns 1 and appends the row with the next id, or returns 0 and changes nothing; the invariant is kept |
| Store.TodoStore.DeleteEntry | jptodo.c:188 | the table loses exactly the rows with that id; the next id is unchanged; the invariant is kept |
| Commands.ExtractContent | jptodo.c:160-164 | the stored content has no space or NUL at either end |
| Commands.ExtractNoContent | jptodo.c:160-164 | nothing after the topic stores the empty content |
| Commands.ExtractWithoutTopic | jptodo.c:160-164 | with an empty topic, the content is the text after the blanks |
| Commands.ExtractTopicAndContent | jptodo.c:160-164 | with a topic and a content, the content is exactly the text after the topic and its blanks |
| Commands.ExtractContentRoundTrip | jptodo.c:160-164 | for command, blanks, topic, blanks, content and blanks, with a trimmed topic and content, the stored content is exactly the typed content, internal spacing included |
| Commands.AddOutcome | jptodo.c:148-167 | the reply is quoted; it is "Ok, remember to do." exactly when the count is in 0 .. 64; a failed count gives "OOPS! Failed to add!", one above 64 gives the too-many-todos reply, and either leaves the table and next id unchanged; an accepted `/add` with a successful insert appends the row with the next id, the topic and the extracted content |
| Commands.Positions | jptodo.c:179-181 | every selected position is in 1 .. 64 |
| Commands.PositionsMembers | jptodo.c:179-181 | a position is selected exactly when it is in range and some argument reads as it under `atoi` |
| Commands.DoomedMembers | jptodo.c:183-192 | an id is deleted exactly when some selected position among those walked carries it |
| Commands.DoomedSize | jptodo.c:183-192 | walking `n` positions deletes at most `n` ids |
| Commands.DoomedExactly | jptodo.c:183-192 | with distinct ids, a listed row's id is deleted exactly when its position is selected |
| Commands.DoomedOtherTopics | jptodo.c:183-192 | the walk over one topic's listing deletes no row of another topic |
| Commands.ListingRows | jptodo.c:183 | every row of a topic's listing is in the table and has that topic |
| Commands.Handle | jptodo.c:140-200 | no reply exactly when the request has no words; the unquoted replies (`/ls` and help) leave the table unchanged |
| Commands.DeleteOutcome | jptodo.c:178-196 | `/del` always answers "GOOD!" quoted, leaves the next id unchanged and never lengthens the table |
| Commands.DeleteRemovesExactlySelected | jptodo.c:178-196 | `/del` removes a listed row exactly when its position is selected; every row of another topic survives; no row appears |
| Commands.DeleteUnlistedPositions | jptodo.c:178-196 | `/del` with no position inside the listing changes nothing |
| Commands.PositionOfNumber | jptodo.c:181 | one argument that prints an in-range number selects exactly that number |
| Commands.ListThenDelete | jptodo.c:171-196 | the entry at position `p` of `/ls <topic>` is shown as number `p + 1`; `/del <topic> <p + 1>` deletes it and keeps the topic's other entries |
| Commands.DeleteOnePosition | jptodo.c:178-196 | `/del` selecting only position `p + 1` removes the listed row at index `p` and keeps the topic's other listed rows |
| Commands.AddKeepsIds | jptodo.c:148-167 | `/add` keeps the id invariant |
| Commands.DeleteKeepsIds | jptodo.c:178-196 | `/del` keeps the id invariant |
| Commands.HandleKeepsIds | jptodo.c:140-200 | every request keeps the id invariant |
| Commands.AddKeepsCap | jptodo.c:151-158 | `/add` keeps every topic at 65 rows or fewer |
| Commands.DeleteKeepsCap | jptodo.c:178-196 | `/del` keeps every topic at 65 rows or fewer |
| Commands.HandleKeepsCap | jptodo.c:140-200 | every request keeps every topic at 65 rows or fewer |
| Commands.CapIsReached | jptodo.c:151-167 | `/add` to a topic of exactly 64 rows is confirmed and leaves 65 rows |
| Commands.CapRowUndeletable | jptodo.c:179-192 | while a topic's listing holds 65 rows, its last row survives every `/del` of that topic |
| Commands.AddThenList | jptodo.c:148-176 | an accepted `/add` whose insert succeeds confirms, and puts a new row with the extracted content into the topic's listing |
| Commands.HandleIgnoresCommandCase | jptodo.c:148-178 | a command word that differs only in letter case does exactly what the lower-case word does |
| Commands.AddOverCapRefused | jptodo.c:148-158 | `/add` to a topic holding more than 64 rows gets the too-many-todos reply and leaves the table unchanged |
| Commands.AddCountFailureRefused | jptodo.c:148-154 | `/add` whose count query fails gets "OOPS! Failed to add!" and leaves the table unchanged |
| Commands.AddWithoutTopicGetsHelp | jptodo.c:148-198 | `/add` without a topic gets the help text and changes nothing |
| Commands.DeleteWithoutPositionsGetsHelp | jptodo.c:177-198 | `/del` with fewer than three words gets the help text and changes nothing |
| Commands.FirstAdd | jptodo.c:148-167 | the first `/add` on an empty table is confirmed and stores its content under id 1 |
| Commands.GroceriesContent | jptodo.c:160-164 | `/add groceries buy milk` stores the content "buy milk" |
| Commands.GroceriesAdded | jptodo.c:148-167 | `/add groceries buy milk` on an empty table stores one row, "buy milk" under "groceries" with id 1, and confirms |
| Commands.GroceriesListed | jptodo.c:171-176 | `/ls` on that table replies "groceries:\n    1   buy milk\n" |
| Commands.GroceriesDeleted | jptodo.c:177-192 | `/del groceries 1` on that table deletes the row and answers "GOOD!" |
| Commands.GroceriesEmptied | jptodo.c:170-176 | `/ls groceries` on the emptied table replies "Nothing to do\n" |
| Commands.GroceriesSession | jptodo.c:140-196 | the four requests in turn: `/add` is confirmed and stored, `/ls` lists it as entry 1 of "groceries", `/del groceries 1` empties the table with "GOOD!", and `/ls groceries` finds nothing to do |
| Bot.HandleAdd | jptodo.c:148-167 | the in-place `/add` leaves the table and reply that `Handle`'s `/add` branch describes; the invariant is kept |
| Bot.HandleList | jptodo.c:171-176 | `/ls` replies with `Render` of the listing, unquoted |
| Bot.SelectPositions | jptodo.c:179-181 | the loop leaves a fresh bitmap that selects exactly `Positions` of the arguments |
| Bot.DeleteStep | jptodo.c:186-192 | one turn of the walk extends the deletion by the row at a selected position, and leaves it as it was at an unselected one |
| Bot.DeleteSelected | jptodo.c:183-192 | the walk deletes exactly the ids at the positions the bitmap selects; the next id is unchanged; the invariant is kept |
| Bot.HandleDelete | jptodo.c:178-196 | the in-place `/del` leaves the table and reply that `DeleteOutcome` describes |
| Bot.HandleRequest | jptodo.c:140-200 | the in-place handler leaves the table and reply that `Handle` describes, and keeps the invariant |

## Findings

| source | as written | input that shows it | evidently intended | confidence | as-written member | corrected member |
|---|---|---|---|---|---|---|
| jptodo.c:42-50 | the mask is `1<<(i-1)`, a 32-bit `int` shift: 31 and above overflow or are undefined, and x86-64 reduces the count modulo 32 | `/del t 33` deletes entry 1 of `t`; `/del t 40` deletes entry 8 | a 64-bit shift, `1LL<<(i-1)`, so that positions 33 .. 64 are themselves | not executed; the as-written behaviour assumes the usual x86-64 code generation of undefined behaviour | Selection.WrittenMaskAliases | Selection.BitOfSet |

The rest of the model uses the intended mask, `Selection.Mask`.

## Left out

- SQLite and the bot framework are foreign code and are not modelled: `sqlSelect`, `sqlNextRow`, `sqlInsert`, `sqlQuery`, `botSendMessage` and `startBot`. A query is its result on the rows, and a sent message is the `Reply` returned.
- `main` and the printed log line (`printf`) are I/O and are not modelled.
- `todoEntryNew`, `todoEntryFree` and the entry list's memory are not modelled. The list is a `seq<Entry>`.
- The copy loop's `break` when `xmalloc` fails is not modelled. The model never runs out of memory.
- `DATETIME(create_at, 'localtime')` is not modelled. The timestamp is an integer, and `now` is a parameter.
- SQLite leaves the order of rows with equal `(topic, create_at)` unspecified. The model fixes it to table order.
- `Text.Atoi`: overflow is not modelled; the model reads any number of digits as an unbounded integer.
- Store.TodoStore.TodoCount: the count is an unbounded integer, not a 32-bit `int`.
- Store.TodoStore.GetUnfinishedEntries: a failing SELECT is not modelled. The source ignores `sqlSelect`'s result (jptodo.c:82, 84) and a failed query yields no rows, or stops early (jptodo.c:88), so `/ls` would print "Nothing to do\n" or part of the listing, and `/del` would delete nothing or less yet still answer "GOOD!". The model's fetch always returns every matching row.
- A failing DELETE is not modelled. The source ignores `sqlQuery`'s result, and the model's delete always succeeds.
- `todoAdd`'s result is ignored by the handler, so the reply is "Ok, remember to do." even when the insert fails. The model keeps this behaviour.
- Word splitting of the request into `argv` is the bot framework's and is not modelled.
- Commands.ExtractContent: `sdslen` and `sdsrange` count bytes (jptodo.c:144, 161-163), while the model counts characters. When the topic follows the command literally in the text, both drop exactly the topic, whatever its bytes. When it does not (a topic the framework unquoted), the C code drops as many bytes as the topic has, which for non-ASCII text can cut inside a UTF-8 sequence, where the model drops that many characters.
- The `msg_id` and `target` of a reply are not modelled. `Reply.quoted` records whether the reply answers the request's message.
