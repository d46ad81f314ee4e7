# Azure Service Bus queue viewer, modelled in Dafny

The program is a desktop window (`QueueViewerApp` in
`azure_queue_peek.py`). It peeks at the messages of an Azure Service Bus
queue, or of its dead-letter sub-queue, without consuming them. It shows
them as a table, can run SQL over the last loaded table, and can redraw
that table. This project models the window's core as it is written, and
proves what it does.

## The core, module by module

- **Text** (`text.dfy`) models the string operations the window applies:
  - `str.strip`, with Python's whitespace set;
  - the ASCII digit test;
  - `int(...)` on a digit string and `str(n)`, with both round trips proved;
  - single-character `str.replace`.
- **Broker** (`broker.dfy`) models the broker as the viewer sees it:
  - queues hold messages in strictly ascending sequence-number order;
  - `peek_messages(count, start)` returns the first `count` messages numbered `start` or above, or from the head when there is no start;
  - a namespace can be unreachable, can lack the queue, and can fail on a given peek call.
- **Fetcher** (`fetcher.dfy`) models the target-queue path, the sequence-number window, the page size and the peek loop of `load_messages`.
  - The loop is an imperative method (`PeekAll`) with its invariant.
  - Its specification is the ghost list of every peek the loop issues (`Trace`).
  - Lemmas prove from that list:
    - the start positions;
    - the page sizes;
    - the stopping rule;
    - the fetched list is the in-order concatenation of the pages;
    - the number of calls;
    - unbounded mode fetches the whole queue;
    - bounded mode fetches every message from `min+1` up to `max`.
- **Normalizer** (`normalizer.dfy`) models the loop that turns fetched messages into rows:
  - ids run from 1 to N;
  - sequence number and message id become text;
  - line breaks are removed;
  - the two dead-letter columns are added only for the dead-letter queue.
- **Tables** (`tables.dfy`) models the frame built from the rows (`pd.DataFrame(messages_data)`) and the copy `display_table` makes before rendering:
  - text conversion;
  - flattening and 20-character truncation of the message;
  - the `KeyError` raised when a displayed column is missing.
- **Viewer** (`viewer.dfy`) holds the class `QueueViewerApp`.
  - Its fields are the kept frame (`last_df`), the state of the "Execute Query" button, the table the output area shows, and the frame registered with the SQL engine as `azq`.
  - Its button handlers are `LoadMessages`, `ExecuteQuery` and `ResetView`; all three go through `DisplayTable`, the method for the `display_table` helper. Each is specified by a function from the state before the call to the state after it and the message box it pops up.

## Behaviour worth knowing

These follow from the code as written, and the model keeps them.

- **Bounded first peek.** In bounded mode the cursor starts at `min`, so the first peek starts at `min+1`, not at `min`. A message numbered exactly `min` is never fetched (`Fetcher.FirstPeek`, `Fetcher.BoundedAboveMin`).
- **Failed load.** A failed load empties the kept frame and disables querying. It does not keep the previous table (`Viewer.LoadOutcome`).
- **Query results.** Query results are displayed but never stored: the kept frame is only ever replaced by a load (`Viewer.Query`).
- **Last bounded page.** A bounded fetch may read past `max` on its last page, because the loop checks the bound only between pages (`Fetcher.BoundedStop`).
- **Projection queries.** `display_table` rewrites `message_id` on any non-empty table. A query whose result has rows but no `message_id` column, such as `SELECT id FROM azq`, raises there. The window pops up "Query execution failed." and leaves the button disabled (`Viewer.ProjectionQueryFails`).
- **Queue type at display time.** `display_table` reads the queue type again when it runs. Suppose a frame was loaded from the queue itself and the dead-letter type is then selected. "Reload" then fails on the missing `dead_letter_reason` column, shows "Failed to reset." and leaves the button disabled (`Viewer.ReloadAfterSwitchingToDeadLetter`).

## Model

| member | source | states |
|---|---|---|
| Text.Strip | azure_queue_peek.py:117 | the result is the slice of the input left after removing leading and trailing whitespace only; it neither starts nor ends with whitespace |
| Text.StripEmptyIffBlank | azure_queue_peek.py:117-120 | the stripped queue name is empty exactly when the entry holds only whitespace |
| Text.StripIdempotent | azure_queue_peek.py:117 | stripping twice is stripping once |
| Text.StripDigits | azure_queue_peek.py:126-127 | an entry holding only digits is unchanged by strip |
| Text.NatToDecimal | azure_queue_peek.py:163 | `str(n)` is a canonical numeral (no leading zero), one digit exactly when n < 10 |
| Text.DecimalRoundTrip | azure_queue_peek.py:133-134 | `int(str(n)) == n` |
| Text.CanonicalRoundTrip | azure_queue_peek.py:163 | every canonical numeral is `str` of its value, so `str` is a bijection onto canonical numerals |
| Text.DecimalValue | azure_queue_peek.py:133-134 | `int` of an all-digit string of length n is below 10^n |
| Text.IntToDecimal | azure_queue_peek.py:218 | `str(i)` is never empty: a canonical numeral whose value is i when i >= 0, and `-` followed by a canonical numeral whose value is -i when i < 0 |
| Text.ReplaceChar | azure_queue_peek.py:165 | same length, each occurrence of `from` becomes `to`, every other character is kept |
| Text.DeleteChar | azure_queue_peek.py:165 | no occurrence of the deleted character is left, nothing is added, and a string without it is unchanged |
| Text.DeleteCharConcat | azure_queue_peek.py:165 | deleting a character from a concatenation deletes it from each part |
| Text.DeleteCharSingle | azure_queue_peek.py:165 | a one-character string loses its character exactly when it is the deleted one; with the concatenation lemma this fixes the result for every input |
| Text.ReplaceCharConcat | azure_queue_peek.py:165 | replacing a character in a concatenation replaces it in each part |
| Text.DeleteCharLength | azure_queue_peek.py:165 | deleting a character shortens the string by exactly its number of occurrences |
| Broker.Peek | azure_queue_peek.py:148-150 | a peek returns at most `count` messages |
| Broker.PeekPrefix | azure_queue_peek.py:148-150 | a page is the head of the messages from the start on: `count` of them, or all when fewer exist |
| Broker.PageInOrder | azure_queue_peek.py:150 | a page is in ascending order and every message on it is numbered at or above the requested start |
| Broker.FromMembers | azure_queue_peek.py:150 | the messages a peek from `start` can reach are exactly those numbered `start` or above |
| Broker.FromAtLeast | azure_queue_peek.py:150 | every message reachable from `start` is numbered `start` or above |
| Broker.ResumeAfterPage | azure_queue_peek.py:150-155 | resuming at last sequence number + 1 reaches exactly the messages after the page: none skipped, none repeated |
| Fetcher.TargetQueue | azure_queue_peek.py:122-124 | the path is the queue name, followed by `/$DeadLetterQueue` exactly when the dead-letter type is selected |
| Fetcher.TargetQueueInjective | azure_queue_peek.py:122-124 | for names without `$`, the path determines both the queue name and the queue type |
| Fetcher.WindowOf | azure_queue_peek.py:126-135 | bounded exactly when both entries are filled in, with min and max their decimal values |
| Fetcher.PageSize | azure_queue_peek.py:131-150 | every peek asks for at most 300 messages: exactly `max-min` when bounded and below 300, 300 otherwise, and at least one when min < max |
| Fetcher.NextPool | azure_queue_peek.py:150-155 | after a non-empty page, the next peek reaches exactly what followed the page |
| Fetcher.NextCursor | azure_queue_peek.py:146-155 | after a non-empty page the cursor stays in the window, the number of reachable messages strictly drops, and the cursor never moves back |
| Fetcher.TraceStep | azure_queue_peek.py:146-155 | an empty page ends the loop with nothing more fetched; a non-empty page is followed by the loop from its last sequence number, and the fetched list is that page followed by the rest |
| Fetcher.TraceHead | azure_queue_peek.py:146-150 | the first peek asks for the page size from the cursor's start and is followed by the peeks of the rest of the loop |
| Fetcher.TracePages | azure_queue_peek.py:146-155 | every peek of the loop got what the broker's peek returns for its count and start, and only the last peek may have come back empty |
| Fetcher.TraceCounts | azure_queue_peek.py:146-150 | the loop peeks at all exactly when its guard holds at the start, and every peek asks for the page size, between 1 and 300 |
| Fetcher.TraceStarts | azure_queue_peek.py:144-155 | the first peek starts at the cursor's start; every later peek starts at 1 + the last sequence number of the previous non-empty page, and that page's last number is at or above its own start |
| Fetcher.StartsIncrease | azure_queue_peek.py:150-155 | successive peek start positions strictly increase |
| Fetcher.TraceEnds | azure_queue_peek.py:146-152 | the loop stops after an empty page or once the last sequence number makes the guard fail |
| Fetcher.FetchedPrefix | azure_queue_peek.py:143-155 | the fetched list is a prefix of the reachable messages, in order, with none skipped or repeated |
| Fetcher.FetchedStops | azure_queue_peek.py:146-155 | the loop stops only with every reachable message fetched, or with the guard failing on the last sequence number |
| Fetcher.FirstPeek | azure_queue_peek.py:144-150 | no peek happens exactly when bounded with min >= max; otherwise the first peek starts at min+1 in bounded mode and at the head in unbounded mode |
| Fetcher.UnboundedCalls | azure_queue_peek.py:146-152 | unbounded mode makes ceil(reachable/300) + 1 peeks, and the last of them came back empty |
| Fetcher.UnboundedFetchesAll | azure_queue_peek.py:143-155 | unbounded mode fetches the whole queue in order, with ceil(n/300) + 1 peeks |
| Fetcher.BoundedFetch | azure_queue_peek.py:144-155 | bounded mode fetches a prefix of the messages numbered above min, in order |
| Fetcher.EmptyWindow | azure_queue_peek.py:144-146 | with min >= max no peek is issued and the result is empty |
| Fetcher.BoundedAboveMin | azure_queue_peek.py:144-150 | bounded mode fetches no message numbered min or below |
| Fetcher.BoundedStop | azure_queue_peek.py:146-155 | a bounded fetch ends with everything above min fetched, with an empty window, or with the last number at or above max |
| Fetcher.BoundedComplete | azure_queue_peek.py:146-155 | every message above min that bounded mode did not fetch is numbered above max |
| Fetcher.PeekOutcome | azure_queue_peek.py:143-155 | with no transport fault the loop succeeds; it can fail only with the fault on the peek call the namespace fails on |
| Fetcher.Run | azure_queue_peek.py:146-155 | the loop run from `calls` peeks on fails only with the transport fault, on a call numbered `calls` or later |
| Fetcher.RunFaultsNow | azure_queue_peek.py:146-150 | a fault on the next peek ends the run with that fault, as the trace says |
| Fetcher.RunEndsEmpty | azure_queue_peek.py:146-152 | an empty next page ends the run with nothing more fetched, as the trace says |
| Fetcher.RunGoesOn | azure_queue_peek.py:146-155 | a non-empty next page is put in front of the rest of the run, as the trace says |
| Fetcher.RunMatchesTrace | azure_queue_peek.py:143-155 | running the loop call by call yields the transport fault when it falls on one of the loop's peeks, and the concatenated pages otherwise |
| Fetcher.PeekAllOutcome | azure_queue_peek.py:143-155 | the loop's outcome from its initial cursor is the outcome the full peek sequence determines |
| Fetcher.PeekAll | azure_queue_peek.py:143-155 | the `while` loop returns exactly the loop's specified outcome, keeping `all_messages` as the pages so far |
| Fetcher.FetchOutcome | azure_queue_peek.py:139-155 | an unreachable namespace fails with `Unreachable`, a missing queue with `QueueNotFound`; with the queue present and no transport fault the fetch succeeds; a transport failure names the namespace's failing call |
| Fetcher.FetchMessages | azure_queue_peek.py:139-155 | receiving fails when the namespace is unreachable or the queue is missing, and otherwise yields the peek loop's outcome |
| Normalizer.SequenceNumText | azure_queue_peek.py:163 | empty exactly for sequence number 0, otherwise a canonical numeral that reads back as the number |
| Normalizer.CleanText | azure_queue_peek.py:165 | no `\n` or `\r` is left and exactly the carriage returns are dropped; text without `\r` keeps its length, with each `\n` turned into a space and every other character in place |
| Normalizer.CleanTextConcat | azure_queue_peek.py:165 | cleaning a concatenation cleans each part |
| Normalizer.CleanTextSingle | azure_queue_peek.py:165 | one character: `\r` is dropped, `\n` becomes a space, any other is kept; with the concatenation lemma this fixes the cleaned text of every body |
| Normalizer.PropertyText | azure_queue_peek.py:159-171 | the property's value when present, `""` when the properties or the key are missing |
| Normalizer.NormalizeMessage | azure_queue_peek.py:159-171 | id, sequence number text (empty iff 0), message id (empty iff absent or empty), the cleaned body (`CleanText` of the message text), enqueue time kept, dead-letter columns exactly for the dead-letter queue and filled from the properties |
| Normalizer.Normalized | azure_queue_peek.py:157-174 | one row per fetched message, in fetch order, with ids 1..N strictly increasing |
| Normalizer.SequenceNumbersDistinct | azure_queue_peek.py:163 | on an ascending queue no two rows show the same sequence-number text |
| Normalizer.Normalize | azure_queue_peek.py:157-174 | the `for` loop with its counter builds exactly the normalised rows |
| Tables.RowCells | azure_queue_peek.py:161-171 | a row's keys are the five common columns plus the two dead-letter columns exactly for a dead-letter row, each holding that record's value |
| Tables.FromRows | azure_queue_peek.py:176 | the frame has a value in every column of every row, one row per record, the row columns (with the dead-letter columns exactly for the dead-letter queue), row i holding exactly record i's cells, and is empty exactly when there are no records |
| Tables.AsText | azure_queue_peek.py:218-227 | `astype(str)`: text unchanged, a number as a canonical decimal numeral of its value (with `-` when negative), a timestamp as its text, a missing value as `None` |
| Tables.Truncate | azure_queue_peek.py:223 | a prefix of the text, 20 characters long or the whole text when shorter, and the whole text when the full message is shown |
| Tables.Convert | azure_queue_peek.py:218-227 | a rewritten cell is always text: its `astype(str)` text for a text conversion; for the message, that text with every line feed turned into a space, then its first 20 characters (all of it when shorter or when the full message is shown) |
| Tables.DisplayCopy | azure_queue_peek.py:212-228 | fails exactly when the frame is non-empty and lacks a displayed column, naming such a column; otherwise keeps the columns, the rows, the keys and every column it does not rewrite |
| Tables.DisplayedMessage | azure_queue_peek.py:220-223 | each displayed message has no line feed, is a prefix of the flattened text, is the whole of it with the full message shown and at most 20 characters otherwise |
| Tables.DisplayedTextColumns | azure_queue_peek.py:218-227 | a displayed `message_id` is the `astype(str)` text of the original cell, and so are the two dead-letter columns when the dead-letter type is selected |
| Tables.LoadedRow | azure_queue_peek.py:157-176 | row i of a loaded frame has exactly the row columns, with id i+1, the sequence-number text, the message id or `""`, the cleaned body, the enqueue time or a missing value, and for the dead-letter queue the two dead-letter properties |
| Tables.DisplayedCleanMessage | azure_queue_peek.py:220-223 | a message cell without line feeds is displayed as its text, cut to 20 characters unless the full message is shown |
| Tables.LoadedColumns | azure_queue_peek.py:176-177 | a frame built from rows has every column the display reads for the same queue type |
| Tables.LoadedRowDisplays | azure_queue_peek.py:165-177 | a displayed row of a loaded frame shows its message's cleaned body, truncated unless the full message is shown |
| Tables.LoadedTableDisplays | azure_queue_peek.py:176-177 | displaying a freshly loaded frame never fails, and every row shows its message's cleaned body, truncated unless the full message is shown |
| Tables.NormalFrameAsDeadLetterFails | azure_queue_peek.py:225-227 | a non-empty queue frame displayed with the dead-letter type selected fails on `dead_letter_reason` |
| Viewer.ValidateDigits | azure_queue_peek.py:248-250 | an entry is accepted exactly when it is empty or all digits |
| Viewer.Display | azure_queue_peek.py:212-240 | never changes the kept frame or the registration; the button ends enabled exactly when a non-empty table was rendered, and the output shows its display copy; otherwise the output is unchanged; it fails exactly when the copy fails, naming a missing displayed column; the only box is "Queue is empty." for an empty frame |
| Viewer.Query | azure_queue_peek.py:199-240 | never changes the kept frame; with none it only pops up "No data in queue."; otherwise it registers the frame as `azq`; a failing query pops up "Query execution failed." and changes nothing else; a result enables the button exactly when it is non-empty and its display copy succeeds, and then shows that copy, otherwise the output is unchanged; it pops up "Queue is empty." exactly for an empty result and "Query execution failed." exactly when the copy fails; it keeps the window consistent |
| Viewer.Reset | azure_queue_peek.py:212-246 | keeps the frame and the registration; enables the button exactly when the kept frame is non-empty and its display copy succeeds, and then shows that copy, otherwise the output is unchanged; pops up nothing exactly when enabled, "Queue is empty." exactly for an empty frame and "Failed to reset." exactly when the copy fails; keeps the window consistent |
| Viewer.LoadedFrame | azure_queue_peek.py:137-176 | an unconfigured environment fails with `UnknownEnvironment`, a receive error only for a configured one; a built frame has a value in every column of every row and, when non-empty, the dead-letter columns exactly for the dead-letter type |
| Viewer.Load | azure_queue_peek.py:116-183 | never changes the registration; a blank queue name only pops up "Please enter a queue name."; a failed receive empties the frame, disables the button and pops up "Failed to receive messages."; a load keeps the window consistent |
| Viewer.LoadOutcome | azure_queue_peek.py:137-183 | a failed receive empties the frame, disables the button and pops up "Failed to receive messages."; a successful one keeps the frame, whose display never fails, enables the button exactly when it has rows, and shows its display copy |
| Viewer.ReloadAfterLoad | azure_queue_peek.py:242-246 | "Reload" right after a load with the same inputs leaves the window state unchanged |
| Viewer.ResetIdempotent | azure_queue_peek.py:242-246 | pressing "Reload" twice is pressing it once |
| Viewer.ReloadAfterSwitchingToDeadLetter | azure_queue_peek.py:225-246 | reloading a queue frame after selecting the dead-letter type pops up "Failed to reset." and disables the button |
| Viewer.ProjectionQueryFails | azure_queue_peek.py:203-218 | a query whose result has rows but no `message_id` column pops up "Query execution failed." and leaves the button disabled, the output and the kept frame unchanged, and the frame registered |
| Viewer.ReceiveFrame | azure_queue_peek.py:137-176 | yields the frame built from the fetched messages, or the failure: unknown environment or a receive error |
| Viewer.QueueViewerApp.constructor | azure_queue_peek.py:71-107 | starts with an empty frame, the button disabled, nothing shown and nothing registered |
| Viewer.QueueViewerApp.DisplayTable | azure_queue_peek.py:212-240 | the new state and result are those `Display` specifies |
| Viewer.QueueViewerApp.DiscardFrame | azure_queue_peek.py:179-183 | empties the kept frame, disables the button and pops up "Failed to receive messages." |
| Viewer.QueueViewerApp.LoadMessages | azure_queue_peek.py:116-183 | a blank queue name only pops up "Please enter a queue name."; otherwise the new state and box are those `Load` specifies; the window stays consistent |
| Viewer.QueueViewerApp.ExecuteQuery | azure_queue_peek.py:199-210 | the new state and box are those `Query` specifies; the window stays consistent |
| Viewer.QueueViewerApp.ResetView | azure_queue_peek.py:242-246 | the new state and box are those `Reset` specifies; the window stays consistent |

## Left out

- Tk widgets and layout, and message-box rendering. A handler's message box is its `Dialog` result, and the entries' contents are the `Form` parameter.
- The Service Bus SDK. The client, the receiver context managers and `peek_messages` are replaced by the ordered-queue `Namespace`. Any connection failure is `reachable == false`, a missing queue is `QueueNotFound`, and a transport error is a fault on a given peek call.
- The `print` of the error in `load_messages`: console output.
- Loading `appsettings.json` and the global connection table. The table is a parameter, and an environment missing from it is `UnknownEnvironment`.
- DuckDB. The SQL engine is an opaque `Engine` function of the registered frame and the query text. Its registration is the `azq` field.
- `tabulate` rendering. The output area is modelled as the display-copy table it shows, not its text grid.
- `export_to_excel`: file dialogs and file output.
- pandas `astype(str)` is approximated by `Tables.AsText`: integers print in decimal, timestamps as their text, a missing value as `None`. pandas' other dtypes (floats, `NaN`, `NaT`) are not modelled.
- Timestamps are opaque: the time-zone stripping of `enqueued_time_utc` is not modelled. Application-property keys and values are strings, not bytes, so `.decode()` is not modelled.
- `str(msg) if msg else ""`: a received message is always truthy, so the body is always its text.
- `str(msg.sequence_number) if msg.sequence_number else ""`: the broker assigns every message a sequence number, so a missing one cannot occur; only a sequence number of 0 gives `""`.
- Fetcher.Trace: the specification function has no contract of its own, because contracts on it made the proofs that unfold it too costly. `TraceCounts`, `TraceStarts`, `TracePages`, `TraceEnds` and `FetchedPrefix` state its properties.
- Viewer.ValidateDigits: accepts ASCII digits only; Python's `isdigit` also accepts other Unicode digits, which `int` may or may not parse.
- Concurrency and re-entrancy of Tk callbacks: each handler runs to completion on one `Form` snapshot.
