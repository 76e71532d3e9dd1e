# Presto enum types: casts and CLI display

This project models two pieces of Presto's support for user-defined enum types and proves properties about them.

**Enum value codec.** These are the SQL casts into an enum type and the lookups behind them.
- `EnumOperators` covers integer- and string-backed enums. It has the four lookups:
  - `stringEnumKeyLookup` and `integerEnumKeyLookup` go from a key to its value;
  - `stringEnumValueLookup` and `integerEnumValueLookup` check that a value belongs to the enum.
  `makeEnumCastFunctions` chooses which casts each enum kind gets.
- `EnumCast` covers `NumericEnumType`:
  - `varcharToEnum` and `integerToEnum`;
  - the SQL `CASE` body that `varcharToEnumCastFunction` builds, with one `WHEN` branch per key in key-set order.
- `NumericEnumType` is the enum type itself: its constructor, `getEnums` over the parsed definition file, `getObjectValue`, `isComparable` and `isOrderable`.

An enum's entries are a Java `Map` whose iteration order matters. The order fixes the `CASE` branches, the list `getEnums` returns and the key that `findFirst` picks. The model therefore represents the entries as an association list with distinct keys (`Entries.EntryMap`). `Entries.Get`, `Entries.ContainsValue` and `Entries.FirstKeyOf` model `Map.get`, `values().contains` and the filtered `findFirst` over `entrySet()`. A failed lookup is a `Result` failure carrying `PrestoException(INVALID_CAST_ARGUMENT, …)` with the message the source formats.

**CLI output handler.** `OutputHandler` takes the rows of a query result as they arrive and passes them to an output printer in batches.
- `processRow` rewrites each cell of an enum-typed column to `"<type>.<key>"`. It appends the row to the buffer and flushes once the buffer reaches 10 000 rows.
- `processRows` drives the statement client page by page. After each page it flushes when three seconds have passed since the buffer started.
- `close` flushes a final, complete batch and calls `finish()`, on its first call only.

`Cli.OutputHandler` is a class with the source's fields. The buffer is a `seq` that the methods reassign. The printer is modelled as the log of calls made on it (`printerCalls`). The statement client is a sequence of pages; each page carries its rows (or none), its columns, the clock reading taken while its rows are processed, and the reading taken by the elapsed-time check. `Column` (`Client.Column`) is the immutable record the output handler reads the enum entries from.

What is proved:
- every lookup's success condition, both ways, and its result and error;
- the key→value→key and value→key→value round trips;
- idempotence of the value lookups;
- the exact list of casts per enum kind;
- the structure of the generated `CASE` body: its first line and its last lines, one `WHEN` line per key in order and no other `WHEN` line;
- for the output handler:
  - the rows printed, followed by the buffer, are exactly the decoded rows in arrival order;
  - the buffer stays below 10 000 rows;
  - every batch is non-empty and at most 10 000 rows;
  - rows are cut into batches of exactly 10 000, and the remainder stays in the buffer;
  - bufferStart is reset only when a row arrives at an empty buffer;
  - after a page without a failing row, the buffer is flushed exactly when three seconds have passed since bufferStart;
  - only `close` produces a complete batch;
  - `finish` is called once, and only after `close`;
  - a row that fails to decode is not appended, and it stops the run.

## Model

| member | source | states |
|---|---|---|
| Entries.Get | presto-main/src/main/java/com/facebook/presto/type/EnumOperators.java:113 | `Map.get` returns a value exactly when the string is a key, and that value is the key's. |
| Entries.ContainsValue | presto-main/src/main/java/com/facebook/presto/type/EnumOperators.java:128 | `values().contains(v)` holds exactly when some entry has value `v`. |
| Entries.FirstKeyOf | presto-cli/src/main/java/com/facebook/presto/cli/OutputHandler.java:66-68 | The filtered `findFirst` over `entrySet()` finds a key exactly when some entry holds the value. The key it finds belongs to the first such entry in iteration order. |
| Entries.ValueKeyRoundTrip | presto-cli/src/main/java/com/facebook/presto/cli/OutputHandler.java:66-68 | The key found for a defined value maps back to that value. |
| Entries.KeyValueRoundTrip | presto-cli/src/main/java/com/facebook/presto/cli/OutputHandler.java:66-68 | When no two keys share a value, the value of a key leads back to that same key. |
| EnumOperators.MakeCastFunction | presto-main/src/main/java/com/facebook/presto/type/EnumOperators.java:64-80 | A cast from the given type to the enum's signature, implemented by the named lookup method. The recorded source type, return type and method name are exactly the arguments; the rest of the builder is left out. |
| EnumOperators.MakeEnumCastFunctions | presto-main/src/main/java/com/facebook/presto/type/EnumOperators.java:42-62 | An integer enum gets the value lookup from TINYINT, SMALLINT, INTEGER and BIGINT, then the key lookup from VARCHAR, in that order. No two of these start from the same type. A string enum gets the key lookup, then the value lookup, both from VARCHAR. Any other kind fails with GENERIC_INTERNAL_ERROR and "Unexpected enum type: <simple name>". |
| EnumOperators.StringEnumKeyLookup | presto-main/src/main/java/com/facebook/presto/type/EnumOperators.java:82-95 | Succeeds exactly when the input is a key, returning the string that key maps to. Otherwise fails with INVALID_CAST_ARGUMENT and "No key '<input>' in enum '<base>'". |
| EnumOperators.StringEnumValueLookup | presto-main/src/main/java/com/facebook/presto/type/EnumOperators.java:97-108 | Succeeds exactly when the input is one of the values, returning it unchanged. Otherwise fails with INVALID_CAST_ARGUMENT and "No value '<input>' in enum '<base>'". |
| EnumOperators.IntegerEnumKeyLookup | presto-main/src/main/java/com/facebook/presto/type/EnumOperators.java:110-123 | Succeeds exactly when the input is a key, returning the long that key maps to. Otherwise fails with INVALID_CAST_ARGUMENT and "No key '<input>' in enum '<base>'". |
| EnumOperators.IntegerEnumValueLookup | presto-main/src/main/java/com/facebook/presto/type/EnumOperators.java:125-136 | Succeeds exactly when the input is one of the values, returning it unchanged. Otherwise fails with INVALID_CAST_ARGUMENT and "No value '<decimal input>' in enum '<base>'". |
| EnumOperators.IntegerLookupRoundTrip | presto-main/src/main/java/com/facebook/presto/type/EnumOperators.java:110-136 | For every key, the value lookup of the key lookup's result succeeds and gives the same result. |
| EnumOperators.StringLookupRoundTrip | presto-main/src/main/java/com/facebook/presto/type/EnumOperators.java:82-108 | The same round trip for a string-backed enum. |
| EnumOperators.IntegerValueLookupIdempotent | presto-main/src/main/java/com/facebook/presto/type/EnumOperators.java:125-136 | Applying the integer value lookup to its own successful result gives the same result. |
| EnumOperators.StringValueLookupIdempotent | presto-main/src/main/java/com/facebook/presto/type/EnumOperators.java:97-108 | Applying the string value lookup to its own successful result gives the same result. |
| EnumCast.VarcharToEnum | presto-main/src/main/java/com/facebook/presto/type/EnumCast.java:82-95 | Succeeds exactly when the input is a key, returning its long. Otherwise fails with INVALID_CAST_ARGUMENT and "No key '<input>' in enum '<base>'". |
| EnumCast.IntegerToEnum | presto-main/src/main/java/com/facebook/presto/type/EnumCast.java:97-108 | Succeeds exactly when the input is one of the values, and then returns the input unchanged. Otherwise fails with INVALID_CAST_ARGUMENT and "No value '<decimal input>' in enum '<base>'". |
| EnumCast.VarcharThenIntegerRoundTrip | presto-main/src/main/java/com/facebook/presto/type/EnumCast.java:83-108 | For every key, the integer cast of the varchar cast's result succeeds and gives the same result. |
| EnumCast.IntegerToEnumIdempotent | presto-main/src/main/java/com/facebook/presto/type/EnumCast.java:98-108 | Applying the integer cast twice gives the result of applying it once. |
| EnumCast.VarcharToEnumCaseBody | presto-main/src/main/java/com/facebook/presto/type/EnumCast.java:46-53 | The loop over the key set builds exactly the header line, one WHEN line per entry in iteration order, the ELSE line, each followed by a newline, and then END. |
| EnumCast.CaseBodyFrame | presto-main/src/main/java/com/facebook/presto/type/EnumCast.java:47-53 | The body starts with "RETURN CASE input" and a newline. It ends with the ELSE FAIL line naming the display name, a newline and END. |
| EnumCast.CaseLinesIndex | presto-main/src/main/java/com/facebook/presto/type/EnumCast.java:47-52 | The body has one line per entry plus two. Line 0 is the header, line i+1 is the WHEN line of entry i, and the last is the ELSE line. |
| EnumCast.CaseLinesShape | presto-main/src/main/java/com/facebook/presto/type/EnumCast.java:47-52 | In addition to the positional facts, a line is a WHEN line exactly when it lies between the header and the ELSE line. |
| EnumCast.CaseBodySplits | presto-main/src/main/java/com/facebook/presto/type/EnumCast.java:46-53 | When no key and not the display name holds a newline, splitting the body at newlines gives exactly those lines followed by END, which is no WHEN line. So the text has one WHEN line per key and no other. |
| NumericEnumTypes.NewNumericEnumType | presto-common/src/main/java/com/facebook/presto/common/type/NumericEnumType.java:34-38 | The name becomes the signature base and the display name. The entries are stored exactly as given. |
| NumericEnumTypes.GetEnums | presto-common/src/main/java/com/facebook/presto/common/type/NumericEnumType.java:40-57 | A read failure becomes an Error wrapping it, and no list is returned. Otherwise the list holds one enum per top-level name in the data's order, each with that name's entries. |
| NumericEnumTypes.BuiltFromByName | presto-common/src/main/java/com/facebook/presto/common/type/NumericEnumType.java:47-52 | In the built list, a name is a name of the data exactly when some enum has it. That enum's entries are the data's for that name, and no two enums share a name. |
| NumericEnumTypes.GetObjectValue | presto-common/src/main/java/com/facebook/presto/common/type/NumericEnumType.java:59-67 | Returns null exactly at a null position, and otherwise the long stored there. |
| NumericEnumTypes.IsComparable | presto-common/src/main/java/com/facebook/presto/common/type/NumericEnumType.java:69-73 | Always false. |
| NumericEnumTypes.IsOrderable | presto-common/src/main/java/com/facebook/presto/common/type/NumericEnumType.java:75-79 | Always false. |
| Client.NewColumn | presto-client/src/main/java/com/facebook/presto/client/Column.java:54-87 | Succeeds exactly when name and type are not null. A null name fails with NullPointerException("name is null"); otherwise a null type fails with ("type is null"). On success the four getters return exactly the arguments, including a null signature or null metadata. |
| Client.ColumnOfSignature | presto-client/src/main/java/com/facebook/presto/client/Column.java:49-52 | Succeeds exactly when name and signature are not null. A null signature fails with a NullPointerException first, because `signature.toString()` runs before the name check. Otherwise a null name fails as in the JSON constructor. On success the type is the signature's text, the signature is wrapped in a ClientTypeSignature and the metadata is null. |
| Client.ColumnOfType | presto-client/src/main/java/com/facebook/presto/client/Column.java:39-47 | Succeeds exactly when name and type are not null. A null type fails with a NullPointerException first, because `type.getTypeSignature()` runs before the name check. Otherwise a null name fails as in the JSON constructor. On success the type is the signature's text, the signature is wrapped, and the metadata is the type's. |
| Cli.DecodeRow | presto-cli/src/main/java/com/facebook/presto/cli/OutputHandler.java:60-74 | The zip/map/collect pipeline of processRow. A decoded row has min(cells, columns) cells. A failure is always the NoSuchElementException("No value present") of `key.get()`. DecodeRowZips and DecodeRowFirstFailure state the rest: each cell decoded at its position, and the first failing cell's error. |
| Cli.DecodeCell | presto-cli/src/main/java/com/facebook/presto/cli/OutputHandler.java:61-73 | A cell of a column without enum entries passes unchanged. A cell of an enum column decodes exactly when it holds one of the values. Otherwise it fails with NoSuchElementException("No value present"). |
| Cli.DecodeCellFirstKey | presto-cli/src/main/java/com/facebook/presto/cli/OutputHandler.java:66-69 | A decoded enum cell is "<type>.<key>" for the first entry, in iteration order, whose value the cell holds. |
| Cli.DecodedCellMapsBack | presto-cli/src/main/java/com/facebook/presto/cli/OutputHandler.java:64-69 | The key a decoded enum cell names maps back to the cell's value. |
| Cli.KeyValueDecodesToKey | presto-cli/src/main/java/com/facebook/presto/cli/OutputHandler.java:64-69 | When no two keys share a value, the value of a key decodes to "<type>.<that key>". |
| Cli.DecodeRowZips | presto-cli/src/main/java/com/facebook/presto/cli/OutputHandler.java:60-74 | A row decodes exactly when every cell that has a column decodes. The result then has min(cells, columns) cells, each the decoded cell at its position. |
| Cli.DecodeRowFirstFailure | presto-cli/src/main/java/com/facebook/presto/cli/OutputHandler.java:60-74 | A failing row fails with the error of its first cell that does not decode. Every cell before that one decodes. |
| Cli.PlainRowUnchanged | presto-cli/src/main/java/com/facebook/presto/cli/OutputHandler.java:71-73 | A row whose columns carry no enum entries decodes to itself, cut to the number of columns. |
| Cli.MoodExample | presto-cli/src/main/java/com/facebook/presto/cli/OutputHandler.java:60-74 | With Mood {HAPPY: 0, SAD: 1}, the cell 1 decodes to "Mood.SAD", and the cell 2 fails the row with "No value present". |
| Cli.DecodeRows | presto-cli/src/main/java/com/facebook/presto/cli/OutputHandler.java:98-100 | The inner loop of processRows as a value: the rows decoded, up to the first row that fails, and that failure. It decodes at most as many rows as it gets, all of them when none fails, and its failure is "No value present". DecodeRowsPrefix states which rows these are. |
| Cli.DecodeRowsPrefix | presto-cli/src/main/java/com/facebook/presto/cli/OutputHandler.java:98-100 | The inner loop delivers the decoded rows of a prefix of the page, in order; without a failure, the prefix is the whole page. A failure is that of the row right after the prefix. |
| Cli.DecodeRowsStopsAtFailure | presto-cli/src/main/java/com/facebook/presto/cli/OutputHandler.java:98-100 | Once a row has failed, later rows change nothing. |
| Cli.DecodePages | presto-cli/src/main/java/com/facebook/presto/cli/OutputHandler.java:95-108 | The outer loop of processRows as a value: the rows of each page in turn, up to the first failing row, and that failure, which is "No value present". RunPagesDelivered ties it to the handler's state, and DecodePagesStopsAtFailure shows that later pages are ignored. |
| Cli.DecodePagesStopsAtFailure | presto-cli/src/main/java/com/facebook/presto/cli/OutputHandler.java:95-108 | Once a row of one page has failed, pages appended after the run change nothing in the decoding. |
| Cli.AfterRowsDelivered | presto-cli/src/main/java/com/facebook/presto/cli/OutputHandler.java:56-79 | Taking decoded rows one at a time adds exactly those rows, in order, to the rows printed followed by the buffer. Every printer call it adds is a non-complete batch. |
| Cli.AfterRowsBatches | presto-cli/src/main/java/com/facebook/presto/cli/OutputHandler.java:76-79 | Starting below 10 000 rows, the buffer's rows and the rows taken are cut into batches of exactly 10 000 rows, none complete, one per full 10 000. The remainder, (buffer + rows) mod 10 000, stays in the buffer. |
| Cli.CutSnoc | presto-cli/src/main/java/com/facebook/presto/cli/OutputHandler.java:76-79 | One more row either joins the remainder of the cut, or completes it into exactly one more batch of 10 000 rows after the others, leaving nothing over. |
| Cli.AfterRowsCut | presto-cli/src/main/java/com/facebook/presto/cli/OutputHandler.java:56-79 | Starting below 10 000 rows, the printer calls added are exactly Batches of the old buffer followed by the rows: consecutive slices of 10 000 rows, front to back, none complete. The buffer left is exactly their Remainder. |
| Cli.AfterRowsStart | presto-cli/src/main/java/com/facebook/presto/cli/OutputHandler.java:56-58 | bufferStart afterwards is either the clock or its old value. It is the clock when the buffer was empty and a row came. It is unchanged when the buffer held rows and never reached 10 000. |
| Cli.RowsStateDelivered | presto-cli/src/main/java/com/facebook/presto/cli/OutputHandler.java:97-101 | The inner loop over a page's rows hands over exactly the rows that decoded, in order, and prints only non-complete batches. A failing row still starts the clock of an empty buffer. |
| Cli.RowsStateCut | presto-cli/src/main/java/com/facebook/presto/cli/OutputHandler.java:56-101 | After the inner loop over a page, starting below 10 000 rows, the printer calls added are exactly Batches of the old buffer followed by the decoded rows, and the buffer is their Remainder. bufferStart is the clock or its old value, and it is the clock when the buffer was empty and the page had a row, even when that row failed. |
| Cli.SlowPageFlushes | presto-cli/src/main/java/com/facebook/presto/cli/OutputHandler.java:95-105 | When a page's first row starts an empty buffer and the time check runs MAX_BUFFER_TIME or more after that row's reading, the page is flushed (not complete) at its own end and the buffer is empty. |
| Cli.PageStepDelivered | presto-cli/src/main/java/com/facebook/presto/cli/OutputHandler.java:96-105 | One iteration of the outer loop, including its time flush, hands over exactly the page's decoded rows and prints only non-complete batches. |
| Cli.RunPagesDelivered | presto-cli/src/main/java/com/facebook/presto/cli/OutputHandler.java:92-109 | The whole run over the pages hands over exactly the decoded rows of all pages up to the first failure, and prints only non-complete batches. |
| Cli.RunPagesStopsAtFailure | presto-cli/src/main/java/com/facebook/presto/cli/OutputHandler.java:95-108 | Once a row of one page has failed, pages appended after the run leave the handler's state unchanged. |
| Cli.OutputHandler.constructor | presto-cli/src/main/java/com/facebook/presto/cli/OutputHandler.java:42-51 | A new handler is open, with an empty buffer and no printer calls. |
| Cli.OutputHandler.Flush | presto-cli/src/main/java/com/facebook/presto/cli/OutputHandler.java:111-118 | The new state is Flushed of the old one. A non-empty buffer is printed in one printRows(buffer, complete) call and then cleared; an empty buffer leads to no printer call. bufferStart, closed and the rows delivered are unchanged. |
| Cli.ProcessRowStep | presto-cli/src/main/java/com/facebook/presto/cli/OutputHandler.java:53-80 | On a state whose buffer is below 10 000 rows and on any decoding result: bufferStart is the clock exactly when the buffer was empty. A failed row leaves buffer and printer unchanged. A decoded row is handed over, and it is printed in a non-complete batch with the buffer when the buffer reaches 10 000 rows. The bound on the buffer and on the batches is kept, and finish is not called. |
| Cli.OutputHandler.ProcessRow | presto-cli/src/main/java/com/facebook/presto/cli/OutputHandler.java:53-80 | bufferStart is set to the clock exactly when the buffer was empty. A row that does not decode fails with its error; only that clock step happens, and the buffer and printer are unchanged. Otherwise the new state is Append of the decoded row: when the buffer reaches 10 000 rows it is printed (not complete) and cleared, and otherwise the row is appended. The buffer stays below 10 000 rows. |
| Cli.OutputHandler.Close | presto-cli/src/main/java/com/facebook/presto/cli/OutputHandler.java:82-90 | The first call flushes with complete set and calls finish. Later calls change nothing. finish is called once, because the handler is closed. |
| Cli.OutputHandler.ProcessPageRows | presto-cli/src/main/java/com/facebook/presto/cli/OutputHandler.java:97-101 | The page's rows are processed in order until one fails, and the outcome is the failure of DecodeRows. The printer calls added are exactly Batches of the old buffer followed by the decoded rows, and the buffer becomes their Remainder. bufferStart is the clock or its old value, and it is the clock when the buffer was empty and the page had a row. The new state is RowsState of the old one, and the rows delivered are exactly the decoded rows. |
| Cli.OutputHandler.ProcessPage | presto-cli/src/main/java/com/facebook/presto/cli/OutputHandler.java:96-105 | The new state is PageState of the old one. A page without data delivers nothing. A failing row ends the page before the time check. Otherwise, with t the state after the rows, bufferStart is t's start. When at least three seconds lie between it and the page's check reading, the state is t flushed (not complete); when less has passed, the state is t itself. |
| Cli.OutputHandler.ProcessRows | presto-cli/src/main/java/com/facebook/presto/cli/OutputHandler.java:92-109 | The pages are handled in order until a row fails. The new state is RunPages of the old state and the pages. The rows delivered are exactly DecodePages of the pages, and the outcome is its failure. Only non-complete batches are printed, and finish is not called. |
| Cli.CloseTwice | presto-cli/src/main/java/com/facebook/presto/cli/OutputHandler.java:82-90 | Closing a fresh handler twice makes exactly one call on the printer: finish. |
| BoxedIdentity.FirstIdenticalKey | presto-cli/src/main/java/com/facebook/presto/cli/OutputHandler.java:66-68 | The filtered findFirst as written, with `==` on boxes. It finds a key exactly when some entry's value is the same object as the cell, and the key is that of the first such entry. |
| BoxedIdentity.DecodeCellAsWritten | presto-cli/src/main/java/com/facebook/presto/cli/OutputHandler.java:61-73 | The per-cell step of processRow as written. A column without enum entries passes the cell unchanged. In an enum column the cell decodes exactly when some entry's value is the same object as the cell, and it fails with "No value present" otherwise. AsWrittenFailsOutsideCache and LargeValueCounterexample build on it. |
| BoxedIdentity.IdenticalKeyWhenCached | presto-cli/src/main/java/com/facebook/presto/cli/OutputHandler.java:66-68 | For cells within the boxed-value cache (-128 to 127), the reference comparison finds the same key as the value comparison. |
| BoxedIdentity.NoIdenticalKeyOutsideCache | presto-cli/src/main/java/com/facebook/presto/cli/OutputHandler.java:67 | Outside the cache no entry's value is the same object as the cell. |
| BoxedIdentity.AsWrittenAgreesWhenCached | presto-cli/src/main/java/com/facebook/presto/cli/OutputHandler.java:60-74 | On cached values the decoding as written equals Cli.DecodeCell. |
| BoxedIdentity.AsWrittenFailsOutsideCache | presto-cli/src/main/java/com/facebook/presto/cli/OutputHandler.java:66-69 | For an enum column, the decoding as written fails every long cell outside the cache with "No value present". |
| BoxedIdentity.LargeValueCounterexample | presto-cli/src/main/java/com/facebook/presto/cli/OutputHandler.java:66-69 | With Size {LARGE: 1000}, the cell 1000 should print as "Size.LARGE", but the decoding as written fails it. |

Each method of the class also states its exact new state as a value (`Cli.HandlerState`: buffer, printer calls, bufferStart).
- The value is given by reference functions that follow the source step by step: `Touch` (the clock), `Append` (add and flush at 10 000), `Flushed`, `AfterRows`, `RowsState`, `PageStep`/`PageState` (one page and its time flush) and `RunPages` (the whole loop).
- The lemmas about these functions state the batching, the clock and the hand-over. The batching is stated against `Batches` and `Remainder`, which cut the buffer followed by the new rows into slices of 10 000 rows, front to back.

The rows printed, followed by the buffer, are the ghost function `Cli.OutputHandler.Delivered()`. Every method of the class keeps `Valid()`:
- the buffer is below 10 000 rows;
- every printed batch is non-empty and at most 10 000 rows;
- finish has been called once if the handler is closed, and otherwise never.

## Left out

- Function registration (`makeCastFunction`, `integerToEnumCastFunction`, the `SqlInvokedFunction` built by `varcharToEnumCastFunction`): these are signature builders and method lookup by reflection. A cast is modelled only by its source type, its return type and the name of its lookup method.
- `EnumCast.VarcharToEnumCaseBody`: models the text before the final `String.format` call (EnumCast.java:61), which would re-read any `%` in a key or display name as a format directive. Keys and display names are taken to hold no `%`.
- Number formatting: `String.format` with `%d` uses the JVM's default locale, and that locale's zero digit decides which digits are printed. This matters in the error messages (EnumOperators.java:131, EnumCast.java:103) and in the `WHEN <key> THEN <n>` lines of the generated SQL (EnumCast.java:50). `Text.LongToString` assumes a default locale with ASCII digits, such as `en` or `ROOT`. Under a locale such as `ar` or `fa`, the source prints other digits.
- Type signature parsing: an enum's signature base and its display name are both its name.
- File reading in `getEnums`: the parsed file, or the message of the IOException raised while reading it, is an input. Presence of JSON nulls inside the data is not modelled.
- `Block` is a sequence of optional longs, and `Slice` is a plain string.
- The wall clock (`System.nanoTime`, `Duration`, `nanosSince`): each page carries two clock readings in nanoseconds. `now` is the reading of every `processRow` call on its rows, and `checkedAt` is the reading of the elapsed-time check at OutputHandler.java:103. So a page that starts an empty buffer can still be flushed at its own end (`Cli.SlowPageFlushes`). What is lost: the rows of one page share one reading, while the source reads the clock once per row. A buffer restarted after a size flush in the middle of a page therefore gets the page's reading, not a later one. The comparison is exact integer arithmetic, not `Duration`'s double. Readings are taken to be monotonic and never earlier than `bufferStart`. `nanosSince` builds a `Duration` from `System.nanoTime() - bufferStart`, and `Duration` rejects a negative span with an IllegalArgumentException. That exception is not modelled: a check reading below `bufferStart` counts as under 3 s, and no flush happens. Such a reading can occur when a page arrives before any row has set `bufferStart` from its initial 0 and `System.nanoTime` is negative.
- `AtomicBoolean closed`: a plain field, since the model is sequential.
- `StatementClient`: a sequence of pages. `isRunning` becomes "pages remain", and `advance` becomes "next page".
- The printer: a log of `printRows`/`finish` calls. Its IOException and the null check on it in the constructor are not modelled.
- `processRow` reads the enum entries from the column's metadata as a map under the key `"enumEntries"`. The source's `TypeMetadata` class declares only `typeKind` and a `Map<String, String>` of `enumValues`. The model gives `TypeMetadata` an optional field of long-valued entries, which is what the handler reads.
- Cells are only null, long and text. In a column without enum entries, any other JSON value would pass through unchanged, as a null, long or text cell does. In an enum column, every cell that is not a long equal to an entry value fails the row with "No value present" (OutputHandler.java:67, :69), and such values would too.
- Enum definitions with two keys sharing a value are not rejected at construction. The source checks nothing there, so the model stores them and proves the round trips only where values are distinct.
- The unused `com.sun.security.ntlm.Client` import in Column.java and the `javafx.util.Pair` used for zipping are incidental to the logic.
- `TypeMetadata.java` has no logic of its own and appears only as the `Client.TypeMetadata` datatype.
- Cli.OutputHandler.Flush: the printer receives `unmodifiableList(rowBuffer)`, a view of the buffer, which `rowBuffer.clear()` empties right after (OutputHandler.java:115-116). The model records the batch as a value, which is right only for a printer that has consumed the batch before `printRows` returns. A printer that keeps the view would later see it empty.
- Cli.CloseTwice: states idempotence of close for a fresh handler. `Cli.OutputHandler.Close` states it for every handler.

## Findings

| source | as written | input that shows it | evidently intended | confidence | as-written member | corrected member |
|---|---|---|---|---|---|---|
| presto-cli/src/main/java/com/facebook/presto/cli/OutputHandler.java:67 | `e.getValue() == value` compares two boxed numbers by reference. Boxes are shared only for values from -128 to 127. | An enum Size {LARGE: 1000} and a cell holding 1000: no entry is the same object, `key.get()` throws and the row fails. | Compare by value (`equals`), so that 1000 prints as `Size.LARGE`. | not executed; likely, assuming the decoded JSON number and the entry value are boxed independently | BoxedIdentity.LargeValueCounterexample | Cli.DecodeCell |
