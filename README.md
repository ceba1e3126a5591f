# stdout-mcp-server: the log relay core, in Dafny

stdout-mcp-server reads text that other programs write into a named pipe. It splits that text into lines and keeps the
newest 100 non-blank lines in memory, each stamped with the time it arrived. An MCP tool, `get-logs`, answers queries
over those lines. This project models the part of `src/index.ts` that carries state and logic. It proves what that
code guarantees.

- **Ingestion.** The stream's `data` handler appends each chunk to the pending text `buffer` and splits it on `"\n"`.
  The last fragment stays pending. Every completed line whose `trim()` is non-empty is stored as
  `[<toISOString()>] <line>`. The array `logStore` is cut back to `MAX_STORED_LOGS` (100) by `shift()` after each
  push.
- **Reader sessions.**
  - `startReading` is guarded against re-entry.
  - The `error` and `end` handlers make the reader idle.
  - The directory watcher's callback restarts reading only for the pipe's own base name, and only while idle.
- **The `get-logs` query.**
  - It copies the store.
  - It applies the case-insensitive text filter and the `since` filter, each only when its argument is truthy.
  - It returns `logs.slice(-lines).reverse()`.

The modules follow that structure:

- `Wrappers`: the `Option` type.
- `Js`: the JavaScript built-ins the code relies on, over `seq<char>` and `seq<T>`. These are `split`, `join`, `trim`,
  `toLowerCase`, `includes`, `indexOf`, `slice`, `filter` and `reverse`.
- `IsoTime`: `Date.prototype.toISOString` for a UTC date-time, and its reading back by `new Date(text).getTime()`.
- `LogStore`: the line splitting, which lines are stored and how they are formatted, and the bounded store.
- `Query`: the `get-logs` handler body, as a function of the store and the arguments.
- `Relay`: the class `Reader`. It holds `buffer`, `logStore` and the session flags (`currentStream` is set, and
  `isReading`). Its methods are the stream's event handlers, the watcher callback and the query.

## Where the code and its description differ

The model follows the code in each of these cases.

- **Result order.** The comment at `src/index.ts:179` says the reversal leaves the oldest entry first. The store is
  already oldest-first, so `slice(-lines).reverse()` returns the newest entry first. `Query.GetLogsShape` and
  `Query.NewestComesFirst` state the order the code produces.
- **What is stored.** The entry is built from the untrimmed line. `trim()` only decides whether the line is stored at
  all (`src/index.ts:88-89`).
- **Pending text across sessions.** `buffer` is declared once, outside `startReading` (`src/index.ts:68`). A new read
  session therefore continues from the previous session's unfinished line; nothing resets it.

## Model

| member | source | states |
|---|---|---|
| Js.Split | src/index.ts:84 | `split("\n")` always yields at least one piece, and no piece contains the separator |
| Js.JoinSplit | src/index.ts:84 | joining the pieces of a split with the separator gives back the text |
| Js.SplitPrefix | src/index.ts:84 | putting a separator-free prefix before a text extends the first piece of that text's split by the prefix, and leaves the other pieces as they are |
| Js.SplitJoin | src/index.ts:84 | splitting the join of separator-free pieces gives back exactly those pieces |
| Js.JoinIsTerminatedThenLast | src/index.ts:84-85 | the join of the pieces is every piece but the last, each followed by the separator, then the last piece |
| Js.TrimStart | src/index.ts:88 | removing leading white space never lengthens the text |
| Js.TrimEnd | src/index.ts:88 | removing trailing white space never lengthens the text |
| Js.TrimStartDrops | src/index.ts:88 | `trimStart` removes exactly a run of leading white space, and what remains is empty or starts with other text |
| Js.TrimEndDrops | src/index.ts:88 | `trimEnd` removes exactly a run of trailing white space, and what remains is empty or ends with other text |
| Js.TrimEmptyIff | src/index.ts:88 | `trim()` is empty exactly when every character is white space |
| Js.ToLower | src/index.ts:166 | lower-casing keeps the length |
| Js.ToLowerIdempotent | src/index.ts:166 | lower-casing twice is lower-casing once |
| Js.ToLowerAppend | src/index.ts:166 | lower-casing distributes over concatenation |
| Js.Includes | src/index.ts:166 | `includes` holds exactly when the needle occurs at some position of the text |
| Js.IncludesLower | src/index.ts:166 | a text that contains a needle still contains it when both are lower-cased |
| Js.IncludesInfix | src/index.ts:166 | a needle found in a middle part is found in the whole text |
| Js.IndexOf | src/index.ts:173 | `indexOf` is -1 exactly when the character is absent; otherwise the character is at that position and not before it |
| Js.IndexOfAt | src/index.ts:173 | a character at position k that does not occur before k is found at k |
| Js.SliceFromEnd | src/index.ts:180 | `slice(-n)` is the last `n` elements, or all of them when there are fewer; `n = 0` gives everything, since `-0` is `0`; a negative `n` drops the first `-n` |
| Js.ReverseSliceFromEnd | src/index.ts:180 | `slice(-n).reverse()` holds min(n, length) elements for `n > 0`, last element first; for `n = 0` it is the whole sequence reversed; for `n < 0` it is all but the first `-n`, reversed |
| Js.SliceIsRun | src/index.ts:180 | a slice is a contiguous run of the sequence starting at the resolved start, so it is a sub-multiset |
| Js.ReverseSliceWithin | src/index.ts:180 | a reversed slice is a sub-multiset of the sequence, and each of its elements is in the sequence |
| Js.Filter | src/index.ts:165-171 | `filter` keeps only elements that pass, from the sequence, and keeps every element that passes |
| Js.FilterSubMultiset | src/index.ts:165-171 | `filter` never adds to any element's count |
| Js.FilterAppend | src/index.ts:165-171 | filtering a concatenation is the concatenation of the filtered parts, so order is kept |
| Js.FilterAgree | src/index.ts:165-171 | two tests that agree on every element give the same filtered result |
| Js.FilterKeepsAll | src/index.ts:165-171 | a test every element passes keeps the whole sequence |
| Js.FilterTwice | src/index.ts:165-171 | filtering by one test and then by another is filtering once by both |
| Js.FilterSnoc | src/index.ts:165-171 | filtering a sequence extended by one element extends the result by that element exactly when it passes |
| Js.Reverse | src/index.ts:180 | `reverse` keeps the length and puts element k at position length-1-k |
| Js.ReversePermutes | src/index.ts:180 | `reverse` is a permutation |
| IsoTime.DaysInMonth | src/index.ts:89 | every month has between 28 and 31 days |
| IsoTime.Digits | src/index.ts:89 | a zero-padded field has exactly its width and consists of digits |
| IsoTime.ReadDigitsOfDigits | src/index.ts:172-174 | reading a zero-padded field gives back its value |
| IsoTime.DateText | src/index.ts:89 | the date part `YYYY-MM-DD` is 10 characters |
| IsoTime.TimeText | src/index.ts:89 | the time part `HH:mm:ss.sss` is 12 characters |
| IsoTime.ToIsoString | src/index.ts:89 | `toISOString()` is 24 characters |
| IsoTime.DateTextFields | src/index.ts:89 | where year, month and day sit in the date part, and every other character is `-` |
| IsoTime.TimeTextFields | src/index.ts:89 | where hour, minute, second and millisecond sit in the time part, and every other character is `:` or `.` |
| IsoTime.IsoStringParts | src/index.ts:89 | the rendering is the date part, `T`, the time part, then `Z` |
| IsoTime.IsoStringHasNoBracket | src/index.ts:89 | a rendering never contains `]`, so the first `]` of an entry closes its timestamp |
| IsoTime.ParseToIso | src/index.ts:172-174 | parsing what `toISOString` rendered gives back the same date-time |
| IsoTime.ToIsoStringInjective | src/index.ts:89 | distinct date-times never render to the same text |
| IsoTime.GetTimeOfIso | src/index.ts:172-174 | `new Date(d.toISOString()).getTime()` is the epoch milliseconds of d |
| IsoTime.EpochIsZero | src/index.ts:172-174 | 1970-01-01T00:00:00.000Z is epoch millisecond 0 |
| IsoTime.ParseIso | src/index.ts:172-174 | a text that parses names a valid calendar date-time |
| IsoTime.NextDayInMonth | src/index.ts:172-174 | the next day of the same month is exactly one day later |
| IsoTime.NextMonth | src/index.ts:172-174 | the first of the next month is exactly one day after the last day of a month, including the end of February in leap and common years |
| IsoTime.NextYear | src/index.ts:172-174 | New Year's Day is exactly one day after December 31 |
| IsoTime.MarchYearLength | src/index.ts:172-174 | the year from March 1 to the end of February has 366 days when that February has a leap day, and 365 otherwise |
| IsoTime.LeapInEra | src/index.ts:172-174 | within a 400-year era, a year is a leap year exactly when its number in the era is a multiple of 4 but not of 100, or is 0 |
| IsoTime.TimeOfDay | src/index.ts:172-174 | the milliseconds since midnight are less than one day |
| IsoTime.LaterDayIsLater | src/index.ts:172-174 | any time on a later day has a larger `getTime()` |
| LogStore.CompletedThenPending | src/index.ts:81-85 | old pending text plus the chunk is each completed line followed by `"\n"`, then the new pending text; neither contains `"\n"` |
| LogStore.NoNewlineStaysPending | src/index.ts:81-85 | text without `"\n"` completes no line and stays pending whole |
| LogStore.StorableIff | src/index.ts:88 | a line is stored exactly when it has a character that is not white space |
| LogStore.Stored | src/index.ts:87-90 | a run of completed lines adds at most one entry per line |
| LogStore.StoredPrefix | src/index.ts:87-90 | one more line adds its formatted entry exactly when it is storable |
| LogStore.StoredIsFormattedFilter | src/index.ts:87-90 | the entries are exactly the storable lines, in input order, each formatted `[timestamp] line` with the line untrimmed |
| LogStore.Newest | src/index.ts:93-95 | the newest n elements are a suffix of length min(n, size) |
| LogStore.PushKeepsNewest | src/index.ts:90-95 | a push followed by the conditional `shift()` keeps the newest 100 of the old store and the new entry |
| LogStore.PushAllSnoc | src/index.ts:87-95 | pushing a run of entries and then one more is pushing the longer run |
| LogStore.StoreOneMore | src/index.ts:87-95 | one more completed line pushes its entry exactly when the line is storable, and otherwise leaves the store as it was |
| LogStore.PushAllKeepsNewest | src/index.ts:87-95 | pushing entries one by one into a store within capacity leaves exactly the newest 100 of the old store followed by the entries |
| LogStore.PushEvictsOnlyOldest | src/index.ts:90-95 | one push keeps the store within 100, makes the new entry the newest, and evicts at most the oldest entry, keeping the others' order |
| LogStore.NewestTwice | src/index.ts:80-98 | storing across two chunks keeps what storing in one chunk keeps, so order holds across chunks |
| LogStore.StoreHoldsLastHundred | src/index.ts:90-95 | after more than 100 entries have gone into an empty store, it holds exactly the last 100 of them |
| LogStore.BracketLayout | src/index.ts:89 | in `[inner] rest` with a 24-character `inner`, `[` is at 0, `]` at 25 and the space at 26, and `inner` fills 1 to 25 |
| LogStore.StampOf | src/index.ts:172-174 | the stamp read back from an entry is a valid date-time |
| LogStore.FormatEntryIsEntry | src/index.ts:89 | a formatted line has the entry shape, and its stamp reads back as the time it was formatted at |
| LogStore.StoredAreEntries | src/index.ts:87-90 | every entry a chunk adds has the entry shape and carries the chunk's time |
| LogStore.NewestOfEntries | src/index.ts:93-95 | eviction keeps only entries |
| LogStore.StoringKeepsEntries | src/index.ts:87-95 | storing a chunk into a store of entries leaves a store of entries |
| Query.Selected | src/index.ts:162-177 | the two filter steps in a row are one `filter` of the store by "passes each filter whose argument is truthy"; so the store's order and repeated entries are kept |
| Query.SelectedWithin | src/index.ts:162-177 | the filtered copy is a sub-multiset of the store; an entry is in it exactly when it is in the store and passes each filter whose argument is truthy |
| Query.SelectedWithoutFilters | src/index.ts:164-170 | an absent or empty `filter` and an absent or zero `since` select the whole store in order |
| Query.GetLogsShape | src/index.ts:179-180 | for `lines > 0`, the result is the last min(lines, count) selected entries, newest first; `lines = 0` gives the whole selection reversed; a negative `lines` drops that many of the oldest |
| Query.GetLogsFromStore | src/index.ts:160-180 | the result is a sub-multiset of the store, and each of its entries passes the filters that apply |
| Query.NewestComesFirst | src/index.ts:179-180 | two entries without filters come back newest first |
| Query.BracketedText | src/index.ts:173 | `slice(1, indexOf("]"))` of `[inner] rest` is `inner` when `inner` has no `]` |
| Query.EntryTimestampOfStored | src/index.ts:173 | the timestamp text cut from a stored entry is the rendering it was stored with |
| Query.EntryTimeOfStored | src/index.ts:172-174 | the time read back from a stored entry is the epoch milliseconds of its storing time |
| Query.NewerThanIff | src/index.ts:170-176 | a stored entry passes `since` exactly when it was stored after `since` |
| Query.FilterSeesMessage | src/index.ts:164-168 | a stored entry matches every filter its line contains, in any letter case |
| Query.EntryTimeOfEntry | src/index.ts:172-174 | the time the `since` step reads from an entry is that entry's own stamp |
| Query.SinceOnEntries | src/index.ts:170-176 | on a store of entries, the `since` step keeps an entry exactly when its stamp is later than `since` |
| Query.GetLogsOfEntries | src/index.ts:160-180 | on a store of entries the answer is made of entries, and with a truthy `since` each of them was stamped after `since` |
| Query.FilterSeesTimestamp | src/index.ts:164-168 | the filter also matches text of the `[timestamp] ` prefix, whatever the line says |
| Relay.Basename | src/index.ts:127 | `basename` is a separator-free suffix of the path that follows a separator or starts the path |
| Relay.BasenameOfSegment | src/index.ts:127 | the base name of a directory path ending in a separator, followed by a separator-free name, is that name |
| Relay.PipeBasename | src/index.ts:16-19 | on POSIX and on Windows the pipe's base name is `stdout_pipe` |
| Relay.Reader.constructor | src/index.ts:68-70 | the reader starts with nothing pending, nothing stored, no stream and not reading |
| Relay.Reader.StartReading | src/index.ts:72-77 | while a stream is open or a session is reading, nothing changes; otherwise one stream is opened and the reader reads, or, when creation fails, it stays idle |
| Relay.Reader.OnData | src/index.ts:80-98 | the new pending text is the last fragment; old pending plus chunk is the completed lines, each with `"\n"`, plus the new pending; the store becomes the newest 100 of the old store followed by the chunk's entries; the store stays within 100 and holds only stamped entries |
| Relay.Reader.StoreLines | src/index.ts:87-97 | the loop pushes each storable line's entry in order, cutting back after each push, and keeps the store within 100 |
| Relay.Reader.OnError | src/index.ts:100-108 | for `ENOENT` and any other error, the stream is cleared and the reader is idle |
| Relay.Reader.OnEnd | src/index.ts:110-117 | at the end of the stream, it is cleared and the reader is idle; nothing reopens it |
| Relay.Reader.OnWatchEvent | src/index.ts:126-131 | reading starts only for an event on the pipe's base name while idle; any other event changes nothing, so at most one session is open |
| Relay.Reader.GetLogs | src/index.ts:160-180 | the handler answers from the store and modifies nothing; every entry it returns is stamped, and with a truthy `since` every one was stamped after `since` |
| Relay.TwoLinesAndRest | src/index.ts:80-98 | `"ab"` then `"c\ndef\ngh"` completes and stores `abc` and `def` and leaves `gh` pending |
| Relay.TwoLinesSplit | src/index.ts:81-85 | `"abc\ndef\ngh"` completes the lines `abc` and `def` and leaves `gh` pending |
| Relay.TwoLinesStored | src/index.ts:87-90 | both `abc` and `def` are stored, in that order |

## Left out

- Relay.Reader.OnData: takes one clock reading per chunk. The source calls `new Date()` once per stored line, so
  entries of one chunk could carry different times; the clock is an input here because it is not part of the logic.
- Relay.Reader.StartReading: `createReadStream` is a parameter that says whether the stream was created. Opening the
  file, the stream's events arriving asynchronously and the `catch` at `src/index.ts:118-122` are represented only by
  that flag.
- Events from a stream that has already been replaced are not modelled. Each handler call acts on the reader's one
  current session.
- Js.ToLower: lower-cases ASCII letters only. Full Unicode case mapping is out of scope.
- IsoTime.ParseIso: accepts only the exact `toISOString` form, with years 0 to 9999. `new Date` accepts many other
  forms; every other text is treated as an invalid date (`NaN`). The reader's invariant `Relay.Reader.Valid` includes
  `LogStore.AllEntries`, so every entry in the store has this form. `Query.SinceOnEntries` and `Relay.Reader.GetLogs`
  state what the `since` step does on such a store.
- Query.GetLogs: `lines` and `since` are integers. Fractional, `NaN` and infinite numbers are not modelled.
- Relay.Basename: does not strip trailing separators or drive letters as Node's `path.basename` does. The pipe names
  need neither.
- `createNamedPipe` (`fs.access`, then `mkfifo` or PowerShell through `exec`) is foreign process I/O. Only its path
  constants are modelled.
- `fs.watch`, `createReadStream` and `process.exit` are operating-system I/O. Their callbacks are the `Reader`'s
  methods.
- The MCP server, the tool registration, the zod schema with its default `lines = 50`, the joining of the result with
  `"\n"` into the response, `main` and the stdio transport are protocol plumbing over an external SDK.
- The `try`/`catch` around the query body. The modelled body cannot throw.
- `console` logging is output only and carries no state.
- `eslint.config.js` is lint configuration.
