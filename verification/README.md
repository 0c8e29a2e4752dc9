# sqlx-cloudflare, verified

A Dafny model of the two Cloudflare drivers for sqlx, D1 and Durable Object storage, and of the core they
share, with proofs of what they promise: that a batch is atomic, that a statement reports its own counts, that
a value comes back as it was bound, that the two ways of reading a D1 row agree, and what an error message is
taken to mean. `dafny verify dfyconfig.toml` checks everything.

The backends are not modelled but quantified over. `Storage.Backend` is any storage whatever: a statement is a
cursor that takes effect row by row as it is stepped, may fail while opened, part way or at the end, and may set
the two counters SQLite keeps. `DoTransaction.Platform` is any outcome of `Storage::transaction`, giving up on
a callback part way included, and `D1Batch.Server` any D1. What is assumed of them is stated in those types and is
no more than this: a Durable Object transaction puts the tables back whenever it does not commit, and leaves the
counters; D1 applies a batch whole or not at all; the query `SELECT changes(), last_insert_rowid()` reads the
counters, or fails, and changes nothing; and a JavaScript string is read with U+FFFD for an unpaired surrogate.

| file | what it models |
|---|---|
| `Powers`, `Doubles` | IEEE 754 doubles and singles: finite values, both zeros, infinities, NaN, and rounding to nearest even |
| `Unicode` | UTF-16 strings on the JavaScript side, UTF-8 bytes on the Rust side |
| `Values`, `JsBoundary`, `Types`, `Arguments` | values, the 2^53 - 1 bound, both conversions, the typed mapping, binding |
| `Text`, `ErrorText` | the result code and kind read from a message, and the message built from a thrown error |
| `Rows`, `Reading`, `Results` | rows and columns, lookup by name, accumulated results |
| `Storage`, `DoDriver`, `DoStatements`, `DoLaws` | Durable Object storage; a statement as a function of the database, as methods on the storage object, and the laws of both |
| `DoTransaction`, `DoBatch`, `DoHistory`, `DoProtocol` | transactions, batches, whole histories of a connection, and a transaction step by step |
| `Queries`, `D1Objects`, `D1Driver`, `D1Agreement`, `D1Batch` | D1's arrays, objects and batches |
| `EndToEnd` | a value from its bind to its read, through all of the Durable Object driver |

Each method that changes state is specified by a function of the state before (`DoStatements.Fetch` by
`DoDriver.Fetch`, `DoBatch.RunBatch` by `DoBatch.Batch`, and so on), and the lemmas are about those functions.
`DoLaws.Plain` and `DoBatch.PlainAll` are the reference the driver is measured against: a statement simply run,
with no loop, no limit and no counters' query.

## Where the code and its documentation part

The model follows the code. In these places a comment promises more, and the lemma named gives the exact
condition under which it is right.

- `add_argument` leaves the values as they were when encoding fails, only if the encoder kept them:
  `Arguments.BindIsOnePlaceholder`, `Arguments.APoppingEncoderLosesAValue`.
- A fetch steps its cursor to the end, whatever its limit, exactly when every column name is a string and every wanted
  row can be converted. Otherwise the cursor is left before its first row, or just after the first such row:
  `DoStatements.ReadCursor`, `DoLaws.CursorIsLeftExactly`, `DoLaws.WantedRowsReadExactly`.
- An `execute` never reports the write before it, if a statement that writes rows also sets `changes()`:
  `DoLaws.CountIsOwnExactly`, `DoLaws.AnOlderCountIsReported`. The rowid of a
  statement that wrote is its own exactly when it inserted; otherwise it is that of the connection's last insert, even one that was rolled back:
  `DoHistory.NoStaleCounts`, `DoHistory.AnUndoneRowidIsReported`, `DoHistory.AnInsertThatNeverWasIsReported`.
- A D1 batch that fails has applied nothing, unless D1 did apply it and returned no list, or threw when asked for a
  statement's rows or report, or put a value that cannot be converted in some row:
  `D1Batch.ErrorsWithEverythingApplied`, `D1Batch.OneUnreadableValueIsEnough`, `JsBoundary.ConvertibleExactly`.
- The kind of an error is its extended code's only for the five mapped codes; for any other the words of the whole
  message decide, the summary's included: `ErrorText.CombinedKind`, `ErrorText.CauseKeepsItsKind`,
  `ErrorText.SummaryCanOverrideTheKind`.
- The fallback code is the last whole word that starts with `SQLITE_` exactly when no code character stands before the
  last `SQLITE_`; otherwise it is the tail of a longer word: `ErrorText.FallbackIsAWordExactly`,
  `ErrorText.FallbackCanCutAWord`.

## Model

| member | source | states |
|---|---|---|
| `Doubles.RoundIsNearestEven` | crates/sqlx-cloudflare-core/src/value.rs:171-177 | an integer or double that is cast goes to the nearest value of the format, and to the even one of two as near, against every value of the format |
| `Doubles.RoundIsTheKeptMultiple` | crates/sqlx-cloudflare-core/src/value.rs:171-177 | the cast is that nearest value exactly, zero when it rounds to zero and infinite exactly when it overflows the format |
| `Doubles.CastsRoundCorrectly` | crates/sqlx-cloudflare-core/src/types.rs:131-137 | `as f64` of any integer and `as f32` of any double are correct rounding: the nearest value of full precision, ties to even, infinite when that overflows |
| `Doubles.FormatsAreInterchange` | crates/sqlx-cloudflare-core/src/value.rs:171-177 | the two formats are those of 64 and 32 bits in section 3.6 of IEEE 754-2019 |
| `Doubles.FiniteIsUnique` | crates/sqlx-cloudflare-core/src/value.rs:65-80 | equal doubles have one representation here, so equality of values is equality of numbers |
| `Values.SafeIntegerIsExactness` | crates/sqlx-cloudflare-core/src/value.rs:82-105 | `safe_integer` accepts an `i64` exactly when casting it to a double and reading it back gives it again |
| `Values.SafeIntegersAreDistinct` | crates/sqlx-cloudflare-core/src/value.rs:86-91 | no two accepted integers are one JavaScript number |
| `Values.BeyondTheBound` | crates/sqlx-cloudflare-core/src/value.rs:120-126 | every other `i64` is refused, and its rounded double is finite, whole, beyond the bound, and reads as a `Real` from which `int` fails |
| `Values.BoundIsTight` | crates/sqlx-cloudflare-core/src/value.rs:82-84 | the bound cannot be raised: the next two integers are one double |
| `Values.CountsCrossExactly` | crates/sqlx-cloudflare-do/src/js.rs:139-146 | a count of rows crosses exactly while safe, and is read as zero only when it is zero |
| `Values.RowidsCrossExactly` | crates/sqlx-cloudflare-d1/src/js.rs:215-221 | a safe rowid crosses exactly |
| `Values.CastsTruncate` | crates/sqlx-cloudflare-d1/src/js.rs:206-221 | for every double, `as u64` and `as i64` drop the fraction and go to the nearest bound, and to zero for NaN |
| `JsBoundary.BindableExactly` | crates/sqlx-cloudflare-core/src/js.rs:28-47 | `to_js` fails for an integer beyond the bound and for nothing else |
| `JsBoundary.SentExactly` | crates/sqlx-cloudflare-core/src/js.rs:28-47 | what each value is sent as: null, the double that is the integer, the paired units that read as the text, a buffer of the bytes |
| `JsBoundary.BoundaryRoundTrip` | crates/sqlx-cloudflare-core/src/js.rs:28-75 | a bindable value reads back settled, the same exactly when it is in normal form, and a second trip changes nothing |
| `JsBoundary.ReadValuesRebind` | crates/sqlx-cloudflare-core/src/js.rs:54-75 | whatever is read is in normal form, can be bound again, and comes back unchanged |
| `JsBoundary.ReadExactly` | crates/sqlx-cloudflare-core/src/js.rs:54-96 | which JavaScript values are read as each value, and which error any other gives |
| `JsBoundary.ByteArraysRead` | crates/sqlx-cloudflare-core/src/js.rs:67-96 | an array of numbers is a BLOB exactly when all its elements are bytes, and then of those bytes |
| `JsBoundary.ConvertibleExactly` | crates/sqlx-cloudflare-core/src/js.rs:54-96 | a JavaScript value can be read exactly when it is of a kind listed, and if an array lists nothing but bytes |
| `JsBoundary.ArgumentsInOrder` | crates/sqlx-cloudflare-core/src/js.rs:14-21 | the JavaScript arguments are the converted values in placeholder order, or none if any cannot be bound |
| `JsBoundary.ArgumentsExactly` | crates/sqlx-cloudflare-core/src/js.rs:14-21 | the arguments are sent in order, or the first integer beyond the bound is the error |
| `Unicode.Utf16RoundTrip` | crates/sqlx-cloudflare-core/src/js.rs:42 | every Rust string survives being a JavaScript string |
| `Unicode.UnitsOfAString` | crates/sqlx-cloudflare-core/src/js.rs:42 | a character is one unit, or the surrogate pair that stands for it |
| `Unicode.ReadWithoutLossExactly` | crates/sqlx-cloudflare-core/src/js.rs:59-60 | a JavaScript string is read without loss exactly when its surrogates are paired |
| `Unicode.LossIsMarked` | crates/sqlx-cloudflare-core/src/js.rs:59-60 | any other is read with a U+FFFD in it |
| `Unicode.ReadInParts` | crates/sqlx-cloudflare-core/src/js.rs:59-60 | it is read part by part, cut anywhere but within a pair |
| `Unicode.OnePartRead` | crates/sqlx-cloudflare-core/src/js.rs:59-60 | and each part as its character, an unpaired surrogate as U+FFFD |
| `Unicode.StringBytesExactly` | crates/sqlx-cloudflare-core/src/value.rs:196-204 | the bytes of a text are its UTF-8 form by section 3 of RFC 3629, and no other bytes are |
| `Types.EncodesExactly` | crates/sqlx-cloudflare-core/src/types.rs:42-138 | encoding fails only for an `i64` beyond the bound, and otherwise pushes one value or reports a NULL |
| `Types.StoredAsDeclared` | crates/sqlx-cloudflare-core/src/types.rs:42-138 | a value is stored in the class its type declares, a `bool` as 0 or 1, and decodes again unchanged before it is sent |
| `Types.NarrowIntegersAreSafe` | crates/sqlx-cloudflare-core/src/types.rs:62-64 | an integer type holds what its width does, and every one narrower than `i64` only safe integers |
| `Types.TypedRoundTrip` | crates/sqlx-cloudflare-core/src/types.rs:42-276 | every value of every type that encodes comes back through JavaScript, passes the type check, and decodes to itself up to the sign of zero |
| `Types.CompatibleIsWhatDecodes` | crates/sqlx-cloudflare-core/src/value.rs:146-205 | the accessors and `compatible` agree: what decodes is compatible, and what is compatible decodes unless an integer does not fit |
| `Types.DecodesExactly` | crates/sqlx-cloudflare-core/src/types.rs:55-205 | for every type and stored value: what it decodes to, a `bool` true for any integer but zero, or which error |
| `Types.NullDecodesOnlyIntoOption` | crates/sqlx-cloudflare-do/src/types.rs:105-110 | NULL decodes into an `Option` and into nothing else |
| `Types.WideIntegersDecodeAsNoInteger` | crates/sqlx-cloudflare-do/src/types.rs:24-28 | a stored integer beyond the bound decodes as no integer type and not as `bool`, but as `f64` |
| `Types.TextReadAsBytes` | crates/sqlx-cloudflare-core/src/types.rs:183-193 | text read as bytes is its UTF-8, which no other text has |
| `Arguments.ArgumentList.Add` | crates/sqlx-cloudflare-core/src/arguments.rs:16-40 | the list after a bind, and its answer, are `Bind` of the list before |
| `Arguments.ArgumentList.Encode` | crates/sqlx-cloudflare-core/src/types.rs:48-53 | a value of a driver type is pushed after what is there |
| `Arguments.BindIsOnePlaceholder` | crates/sqlx-cloudflare-core/src/arguments.rs:8-15 | a bind is one placeholder's worth, and leaves no trace if it fails, exactly when the encoder kept what was there and pushed one value for a value |
| `Arguments.APoppingEncoderLosesAValue` | crates/sqlx-cloudflare-core/src/arguments.rs:31-36 | an encoder that pops and then fails loses a value bound before |
| `Arguments.PlaceholdersStayAligned` | crates/sqlx-cloudflare-core/src/arguments.rs:16-40 | after any run of binds the list has one value for each that succeeded, in order |
| `Arguments.TypedBindsStayAligned` | crates/sqlx-cloudflare-d1/src/arguments.rs:48-86 | the drivers' own types always take one placeholder, and a refused one none |
| `ErrorText.CodeIsABlock` | crates/sqlx-cloudflare-core/src/error.rs:64-79 | an extended code is a whole word, the one after the last marker; the fallback is the block that starts at the last `SQLITE_` |
| `ErrorText.FallbackIsAWordExactly` | crates/sqlx-cloudflare-core/src/error.rs:64-65 | over every message, the fallback reads the last whole word that starts with `SQLITE_` exactly when no code character stands before it, and otherwise what it reads is a whole word only if the same word stands whole further left |
| `ErrorText.NoCodeExactly` | crates/sqlx-cloudflare-core/src/error.rs:66-79 | when a message has no code |
| `ErrorText.FallbackCanCutAWord` | crates/sqlx-cloudflare-core/src/error.rs:76-78 | whenever a code character does stand before the last `SQLITE_`, the tail of a longer word is read |
| `ErrorText.ATailIsRead` | crates/sqlx-cloudflare-core/src/error.rs:76-78 | such a message for every code character |
| `ErrorText.ExtendedCodeRecovered` | crates/sqlx-cloudflare-core/src/error.rs:69-74 | an extended code written into any message is the one read |
| `ErrorText.PrimaryCodeRecovered` | crates/sqlx-cloudflare-core/src/error.rs:76-78 | without an extended code, the code from the last `SQLITE_` is read up to its end |
| `ErrorText.CodeCharsExactly` | crates/sqlx-cloudflare-core/src/error.rs:67 | which characters belong to a code |
| `ErrorText.ErrorHasBothTexts` | crates/sqlx-cloudflare-core/src/js.rs:104-118 | the error a driver returns for an exception with a cause holds both texts whole, the summary first, and the cause added only when it is not there |
| `ErrorText.ErrorWithoutACause` | crates/sqlx-cloudflare-core/src/js.rs:119-125 | for anything else thrown it is the one text there is |
| `ErrorText.KindFromExtendedCode` | crates/sqlx-cloudflare-core/src/error.rs:88-97 | each of the five mapped codes, written as the extended code of any message, decides its kind whatever words surround it |
| `ErrorText.KindExactly` | crates/sqlx-cloudflare-core/src/error.rs:88-110 | over every message, when it is of each kind: by a code for that kind, or, left to the words, by that text and none looked for before |
| `ErrorText.CombinedCode` | crates/sqlx-cloudflare-core/src/js.rs:109-117 | the code of a combined message from its two parts, the separator completing a marker at the summary's end included |
| `ErrorText.CauseKeepsItsCode` | crates/sqlx-cloudflare-core/src/js.rs:98-125 | in the error returned, a cause keeps its code exactly when it has a marker of its own or the summary brings no other code |
| `ErrorText.WrappedCauseKeepsItsCode` | crates/sqlx-cloudflare-core/src/js.rs:112-113 | a summary that has the cause anywhere in it is the whole message, and leaves the cause's code, if no marker or `SQLITE_` comes later, exactly when no code character follows on from it; a later marker's code is read instead |
| `ErrorText.CombinedKindOfText` | crates/sqlx-cloudflare-core/src/error.rs:99-109 | by words, a combined message is of the kind looked for first among its parts |
| `ErrorText.CombinedKind` | crates/sqlx-cloudflare-core/src/js.rs:109-117 | the kind of every combined message from its two parts |
| `ErrorText.CauseKeepsItsKind` | crates/sqlx-cloudflare-core/src/error.rs:81-110 | any cause added to a summary, with a code or without, keeps its kind exactly when the code then read decides that kind, or decides none and the words looked for first do |
| `ErrorText.CodedCauseKeepsItsKind` | crates/sqlx-cloudflare-core/src/error.rs:81-110 | a cause that keeps its code keeps its kind exactly when the code decides it or the summary's words name none looked for earlier |
| `ErrorText.SummaryCanOverrideTheKind` | crates/sqlx-cloudflare-core/src/error.rs:89-101 | an unmapped extended code can be overridden by the summary's words |
| `Rows.RowsBuiltExactly` | crates/sqlx-cloudflare-core/src/row.rs:17-51 | rows are built exactly when each has a value per name, keep order and values, and share columns numbered by position; else the first misfit is the error |
| `Rows.ColumnTypedByFirstValue` | crates/sqlx-cloudflare-core/src/row.rs:23-36 | a column's type is that of its first non-NULL value, and NULL exactly when there is none |
| `Rows.LookupFindsTheLast` | crates/sqlx-cloudflare-d1/src/row.rs:48-67 | a name finds the value and type of its last column in every row, in bounds, or no column has it |
| `Rows.LastIndexIsLast` | crates/sqlx-cloudflare-do/src/row.rs:57-67 | `rposition` finds the last match, or there is none |
| `Rows.FewerRowsRefine` | crates/sqlx-cloudflare-core/src/row.rs:23-50 | fewer rows give the same names and values, and no type the whole result does not give |
| `Reading.RowReadExactly` | crates/sqlx-cloudflare-do/src/js.rs:63-72 | a row is read exactly when it is an array of convertible values, as those values, and otherwise fails for the first that is not |
| `Reading.RowsFitExactly` | crates/sqlx-cloudflare-do/src/js.rs:42-78 | rows that have been read make a result under those names unless one does not fit, and then the first such is the error |
| `Reading.NamesReadExactly` | crates/sqlx-cloudflare-do/src/js.rs:42-52 | column names are read exactly when each is a string |
| `Results.Total.Extend` | crates/sqlx-cloudflare-core/src/result.rs:32-42 | extending in place is `ExtendedBy` of the total before |
| `Results.ExtendIsHomomorphic` | crates/sqlx-cloudflare-core/src/result.rs:32-42 | extending by two lists in turn is extending by them joined |
| `Results.ExtendSums` | crates/sqlx-cloudflare-core/src/result.rs:35 | the count is the sum exactly when that fits 64 bits, and its remainder otherwise |
| `Results.ExtendKeepsLastRowid` | crates/sqlx-cloudflare-core/src/result.rs:36-39 | the rowid is the last one reported, the starting one included |
| `Storage.SqlStorage.Exec` | crates/sqlx-cloudflare-do/src/js.rs:126-137 | opening a statement, with the effects of opening it even when refused |
| `Storage.Cursor.Next` | crates/sqlx-cloudflare-do/src/js.rs:58-62 | stepping a cursor, with the effect of each step |
| `Storage.CountersAfterAll` | crates/sqlx-cloudflare-do/src/js.rs:93-97 | the counters keep the last value set by any effect |
| `DoStatements.Fetch` | crates/sqlx-cloudflare-do/src/js.rs:34-79 | the method leaves the database and answer of `DoDriver.Fetch` |
| `DoStatements.ReadCursor` | crates/sqlx-cloudflare-do/src/js.rs:42-78 | the drain loop, against the recursion that specifies it; it leaves the cursor past its end exactly when the names and the wanted rows can be converted, and else where each failure leaves it |
| `DoStatements.Execute` | crates/sqlx-cloudflare-do/src/js.rs:98-124 | the method leaves the database and answer of `DoDriver.Execute`, whose every error and every row `DoLaws.ExecuteExactly` gives |
| `DoStatements.Run` | crates/sqlx-cloudflare-do/src/js.rs:81-88 | a statement run for its effect |
| `DoDriver.CountersReadExactly` | crates/sqlx-cloudflare-do/src/js.rs:110-121 | reading the counters changes nothing, never indexes out of bounds, and gives both exactly or the error that says why not |
| `DoDriver.CountsReadExactly` | crates/sqlx-cloudflare-do/src/js.rs:111-121 | whatever rows answer the counters' query, the counts are the first row's two integers, or which error there is |
| `DoLaws.DrainIsComplete` | crates/sqlx-cloudflare-do/src/js.rs:54-73 | whatever the limit, the loop steps the cursor to its end with every effect done, and returns the wanted rows in order |
| `DoLaws.DrainStopsAtAnUnreadableRow` | crates/sqlx-cloudflare-do/src/js.rs:63-72 | at the first wanted row that cannot be converted it stops, with the effects up to there |
| `DoLaws.CursorIsLeftExactly` | crates/sqlx-cloudflare-do/src/js.rs:42-73 | which of the statement's effects have happened in every case: none after opening for an unreadable name, those up to the first unreadable wanted row, or all |
| `DoLaws.WantedRowsReadExactly` | crates/sqlx-cloudflare-do/src/js.rs:63-72 | converting the wanted rows fails exactly when one of them is the first that cannot be converted |
| `DoLaws.FetchRunsTheWholeStatement` | crates/sqlx-cloudflare-do/src/js.rs:27-41 | a fetch that succeeds has run the whole statement and counted what it wrote |
| `DoLaws.FetchIsPlain` | crates/sqlx-cloudflare-do/src/js.rs:34-79 | an unlimited fetch is the statement simply run |
| `DoLaws.LimitedFetchRefines` | crates/sqlx-cloudflare-do/src/js.rs:54-76 | a limited fetch succeeds when the unlimited one does, with the same database and count and its first rows |
| `DoLaws.FetchExactly` | crates/sqlx-cloudflare-do/src/js.rs:34-79 | at any limit: a fetch fails exactly for an unsafe argument, a refused text, an unreadable name or row, storage breaking off or a row that does not fit, with that error and in that order; and otherwise returns what the rows held |
| `DoLaws.FetchLeavesExactly` | crates/sqlx-cloudflare-do/src/js.rs:34-79 | the database a fetch leaves, in each of those cases |
| `DoLaws.ExecuteExactly` | crates/sqlx-cloudflare-do/src/js.rs:98-124 | at any limit: an `execute` fails exactly as its fetch does, or for counters that cannot be read, and otherwise returns what the rows held |
| `DoLaws.LimitedExecuteRefines` | crates/sqlx-cloudflare-do/src/js.rs:81-88 | executing with fewer rows wanted does and reports the same |
| `DoLaws.ExecuteReportsTheStatement` | crates/sqlx-cloudflare-do/src/js.rs:90-124 | nothing written is nothing reported; otherwise the statement's own count and last insert, each if it has one |
| `DoLaws.CountIsOwnExactly` | crates/sqlx-cloudflare-do/src/js.rs:93-97 | a statement that wrote reports its own count exactly when it set one or none stood before |
| `DoLaws.AnOlderCountIsReported` | crates/sqlx-cloudflare-do/src/js.rs:104-121 | rows written without setting `changes()` report the count before |
| `DoLaws.ExecuteSucceedsExactly` | crates/sqlx-cloudflare-do/src/js.rs:98-124 | `execute` succeeds exactly when the statement does and, if it wrote, the counters can be read, and then leaves and returns what the statement does |
| `DoLaws.FetchedValuesAreNormal` | crates/sqlx-cloudflare-do/src/js.rs:67-71 | every integer in every row is within the bound |
| `Queries.TakenInOrder` | crates/sqlx-cloudflare-do/src/batch.rs:113-122 | every query's text and arguments are taken in order, or the first failed bind is the error |
| `Queries.FailedBindIsTheError` | crates/sqlx-cloudflare-do/src/batch.rs:116-122 | the error is the first failed bind's and no other |
| `DoTransaction.Transaction` | crates/sqlx-cloudflare-do/src/transaction.rs:66-118 | the method leaves the database and answer of `Transact` |
| `DoTransaction.OpenTransaction.Finish` | crates/sqlx-cloudflare-do/src/transaction.rs:90-104 | the platform's end: commit, or the tables put back, be the callback ended or not |
| `DoTransaction.TransactionOutcome` | crates/sqlx-cloudflare-do/src/transaction.rs:18-20 | a value is returned exactly when the callback returned it and storage committed; every error leaves the tables as they were |
| `DoTransaction.CountersOutliveRollback` | crates/sqlx-cloudflare-do/src/transaction.rs:90-104 | a transaction that fails takes back the tables and not the counters, however far its callback had got |
| `DoBatch.RunStatements` | crates/sqlx-cloudflare-do/src/batch.rs:133-141 | the callback's statements on the storage object, in order, up to the first failure |
| `DoBatch.RunInTransaction` | crates/sqlx-cloudflare-do/src/batch.rs:131-142 | those statements inside a transaction |
| `DoBatch.RunBatch` | crates/sqlx-cloudflare-do/src/batch.rs:106-144 | the method leaves the database and answer of `Batch` |
| `DoBatch.ExecuteBatch` | crates/sqlx-cloudflare-do/src/batch.rs:48-61 | each statement's result, in order |
| `DoBatch.FetchBatch` | crates/sqlx-cloudflare-do/src/batch.rs:94-104 | one item per statement, or the one error |
| `DoBatch.ProbesAreTransparent` | crates/sqlx-cloudflare-do/src/batch.rs:131-141 | the statements with counters read after each succeed exactly when they do without and the counters can be read, with the same database and the same rows |
| `DoBatch.ResultsAreTheStatements` | crates/sqlx-cloudflare-do/src/batch.rs:19-21 | result `i` is what statement `i` did from where the one before it ended |
| `DoBatch.StopsAtTheFirstFailure` | crates/sqlx-cloudflare-do/src/batch.rs:134-140 | a failed run ended at its first failing statement, with its error |
| `DoBatch.RunsCompose` | crates/sqlx-cloudflare-do/src/batch.rs:134-140 | a run of two lists is a run of the second after the first, of which nothing is run once the first has failed |
| `DoBatch.BatchIsAtomic` | crates/sqlx-cloudflare-do/src/batch.rs:13-14 | over every failure point, an error leaves the tables as they were and success is the statements simply run in order; and when each happens |
| `DoBatch.BatchErrorIsTheCause` | crates/sqlx-cloudflare-do/src/batch.rs:46-47 | the error is the first failed bind's; else, in a transaction that ran to its end, the cause for which the first failing statement fails where those before it, simply run, end, or storage's when none fails; else storage's |
| `DoHistory.HistoryIsTracked` | crates/sqlx-cloudflare-do/src/js.rs:93-97 | over every history the counters are what was last set, by statements since rolled back too |
| `DoHistory.OperationContinues` | crates/sqlx-cloudflare-do/src/transaction.rs:66-118 | every operation, whatever it ends in, extends the history and keeps the counters tracked |
| `DoHistory.InteractiveLeaves` | crates/sqlx-cloudflare-do/src/transaction.rs:83-104 | an interactive transaction leaves what its calls left if it commits, and else its tables as they were and the counters of the calls that ran |
| `DoHistory.CallLeavesItsFetch` | crates/sqlx-cloudflare-do/src/js.rs:98-124 | a query run for its effect leaves what it would leave run for its rows |
| `DoHistory.NoStaleCounts` | crates/sqlx-cloudflare-do/src/js.rs:93-124 | after any history, a successful `execute` reports nothing for nothing written, its own count if it set one, and the connection's last insert, which is its own exactly when it inserted |
| `DoHistory.FailedBatchKeepsCounters` | crates/sqlx-cloudflare-do/src/batch.rs:131-142 | a batch that failed, however far it ran, leaves the counters of the statements that ran and takes back the tables |
| `DoHistory.AnUndoneRowidIsReported` | crates/sqlx-cloudflare-do/src/js.rs:93-124 | a statement that writes and inserts nothing, after a failed batch, reports the rowid the batch left |
| `DoHistory.AnInsertThatNeverWasIsReported` | crates/sqlx-cloudflare-do/src/js.rs:93-124 | a history in which the rowid reported is that of a row no table has ever kept |
| `DoProtocol.StepKeepsReachable` | crates/sqlx-cloudflare-do/src/transaction.rs:87-106 | every move of a transaction, of the platform or of the callback, giving up on an unfinished callback included, keeps what holds of all its reachable states |
| `DoProtocol.TransactionIsSafe` | crates/sqlx-cloudflare-do/src/transaction.rs:62-65 | over every run: an error leaves the tables as they were; a value is the callback's, told exactly when storage committed, over the database its queries left; a callback's error is told unchanged; and storage never committed a failed callback |
| `DoProtocol.CountersFollowTheHistory` | crates/sqlx-cloudflare-do/src/js.rs:93-97 | over every run, finished or not, the counters are what was last set |
| `DoProtocol.AnswerIsWhatHappened` | crates/sqlx-cloudflare-do/src/transaction.rs:105-117 | over every run, the caller is told the callback's error, whatever reason storage gave; its value exactly when storage committed; and otherwise storage's reason, or that the callback never ran |
| `DoProtocol.RunsAreTransactions` | crates/sqlx-cloudflare-do/src/transaction.rs:83-117 | for callbacks of any value and error, every settled run is the one-step transaction of the queries it ran |
| `DoProtocol.TransactionsAreRuns` | crates/sqlx-cloudflare-do/src/transaction.rs:83-117 | and every one-step transaction is a settled run |
| `D1Driver.FetchRows` | crates/sqlx-cloudflare-d1/src/js.rs:72-112 | the method's answer is `Fetch` of what D1 returned, which `D1Driver.FetchExactly` gives in every case |
| `D1Driver.TakeRows` | crates/sqlx-cloudflare-d1/src/js.rs:106-109 | the rows are taken from the iterator one at a time, as many as wanted or up to the first that cannot be read |
| `D1Driver.FetchExactly` | crates/sqlx-cloudflare-d1/src/js.rs:72-112 | for any reply and limit: read exactly when it resolved to an array, empty or with string names and wanted rows of convertible values, one per name, and then holding them; otherwise which error |
| `D1Driver.LimitedFetchRefines` | crates/sqlx-cloudflare-d1/src/js.rs:106-111 | a limited fetch succeeds when the unlimited one does, with its first rows |
| `D1Driver.FetchedValuesAreNormal` | crates/sqlx-cloudflare-d1/src/js.rs:106-109 | every integer in every row is within the bound |
| `D1Driver.ArraysReadExactly` | crates/sqlx-cloudflare-d1/src/js.rs:97-111 | a result reads as arrays exactly when every cell can be converted |
| `D1Objects.ReadBatchRows` | crates/sqlx-cloudflare-d1/src/js.rs:161-190 | the loop over the objects, each read by the first one's keys |
| `D1Objects.ReadByKeys` | crates/sqlx-cloudflare-d1/src/js.rs:180-186 | the loop over the keys of one object |
| `D1Objects.ObjectKeepsTheLast` | crates/sqlx-cloudflare-d1/src/js.rs:156-160 | an object has each name once, with the value of its last column |
| `D1Objects.OrderIgnoresCells` | crates/sqlx-cloudflare-d1/src/js.rs:156-157 | all the objects of a result have the same keys in the same order, so the first one's serve for every row |
| `D1Objects.IndicesComeFirst` | crates/sqlx-cloudflare-d1/src/js.rs:158-159 | keys that are array indices come first and strictly ascending, as section 10.1.11.1 of ECMA-262 orders them |
| `D1Objects.ArrayIndicesExactly` | crates/sqlx-cloudflare-d1/src/js.rs:158-159 | array indices are the numerals of the integers below 2^32 - 1 |
| `D1Objects.KeysInOrderOfFirstUse` | crates/sqlx-cloudflare-d1/src/js.rs:156-157 | keys are in the order their names were first met |
| `D1Objects.OtherKeysKeepTheirOrder` | crates/sqlx-cloudflare-d1/src/js.rs:158-159 | and those that are no index stay so, after the indices |
| `D1Objects.OwnKeysAreTheKeys` | crates/sqlx-cloudflare-d1/src/js.rs:169-176 | the keys read by are the object's keys, none lost or doubled |
| `D1Agreement.ReadingsAgreeByName` | crates/sqlx-cloudflare-d1/src/row.rs:57-67 | for any names and cells, whenever the arrays read so do the objects, and every name finds the same value under the same type in both, or neither |
| `D1Agreement.ReadingsAgreeByPosition` | crates/sqlx-cloudflare-d1/src/js.rs:153-160 | with distinct names and no array index the two readings are the same rows |
| `D1Agreement.ObjectsReadExactly` | crates/sqlx-cloudflare-d1/src/js.rs:178-187 | a result reads as objects exactly when the cells that survive can be converted |
| `D1Batch.RunBatch` | crates/sqlx-cloudflare-d1/src/batch.rs:111-145 | the method ends as `BatchEnds` says: what was sent, the tables, and the answer, which `D1Batch.BatchAnswers` and `D1Batch.BatchErrorIsTheCause` give |
| `D1Batch.BatchAnswers` | crates/sqlx-cloudflare-d1/src/js.rs:138-150 | a batch that succeeds answers, for every statement in order, one row per object, of the object's values under the first object's own keys, and the report as D1 gave it |
| `D1Batch.BatchAgreesWithFetch` | crates/sqlx-cloudflare-d1/src/js.rs:153-160 | the rows of such an answer agree by name with what the executor reads of the same result |
| `D1Batch.BatchErrorIsTheCause` | crates/sqlx-cloudflare-d1/src/batch.rs:116-144 | a batch fails exactly for a failed bind, a statement D1 refuses or that cannot be sent, D1 throwing or rejecting, or the first result that cannot be read, with that error |
| `D1Batch.D1Database.Batch` | crates/sqlx-cloudflare-d1/src/js.rs:125-142 | sending the statements, which D1 applies whole or not at all |
| `D1Batch.PreparedExactly` | crates/sqlx-cloudflare-d1/src/js.rs:49-66 | a statement is ready exactly when D1 prepares it, every argument can be bound, and D1 accepts the binding |
| `D1Batch.NothingSentUntilReady` | crates/sqlx-cloudflare-d1/src/batch.rs:128-143 | D1 is not called unless every statement is ready and there is one; then once, statement `i` carrying query `i`'s text and arguments in order |
| `D1Batch.ErrorsWithEverythingApplied` | crates/sqlx-cloudflare-d1/src/js.rs:138-150 | an error means nothing was applied exactly when D1 did not apply the batch; an applied batch is an error exactly when what D1 returned is no list, throws, or holds a value that cannot be converted |
| `D1Batch.OneUnreadableValueIsEnough` | crates/sqlx-cloudflare-d1/src/js.rs:144-150 | of an applied batch whose results are a list: an error exactly when some report or rows throw, or some cell under the first row's keys cannot be converted |
| `D1Batch.ReplyReadExactly` | crates/sqlx-cloudflare-d1/src/js.rs:138-150 | what D1 returned is read, result by result in order, exactly when nothing in it is unreadable |
| `D1Batch.MetaReadExactly` | crates/sqlx-cloudflare-d1/src/js.rs:192-204 | a safe count or rowid is reported exactly whatever the other is, and one that is no number as none |
| `D1Batch.BatchValuesAreNormal` | crates/sqlx-cloudflare-d1/src/js.rs:181-185 | every integer in every row of a batch is within the bound |
| `EndToEnd.BindsInOrder` | crates/sqlx-cloudflare-do/src/arguments.rs:30-35 | typed values bound one after another are one argument each, in order |
| `EndToEnd.ParametersComeBack` | crates/sqlx-cloudflare-do/tests/worker/src/lib.rs:189-206 | a statement that returns its parameters gives each back: bound, sent, drained, found by name, type-checked and decoded to what was bound |

## Left out

- The `wasm_bindgen` bindings, promises and `Send` assertions: foreign calls, which appear here only as what they return.
- SQL text and SQLite's own semantics, column affinity and the storing of NaN as NULL included: a statement is whatever the backend makes of it, and round trips are about the JavaScript boundary.
- The exclusion of other requests during a transaction: the platform keeps it.
- The callback of an interactive transaction is a function of the database it finds, or step by step the queries it ran and how it ended, whatever it made of their answers; what it awaits besides storage is not modelled.
- What a callback storage has given up on goes on to do: the transaction has ended by then.
- Taking the arguments out of a query changes the query in place; the queries of a batch are consumed by it, so nothing can see the change and they are values here.
- `Results.ExtendSums`: in a build with overflow checks the sum panics where it wraps here.
- The wording of fixed error messages, which are constructors here; and positions in a message count characters, not UTF-8 bytes.
- D1's `execute_batch` and `fetch_batch`, which map the results of `run_batch` as the Durable Object ones do, and D1's `run`, which reads one report.
- `__proto__` as a column name: row objects are plain insertion-ordered maps.
- Positional column access and `try_get` itself, which belong to sqlx-core; the type check it makes is `Types.Compatible`.
- Connection options and URLs, `Database`, `Column` and `Statement` wiring, executor forwarding, and the `begin` and `commit` stubs: no property of more than one line.
