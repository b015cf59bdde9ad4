# Blood-sugar reading store: running aggregates

A Dafny model of the bookkeeping in `DatabaseHelper`, the persistence class of
a blood-sugar tracking app. The class keeps an in-memory list of readings
(date, time, amount). Beside the list it keeps four Java `int` aggregates:
the total, the minimum, the maximum and the average of the amounts. The
list's size is the count. Three operations change this state:

- the initial load folds the backend's rows into the list and the aggregates;
- `insertReadings` stores one reading;
- `purgeDB` clears everything.

Five getters read the aggregates and the count.

The model is functional. A `Store` is an immutable record of the readings
(`seq<Reading>`) and the four aggregates. `Valid` states that the list and the
aggregates are synchronized:

- the total is the sum of the amounts, wrapped to 32 bits;
- the average is the total divided by the count, truncated toward zero;
- min and max are the extreme amounts;
- every aggregate is 0 when the store is empty.

`Sum`, `MaxOf` and `MinOf` are recursive reference definitions over the amounts.

The files are:

- `java_int.dfy` (module `JavaInt`) holds the Java semantics the class relies on:
  - `int` addition that wraps around (`Wrap32`);
  - `int` division that truncates toward zero (`JavaDiv`);
  - `null`, and thrown exceptions, including the engine rejecting a statement (`SQLiteException`).
- `readings.dfy` (module `Readings`) holds the reading type and the reference statistics.
- `store.dfy` (module `ReadingStore`) holds the corrected store: `Empty`, `Append`, `Insert`, `InsertAll`, the `Load` method, `Purge` and the getters. Every transition is proved to preserve `Valid`.
- `as_written.dfy` (module `AsWritten`) models the source as written wherever it departs from the corrected store. Each departure comes with a lemma that exhibits it.

The storage backend is not modelled. Its insert outcome is the `rowId` argument of `Insert`. The rows it returns on the initial load are the argument of `Load`. In `LoadAsWritten`, the result of the `sqlite_master` query made by `isEmpty` is the `tableListed` argument. The date and the time of a reading are opaque strings.

As written, the `results` field is never assigned a list (see the last Findings row), so every call that touches it throws a null-pointer exception. The as-written insert and load fold take the list as present. They show what each line would do if `results` held a list, which is the state the corrected model keeps.

## Model

| member | source | states |
|---|---|---|
| JavaInt.Wrap32 | BST/app/src/main/java/com/lokislayer/bst/DB/DatabaseHelper.java:171 | the `int` total after `+=` differs from the exact sum by a multiple of 2^32, and equals it when the sum fits in an `int` |
| JavaInt.WrapAdd | BST/app/src/main/java/com/lokislayer/bst/DB/DatabaseHelper.java:211 | wrapping after every addition ends where wrapping the exact sum once would, so a running `int` total is the wrapped sum of the amounts |
| JavaInt.WrapAddNonZero | BST/app/src/main/java/com/lokislayer/bst/DB/DatabaseHelper.java:211 | adding any non-zero `int` amount always changes the `int` total |
| JavaInt.JavaDiv | BST/app/src/main/java/com/lokislayer/bst/DB/DatabaseHelper.java:188 | Java division by a positive count keeps the dividend's sign, never exceeds it in magnitude (so the average fits in an `int`), and is 0 exactly when the dividend is smaller than the count in magnitude |
| JavaInt.JavaDivTruncates | BST/app/src/main/java/com/lokislayer/bst/DB/DatabaseHelper.java:212 | the quotient truncates toward zero: quotient times divisor lies within one divisor of the dividend, on the side of zero |
| ReadingStore.Empty | BST/app/src/main/java/com/lokislayer/bst/DB/DatabaseHelper.java:63-66 | the freshly constructed store (every aggregate 0, no readings) satisfies the synchronization invariant |
| ReadingStore.ValidDetermined | BST/app/src/main/java/com/lokislayer/bst/DB/DatabaseHelper.java:236 | two synchronized stores with the same readings are equal: the aggregates are a function of the list |
| ReadingStore.Append | BST/app/src/main/java/com/lokislayer/bst/DB/DatabaseHelper.java:211-221 | an accepted reading is appended to the list; the invariant is preserved; when it is the only reading, max and min both become its amount |
| ReadingStore.Insert | BST/app/src/main/java/com/lokislayer/bst/DB/DatabaseHelper.java:199-224 | returns true exactly when the backend's row id is positive; on false the store is unchanged; on true the reading is appended; the invariant is preserved; a first reading sets max = min = its amount |
| ReadingStore.InsertAll | BST/app/src/main/java/com/lokislayer/bst/DB/DatabaseHelper.java:199-224 | a run of accepted inserts appends the rows in order and preserves the invariant |
| ReadingStore.Load | BST/app/src/main/java/com/lokislayer/bst/DB/DatabaseHelper.java:152-192 | loading rows yields a synchronized store holding exactly those rows, and it is the store that inserting them one at a time into an empty store builds; zero rows give the empty store |
| ReadingStore.FoldedAggregatesAreStatistics | BST/app/src/main/java/com/lokislayer/bst/DB/DatabaseHelper.java:171-179 | the load loop, with the first row seeding min and max, ends with total = the wrapped sum of the amounts and min, max = the extreme amounts, or all 0 for no rows |
| ReadingStore.Purge | BST/app/src/main/java/com/lokislayer/bst/DB/DatabaseHelper.java:231-239 | after a purge the count is 0, every getter returns 0, and the state is synchronized, whatever it was before |
| ReadingStore.PurgeIdempotent | BST/app/src/main/java/com/lokislayer/bst/DB/DatabaseHelper.java:231-239 | purging a purged store yields the same state |
| ReadingStore.MaxAmount | BST/app/src/main/java/com/lokislayer/bst/DB/DatabaseHelper.java:244 | in a synchronized store the reported max bounds every amount, is one of them, and is 0 when there are none |
| ReadingStore.MinAmount | BST/app/src/main/java/com/lokislayer/bst/DB/DatabaseHelper.java:245 | in a synchronized store the reported min is below every amount, is one of them, and is 0 when there are none |
| ReadingStore.AvgAmount | BST/app/src/main/java/com/lokislayer/bst/DB/DatabaseHelper.java:246 | in a synchronized store the reported average is the total divided by a non-zero count with truncation, and 0 when the count is 0 |
| ReadingStore.TotalAmount | BST/app/src/main/java/com/lokislayer/bst/DB/DatabaseHelper.java:247 | in a synchronized store the reported total is the wrapped sum of the amounts, and the exact sum when that fits in an `int` |
| ReadingStore.NumberTests | BST/app/src/main/java/com/lokislayer/bst/DB/DatabaseHelper.java:248 | the count is 0 exactly when the list is empty, and a synchronized store with count 0 is the empty store |
| ReadingStore.StoredExtremes | BST/app/src/main/java/com/lokislayer/bst/DB/DatabaseHelper.java:236 | in a synchronized non-empty store the cached min and max are amounts of stored readings and bracket every amount |
| ReadingStore.AggregatesAfterInserts | BST/app/src/main/java/com/lokislayer/bst/DB/DatabaseHelper.java:211-215 | after accepted inserts of one or more readings into an empty store, the count, total, max, min and average are the statistics of the inserted amounts |
| ReadingStore.InsertAfterPurge | BST/app/src/main/java/com/lokislayer/bst/DB/DatabaseHelper.java:213-215 | a purge followed by one accepted insert gives count 1, and max, min, total and average all equal to that reading's amount |
| ReadingStore.FailedInsertIsolated | BST/app/src/main/java/com/lokislayer/bst/DB/DatabaseHelper.java:223 | an insert the backend rejects reports false and leaves every getter's value as it was |
| ReadingStore.ReloadExample | BST/app/src/main/java/com/lokislayer/bst/DB/DatabaseHelper.java:171-188 | loading the amounts 50, 150, 100 gives total 300, max 150, min 50, average 100 and count 3 |
| AsWritten.InsertAsWritten | BST/app/src/main/java/com/lokislayer/bst/DB/DatabaseHelper.java:199-224 | as written, with the list present, insert throws exactly when the list is empty, and the state it leaves still has the amount added to the total. The list is never extended. Otherwise the result is true exactly when the row id is positive, and once the list holds two or more readings max never changes and min changes only to an amount above max |
| AsWritten.InsertAsWrittenLosesNewMax | BST/app/src/main/java/com/lokislayer/bst/DB/DatabaseHelper.java:219-220 | as written, a new reading above the max leaves the max below it and raises the min to it; the corrected insert makes it the max and keeps the min |
| AsWritten.InsertAsWrittenNeverNarrowsMin | BST/app/src/main/java/com/lokislayer/bst/DB/DatabaseHelper.java:219-220 | as written, a new reading below the min on a store of two or more readings leaves the min above it; the corrected insert makes it the min |
| AsWritten.InsertAsWrittenDividesByZero | BST/app/src/main/java/com/lokislayer/bst/DB/DatabaseHelper.java:211-212 | as written, an insert into a cleared list throws an arithmetic exception after the total has taken the amount, leaving a count of 0 beside a non-zero total; the corrected insert stores the reading |
| AsWritten.InsertAsWrittenCountStale | BST/app/src/main/java/com/lokislayer/bst/DB/DatabaseHelper.java:212-215 | as written, an accepted insert leaves the count unchanged and averages over the old count, and on a store of one reading it overwrites max and min with the new amount; the corrected insert counts the new reading and keeps the larger and smaller of the two amounts |
| AsWritten.InsertAsWrittenCountsRejectedWrite | BST/app/src/main/java/com/lokislayer/bst/DB/DatabaseHelper.java:211-223 | as written, a rejected write of a non-zero amount reports false yet changes the total; the corrected insert leaves the store unchanged |
| AsWritten.LoadFoldAsWritten | BST/app/src/main/java/com/lokislayer/bst/DB/DatabaseHelper.java:171-179 | if every `results.add` succeeded, the load loop as written would end with the wrapped sum as total, max = the larger of 0 and every amount, min = the smaller of 0 and every amount |
| AsWritten.LoadFoldAsWrittenBounds | BST/app/src/main/java/com/lokislayer/bst/DB/DatabaseHelper.java:64-65 | after the load loop as written, max is at least 0 and every amount, min is at most 0 and every amount, and each is either 0 or a loaded amount |
| AsWritten.LoadFoldAsWrittenMinPinnedAtZero | BST/app/src/main/java/com/lokislayer/bst/DB/DatabaseHelper.java:172-179 | as written, loading only positive amounts leaves min at 0; the corrected load reports the smallest amount |
| AsWritten.LoadFoldAsWrittenMaxPinnedAtZero | BST/app/src/main/java/com/lokislayer/bst/DB/DatabaseHelper.java:172-177 | as written, loading only negative amounts leaves max at 0; the corrected load reports the largest amount |
| AsWritten.LoadAsWritten | BST/app/src/main/java/com/lokislayer/bst/DB/DatabaseHelper.java:152-192 | as written, the load never yields a list. It returns the still-null field exactly when the table is listed. Otherwise the engine rejects the query at line 160 |
| AsWritten.LoadAsWrittenLeavesNoList | BST/app/src/main/java/com/lokislayer/bst/DB/DatabaseHelper.java:68-191 | whenever the load as written returns, asking for the count afterwards throws; the same count call on the list the corrected load leaves returns the number of rows |

## Left out

- SQLite and Android plumbing (`SQLiteOpenHelper`, `getReadableDatabase`, `getWritableDatabase`, `Cursor`, `ContentValues`, `db.close()`): these are foreign library calls. The backend's answers enter the model as arguments: the row id of an insert, the rows of the load, and the `sqlite_master` answer.
- `onCreate` and `onUpgrade` (DatabaseHelper.java:92-117): they only build SQL text for the external engine. That text is malformed as written. The columns lack separating commas, and the purge's drop statement says `IF EXIST`. So `purgeDB` would fail in the engine before clearing the list; the model's `Purge` covers only the in-memory reset.
- `isEmpty` (DatabaseHelper.java:123-145): it is a query to the engine. Only its boolean answer is used, as `tableListed`.
- `getInstance` (DatabaseHelper.java:78-85): it is the `synchronized` lazy singleton. Its subject is concurrency and object lifetime, neither of which the functional model has.
- `BloodSugarModel` setters and the date and time strings: they are carried unchanged alongside the amount.
- ReadingStore.NumberTests: the count is an unbounded `nat`. A Java list cannot hold more than 2^31 - 1 elements, and that bound is not modelled.
- ReadingStore.Purge: the model has no failure path. `purgeDB` would report an engine failure by an exception from line 234, raised before the reset at lines 237-238, so the in-memory state would stay as it was. `Purge` models only the reset.
- Null-reference failures of `insertReadings` (line 212) and `getNumberTests` (line 248) that follow from the unassigned list are described in the last Findings row; `LoadAsWrittenLeavesNoList` proves the one at line 248. `purgeDB` never reaches its `results.clear()` at line 237, because its drop statement throws first at line 234.

## Findings

The corrected module `ReadingStore` is the behaviour the rest of the model uses. The code does not agree with its own comment at DatabaseHelper.java:236, which says the list and the aggregates must be kept synchronized. Each row below names the member that keeps the code as written and the member that corrects it.

| source | as written | input that shows it | evidently intended | confidence | as-written member | corrected member |
|---|---|---|---|---|---|---|
| BST/app/src/main/java/com/lokislayer/bst/DB/DatabaseHelper.java:219-220 | an amount above max is stored into the min field, max is never raised, and an amount below min never lowers it | if `results` held a list: store with amounts 1 and 10, insert 20 with row id 1: max stays 10, min becomes 20 | max = the larger of max and the amount, min = the smaller of min and the amount | high; not executed | AsWritten.InsertAsWrittenLosesNewMax, AsWritten.InsertAsWrittenNeverNarrowsMin | ReadingStore.Insert |
| BST/app/src/main/java/com/lokislayer/bst/DB/DatabaseHelper.java:212 | the list is never extended, and the average divides by its size, which is 0 for an empty store | if `results` held an empty list, as it would after a purge whose drop statement succeeded: insert any reading: ArithmeticException | append the reading, then divide by the new, positive count | high; not executed | AsWritten.InsertAsWrittenDividesByZero | ReadingStore.Insert |
| BST/app/src/main/java/com/lokislayer/bst/DB/DatabaseHelper.java:212-213 | the count stays at the old size after an accepted insert, so the average and the size-one test use the old count | if `results` held a list: store with one reading of 50, insert 10 with row id 1: count stays 1, and max and min both become 10 | count grows by one with every accepted insert, and the size-one branch applies only to the first reading | high; not executed | AsWritten.InsertAsWrittenCountStale | ReadingStore.Insert |
| BST/app/src/main/java/com/lokislayer/bst/DB/DatabaseHelper.java:211-223 | the aggregates change before the row id is checked | if `results` held a list: store with one reading, insert amount 5 with row id -1: returns false, total grows by 5 | a rejected write leaves the store unchanged | high; not executed | AsWritten.InsertAsWrittenCountsRejectedWrite | ReadingStore.FailedInsertIsolated |
| BST/app/src/main/java/com/lokislayer/bst/DB/DatabaseHelper.java:172-175 | the seeding sets min and max to 0 when both already are 0, so 0 takes part in both comparisons | if `results` held a list, so that line 185 succeeded: load amounts 50, 150, 100: min is 0 rather than 50 | the first row sets both min and max to its amount | high; not executed | AsWritten.LoadFoldAsWrittenMinPinnedAtZero | ReadingStore.Load |
| BST/app/src/main/java/com/lokislayer/bst/DB/DatabaseHelper.java:154-191 | the load builds an empty list `tmpReadings` (line 154) but never uses it. It adds rows to, and returns, the `results` field, which the constructor assigns only from this call's result (line 68), so the field is still null | table listed, as it is once created: line 191 returns the null field, `results` stays null, and the first `getNumberTests` or `insertReadings` throws a NullPointerException (lines 248, 212) | read the rows when the table is listed (the test at line 156 is inverted: `isEmpty` is true when the table exists), start from an empty list, and return it even when there are no rows | high; not executed | AsWritten.LoadAsWrittenLeavesNoList | ReadingStore.Load |
