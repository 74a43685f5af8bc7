# sql-collections in Dafny

A model of the core of `sql-collections`: a `java.util.Queue<String?>` and a
`MutableMap<String, String?>` whose contents live in one table of a
relational database (MySQL), plus the small utilities they share. Every
element, key and value is stored with its MD5 digest, and every lookup goes
through that digest.

- **Queue (`SqlQueue`).** The queue table is modelled as the sequence of its
  rows `(id, md5, content, ts)` in insertion order. `id` is the
  auto-increment key and `ts` the insertion time. `QueueDao` is a class
  whose `rows` and `nextId` fields every Dao operation reassigns.
- **SQL conditions.** The ones the queue's statements use are the `Where`
  datatype. `Filter` serves for both SELECT and DELETE. `Earliest` is
  `ORDER BY ts ASC LIMIT 0,1`, with rows of equal `ts` taken in id order:
  the `(ts, id)` order of the `idx_t_ts` index. The statement itself
  promises only some row of least `ts` (`MinimalBy`); see "Left out" and
  "Findings".
- **Wrappers.** `SqlQueue.SqlQueue` is the `Queue` implementation. `Cursor`
  is the iterator: it is `SQLIterator`, and also `TxSQLIterator`, which
  only adds the caller's transaction.
- **Map (`SqlMap`).** The map table has `keyMd5` as its primary key, so it
  is a `map<string, MapRow>` from the key digest to `(key, value, valueMd5,
  ts)`. Each map operation is one state change of that map.
- **Utilities (`Utils`, `TxUtil`).** These cover `StringUtils.isBlank`,
  `StringFix.escape`, the hex rendering of `MD5.encode`,
  `TxUtil.retryOnException` and `TxUtil.tx`.
- **What is left to the caller.** The MD5 algorithm itself is a `Hasher`
  parameter, a total function from text to 16 signed bytes. The clock
  (`System.currentTimeMillis()`) is a caller-supplied timestamp: `stamps`
  or `now`.

The properties proved include:

- the escape round trip, and that the hex rendering of a digest is
  injective;
- the loop of `retryOnException`;
- the commit and rollback behaviour of `tx`;
- the table-level effect of every Dao statement;
- FIFO order and a full traversal by the iterator, both for tables whose
  timestamps never decrease, with ties taken in id order; when timestamps
  strictly increase, the statement has no other answer;
- read-after-write and frames for `put`.

Where the code disagrees with the behaviour the interfaces promise, both
forms are kept; see "Findings".

## Model

| member | source | states |
|---|---|---|
| Utils.IsBlank | src/main/java/com/sprinteam/Utils.kt:10-26 | true for null and for ""; for a text, true exactly when every character is a Java whitespace character; the result equals the `Blank` predicate |
| Utils.ReplaceCharAppend | src/main/java/com/sprinteam/Utils.kt:125 | replacing one character distributes over concatenation |
| Utils.EscapeIsCharwise | src/main/java/com/sprinteam/Utils.kt:124-126 | the two `replace` passes equal escaping each character on its own: a quote becomes two quotes, a backslash two backslashes, anything else stays |
| Utils.EscapeLength | src/main/java/com/sprinteam/Utils.kt:124-126 | the escaped text is longer by one character per quote and per backslash |
| Utils.EscapeEachLength | src/main/java/com/sprinteam/Utils.kt:124-126 | the same length law for the per-character escape |
| Utils.UnescapeEscape | src/main/java/com/sprinteam/Utils.kt:124-126 | reading the escaped literal back gives the original text |
| Utils.UnescapeEscapeEach | src/main/java/com/sprinteam/Utils.kt:124-126 | the same round trip for the per-character escape |
| Utils.EscapeUnescape | src/main/java/com/sprinteam/Utils.kt:124-126 | conversely, a literal that reads back as `s` is exactly the escape of `s` |
| Utils.EscapeEachUnescape | src/main/java/com/sprinteam/Utils.kt:124-126 | the same converse for the per-character escape |
| Utils.Unsigned | src/main/java/com/sprinteam/Utils.kt:52 | `b.toInt() and 0xff` lies in 0..255 and is congruent to the byte modulo 256 |
| Utils.SignedUnsigned | src/main/java/com/sprinteam/Utils.kt:52 | the mask loses nothing: the signed byte can be recovered from it |
| Utils.Encode | src/main/java/com/sprinteam/Utils.kt:46-59 | the appending loop returns "" for null and otherwise the concatenated two-digit renderings of the digest bytes (`Md5Text`) |
| Utils.ByteHexDigits | src/main/java/com/sprinteam/Utils.kt:52-57 | each byte appends exactly two lower-case digits: the high and the low nibble of its unsigned value, zero-padded |
| Utils.HexShape | src/main/java/com/sprinteam/Utils.kt:51-58 | the rendering has two characters per byte, each a lower-case hex digit |
| Utils.HexRoundTrip | src/main/java/com/sprinteam/Utils.kt:51-58 | the rendering decodes back to the digest bytes, so distinct digests give distinct texts |
| Utils.Md5TextShape | src/main/java/com/sprinteam/Utils.kt:45-59 | `encode` gives "" for null and 32 lower-case hex digits otherwise |
| Utils.ContentMd5EmptyIffBlank | src/main/java/com/sprinteam/SQLQueue.kt:250-253 | the `md5` getter is "" exactly for blank texts, and 32 characters long otherwise |
| TxUtil.RetryOnException | src/main/java/com/sprinteam/Utils.kt:76-88 | the loop returns what `RetryFrom` describes: attempt after attempt while the predicate allows it, the first returned value, otherwise the last exception or "Retry failed" |
| TxUtil.RetryFromEnds | src/main/java/com/sprinteam/Utils.kt:76-88 | from any count whose earlier attempts all threw, the loop stops at a count where the predicate refuses or the attempt returns |
| TxUtil.RetryResult | src/main/java/com/sprinteam/Utils.kt:76-88 | for some `k`, attempts 0..k-1 were allowed (given their count and the previous exception) and threw; then attempt `k` was allowed and returned its value, or it was refused and the last exception ("Retry failed" when none) is thrown |
| TxUtil.DefaultRetryBounded | src/main/java/com/sprinteam/Utils.kt:71 | the default predicate `c < 10` refuses every count from 10 on |
| TxUtil.RetryOnExceptionDefault | src/main/java/com/sprinteam/Utils.kt:71 | the one-argument overload is the loop with `c < 10` |
| TxUtil.DefaultRetryFrom | src/main/java/com/sprinteam/Utils.kt:71 | from any count, two unit-of-work runs that agree on attempts 0..9 give the same result |
| TxUtil.DefaultRetryAtMostTen | src/main/java/com/sprinteam/Utils.kt:71 | with the default predicate the result depends only on the first ten attempts |
| TxUtil.DefaultRetryAllFailFrom | src/main/java/com/sprinteam/Utils.kt:71 | from any count, when attempts 0..9 all throw, the exception of attempt 9 comes out |
| TxUtil.DefaultRetryAllFail | src/main/java/com/sprinteam/Utils.kt:71 | when the first ten attempts all throw, the tenth exception is rethrown |
| TxUtil.Tx | src/main/java/com/sprinteam/Utils.kt:90-118 | on a `TxProvider` the body runs in the caller's transaction and only autocommit is switched off; on a raw connection the body gets a new provider, the commit in `finally` always runs and its failure replaces the result, a rollback follows only an SQLException, and autocommit is restored and the connection closed |
| TxUtil.TxCommitsFailedWork | src/main/java/com/sprinteam/Utils.kt:98-110 | as written, an owner whose body throws an SQLException has its work committed and then rolled back |
| TxUtil.TxAtomic | src/main/java/com/sprinteam/Utils.kt:90-118 | the corrected owner commits only after the body returns and rolls back when the body or the commit throws |
| TxUtil.AtomicCommitsOnlySuccess | src/main/java/com/sprinteam/Utils.kt:90-118 | in the corrected form, work is committed exactly when the body returns and the commit succeeds; when the rollback works, it happens exactly otherwise |
| SqlQueue.Filter | src/main/java/com/sprinteam/SQLQueue.kt:139 | a SELECT (or what a DELETE leaves) keeps at most the rows it is given, and a row is in the result exactly when it was in the table and the WHERE clause has the wanted truth value |
| SqlQueue.FilterIncreasing | src/main/java/com/sprinteam/SQLQueue.kt:24 | deleting rows keeps the auto-increment ids increasing along the table |
| SqlQueue.Earliest | src/main/java/com/sprinteam/SQLQueue.kt:74 | `ORDER BY ts ASC LIMIT 0,1` resolved in `(ts, id)` order: -1 exactly when no row satisfies the condition; otherwise a satisfying row with no satisfying row earlier in `ts`, ties going to table order |
| SqlQueue.FirstByUnique | src/main/java/com/sprinteam/SQLQueue.kt:74 | the `(ts, id)` order picks one row: two indices that both meet it coincide |
| SqlQueue.EarliestIsMinimal | src/main/java/com/sprinteam/SQLQueue.kt:74 | the model's row is one the statement may return (a satisfying row of least `ts`), and such a row exists exactly when the model finds one |
| SqlQueue.FirstByTsThenId | src/main/java/com/sprinteam/SQLQueue.kt:74 | with auto-increment ids, the model's row comes before every other satisfying row in `(ts, id)` order |
| SqlQueue.StrictMinimalIsEarliest | src/main/java/com/sprinteam/SQLQueue.kt:74 | with strictly increasing timestamps, every row the statement may return is the model's row |
| SqlQueue.TiedHeadSkips | src/main/java/com/sprinteam/SQLQueue.kt:55 | `addAll(["a", "b"])` within one millisecond: the statement may return "b" as the head, and no row has a larger id, so a cursor starting there never reaches "a"; the model starts at "a" |
| SqlQueue.StoredIffSelected | src/main/java/com/sprinteam/SQLQueue.kt:42-43 | `COUNT(1) > 0` for a digest exactly when some row has that digest |
| SqlQueue.FilterSame | src/main/java/com/sprinteam/SQLQueue.kt:175 | two WHERE clauses that agree on every row delete the same rows |
| SqlQueue.FilterKeepsAll | src/main/java/com/sprinteam/SQLQueue.kt:175 | a DELETE that matches no row leaves the table unchanged |
| SqlQueue.DeleteOneId | src/main/java/com/sprinteam/SQLQueue.kt:121 | with unique ids, `DELETE ... WHERE id = x` for the id of row `i` removes row `i` and nothing else |
| SqlQueue.DeleteEarliest | src/main/java/com/sprinteam/SQLQueue.kt:116-122 | deleting the id of the row `elementAfter` picked removes exactly that row |
| SqlQueue.DeleteSelectedIds | src/main/java/com/sprinteam/SQLQueue.kt:195-199 | deleting the ids of the selected rows deletes exactly the rows that satisfy the selection |
| SqlQueue.IdInSingleton | src/main/java/com/sprinteam/SQLQueue.kt:218 | `id IN (x)` deletes what `id = x` deletes |
| SqlQueue.RetainIsKeep | src/main/java/com/sprinteam/SQLQueue.kt:430 | deleting the rows whose digest is `NOT IN` a set keeps exactly those whose digest is in it |
| SqlQueue.DeleteIdTwice | src/main/java/com/sprinteam/SQLQueue.kt:357 | deleting one id a second time deletes nothing more |
| SqlQueue.QueueDao.constructor | src/main/java/com/sprinteam/SQLQueue.kt:19-33 | a new table is empty and its auto-increment counter starts at 1 |
| SqlQueue.QueueDao.Contains | src/main/java/com/sprinteam/SQLQueue.kt:39-48 | true exactly when some row has the entity's digest |
| SqlQueue.QueueDao.ContainsAll | src/main/java/com/sprinteam/SQLQueue.kt:240-246 | true exactly when every entity's digest is stored; true for no entities |
| SqlQueue.QueueDao.AddAll | src/main/java/com/sprinteam/SQLQueue.kt:50-60 | nothing and false for no entities; otherwise one row per entity is appended in order, with consecutive ids, the entity's digest and content and its timestamp, and the result is true |
| SqlQueue.QueueDao.Clear | src/main/java/com/sprinteam/SQLQueue.kt:62-69 | every row is deleted; the auto-increment counter is kept |
| SqlQueue.QueueDao.ElementAfter | src/main/java/com/sprinteam/SQLQueue.kt:71-83 | the earliest row with an id above `id`; none exactly when every id is at most `id` |
| SqlQueue.QueueDao.ElementBy | src/main/java/com/sprinteam/SQLQueue.kt:85-97 | a stored row with that id; none exactly when no row has it |
| SqlQueue.QueueDao.SizeAfter | src/main/java/com/sprinteam/SQLQueue.kt:99-112 | the number of rows above `id` for `id >= 0`, and of all rows otherwise |
| SqlQueue.QueueDao.RemoveAfter | src/main/java/com/sprinteam/SQLQueue.kt:114-129 | returns what `elementAfter(id)` returns and deletes exactly that row; with none the table is unchanged |
| SqlQueue.QueueDao.DeleteId | src/main/java/com/sprinteam/SQLQueue.kt:121 | the statement deletes every row with that id and keeps the table valid |
| SqlQueue.QueueDao.AllMatches | src/main/java/com/sprinteam/SQLQueue.kt:131-151 | nothing for no entities; otherwise the rows whose digest is (`md5In`) or is not among the entities' digests, in table order (see "Left out") |
| SqlQueue.QueueDao.FirstMatch | src/main/java/com/sprinteam/SQLQueue.kt:153-167 | none exactly when no row has the entity's digest; otherwise a stored row with that digest and no such row earlier in `(ts, id)` order |
| SqlQueue.QueueDao.RemoveByIds | src/main/java/com/sprinteam/SQLQueue.kt:169-180 | the rows with those ids are deleted; for no ids nothing changes |
| SqlQueue.QueueDao.RemoveAllMatches | src/main/java/com/sprinteam/SQLQueue.kt:186-208 | for no entities nothing is deleted or returned; otherwise exactly the matching rows are returned, in table order (see "Left out"), and deleted |
| SqlQueue.QueueDao.RemoveFirstMatch | src/main/java/com/sprinteam/SQLQueue.kt:210-224 | returns the earliest row with the entity's digest and deletes that row alone; with none the table is unchanged |
| SqlQueue.QueueDao.RemoveBy | src/main/java/com/sprinteam/SQLQueue.kt:226-238 | returns a stored row with that id (none exactly when there is none) and deletes the rows with that id |
| SqlQueue.OrderedEarliestIsFirst | src/main/java/com/sprinteam/SQLQueue.kt:74 | with timestamps that never decrease, no row earlier in the table satisfies the condition |
| SqlQueue.FifoHead | src/main/java/com/sprinteam/SQLQueue.kt:289 | first in, first out: with ordered timestamps the head is the oldest row |
| SqlQueue.OrderedSuccessor | src/main/java/com/sprinteam/SQLQueue.kt:348 | with ordered timestamps, `elementAfter(id of row i)` is row `i + 1`, or none after the last row |
| SqlQueue.AppendKeepsOrder | src/main/java/com/sprinteam/SQLQueue.kt:55 | rows stamped in order, no earlier than the existing ones, keep the timestamps ordered |
| SqlQueue.DropKeepsOrder | src/main/java/com/sprinteam/SQLQueue.kt:121 | deleting a row keeps the timestamps ordered |
| SqlQueue.ElementOfHead | src/main/java/com/sprinteam/SQLQueue.kt:291-299 | throws exactly for an empty queue, otherwise returns the head element, null included |
| SqlQueue.ElementNullHead | src/main/java/com/sprinteam/SQLQueue.kt:289 | as written, `element()` on a queue whose head is null throws NoSuchElement; the corrected form returns null |
| SqlQueue.SqlQueue.constructor | src/main/java/com/sprinteam/SQLQueue.kt:11-13 | a new queue has an empty table |
| SqlQueue.SqlQueue.Size | src/main/java/com/sprinteam/SQLQueue.kt:255-263 | the number of rows |
| SqlQueue.SqlQueue.IsEmpty | src/main/java/com/sprinteam/SQLQueue.kt:301-303 | true exactly when the table is empty |
| SqlQueue.SqlQueue.Contains | src/main/java/com/sprinteam/SQLQueue.kt:265-272 | true exactly when a row has the element's digest |
| SqlQueue.SqlQueue.ContainsAll | src/main/java/com/sprinteam/SQLQueue.kt:320-327 | true exactly when every element's digest is stored |
| SqlQueue.SqlQueue.AddAll | src/main/java/com/sprinteam/SQLQueue.kt:274-281 | false only for no elements; the elements are appended in order |
| SqlQueue.SqlQueue.Add | src/main/java/com/sprinteam/SQLQueue.kt:422-428 | `add` and `offer` append one row holding the element and return true |
| SqlQueue.SqlQueue.Clear | src/main/java/com/sprinteam/SQLQueue.kt:283-287 | the table is emptied |
| SqlQueue.SqlQueue.ElementAsWritten | src/main/java/com/sprinteam/SQLQueue.kt:289 | `element()` as written: throws for an empty queue and also for a null head element |
| SqlQueue.SqlQueue.Element | src/main/java/com/sprinteam/SQLQueue.kt:291-299 | the head element; throws exactly when the queue is empty |
| SqlQueue.SqlQueue.Peek | src/main/java/com/sprinteam/SQLQueue.kt:439-446 | the head element, or null for an empty queue |
| SqlQueue.SqlQueue.Remove | src/main/java/com/sprinteam/SQLQueue.kt:305-318 | throws NoSuchElement and changes nothing for an empty queue; otherwise returns the head element and deletes the head row alone |
| SqlQueue.SqlQueue.Poll | src/main/java/com/sprinteam/SQLQueue.kt:448-455 | as `remove()`, with null instead of the exception |
| SqlQueue.SqlQueue.RemoveElement | src/main/java/com/sprinteam/SQLQueue.kt:402-409 | true exactly when a row has the element's digest; the earliest such row alone is deleted |
| SqlQueue.SqlQueue.RemoveAll | src/main/java/com/sprinteam/SQLQueue.kt:411-420 | deletes the rows whose digest is one of the elements'; true exactly when there were any |
| SqlQueue.SqlQueue.RetainAll | src/main/java/com/sprinteam/SQLQueue.kt:430-437 | keeps exactly the rows whose digest is one of the elements'; true exactly when some row was deleted; nothing changes for no elements |
| SqlQueue.Cursor.constructor | src/main/java/com/sprinteam/SQLQueue.kt:336-339 | the cursor starts at the queue head with no element returned yet |
| SqlQueue.Cursor.HasNext | src/main/java/com/sprinteam/SQLQueue.kt:341 | true exactly when there is a current row |
| SqlQueue.Cursor.Next | src/main/java/com/sprinteam/SQLQueue.kt:342-351 | throws with no current row; otherwise returns the current element, remembers the row as last returned and moves to the earliest row with a larger id |
| SqlQueue.Cursor.RemoveAsWritten | src/main/java/com/sprinteam/SQLQueue.kt:353-358 | throws IllegalState before any `next`; otherwise deletes the rows with the last returned id but keeps remembering it |
| SqlQueue.Cursor.Remove | src/main/java/com/sprinteam/SQLQueue.kt:353-358 | the corrected `remove`: deletes the last returned row and forgets it, so a second call throws IllegalState |
| SqlQueue.RepeatedRemoveAsWritten | src/main/java/com/sprinteam/SQLQueue.kt:353-358 | as written, a second `remove` after one `next` succeeds |
| SqlQueue.RepeatedRemove | src/main/java/com/sprinteam/SQLQueue.kt:353-358 | with the corrected `remove` the second call throws IllegalState |
| SqlQueue.Cursor.VisitAt | src/main/java/com/sprinteam/SQLQueue.kt:365-366 | one round at table position `i`: returns row `i`'s element, moves to row `i + 1` (or to nothing), and deletes row `i` alone exactly when the callback drops it |
| SqlQueue.Cursor.Visit | src/main/java/com/sprinteam/SQLQueue.kt:365-366 | round `k` of a traversal returns row `k`'s element and brings the table and cursor to round `k + 1` |
| SqlQueue.KeptMembers | src/main/java/com/sprinteam/SQLQueue.kt:362-368 | a row survives a traversal exactly when it was in the table and its element is not dropped |
| SqlQueue.KeptOrdered | src/main/java/com/sprinteam/SQLQueue.kt:362-368 | the surviving rows keep both the timestamp and the id order |
| SqlQueue.OrderedSnoc | src/main/java/com/sprinteam/SQLQueue.kt:55 | a row later, and with a larger id, than every other one can go last without breaking either order |
| SqlQueue.MidIsKept | src/main/java/com/sprinteam/SQLQueue.kt:365-366 | after `k` rounds the table holds the surviving rows of the first `k`, then the rows not visited yet |
| SqlQueue.MidEnds | src/main/java/com/sprinteam/SQLQueue.kt:362-368 | before the first round the table is untouched; after the last it holds the surviving rows |
| SqlQueue.MidStep | src/main/java/com/sprinteam/SQLQueue.kt:365-366 | in round `k`, row `k` sits right after the survivors of the rows before it, followed by row `k + 1` |
| SqlQueue.OpenOrdered | src/main/java/com/sprinteam/SQLQueue.kt:364 | on a table with ordered timestamps a new cursor starts at the first row |
| SqlQueue.Traverse | src/main/java/com/sprinteam/SQLQueue.kt:362-368 | `iterator(onNext)` with a callback that removes the element when `drop` says so: every element is visited once, in table order, and exactly the dropped rows are deleted |
| SqlMap.Lookup | src/main/java/com/sprinteam/SQLMap.kt:70 | a key selects a row exactly when its digest is a primary key of the table |
| SqlMap.PutConsistent | src/main/java/com/sprinteam/SQLMap.kt:103-107 | the INSERT or UPDATE keeps every row under its key's digest, with its value's digest |
| SqlMap.GetAfterPut | src/main/java/com/sprinteam/SQLMap.kt:100-119 | after `put(key, value)` the key reads `value`, and every key with another digest reads as before |
| SqlMap.PutPut | src/main/java/com/sprinteam/SQLMap.kt:100-119 | of two puts to one key the second wins, and the first leaves no trace |
| SqlMap.PutSize | src/main/java/com/sprinteam/SQLMap.kt:103-107 | `put` adds a row exactly when the key's digest was absent |
| SqlMap.BlankKeysShareRow | src/main/java/com/sprinteam/SQLMap.kt:146-147 | all blank keys have the empty digest: a value put under one blank key is read under any other |
| SqlMap.GetAfterPutSeq | src/main/java/com/sprinteam/SQLMap.kt:121-126 | after `put(entities)` an entity's key reads its value, unless a later entity has a key with the same digest |
| SqlMap.PutSeqFrame | src/main/java/com/sprinteam/SQLMap.kt:121-126 | `put(entities)` leaves untouched every key whose digest no entity has |
| SqlMap.PutSeqConsistent | src/main/java/com/sprinteam/SQLMap.kt:121-126 | `put(entities)` keeps the table consistent |
| SqlMap.StoredKey | src/main/java/com/sprinteam/SQLMap.kt:104 | with the key escaped like the value, the stored key is the key itself |
| SqlMap.UnescapedKeys | src/main/java/com/sprinteam/SQLMap.kt:104 | as written, a key with a single quote breaks the INSERT and a key with a doubled quote is stored with one quote |
| SqlMap.UnescapedKeyOutlivesClear | src/main/java/com/sprinteam/SQLMap.kt:103-104 | as written, `put("it's", v)` fails, and `put("a''b", v)` stores `a'b` under the digest of `a''b`: the table is no longer consistent, and the row survives `clear()`, which deletes the digests of the keys it reads back (SQLMap.kt:136) |
| SqlMap.EscapedKeyCleared | src/main/java/com/sprinteam/SQLMap.kt:128-142 | with the key stored as given, the same row is consistent and `clear()` deletes it |
| SqlMap.MatchedDigests | src/main/java/com/sprinteam/SQLMap.kt:136 | the key digests of the rows read are the selected digests that have a row |
| SqlMap.DeleteSelected | src/main/java/com/sprinteam/SQLMap.kt:135-138 | deleting the matched digests deletes the whole selection |
| SqlMap.Associate | src/main/java/com/sprinteam/SQLMap.kt:204 | the map has exactly the entries' keys, and each key maps to the value of the last entry with that key |
| SqlMap.ReadEntry | src/main/java/com/sprinteam/SQLMap.kt:64-80 | an entry read from a consistent table is what its key looks up |
| SqlMap.MapDao.constructor | src/main/java/com/sprinteam/SQLMap.kt:18-33 | a new table is empty |
| SqlMap.MapDao.Collect | src/main/java/com/sprinteam/SQLMap.kt:44-46 | reading a result set returns each selected row once: no duplicates, one entry per selected digest that has a row, and exactly their entries |
| SqlMap.MapDao.All | src/main/java/com/sprinteam/SQLMap.kt:39-51 | one entry per row and exactly the rows' entries |
| SqlMap.MapDao.Size | src/main/java/com/sprinteam/SQLMap.kt:53-62 | the number of rows |
| SqlMap.MapDao.GetByKeys | src/main/java/com/sprinteam/SQLMap.kt:64-80 | nothing for no keys; otherwise exactly the rows of the keys' digests, each once |
| SqlMap.MapDao.GetByValues | src/main/java/com/sprinteam/SQLMap.kt:82-98 | nothing for no values; otherwise exactly the rows whose value digest is one of the values', each once |
| SqlMap.MapDao.Put | src/main/java/com/sprinteam/SQLMap.kt:100-119 | returns the key's previous entry; an INSERT when the digest is absent, otherwise an UPDATE of value, value digest and timestamp that keeps the stored key |
| SqlMap.MapDao.PutAll | src/main/java/com/sprinteam/SQLMap.kt:121-126 | one put per entity, in order; returns the previous entries found, in order |
| SqlMap.MapDao.Matches | src/main/java/com/sprinteam/SQLMap.kt:130-134 | the rows of the keys' digests, each once; every row for no keys |
| SqlMap.MapDao.RemoveAllMatches | src/main/java/com/sprinteam/SQLMap.kt:128-142 | deletes exactly the selected rows (all rows for no keys) and returns each of them once |
| SqlMap.SqlMap.constructor | src/main/java/com/sprinteam/SQLMap.kt:11-13 | a new map has an empty table |
| SqlMap.SqlMap.Size | src/main/java/com/sprinteam/SQLMap.kt:163-171 | the number of rows |
| SqlMap.SqlMap.IsEmpty | src/main/java/com/sprinteam/SQLMap.kt:208-210 | true exactly when the table is empty |
| SqlMap.SqlMap.ContainsKey | src/main/java/com/sprinteam/SQLMap.kt:173-180 | true exactly when a row has the key's digest |
| SqlMap.SqlMap.ContainsValue | src/main/java/com/sprinteam/SQLMap.kt:182-189 | true exactly when a row has the value's digest |
| SqlMap.SqlMap.Get | src/main/java/com/sprinteam/SQLMap.kt:191-198 | the value of the key's row; null when there is none |
| SqlMap.SqlMap.GetAll | src/main/java/com/sprinteam/SQLMap.kt:200-206 | exactly the stored keys of the rows the keys select, each mapped to what it reads in the table |
| SqlMap.SqlMap.Entries | src/main/java/com/sprinteam/SQLMap.kt:212-220 | the set of every row's stored key and value |
| SqlMap.SqlMap.Keys | src/main/java/com/sprinteam/SQLMap.kt:222-230 | the set of every stored key |
| SqlMap.SqlMap.ValuesAsWritten | src/main/java/com/sprinteam/SQLMap.kt:232-233 | `values` as written: the set of the stored values, so equal values of different keys collapse into one |
| SqlMap.SqlMap.ValuesTxAsWritten | src/main/java/com/sprinteam/SQLMap.kt:235-240 | `values(txProvider)` as written: one item per row, and the items are exactly the stored keys |
| SqlMap.SqlMap.Values | src/main/java/com/sprinteam/SQLMap.kt:232-240 | the corrected `values`: one item per row, and the items are exactly the stored values |
| SqlMap.SqlMap.Clear | src/main/java/com/sprinteam/SQLMap.kt:242-251 | every row is deleted |
| SqlMap.SqlMap.Put | src/main/java/com/sprinteam/SQLMap.kt:253-262 | returns the previous value (null when there was none) and applies the INSERT or UPDATE |
| SqlMap.SqlMap.PutAll | src/main/java/com/sprinteam/SQLMap.kt:264-273 | one put per entry, in order |
| SqlMap.SqlMap.Remove | src/main/java/com/sprinteam/SQLMap.kt:275-282 | deletes the key's row and returns its value (null when there was none) |
| SqlMap.SqlMap.RemoveAllMatches | src/main/java/com/sprinteam/SQLMap.kt:284-289 | deletes the rows the keys select (all for no keys) and returns exactly their stored keys, each with its value |
| SqlMap.MapEntry.constructor | src/main/java/com/sprinteam/SQLMap.kt:153 | the entry holds its key, value and Dao |
| SqlMap.MapEntry.SetValueAsWritten | src/main/java/com/sprinteam/SQLMap.kt:155-160 | as written: returns the previous value but puts the entry's old value again; only the entry object takes the new value |
| SqlMap.MapEntry.SetValue | src/main/java/com/sprinteam/SQLMap.kt:155-160 | the corrected `setValue`: returns the previous value and stores the new one |
| SqlMap.SetValueStores | src/main/java/com/sprinteam/SQLMap.kt:155-160 | after `setValue("new")` on the entry of `"k" -> "old"`, the map still reads "old" as written and reads "new" when corrected |
| SqlMap.ValuesOfTwoKeys | src/main/java/com/sprinteam/SQLMap.kt:232-240 | for `"a" -> "v"` and `"b" -> "v"`: `values` as written has one item, `values(txProvider)` as written lists "a" and "b" but not "v", and the corrected `values` has two items |

## Left out

- SQL text, JDBC statements, result sets and `use` blocks: each Dao operation is modelled by its effect on the table. `StringFix.escape` is modelled, but the statements it is spliced into are not.
- Table creation and `drop()` (DDL), the table names, and the column types. So `varchar(255)` truncation and the `int(11)` width of `id` are not modelled; ids are unbounded.
- The MD5 algorithm is a `Hasher` parameter, since it is a foreign library. The `NoSuchAlgorithmException` branch of `MD5.encode`, which returns "", is left out, because the algorithm always exists on the JVM.
- `System.currentTimeMillis()` is a timestamp parameter (`stamps`, `now`), and the ten-millisecond sleep between retries is left out.
- Threads and concurrent sessions on one table are not modelled.
- The caller-supplied `next` callbacks of the Dao operations and of the `(txProvider, next)` wrapper overloads are left out, except the one in `iterator(onNext)`. Those callbacks only observe the value and pass it on.
- Transactions are not threaded through the Dao operations: each operation is one atomic change of the table. `TxUtil.tx` is modelled on its own, on a connection whose commit and rollback may fail.
- The `txProvider` overloads of the wrappers are the same members as the plain ones. The only differences modelled are `element(txProvider)` and `values(txProvider)`, which behave differently; see "Findings".
- `TxUtil.RetryOnException` takes a ghost bound after which the predicate refuses. The loop needs it for termination, and the default predicate meets it at 10.
- Statement failures inside Dao operations (the `retryOnException` around them) are not modelled: every statement is assumed to succeed.
- `CollectionUtils.isEmpty` and `isNotEmpty` appear as `|xs| == 0` tests at their call sites.
- Utils.IsBlank: the `else` branch after `strLen != 0` cannot be reached once `isEmpty` has returned, so it is not modelled.
- Utils.Unescape: it reads back only doubled quotes and doubled backslashes, which is all the escape produces. The server's other backslash escapes are not modelled.
- SqlQueue.Cursor.Remove: `TxSQLIterator` is the same `Cursor`, because the caller's transaction is not modelled.
- SqlMap.SqlMap.Entries: returns the entries' keys and values, not `StringMutableEntry` objects bound to the Dao. `MapEntry` models one such object.
- SqlMap.SqlMap.Values: states one item per row and which values occur, not how often each value occurs.
- SqlMap.MapDao.Collect: `SELECT` without `ORDER BY` returns rows in an unspecified order. The model reads them in an arbitrary order and states no order.
- SqlQueue.Earliest: resolves rows of equal `ts` in id order, as a scan of the `idx_t_ts` index does. `ORDER BY ts` does not promise that; the statement may return any satisfying row of least `ts` (`MinimalBy`). `EarliestIsMinimal` shows that the model's row is one of those, and `StrictMinimalIsEarliest` that when timestamps strictly increase it is the only one.
- SqlQueue.FirstByUnique: the row is unique only under the `(ts, id)` order. Among rows tied on `ts`, the statement has no unique answer.
- SqlQueue.OrderedEarliestIsFirst: with timestamps that merely never decrease, "no earlier satisfying row" relies on the id tie-break. It holds for the statement itself only when timestamps strictly increase.
- SqlQueue.FifoHead: FIFO for equal timestamps relies on the id tie-break (see Findings); `TiedHeadSkips` shows what else the statement allows.
- SqlQueue.OrderedSuccessor: for equal timestamps, "the next row is row `i + 1`" relies on the id tie-break.
- SqlQueue.QueueDao.ElementAfter: among rows tied on `ts` it returns the one with the least id.
- SqlQueue.QueueDao.RemoveAfter: deletes the row `ElementAfter` picks, so it inherits the same tie-break.
- SqlQueue.QueueDao.FirstMatch: among rows with the digest that are tied on `ts`, it returns the one with the least id.
- SqlQueue.QueueDao.RemoveFirstMatch: deletes the row `FirstMatch` picks, with the same tie-break.
- SqlQueue.Cursor.VisitAt: "moves to row `i + 1`" relies on the id tie-break for equal timestamps.
- SqlQueue.Cursor.Visit: "round `k` returns row `k`" relies on the same tie-break.
- SqlQueue.OpenOrdered: "starts at the first row" relies on the id tie-break when the first rows share a timestamp.
- SqlQueue.Traverse: `onNext` is a pure `drop` predicate on the element, and calling `remove` is its only effect.
  - The traversal is proved only for tables whose timestamps never decrease. With out-of-order stamps, the `id >` rule of `next` can skip rows; what is visited then is not stated.
  - Visiting every row once also relies on the id tie-break, and rows of one `addAll` usually share a timestamp. Without the tie-break a traversal can skip rows (`TiedHeadSkips`).
- SqlQueue.QueueDao.AllMatches: returns the rows in table order. The SELECT has no ORDER BY, so the source promises the same rows in some order. Its one caller, `removeAllMatches`, deletes by the ids it returns, and order does not affect which ids those are.
- SqlQueue.QueueDao.RemoveAllMatches: returns the deleted rows in table order. The source returns them in the unspecified order of its SELECT. `removeAll` and `retainAll` use only whether the list is empty.
- SqlMap.MapDao.Put: stores the key as given, which is the corrected key handling, as if the key were escaped like the value. The INSERT as written is `PutRowsAsWritten`, covered under "Findings".
- SqlMap.SqlMap.Put: inherits the corrected key handling of `SqlMap.MapDao.Put`.
- SqlMap.PutConsistent: holds for the corrected key handling. As written, a key containing `''` or a backslash is stored altered, and the table stops being consistent (`UnescapedKeyOutlivesClear`).
- SqlMap.PutSeqConsistent: holds under the same corrected key handling as `SqlMap.PutConsistent`.
- SqlMap.SqlMap.Clear: "every row is deleted" holds for consistent tables, which the corrected `put` keeps. A row stored by the as-written INSERT survives.
- TxUtil.Tx: `autoCommit = false`, `autoCommit = true` and `close()` (Utils.kt lines 94 and 114-115) are assumed to succeed; only commit, rollback and the body can fail. In the source, a failing `autoCommit = false` leads to the rollback path. A failing `autoCommit = true` or `close()` in the outer `finally` replaces the result or the exception on its way out.

## Findings

| source | as written | input that shows it | evidently intended | confidence | as-written member | corrected member |
|---|---|---|---|---|---|---|
| src/main/java/com/sprinteam/SQLQueue.kt:289 | `element()` throws NoSuchElement when the head's content is null (the elvis operator) | a queue holding one null element | the head element is returned; only an empty queue throws, as `element(txProvider)` does | high, not executed | SqlQueue.ElementNullHead | SqlQueue.SqlQueue.Element |
| src/main/java/com/sprinteam/SQLMap.kt:239 | `values(txProvider)` maps the rows to `it.key` | `"a" -> "v"`, `"b" -> "v"`: the result lists "a" and "b" | the stored values | high, not executed | SqlMap.ValuesOfTwoKeys | SqlMap.SqlMap.Values |
| src/main/java/com/sprinteam/SQLMap.kt:233 | `values` collects into a `HashSet` | `"a" -> "v"`, `"b" -> "v"`: one value | one value per entry, duplicates kept | medium, not executed | SqlMap.ValuesOfTwoKeys | SqlMap.SqlMap.Values |
| src/main/java/com/sprinteam/SQLMap.kt:156 | `setValue` puts `StringEntity(key, value)`, the entry's old value, and only then sets the field | entry `"k" -> "old"`, `setValue("new")`: the map still reads "old" | the new value is stored | high, not executed | SqlMap.SetValueStores | SqlMap.MapEntry.SetValue |
| src/main/java/com/sprinteam/SQLQueue.kt:353-358 | `remove` never clears `lastRet` | one `next`, then two `remove` calls: the second succeeds | the second call throws IllegalStateException, as the iterator contract asks | high, not executed | SqlQueue.RepeatedRemoveAsWritten | SqlQueue.RepeatedRemove |
| src/main/java/com/sprinteam/Utils.kt:98-110 | the owner commits in the inner `finally` before the catch handler rolls back | a body whose statements run and that then throws an SQLException | a failed body is rolled back, not committed | medium, not executed | TxUtil.TxCommitsFailedWork | TxUtil.AtomicCommitsOnlySuccess |
| src/main/java/com/sprinteam/SQLMap.kt:104 | the key is spliced into the INSERT without `StringFix.escape` | key `it's` makes the INSERT fail (after the retries, `put` throws); key `a''b` is stored as `a'b` under the digest of `a''b`, so `get("a''b")` reads a different key, and `clear()`, `remove` and `removeAllMatches` miss the row | the key is escaped like the value | high, not executed | SqlMap.UnescapedKeyOutlivesClear | SqlMap.EscapedKeyCleared |
| src/main/java/com/sprinteam/SQLQueue.kt:74 | `elementAfter` orders by `ts` alone, and `addAll` gives rows stamped in one millisecond equal `ts` | `addAll(["a", "b"])` within one millisecond, then iterate: the server may return "b" first, and `elementAfter(2)` finds nothing, so "a" is never visited (also `poll()` may return "b" first) | `ORDER BY ts, id`, which makes the queue FIFO and the traversal complete | low (many servers return ties in `idx_t_ts` order), not executed | SqlQueue.TiedHeadSkips | SqlQueue.Traverse |
