# Library inventory: borrow/return workflow

A model of the core of `manage.py`, a library manager that keeps books,
members and borrow records in three remote tables (`books`, `members`,
`borrow_records`). The store has no multi-statement transaction, so `borrow`
and `return_book` emulate one with compensating writes:

- `borrow` reads the stock. It refuses an absent book or a stock below 1.
  Otherwise, inside a `try` block, it writes stock − 1 and inserts an open
  record. If the insert comes back empty, or a write inside the `try` block
  raises, it writes the read stock back. The read and the stock test come
  before the `try`.
- `return_book` reads the stock and closes every open record of the
  (book, member) pair. It then writes the read stock + 1. If that write comes
  back empty, it reopens the first record the close reported.

The model holds the three tables in one object (`Library.Store`): `books` and
`members` are maps keyed by id, `borrow_records` is a sequence. Every write
of `borrow` and `return_book` is a method that takes the reply the store sends
back:

- `Applied`: the write took effect and its rows come back.
- `NoRows`: nothing was affected and the data is empty.
- `Raises`: the client raised an exception.

So every compensation branch is a reachable, verified path. Timestamps
(`datetime.now().isoformat()`) are opaque `Time` parameters. Keys generated by
the store (`record_id`, `member_id`) come from counters in the object, and
`Valid()` keeps record ids unique.

Modules:

- `Tables` holds the rows and the pure functions over the borrow-record table:
  open counts, closing the open records of a pair, reopening a record by id.
  It also holds the lemmas relating them.
- `Guards` holds the guarded deletes as set-difference filters.
- `Search` holds the search condition of the menu: `strip()`, ASCII
  `lower()`, Python's substring `in`, and the search loop with its flag.
- `Library` holds the store object and the operations that change it.

The model follows the code in these places:

- `return_book` closes every open record of the pair, not only one. Its
  rollback reopens only the first record the close reported.
- `borrow` does not check for an existing open record of the same pair. So
  "at most one open record per pair" is not an invariant of the model. The
  conservation of stock + open records is proved for a successful return
  exactly when the pair had one open record. Otherwise the lemma states the
  exact change.
- Neither rollback write has its reply checked. `borrow` reports "Rolled back
  stock" even when the rollback write affected no rows. `StockLeftDecremented`
  names the reply combinations that leave the stock decremented without a
  record.
- `borrow`'s first rollback is inside the `try` block. If it raises, the
  `except` branch writes the stock a second time. `return_book` has no
  exception handler: an exception from its stock write or its rollback leaves
  the records closed and the stock unchanged.
- `update_stock` sets the stock of every book with the given title and
  accepts negative values.

## Model

| member | source | states |
|---|---|---|
| `Tables.OpenPairCount` | manage.py:48-57 | The number of open records of a pair is at most the book's open count, and is zero exactly when no record matches the close filter |
| `Tables.FirstOpenIndex` | manage.py:69 | The record `update_record.data[0]` names is open for the pair and no earlier row is |
| `Tables.OpenIds` | manage.py:48-57 | The close reply reports one id per open record of the pair, the first being that of the first such row |
| `Tables.CloseOpen` | manage.py:48-55 | The close-update sets the return date of every open record of the pair and leaves every other row as it was, ids and borrow data included |
| `Tables.Reopen` | manage.py:69 | The rollback update reopens the rows with the given record id and changes nothing else |
| `Tables.OpenCountAppend` | manage.py:89-95 | Inserting an open record of a book raises that book's open count by one, and inserting a closed record or a record of another book leaves it unchanged |
| `Tables.OpenPairCountAppend` | manage.py:89-95 | Inserting an open record of a pair raises that pair's open count by one |
| `Tables.CloseOpenCounts` | manage.py:48-55 | After the close no record of the pair is open; the book's open count falls by exactly the number closed; other books are unaffected |
| `Tables.SingleOpenRecord` | manage.py:48-57 | With one open record for the pair, it is the one the close reports first |
| `Tables.ReopenFirstAfterClose` | manage.py:67-70 | Rolling back a return restores the first closed record exactly and leaves the pair's other closed records closed |
| `Tables.ReopenUndoesSingleClose` | manage.py:67-70 | With exactly one open record, close followed by the rollback gives back the original table |
| `Tables.BorrowReturnRecords` | manage.py:89-95 | For a pair with no open record, a borrow's record closed by the next return of the same pair becomes the only change to the table, and the book's open count is back where it started |
| `Guards.BookIdsOf` | manage.py:25 | The `book_id` column of the borrow records contains exactly the ids some record mentions |
| `Guards.MemberIdsOf` | manage.py:29 | The `member_id` column of the borrow records contains exactly the ids some record mentions |
| `Guards.Split` | manage.py:25 | A `not in` delete partitions the table into the kept rows, all of them used, and the deleted rows, none of them used |
| `Guards.DeleteBooks` | manage.py:23-26 | A book is deleted exactly when no borrow record, open or closed, refers to it; every referenced book is kept unchanged |
| `Guards.DeleteMembers` | manage.py:27-30 | A member is deleted exactly when no borrow record refers to them; every referenced member is kept unchanged |
| `Guards.DeleteBooksIdempotent` | manage.py:23-26 | Deleting unborrowed books twice deletes nothing the second time |
| `Guards.DeleteMembersIdempotent` | manage.py:27-30 | Deleting inactive members twice deletes nothing the second time |
| `Search.LeadingSpaces` | manage.py:164 | `lstrip()` starts after a run of whitespace only, at the end of the string or at a non-space |
| `Search.TextEnd` | manage.py:164 | `rstrip()` ends before a run of whitespace only, at the start of the string or after a non-space |
| `Search.Strip` | manage.py:164 | The stripped key is an infix of the input with only whitespace before and after it; it starts and ends with a non-space, and an all-whitespace key strips to empty |
| `Search.LowerChar` | manage.py:164 | Lower-casing maps each ASCII capital to the letter 32 code points above it, leaves no ASCII capital and changes nothing else |
| `Search.Lower` | manage.py:164 | Lower-casing a string keeps its length and lower-cases it letter by letter |
| `Search.NormalizeKey` | manage.py:164 | The key `input().strip().lower()` builds is no longer than the input, has no ASCII capital, starts and ends with a non-space, and is empty for an all-whitespace input |
| `Search.Contains` | manage.py:167 | Python's `key in s` holds for the empty key in every string |
| `Search.ContainsIff` | manage.py:167 | Python's `key in s` holds exactly when the key occurs at some position of `s` |
| `Search.Matches` | manage.py:167 | A book matches exactly when the key occurs in its lower-cased author, title or category |
| `Search.LowerIdempotent` | manage.py:167 | Lower-casing an already lower-cased field changes nothing |
| `Search.BlankKeyMatchesAll` | manage.py:164-167 | A key of whitespace only finds every book |
| `Search.MatchesIgnoresFieldCase` | manage.py:167 | Whether a book matches does not depend on the letter case of its author, title or category |
| `Search.Hits` | manage.py:166-169 | The rows found are rows of the table that match, and every matching row is found |
| `Search.HitsEmptyIff` | manage.py:166-171 | Nothing is found exactly when no row matches |
| `Search.SearchBooks` | manage.py:164-171 | The loop collects exactly the matching rows, and its flag `f` is set, so "Not found" is skipped, exactly when some row matches the stripped, lower-cased key |
| `Library.SetStockByTitle` | manage.py:31-36 | Every book with the title gets the new stock and every other row is unchanged; a negative stock is accepted and breaks non-negativity |
| `Library.Store.SelectStock` | manage.py:42-47 | Reading a book's stock finds it exactly when the book exists |
| `Library.Store.WriteStock` | manage.py:85-88 | A stock write by book id changes that one row when applied, and nothing otherwise; its rows are empty unless it took effect |
| `Library.Store.InsertRecord` | manage.py:89-96 | An applied insert appends exactly one open record under a fresh id; otherwise the table is unchanged |
| `Library.Store.CloseOpenRecords` | manage.py:48-57 | An applied close closes every open record of the pair and reports their ids; otherwise nothing changes and nothing is reported |
| `Library.Store.ReopenRecord` | manage.py:69 | An applied reopen clears the return date of the record with that id; otherwise nothing changes |
| `Library.Store.Borrow` | manage.py:73-106 | Refusals write nothing. Success lowers the stock by one, appends one open record and conserves stock + open records. Every failure after the read leaves no new record and the stock restored unless every rollback write failed. The exception handler runs exactly when a write of the `try` block raises, and the exception escapes exactly when the handler's own write raises too. Stocks never become negative |
| `Library.Store.TryBorrow` | manage.py:84-106 | Each reply combination of the `try` block leads to exactly one outcome and one resulting state, with the compensations restoring the stock read; the exception escapes exactly when a `try` write raises and then the handler's write raises |
| `Library.Store.RestoreStockOnException` | manage.py:103-106 | The exception handler writes back the stock read; if that write raises the exception escapes |
| `Library.Store.ReturnBook` | manage.py:41-72 | Refusals write nothing. Success closes every open record of the pair and sets the stock to the read value + 1, conserving stock + open records when one record was open. A failed stock write leaves the stock untouched and reopens the first closed record, restoring the whole state when one record was open. An exception escapes exactly when the close raises, or when the stock write raises after a close that found records, or when that write is empty and the reopen raises |
| `Library.Store.RestockOrReopen` | manage.py:60-70 | After the close, an applied stock write sets the read stock + 1 and touches no record; an empty reply leaves the stock untouched and reopens the reported record when that write applies; a raising write lets the exception escape |
| `Library.Store.BorrowThenReturn` | manage.py:73-106 | A successful borrow then a successful return restore the stock and leave no open record of the pair; the book's open count drops by the pair's previously open records; with none open before, the only change is one closed record |
| `Library.Store.UpdateStock` | manage.py:31-36 | The store's books become the title-wide stock update and the updated rows are returned |
| `Library.Store.UpdateEmail` | manage.py:37-40 | An existing member's email is replaced and that row returned; an unknown id changes nothing and returns no row; the store's key invariant is kept |
| `Library.Store.AddMember` | manage.py:10-13 | A new member is inserted under a key no member had |
| `Library.Store.DeleteBook` | manage.py:23-26 | The store keeps exactly the borrowed books and returns the deleted ones; no record's book disappears |
| `Library.Store.DeleteMember` | manage.py:27-30 | The store keeps exactly the members with records and returns the deleted ones; no record's member disappears |

## Left out

- Client construction and the environment lookup of the store's URL and key (manage.py:1-9): configuration and I/O.
- `available`, `search` and `borrow_details` (manage.py:14-22): plain reads of a whole table with no logic; `search`'s rows are the `rows` argument of `Search.SearchBooks`.
- The reports `get_top_5_books`, `overdue` and `borrwed` (manage.py:107-127): they call server-side procedures whose logic is not part of this model, and otherwise only print.
- The menu loop's prompts, `int()` parsing and printing (manage.py:128-244). Only the search condition is modelled. Outcomes are returned as `Outcome` values instead of printed messages.
- Wall-clock time: timestamps are opaque parameters.
- Concurrency: calls are sequential. The race between reading and writing the stock under concurrent borrowers is not modelled.
- Query-builder semantics: `.single()` raising on a missing row is modelled as "Book not found". Whether `not_(..., "in", builder)` acts as a real subquery is not modelled; the guarded deletes model the intended effect.
- Schema constraints of the remote tables (foreign keys, column types, nullable columns): not part of this model. The record insert of `borrow` is refused only through its `WriteReply`.
- Library.Store.SelectStock: the stock reads of `borrow` and `return_book` (manage.py:42, 75) never raise in the model. `.single()` raising on a missing row is modelled as "Book not found", and transport errors on a read are not modelled.
- Library.Store.CloseOpenRecords: the rows of the close reply come back in table order, so `update_record.data[0]` (manage.py:69) is the first open record of the pair in the table. The store does not promise this order.
- Library.Store.AddMember, Library.Store.UpdateStock, Library.Store.UpdateEmail, Library.Store.DeleteBook, Library.Store.DeleteMember: these writes take no `WriteReply`, so in the model they always take effect and never raise. The source does not check their replies.
- A write that takes effect and then raises: an exception is modelled as a write with no effect.
- Search.Lower: lower-cases only ASCII letters; Python's `str.lower()` also folds non-ASCII letters.
- Search.Matches: assumes author, title and category are strings; a null column, which would raise in the loop, is not modelled.
