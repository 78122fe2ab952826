/**
 * The library store as one mutable object holding the three tables, with
 * the remote writes the workflow issues and the operations of `manage.py`
 * that change the tables: borrow, return, stock and email updates, adding a
 * member and the guarded deletes.
 *
 * Every remote write is given the reply the store sends back, so that each
 * branch of the compensating logic is reachable:
 *   Applied  the write took effect and the reply lists the affected rows;
 *   NoRows   the write took no effect and the reply's data is empty;
 *   Raises   the write took no effect and the client raised an exception.
 */
module Library {
  import opened Wrappers
  import opened Tables
  import opened Guards

  datatype WriteReply = Applied | NoRows | Raises

  /** The replies to the four writes `borrow` may issue, in source order. */
  datatype BorrowReplies = BorrowReplies(
    decrement: WriteReply,  // stock - 1
    insert: WriteReply,     // the new open record
    rollback: WriteReply,   // stock restored after an empty insert reply
    handler: WriteReply)    // stock restored in the exception handler

  /** The replies to the three writes `return_book` may issue, in source order. */
  datatype ReturnReplies = ReturnReplies(
    close: WriteReply,      // return date set on the open records
    increment: WriteReply,  // stock + 1
    reopen: WriteReply)     // return date cleared again on the first closed record

  /** What `borrow` and `return_book` report. */
  datatype Outcome =
    | BookNotFound       // "Book not found."
    | NotAvailable       // "Book not available."
    | StockUpdateFailed  // the stock write came back empty
    | RecordNotCreated   // "Failed to create borrow record. Rolled back stock."
    | TransactionFailed  // the exception handler of borrow ran to its end
    | NoActiveBorrow     // "No active borrow record found."
    | Borrowed
    | Returned
    | Escaped            // an exception left the function

  /**
   * The fault combinations under which `borrow` leaves the stock decremented
   * without a record: the insert failed and no rollback write took effect.
   */
  predicate StockLeftDecremented(r: BorrowReplies) {
    && r.decrement == Applied
    && r.insert != Applied
    && !(r.insert == NoRows && r.rollback == Applied)
    && !((r.insert == Raises || (r.insert == NoRows && r.rollback == Raises)) && r.handler == Applied)
  }

  /**
   * The fault combinations under which a write inside the `try` block of
   * `borrow` raises, so that the `except` branch runs.
   */
  predicate EnteredHandler(r: BorrowReplies) {
    || r.decrement == Raises
    || (r.decrement == Applied && (r.insert == Raises || (r.insert == NoRows && r.rollback == Raises)))
  }

  /** The stock of `bid` set to `stock`, every other row and column unchanged. */
  function WithStock(books: map<BookId, Book>, bid: BookId, stock: int): (r: map<BookId, Book>)
    requires bid in books
  {
    books[bid := books[bid].(stock := stock)]
  }

  /**
   * `update({"stock": stock}).eq("title", title)`: every book with that
   * title gets the new stock, with no check of its sign.
   */
  function SetStockByTitle(books: map<BookId, Book>, title: string, stock: int): (r: map<BookId, Book>)
    ensures r.Keys == books.Keys
    ensures forall id :: id in books && books[id].title == title ==> r[id] == books[id].(stock := stock)
    ensures forall id :: id in books && books[id].title != title ==> r[id] == books[id]
    ensures stock < 0 && (exists id :: id in books && books[id].title == title) ==> !StockNonNegative(r)
  {
    map id | id in books :: if books[id].title == title then books[id].(stock := stock) else books[id]
  }

  class Store {
    var books: map<BookId, Book>
    var members: map<MemberId, Member>
    var records: seq<Record>
    /** The next key the store hands out for `borrow_records.record_id`. */
    var nextRecordId: RecordId
    /** The next key the store hands out for `members.member_id`. */
    var nextMemberId: MemberId

    /** The keys the store generates are unique and below its counters. */
    ghost predicate Valid()
      reads this
    {
      && UniqueIds(records)
      && (forall i :: 0 <= i < |records| ==> records[i].recordId < nextRecordId)
      && (forall id :: id in members ==> id < nextMemberId)
    }

    constructor (books0: map<BookId, Book>, members0: map<MemberId, Member>, records0: seq<Record>,
                 nextRecordId0: RecordId, nextMemberId0: MemberId)
      requires UniqueIds(records0)
      requires forall i :: 0 <= i < |records0| ==> records0[i].recordId < nextRecordId0
      requires forall id :: id in members0 ==> id < nextMemberId0
      ensures Valid()
      ensures books == books0 && members == members0 && records == records0
      ensures nextRecordId == nextRecordId0 && nextMemberId == nextMemberId0
    {
      books, members, records := books0, members0, records0;
      nextRecordId, nextMemberId := nextRecordId0, nextMemberId0;
    }

    /** `select("stock").eq("book_id", bid)`: the stock of the book, or nothing when it is absent. */
    function SelectStock(bid: BookId): (r: Option<int>)
      reads this
      ensures r.Some? <==> bid in books
      ensures r.Some? ==> r.value == books[bid].stock
    {
      if bid in books then Some(books[bid].stock) else None
    }

    /** `update({"stock": stock}).eq("book_id", bid)`. */
    method WriteStock(bid: BookId, stock: int, reply: WriteReply) returns (rows: seq<Book>, raised: bool)
      modifies this`books
      ensures raised <==> reply == Raises
      ensures reply == Applied && bid in old(books) ==>
                books == WithStock(old(books), bid, stock) && rows == [books[bid]]
      ensures !(reply == Applied && bid in old(books)) ==> books == old(books) && rows == []
    {
      raised := reply == Raises;
      if reply == Applied && bid in books {
        books := WithStock(books, bid, stock);
        rows := [books[bid]];
      } else {
        rows := [];
      }
    }

    /** `borrow_records.insert({...})` of an open record; the store assigns the key. */
    method InsertRecord(bid: BookId, mid: MemberId, now: Time, reply: WriteReply) returns (rows: seq<Record>, raised: bool)
      requires Valid()
      modifies this`records, this`nextRecordId
      ensures Valid()
      ensures raised <==> reply == Raises
      ensures reply == Applied ==>
                && records == old(records) + [Record(old(nextRecordId), bid, mid, now, None)]
                && nextRecordId == old(nextRecordId) + 1
                && rows == [records[|records| - 1]]
      ensures reply != Applied ==> records == old(records) && nextRecordId == old(nextRecordId) && rows == []
    {
      raised := reply == Raises;
      if reply == Applied {
        var r := Record(nextRecordId, bid, mid, now, None);
        records := records + [r];
        nextRecordId := nextRecordId + 1;
        rows := [r];
      } else {
        rows := [];
      }
    }

    /** The close-update of `return_book`; returns the `record_id` column of the affected rows. */
    method CloseOpenRecords(bid: BookId, mid: MemberId, now: Time, reply: WriteReply) returns (ids: seq<RecordId>, raised: bool)
      requires Valid()
      modifies this`records
      ensures Valid()
      ensures raised <==> reply == Raises
      ensures reply == Applied ==>
                records == CloseOpen(old(records), bid, mid, now) && ids == OpenIds(old(records), bid, mid)
      ensures reply != Applied ==> records == old(records) && ids == []
    {
      raised := reply == Raises;
      if reply == Applied {
        ids := OpenIds(records, bid, mid);
        records := CloseOpen(records, bid, mid, now);
      } else {
        ids := [];
      }
    }

    /** `update({"return_date": None}).eq("record_id", rid)`. */
    method ReopenRecord(rid: RecordId, reply: WriteReply) returns (raised: bool)
      requires Valid()
      modifies this`records
      ensures Valid()
      ensures raised <==> reply == Raises
      ensures reply == Applied ==> records == Reopen(old(records), rid)
      ensures reply != Applied ==> records == old(records)
    {
      raised := reply == Raises;
      if reply == Applied {
        records := Reopen(records, rid);
      }
    }

    /**
     * `borrow(bid, mid)`: refuse an absent book or one with stock below 1;
     * otherwise decrement the stock, then insert an open record, and write
     * the read stock back if the insert comes back empty or anything raises.
     */
    method Borrow(bid: BookId, mid: MemberId, now: Time, replies: BorrowReplies) returns (outcome: Outcome)
      requires Valid()
      modifies this`books, this`records, this`nextRecordId
      ensures Valid()
      ensures outcome in {BookNotFound, NotAvailable, StockUpdateFailed, RecordNotCreated, TransactionFailed, Escaped, Borrowed}
      // Refusals write nothing.
      ensures outcome == BookNotFound <==> bid !in old(books)
      ensures outcome == NotAvailable <==> bid in old(books) && old(books)[bid].stock < 1
      ensures outcome in {BookNotFound, NotAvailable} ==> books == old(books) && records == old(records)
      // Success: stock one lower, exactly one open record appended.
      ensures outcome == Borrowed <==>
                bid in old(books) && old(books)[bid].stock >= 1 && replies.decrement == Applied && replies.insert == Applied
      ensures outcome == Borrowed ==>
                && books == WithStock(old(books), bid, old(books)[bid].stock - 1)
                && records == old(records) + [Record(old(nextRecordId), bid, mid, now, None)]
                && books[bid].stock >= 0
                && books[bid].stock + OpenCount(records, bid) == old(books)[bid].stock + OpenCount(old(records), bid)
                && OpenPairCount(records, bid, mid) == OpenPairCount(old(records), bid, mid) + 1
      // Every failure after the read adds no record; the stock is back unless every rollback write failed.
      ensures outcome == StockUpdateFailed <==>
                bid in old(books) && old(books)[bid].stock >= 1 && replies.decrement == NoRows
      ensures outcome == RecordNotCreated <==>
                && bid in old(books) && old(books)[bid].stock >= 1
                && replies.decrement == Applied && replies.insert == NoRows && replies.rollback != Raises
      ensures outcome == TransactionFailed <==>
                bid in old(books) && old(books)[bid].stock >= 1 && EnteredHandler(replies) && replies.handler != Raises
      ensures outcome == Escaped <==>
                bid in old(books) && old(books)[bid].stock >= 1 && EnteredHandler(replies) && replies.handler == Raises
      ensures outcome != Borrowed ==> records == old(records) && nextRecordId == old(nextRecordId)
      ensures outcome !in {BookNotFound, NotAvailable, Borrowed} ==>
                books == if StockLeftDecremented(replies) then WithStock(old(books), bid, old(books)[bid].stock - 1)
                         else old(books)
      ensures StockNonNegative(old(books)) ==> StockNonNegative(books)
    {
      var read := SelectStock(bid);
      if read.None? {
        return BookNotFound;
      }
      var stock := read.value;
      if stock < 1 {
        return NotAvailable;
      }
      ghost var before := records;
      ghost var added := Record(nextRecordId, bid, mid, now, None);
      OpenCountAppend(before, added, bid);
      OpenPairCountAppend(before, added, bid, mid);
      outcome := TryBorrow(bid, mid, now, stock, replies);
    }

    /** The `try` block of `borrow`, entered with the stock just read, which is at least 1. */
    method TryBorrow(bid: BookId, mid: MemberId, now: Time, stock: int, replies: BorrowReplies) returns (outcome: Outcome)
      requires Valid()
      requires bid in books && books[bid].stock == stock >= 1
      modifies this`books, this`records, this`nextRecordId
      ensures Valid()
      ensures outcome == Borrowed <==> replies.decrement == Applied && replies.insert == Applied
      ensures outcome == Borrowed ==>
                && books == WithStock(old(books), bid, stock - 1)
                && records == old(records) + [Record(old(nextRecordId), bid, mid, now, None)]
      ensures outcome == StockUpdateFailed <==> replies.decrement == NoRows
      ensures outcome == RecordNotCreated <==>
                replies.decrement == Applied && replies.insert == NoRows && replies.rollback != Raises
      // The exception handler runs when a write of the `try` block raises; it re-raises when its own write raises.
      ensures outcome == TransactionFailed <==> EnteredHandler(replies) && replies.handler != Raises
      ensures outcome == Escaped <==> EnteredHandler(replies) && replies.handler == Raises
      ensures outcome != Borrowed ==>
                && outcome in {StockUpdateFailed, RecordNotCreated, TransactionFailed, Escaped}
                && records == old(records) && nextRecordId == old(nextRecordId)
                && books == if StockLeftDecremented(replies) then WithStock(old(books), bid, stock - 1) else old(books)
    {
      var updated, raised := WriteStock(bid, stock - 1, replies.decrement);
      if raised {
        outcome := RestoreStockOnException(bid, stock, replies.handler);
        return;
      }
      if updated == [] {
        return StockUpdateFailed;
      }
      var inserted, insertRaised := InsertRecord(bid, mid, now, replies.insert);
      if insertRaised {
        outcome := RestoreStockOnException(bid, stock, replies.handler);
        return;
      }
      if inserted == [] {
        var restored, restoreRaised := WriteStock(bid, stock, replies.rollback);
        if restoreRaised {
          outcome := RestoreStockOnException(bid, stock, replies.handler);
          return;
        }
        return RecordNotCreated;
      }
      return Borrowed;
    }

    /** The `except` branch of `borrow`: write the read stock back; if that raises too, the exception escapes. */
    method RestoreStockOnException(bid: BookId, stock: int, reply: WriteReply) returns (outcome: Outcome)
      modifies this`books
      ensures outcome == (if reply == Raises then Escaped else TransactionFailed)
      ensures reply == Applied && bid in old(books) ==> books == WithStock(old(books), bid, stock)
      ensures !(reply == Applied && bid in old(books)) ==> books == old(books)
    {
      var rows, raised := WriteStock(bid, stock, reply);
      outcome := if raised then Escaped else TransactionFailed;
    }

    /**
     * `return_book(bid, mid)`: read the stock, close every open record of the
     * pair, then write the read stock plus one; if that write comes back
     * empty, reopen the first record the close reported.
     */
    method ReturnBook(bid: BookId, mid: MemberId, now: Time, replies: ReturnReplies) returns (outcome: Outcome)
      requires Valid()
      modifies this`books, this`records
      ensures Valid()
      ensures outcome in {BookNotFound, NoActiveBorrow, StockUpdateFailed, Escaped, Returned}
      // Refusals write nothing.
      ensures outcome == BookNotFound <==> bid !in old(books)
      ensures outcome == NoActiveBorrow <==>
                && bid in old(books)
                && (replies.close == NoRows || (replies.close == Applied && OpenPairCount(old(records), bid, mid) == 0))
      ensures outcome in {BookNotFound, NoActiveBorrow} ==> books == old(books) && records == old(records)
      // Success: every open record of the pair closed at `now`, stock one above the value read.
      ensures outcome == Returned <==>
                && bid in old(books) && replies.close == Applied
                && OpenPairCount(old(records), bid, mid) > 0 && replies.increment == Applied
      ensures outcome == Returned ==>
                && records == CloseOpen(old(records), bid, mid, now)
                && books == WithStock(old(books), bid, old(books)[bid].stock + 1)
                && OpenPairCount(records, bid, mid) == 0
                && books[bid].stock + OpenCount(records, bid)
                   == old(books)[bid].stock + OpenCount(old(records), bid) + 1 - OpenPairCount(old(records), bid, mid)
      // A failed stock write: the stock is untouched and the first closed record is reopened if that write applies.
      ensures outcome == StockUpdateFailed ==>
                && books == old(books)
                && OpenPairCount(old(records), bid, mid) > 0
                && records == if replies.reopen == Applied
                              then Reopen(CloseOpen(old(records), bid, mid, now),
                                          old(records)[FirstOpenIndex(old(records), bid, mid)].recordId)
                              else CloseOpen(old(records), bid, mid, now)
      ensures outcome == StockUpdateFailed && replies.reopen == Applied && OpenPairCount(old(records), bid, mid) == 1 ==>
                records == old(records)
      ensures outcome == Escaped <==>
                && bid in old(books)
                && (|| replies.close == Raises
                    || (&& replies.close == Applied && OpenPairCount(old(records), bid, mid) > 0
                        && (replies.increment == Raises || (replies.increment == NoRows && replies.reopen == Raises))))
      // An exception leaves the stock untouched and the records as the close left them.
      ensures outcome == Escaped ==>
                && books == old(books)
                && records == if replies.close == Applied then CloseOpen(old(records), bid, mid, now) else old(records)
    {
      var read := SelectStock(bid);
      if read.None? {
        return BookNotFound;
      }
      var stock := read.value;
      ghost var before := records;
      var closed, raised := CloseOpenRecords(bid, mid, now, replies.close);
      if raised {
        return Escaped;
      }
      if closed == [] {
        return NoActiveBorrow;
      }
      CloseOpenCounts(before, bid, mid, now, bid);
      if OpenPairCount(before, bid, mid) == 1 {
        ReopenUndoesSingleClose(before, bid, mid, now);
      }
      outcome := RestockOrReopen(bid, stock, closed[0], replies.increment, replies.reopen);
    }

    /**
     * The tail of `return_book`, after the close reported the record `rid`
     * first: write `stock` + 1, and if that write comes back empty reopen `rid`.
     */
    method RestockOrReopen(bid: BookId, stock: int, rid: RecordId, increment: WriteReply, reopen: WriteReply)
      returns (outcome: Outcome)
      requires Valid()
      requires bid in books
      modifies this`books, this`records
      ensures Valid()
      ensures outcome in {StockUpdateFailed, Escaped, Returned}
      ensures outcome == Returned <==> increment == Applied
      ensures outcome == Returned ==> books == WithStock(old(books), bid, stock + 1) && records == old(records)
      ensures outcome == StockUpdateFailed <==> increment == NoRows && reopen != Raises
      ensures outcome != Returned ==> books == old(books)
      ensures outcome != Returned ==>
                records == if increment == NoRows && reopen == Applied then Reopen(old(records), rid) else old(records)
    {
      var updated, raised := WriteStock(bid, stock + 1, increment);
      if raised {
        return Escaped;
      }
      if updated == [] {
        var reopenRaised := ReopenRecord(rid, reopen);
        if reopenRaised {
          return Escaped;
        }
        return StockUpdateFailed;
      }
      return Returned;
    }

    /**
     * A borrow and then a return of the same pair, both succeeding: the stock
     * is back where it was and no record of the pair is open. The book's open
     * count drops by the records of the pair that were open before; when there
     * were none, the only trace is one closed record.
     */
    method BorrowThenReturn(bid: BookId, mid: MemberId, t1: Time, t2: Time)
      requires Valid()
      requires bid in books && books[bid].stock >= 1
      modifies this`books, this`records, this`nextRecordId
      ensures Valid()
      ensures books == old(books)
      ensures OpenPairCount(records, bid, mid) == 0
      ensures OpenCount(records, bid) == OpenCount(old(records), bid) - OpenPairCount(old(records), bid, mid)
      ensures old(OpenPairCount(records, bid, mid)) == 0 ==>
                records == old(records) + [Record(old(nextRecordId), bid, mid, t1, Some(t2))]
    {
      ghost var before := records;
      ghost var rid := nextRecordId;
      ghost var stock := books[bid].stock;
      var borrowed := Borrow(bid, mid, t1, BorrowReplies(Applied, Applied, Applied, Applied));
      assert borrowed == Borrowed;
      assert records == before + [Record(rid, bid, mid, t1, None)];
      assert books == WithStock(old(books), bid, stock - 1);
      ghost var lent := books;
      var returned := ReturnBook(bid, mid, t2, ReturnReplies(Applied, Applied, Applied));
      assert returned == Returned;
      assert books == WithStock(lent, bid, stock);
      if OpenPairCount(before, bid, mid) == 0 {
        BorrowReturnRecords(before, rid, bid, mid, t1, t2);
      }
    }

    /** `update_stock(title, stock)`: returns the updated rows. */
    method UpdateStock(title: string, stock: int) returns (updated: map<BookId, Book>)
      modifies this`books
      ensures books == SetStockByTitle(old(books), title, stock)
      ensures updated.Keys == set id | id in old(books) && old(books)[id].title == title
      ensures forall id :: id in updated ==> updated[id] == books[id]
    {
      books := SetStockByTitle(books, title, stock);
      updated := map id | id in books && books[id].title == title :: books[id];
    }

    /** `update_email(member_id, email)`: returns the updated row, if the member exists. */
    method UpdateEmail(memberId: MemberId, email: string) returns (updated: seq<Member>)
      requires Valid()
      modifies this`members
      ensures Valid()
      ensures memberId in old(members) ==>
                members == old(members)[memberId := old(members)[memberId].(email := email)]
                && updated == [members[memberId]]
      ensures memberId !in old(members) ==> members == old(members) && updated == []
    {
      if memberId in members {
        members := members[memberId := members[memberId].(email := email)];
        updated := [members[memberId]];
      } else {
        updated := [];
      }
    }

    /** `add_member(name, email)`: inserts a member under a fresh key and returns that key. */
    method AddMember(name: string, email: string) returns (id: MemberId)
      requires Valid()
      modifies this`members, this`nextMemberId
      ensures Valid()
      ensures id !in old(members)
      ensures members == old(members)[id := Member(name, email)]
    {
      id := nextMemberId;
      members := members[id := Member(name, email)];
      nextMemberId := nextMemberId + 1;
    }

    /** `delete_book()`: deletes the books no borrow record refers to and returns them. */
    method DeleteBook() returns (deleted: map<BookId, Book>)
      modifies this`books
      ensures books == DeleteBooks(old(books), records).kept
      ensures deleted == DeleteBooks(old(books), records).deleted
      ensures forall i :: 0 <= i < |records| && records[i].bookId in old(books) ==> records[i].bookId in books
    {
      var d := DeleteBooks(books, records);
      books, deleted := d.kept, d.deleted;
    }

    /** `delete_member()`: deletes the members no borrow record refers to and returns them. */
    method DeleteMember() returns (deleted: map<MemberId, Member>)
      requires Valid()
      modifies this`members
      ensures Valid()
      ensures members == DeleteMembers(old(members), records).kept
      ensures deleted == DeleteMembers(old(members), records).deleted
      ensures forall i :: 0 <= i < |records| && records[i].memberId in old(members) ==> records[i].memberId in members
    {
      var d := DeleteMembers(members, records);
      members, deleted := d.kept, d.deleted;
    }
  }
}
