/**
 * The three tables of the library store (`books`, `members`, `borrow_records`)
 * and the pure functions over the borrow-record table that the borrow/return
 * workflow's filtered updates perform.
 */
module Tables {
  import opened Wrappers

  type BookId = int
  type MemberId = int
  type RecordId = nat

  /** A timestamp as written by `datetime.now().isoformat()`; its contents are never inspected. */
  type Time = string

  /** A row of `books`. The stock column is a plain integer: nothing in the store forbids a negative value. */
  datatype Book = Book(title: string, author: string, category: string, stock: int)

  /** A row of `members`. */
  datatype Member = Member(name: string, email: string)

  /** A row of `borrow_records`; a `None` return date marks an open (outstanding) borrow. */
  datatype Record = Record(
    recordId: RecordId,
    bookId: BookId,
    memberId: MemberId,
    borrowDate: Time,
    returnDate: Option<Time>)

  predicate IsOpen(r: Record) {
    r.returnDate.None?
  }

  /** The filter `.eq("book_id", bid).eq("member_id", mid).is_("return_date", None)`. */
  predicate OpenFor(r: Record, bid: BookId, mid: MemberId) {
    r.bookId == bid && r.memberId == mid && IsOpen(r)
  }

  /** The two rows describe the same borrow, whatever their return dates. */
  predicate SameBorrow(a: Record, b: Record) {
    a.recordId == b.recordId && a.bookId == b.bookId
    && a.memberId == b.memberId && a.borrowDate == b.borrowDate
  }

  /** `record_id` is the table's key. */
  predicate UniqueIds(rs: seq<Record>) {
    forall i, j :: 0 <= i < j < |rs| ==> rs[i].recordId != rs[j].recordId
  }

  /** No book has a negative stock. */
  predicate StockNonNegative(books: map<BookId, Book>) {
    forall id :: id in books ==> books[id].stock >= 0
  }

  /** The number of open records of book `bid`, over all members. */
  function OpenCount(rs: seq<Record>, bid: BookId): (n: nat) {
    if rs == [] then 0
    else (if IsOpen(rs[0]) && rs[0].bookId == bid then 1 else 0) + OpenCount(rs[1..], bid)
  }

  /** The number of open records of the pair (`bid`, `mid`). */
  function OpenPairCount(rs: seq<Record>, bid: BookId, mid: MemberId): (n: nat)
    ensures n <= OpenCount(rs, bid)
    ensures n == 0 ==> forall i :: 0 <= i < |rs| ==> !OpenFor(rs[i], bid, mid)
    ensures forall i :: 0 <= i < |rs| && OpenFor(rs[i], bid, mid) ==> n > 0
  {
    if rs == [] then 0
    else
      var rest := OpenPairCount(rs[1..], bid, mid);
      assert forall i :: 1 <= i < |rs| ==> rs[i] == rs[1..][i - 1];
      (if OpenFor(rs[0], bid, mid) then 1 else 0) + rest
  }

  /** The position of the first open record of (`bid`, `mid`): the row a filtered update returns first. */
  function FirstOpenIndex(rs: seq<Record>, bid: BookId, mid: MemberId): (k: nat)
    requires OpenPairCount(rs, bid, mid) > 0
    ensures k < |rs| && OpenFor(rs[k], bid, mid)
    ensures forall j :: 0 <= j < k ==> !OpenFor(rs[j], bid, mid)
  {
    if OpenFor(rs[0], bid, mid) then 0
    else
      var k := 1 + FirstOpenIndex(rs[1..], bid, mid);
      assert forall j :: 1 <= j < k ==> rs[j] == rs[1..][j - 1];
      k
  }

  /**
   * The `record_id` column of the rows the close-update reports back: the
   * records open for (`bid`, `mid`), in table order.
   */
  function OpenIds(rs: seq<Record>, bid: BookId, mid: MemberId): (ids: seq<RecordId>)
    ensures |ids| == OpenPairCount(rs, bid, mid)
    ensures ids != [] ==> ids[0] == rs[FirstOpenIndex(rs, bid, mid)].recordId
  {
    if rs == [] then []
    else if OpenFor(rs[0], bid, mid) then [rs[0].recordId] + OpenIds(rs[1..], bid, mid)
    else OpenIds(rs[1..], bid, mid)
  }

  /**
   * `update({"return_date": t})` filtered by OpenFor(bid, mid): every open
   * record of the pair is closed at `t`; every other row is left as it was.
   */
  function CloseOpen(rs: seq<Record>, bid: BookId, mid: MemberId, t: Time): (r: seq<Record>)
    ensures |r| == |rs|
    ensures forall i :: 0 <= i < |rs| ==> SameBorrow(r[i], rs[i])
    ensures forall i :: 0 <= i < |rs| && OpenFor(rs[i], bid, mid) ==> r[i].returnDate == Some(t)
    ensures forall i :: 0 <= i < |rs| && !OpenFor(rs[i], bid, mid) ==> r[i] == rs[i]
  {
    if rs == [] then []
    else
      var head := if OpenFor(rs[0], bid, mid) then rs[0].(returnDate := Some(t)) else rs[0];
      var tail := CloseOpen(rs[1..], bid, mid, t);
      assert forall i :: 1 <= i < |rs| ==> rs[i] == rs[1..][i - 1] && ([head] + tail)[i] == tail[i - 1];
      [head] + tail
  }

  /** `update({"return_date": None}).eq("record_id", rid)`: the rows with that id are open again. */
  function Reopen(rs: seq<Record>, rid: RecordId): (r: seq<Record>)
    ensures |r| == |rs|
    ensures forall i :: 0 <= i < |rs| ==> SameBorrow(r[i], rs[i])
    ensures forall i :: 0 <= i < |rs| && rs[i].recordId == rid ==> IsOpen(r[i])
    ensures forall i :: 0 <= i < |rs| && rs[i].recordId != rid ==> r[i] == rs[i]
  {
    if rs == [] then []
    else
      var head := if rs[0].recordId == rid then rs[0].(returnDate := None) else rs[0];
      var tail := Reopen(rs[1..], rid);
      assert forall i :: 1 <= i < |rs| ==> rs[i] == rs[1..][i - 1] && ([head] + tail)[i] == tail[i - 1];
      [head] + tail
  }

  /** Appending a row adds one to the open count of its book exactly when it is open. */
  lemma {:induction false} OpenCountAppend(rs: seq<Record>, r: Record, bid: BookId)
    ensures OpenCount(rs + [r], bid) == OpenCount(rs, bid) + (if IsOpen(r) && r.bookId == bid then 1 else 0)
  {
    if rs == [] {
      assert rs + [r] == [r];
      assert OpenCount([r][1..], bid) == 0;
    } else {
      assert (rs + [r])[1..] == rs[1..] + [r];
      OpenCountAppend(rs[1..], r, bid);
    }
  }

  /** Appending a row adds one to the open count of its pair exactly when it is open. */
  lemma {:induction false} OpenPairCountAppend(rs: seq<Record>, r: Record, bid: BookId, mid: MemberId)
    ensures OpenPairCount(rs + [r], bid, mid) == OpenPairCount(rs, bid, mid) + (if OpenFor(r, bid, mid) then 1 else 0)
  {
    if rs == [] {
      assert rs + [r] == [r];
      assert OpenPairCount([r][1..], bid, mid) == 0;
    } else {
      assert (rs + [r])[1..] == rs[1..] + [r];
      OpenPairCountAppend(rs[1..], r, bid, mid);
    }
  }

  /**
   * Closing the pair's open records leaves it none, and lowers the open
   * count of `bid` by exactly the number closed; other books keep theirs.
   */
  lemma {:induction false} CloseOpenCounts(rs: seq<Record>, bid: BookId, mid: MemberId, t: Time, b: BookId)
    ensures OpenPairCount(CloseOpen(rs, bid, mid, t), bid, mid) == 0
    ensures OpenCount(CloseOpen(rs, bid, mid, t), b)
         == OpenCount(rs, b) - (if b == bid then OpenPairCount(rs, bid, mid) else 0)
  {
    if rs != [] {
      var r := CloseOpen(rs, bid, mid, t);
      assert r[1..] == CloseOpen(rs[1..], bid, mid, t);
      CloseOpenCounts(rs[1..], bid, mid, t, b);
    }
  }

  /** When (`bid`, `mid`) has exactly one open record, no other row is open for that pair. */
  lemma {:induction false} SingleOpenRecord(rs: seq<Record>, bid: BookId, mid: MemberId, j: int)
    requires OpenPairCount(rs, bid, mid) == 1
    requires 0 <= j < |rs| && OpenFor(rs[j], bid, mid)
    ensures j == FirstOpenIndex(rs, bid, mid)
  {
    if j > 0 {
      if OpenFor(rs[0], bid, mid) {
        assert OpenFor(rs[1..][j - 1], bid, mid);
      } else {
        assert OpenFor(rs[1..][j - 1], bid, mid);
        SingleOpenRecord(rs[1..], bid, mid, j - 1);
      }
    }
  }

  /**
   * The rollback of a return: reopening the first closed record gives back
   * that record as it was, while the pair's other closed records stay closed.
   */
  lemma ReopenFirstAfterClose(rs: seq<Record>, bid: BookId, mid: MemberId, t: Time)
    requires UniqueIds(rs)
    requires OpenPairCount(rs, bid, mid) > 0
    ensures var k := FirstOpenIndex(rs, bid, mid);
            var r := Reopen(CloseOpen(rs, bid, mid, t), rs[k].recordId);
            && |r| == |rs|
            && r[k] == rs[k]
            && forall j :: 0 <= j < |rs| && j != k ==> r[j] == CloseOpen(rs, bid, mid, t)[j]
  {
  }

  /** With exactly one open record for the pair, close-then-reopen restores the table exactly. */
  lemma ReopenUndoesSingleClose(rs: seq<Record>, bid: BookId, mid: MemberId, t: Time)
    requires UniqueIds(rs)
    requires OpenPairCount(rs, bid, mid) == 1
    ensures Reopen(CloseOpen(rs, bid, mid, t), rs[FirstOpenIndex(rs, bid, mid)].recordId) == rs
  {
    var k := FirstOpenIndex(rs, bid, mid);
    var r := Reopen(CloseOpen(rs, bid, mid, t), rs[k].recordId);
    ReopenFirstAfterClose(rs, bid, mid, t);
    forall j | 0 <= j < |rs| && j != k
      ensures r[j] == rs[j]
    {
      if OpenFor(rs[j], bid, mid) {
        SingleOpenRecord(rs, bid, mid, j);
      }
    }
  }

  /**
   * Borrow then return for a pair with no open record: the table gains the
   * borrow's row, closed at the return time, and the book's open count is
   * back where it started.
   */
  lemma BorrowReturnRecords(rs: seq<Record>, rid: RecordId, bid: BookId, mid: MemberId, t1: Time, t2: Time)
    requires OpenPairCount(rs, bid, mid) == 0
    ensures CloseOpen(rs + [Record(rid, bid, mid, t1, None)], bid, mid, t2)
         == rs + [Record(rid, bid, mid, t1, Some(t2))]
    ensures OpenCount(rs + [Record(rid, bid, mid, t1, Some(t2))], bid) == OpenCount(rs, bid)
  {
    var borrowed := rs + [Record(rid, bid, mid, t1, None)];
    var closed := rs + [Record(rid, bid, mid, t1, Some(t2))];
    var r := CloseOpen(borrowed, bid, mid, t2);
    forall i | 0 <= i < |borrowed|
      ensures r[i] == closed[i]
    {
      if i < |rs| {
        assert borrowed[i] == rs[i];
      }
    }
    OpenCountAppend(rs, Record(rid, bid, mid, t1, Some(t2)), bid);
  }
}
