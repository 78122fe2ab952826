/**
 * The guarded deletes: `delete_book` and `delete_member` delete every row
 * whose id does not appear in the borrow-record table, open or closed.
 */
module Guards {
  import opened Tables

  /** The result of a guarded delete: the rows that stay and the rows deleted (the reply's data). */
  datatype Deletion<K, V> = Deletion(kept: map<K, V>, deleted: map<K, V>)

  /** The `book_id` column of the borrow records, as a set. */
  function BookIdsOf(rs: seq<Record>): (ids: set<BookId>)
    ensures forall id :: id in ids <==> exists i :: 0 <= i < |rs| && rs[i].bookId == id
  {
    if rs == [] then {}
    else
      var rest := BookIdsOf(rs[1..]);
      assert forall i :: 1 <= i < |rs| ==> rs[i] == rs[1..][i - 1];
      {rs[0].bookId} + rest
  }

  /** The `member_id` column of the borrow records, as a set. */
  function MemberIdsOf(rs: seq<Record>): (ids: set<MemberId>)
    ensures forall id :: id in ids <==> exists i :: 0 <= i < |rs| && rs[i].memberId == id
  {
    if rs == [] then {}
    else
      var rest := MemberIdsOf(rs[1..]);
      assert forall i :: 1 <= i < |rs| ==> rs[i] == rs[1..][i - 1];
      {rs[0].memberId} + rest
  }

  /** `delete().not_(key, "in", used)`: split a table into the rows whose key is used and the rest. */
  function Split<K, V>(table: map<K, V>, used: set<K>): (d: Deletion<K, V>)
    ensures d.kept.Keys !! d.deleted.Keys
    ensures d.kept + d.deleted == table
    ensures d.kept.Keys <= used && d.deleted.Keys !! used
  {
    var d := Deletion(map k | k in table && k in used :: table[k],
                      map k | k in table && k !in used :: table[k]);
    assert d.kept + d.deleted == table;
    d
  }

  /** `delete_book`: a book is deleted exactly when no borrow record, open or closed, refers to it. */
  function DeleteBooks(books: map<BookId, Book>, rs: seq<Record>): (d: Deletion<BookId, Book>)
    ensures d.kept + d.deleted == books && d.kept.Keys !! d.deleted.Keys
    ensures forall id :: id in d.deleted <==> id in books && forall i :: 0 <= i < |rs| ==> rs[i].bookId != id
    ensures forall id :: id in d.kept <==> id in books && exists i :: 0 <= i < |rs| && rs[i].bookId == id
  {
    Split(books, BookIdsOf(rs))
  }

  /** `delete_member`: a member is deleted exactly when no borrow record, open or closed, refers to them. */
  function DeleteMembers(members: map<MemberId, Member>, rs: seq<Record>): (d: Deletion<MemberId, Member>)
    ensures d.kept + d.deleted == members && d.kept.Keys !! d.deleted.Keys
    ensures forall id :: id in d.deleted <==> id in members && forall i :: 0 <= i < |rs| ==> rs[i].memberId != id
    ensures forall id :: id in d.kept <==> id in members && exists i :: 0 <= i < |rs| && rs[i].memberId == id
  {
    Split(members, MemberIdsOf(rs))
  }

  /** A second guarded delete of books, with the same records, deletes nothing. */
  lemma DeleteBooksIdempotent(books: map<BookId, Book>, rs: seq<Record>)
    ensures DeleteBooks(DeleteBooks(books, rs).kept, rs).deleted == map[]
    ensures DeleteBooks(DeleteBooks(books, rs).kept, rs).kept == DeleteBooks(books, rs).kept
  {
  }

  /** A second guarded delete of members, with the same records, deletes nothing. */
  lemma DeleteMembersIdempotent(members: map<MemberId, Member>, rs: seq<Record>)
    ensures DeleteMembers(DeleteMembers(members, rs).kept, rs).deleted == map[]
    ensures DeleteMembers(DeleteMembers(members, rs).kept, rs).kept == DeleteMembers(members, rs).kept
  {
  }
}
