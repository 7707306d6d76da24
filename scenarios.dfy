/** Client-side workflows over the library, stated for any book and member: the lending
    sequence of the repository's test script, deleting a member who has nothing on loan, the
    partial update of a book, and borrowing again after a return. */
module Scenarios {
  import opened Wrappers
  import opened Arguments
  import opened Catalog
  import opened Roster
  import opened Ledger
  import opened Operations

  /** A book with two copies, none on loan, can be borrowed twice by a member with nothing on
      loan; a third borrow is refused because no copy is free. */
  method BorrowUntilRefused(lib: Library, isbn: string, memberId: string, today: int) returns (outcomes: seq<bool>)
    requires lib.Valid()
    requires isbn in lib.books && lib.books[isbn].totalCopies == 2 && ActiveCount(lib.history, isbn) == 0
    requires FindMember(lib.members, memberId).Some? && lib.members[FindMember(lib.members, memberId).value].borrowed == []
    modifies lib
    ensures outcomes == [true, true, false]
    ensures ActiveCount(lib.history, isbn) == 2
  {
    var b1 := lib.BorrowBook(isbn, memberId, today);
    var b2 := lib.BorrowBook(isbn, memberId, today);
    var b3 := lib.BorrowBook(isbn, memberId, today);
    outcomes := [b1, b2, b3];
  }

  /** In a consistent library, returning a book and then borrowing it again succeeds. */
  method ReturnThenBorrow(lib: Library, isbn: string, memberId: string, today: int, later: int)
    returns (returned: bool, borrowed: bool)
    requires lib.Valid() && lib.Consistent()
    modifies lib
    ensures returned ==> borrowed
  {
    ghost var books0, members0, history0 := lib.books, lib.members, lib.history;
    if FindMember(members0, memberId).Some? && LastActive(history0, isbn, memberId).Some? {
      ReturnFreesBorrow(books0, members0, history0, isbn, memberId, today);
    }
    returned := lib.ReturnBook(isbn, memberId, today);
    if !returned {
      borrowed := false;
      return;
    }
    borrowed := lib.BorrowBook(isbn, memberId, later);
  }

  /** A newly added member has nothing on loan, so deleting them succeeds and restores the roster. */
  method AddThenDelete(lib: Library, memberId: string, name: string, email: string) returns (added: bool, deleted: bool)
    requires lib.Valid()
    requires FindMember(lib.members, memberId).None?
    modifies lib
    ensures added && deleted
    ensures lib.members == old(lib.members)
  {
    added := lib.AddMember(memberId, name, email);
    deleted := lib.DeleteMember(memberId);
    assert lib.members == old(lib.members)[..|old(lib.members)|];
  }

  /** update_book with a copy count below the copies on loan is refused, yet a new title has
      already been written; the copy count is untouched. */
  method PartialUpdate(lib: Library, isbn: string, title: string) returns (ok: bool)
    requires lib.Valid()
    requires isbn in lib.books && ActiveCount(lib.history, isbn) == 2 && title != ""
    modifies lib
    ensures !ok && isbn in lib.books
    ensures lib.books[isbn] == old(lib.books[isbn]).(title := title)
  {
    ok := lib.UpdateBook(isbn, Some(title), None, None, Some(1));
  }
}
