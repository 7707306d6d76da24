/** The library's data layer: the catalog, the roster, the borrow ledger and the login table of a
    running library, and every operation that reads or changes them. */
module Operations {
  import opened Wrappers
  import opened Arguments
  import opened Text
  import opened Catalog
  import opened Roster
  import opened Ledger

  /** BORROW_LIMIT: the most loans one member may have open at once. */
  const BorrowLimit := 3

  /** A login entry: the password (compared as plain text), the role name, and for staff and
      students the id of the member they are. */
  datatype User = User(password: string, role: string, memberId: Option<string>)

  /** No member holds more than BorrowLimit books. */
  predicate WithinLimit(members: seq<Member>)
  {
    forall j :: 0 <= j < |members| ==> |members[j].borrowed| <= BorrowLimit
  }

  /** Each member's borrowed list holds, copy for copy, the ISBNs of that member's open records. */
  ghost predicate LoansAgree(members: seq<Member>, history: seq<BorrowRecord>)
  {
    forall j :: 0 <= j < |members| ==> multiset(members[j].borrowed) == OnLoan(history, members[j].memberId)
  }

  /** Nobody outside the roster has an open loan. */
  ghost predicate NoStrayLoans(members: seq<Member>, history: seq<BorrowRecord>)
  {
    forall id :: FindMember(members, id).None? ==> OnLoan(history, id) == multiset{}
  }

  /** No book outside the catalog is out, and no book has more copies out than it has copies
      (a book entered with a negative count can never be lent, so its count stays zero). */
  ghost predicate WithinCopies(books: map<string, Book>, history: seq<BorrowRecord>)
  {
    && (forall isbn :: isbn !in books ==> ActiveCount(history, isbn) == 0)
    && (forall isbn :: isbn in books ==> ActiveCount(history, isbn) == 0 || ActiveCount(history, isbn) <= books[isbn].totalCopies)
  }

  /** The library's invariants over its three stores: unique member ids, the borrow limit,
      borrowed lists that agree with the ledger, and no more copies out than a book has. */
  ghost predicate Sound(books: map<string, Book>, members: seq<Member>, history: seq<BorrowRecord>)
  {
    && UniqueIds(members)
    && WithinLimit(members)
    && LoansAgree(members, history)
    && NoStrayLoans(members, history)
    && WithinCopies(books, history)
  }

  /** An empty library is sound. */
  lemma EmptySound()
    ensures Sound(map[], [], [])
  {
    forall id ensures OnLoan([], id) == multiset{} { }
    forall isbn ensures ActiveCount([], isbn) == 0 { }
  }

  /** add_book keeps the invariants: a new ISBN has no copies out. */
  lemma AddBookKeepsSound(books: map<string, Book>, members: seq<Member>, history: seq<BorrowRecord>, isbn: string, b: Book)
    requires isbn !in books
    ensures Sound(books, members, history) ==> Sound(books[isbn := b], members, history)
  {
  }

  /** update_book keeps the invariants: it only replaces a copy count by one at least as large
      as the number of copies out. */
  lemma ReviseBookKeepsSound(books: map<string, Book>, members: seq<Member>, history: seq<BorrowRecord>, isbn: string, b: Book)
    requires isbn in books
    requires b.totalCopies == books[isbn].totalCopies || b.totalCopies >= ActiveCount(history, isbn)
    ensures Sound(books, members, history) ==> Sound(books[isbn := b], members, history)
  {
  }

  /** delete_book keeps the invariants: it only removes a book with no copies out. */
  lemma DeleteBookKeepsSound(books: map<string, Book>, members: seq<Member>, history: seq<BorrowRecord>, isbn: string)
    requires ActiveCount(history, isbn) == 0
    ensures Sound(books, members, history) ==> Sound(books - {isbn}, members, history)
  {
  }

  /** add_member keeps the invariants: the new id is unused, and nobody off the roster has a loan. */
  lemma AddMemberKeepsSound(books: map<string, Book>, members: seq<Member>, history: seq<BorrowRecord>, m: Member)
    requires FindMember(members, m.memberId).None? && m.borrowed == []
    ensures Sound(books, members, history) ==> Sound(books, members + [m], history)
  {
    if Sound(books, members, history) {
      AppendKeepsIds(members, m);
      AddMemberKeepsLoans(members, history, m);
      assert WithinLimit(members + [m]) by {
        assert forall j :: 0 <= j < |members| ==> (members + [m])[j] == members[j];
      }
    }
  }

  /** The new member's empty list matches the ledger, because an id off the roster has no loans. */
  lemma AddMemberKeepsLoans(members: seq<Member>, history: seq<BorrowRecord>, m: Member)
    requires LoansAgree(members, history) && NoStrayLoans(members, history)
    requires FindMember(members, m.memberId).None? && m.borrowed == []
    ensures LoansAgree(members + [m], history) && NoStrayLoans(members + [m], history)
  {
    var ms := members + [m];
    assert forall j :: 0 <= j < |members| ==> ms[j] == members[j];
    assert OnLoan(history, m.memberId) == multiset{};
    forall id | FindMember(ms, id).None? ensures OnLoan(history, id) == multiset{} {
      FindMemberAppend(members, m, id);
    }
  }

  /** update_member keeps the invariants: it changes neither an id nor a borrowed list. */
  lemma ReviseMemberKeepsSound(books: map<string, Book>, members: seq<Member>, history: seq<BorrowRecord>, i: nat, m: Member)
    requires i < |members|
    requires m.memberId == members[i].memberId && m.borrowed == members[i].borrowed
    ensures Sound(books, members, history) ==> Sound(books, members[i := m], history)
  {
    var ms := members[i := m];
    SameIds(members, ms);
    assert forall j :: 0 <= j < |ms| ==> ms[j].borrowed == members[j].borrowed && ms[j].memberId == members[j].memberId;
  }

  /** Every member left after a removal was a member before, with the same record. */
  lemma RemoveAtKeepsLoans(members: seq<Member>, history: seq<BorrowRecord>, i: nat)
    requires i < |members| && WithinLimit(members) && LoansAgree(members, history)
    ensures WithinLimit(members[..i] + members[i + 1..]) && LoansAgree(members[..i] + members[i + 1..], history)
  {
    var rest := members[..i] + members[i + 1..];
    forall j | 0 <= j < |rest| ensures rest[j] == members[if j < i then j else j + 1] { }
  }

  /** delete_member keeps the invariants: it only removes a member with nothing on loan. */
  lemma DeleteMemberKeepsSound(books: map<string, Book>, members: seq<Member>, history: seq<BorrowRecord>, i: nat)
    requires i < |members| && members[i].borrowed == []
    ensures Sound(books, members, history) ==> Sound(books, members[..i] + members[i + 1..], history)
  {
    if Sound(books, members, history) {
      var rest := members[..i] + members[i + 1..];
      RemoveAtKeepsLoans(members, history, i);
      assert NoStrayLoans(rest, history) by {
        forall id | FindMember(rest, id).None? ensures OnLoan(history, id) == multiset{} {
          RemoveAtKeepsIds(members, i, id);
          if id == members[i].memberId {
            assert multiset(members[i].borrowed) == multiset{};
          }
        }
      }
      RemoveAtKeepsIds(members, i, members[i].memberId);
    }
  }

  /** The borrowed list of member i after borrowing `isbn`. */
  function WithLoan(members: seq<Member>, i: nat, isbn: string): (ms: seq<Member>)
    requires i < |members|
  {
    members[i := members[i].(borrowed := members[i].borrowed + [isbn])]
  }

  /** The borrowed list of member i after returning `isbn`, when it is on the list. */
  function WithoutLoan(members: seq<Member>, i: nat, isbn: string): (ms: seq<Member>)
    requires i < |members| && isbn in members[i].borrowed
  {
    members[i := members[i].(borrowed := RemoveFirst(members[i].borrowed, isbn))]
  }

  /** Changing only borrowed lists leaves every lookup and the uniqueness of ids alone. */
  lemma SameIds(members: seq<Member>, ms: seq<Member>)
    requires |ms| == |members|
    requires forall j :: 0 <= j < |ms| ==> ms[j].memberId == members[j].memberId
    ensures UniqueIds(ms) <==> UniqueIds(members)
    ensures forall id :: FindMember(ms, id) == FindMember(members, id)
  {
    forall id ensures FindMember(ms, id) == FindMember(members, id) {
      FindMemberByIds(ms, members, id);
    }
  }

  /** After a borrow, the borrower's list gains the ISBN the ledger gains, and every other
      member's list and loans stay as they were. */
  lemma BorrowKeepsLoansAgree(members: seq<Member>, history: seq<BorrowRecord>, i: nat, r: BorrowRecord)
    requires UniqueIds(members) && LoansAgree(members, history) && i < |members|
    requires r.memberId == members[i].memberId && IsActive(r)
    ensures LoansAgree(WithLoan(members, i, r.isbn), history + [r])
  {
    var ms := WithLoan(members, i, r.isbn);
    OnLoanAppend(history, r);
    forall j | 0 <= j < |ms| ensures multiset(ms[j].borrowed) == OnLoan(history + [r], ms[j].memberId) {
      if j == i {
        assert multiset(ms[i].borrowed) == multiset(members[i].borrowed) + multiset{r.isbn};
      } else {
        assert members[j].memberId != members[i].memberId;
      }
    }
  }

  /** After a borrow, still nobody off the roster has a loan: the new one is the borrower's. */
  lemma BorrowKeepsNoStrayLoans(members: seq<Member>, history: seq<BorrowRecord>, i: nat, r: BorrowRecord)
    requires NoStrayLoans(members, history) && i < |members| && r.memberId == members[i].memberId
    ensures NoStrayLoans(WithLoan(members, i, r.isbn), history + [r])
  {
    var ms := WithLoan(members, i, r.isbn);
    SameIds(members, ms);
    OnLoanAppend(history, r);
  }

  /** After a borrow of a book with a free copy, no book has more copies out than it has. */
  lemma BorrowKeepsWithinCopies(books: map<string, Book>, history: seq<BorrowRecord>, r: BorrowRecord)
    requires WithinCopies(books, history) && r.isbn in books
    requires books[r.isbn].totalCopies - ActiveCount(history, r.isbn) > 0
    ensures WithinCopies(books, history + [r])
  {
    ActiveCountAppend(history, r);
  }

  /** A successful borrow keeps the invariants: the copy was free, the member was under the
      limit, and the new record and the new list entry name the same member and book. */
  lemma BorrowKeepsSound(books: map<string, Book>, members: seq<Member>, history: seq<BorrowRecord>, i: nat, r: BorrowRecord)
    requires i < |members|
    requires r.isbn in books && r.memberId == members[i].memberId && IsActive(r)
    requires books[r.isbn].totalCopies - ActiveCount(history, r.isbn) > 0
    requires |members[i].borrowed| < BorrowLimit
    ensures Sound(books, members, history) ==> Sound(books, WithLoan(members, i, r.isbn), history + [r])
  {
    if Sound(books, members, history) {
      SameIds(members, WithLoan(members, i, r.isbn));
      BorrowKeepsLoansAgree(members, history, i, r);
      BorrowKeepsNoStrayLoans(members, history, i, r);
      BorrowKeepsWithinCopies(books, history, r);
    }
  }

  /** In a sound library an open loan is always on its member's borrowed list. */
  lemma OpenLoanListed(members: seq<Member>, history: seq<BorrowRecord>, i: nat, k: nat)
    requires LoansAgree(members, history) && i < |members| && k < |history|
    requires IsActive(history[k]) && history[k].memberId == members[i].memberId
    ensures history[k].isbn in members[i].borrowed
  {
    OnLoanHas(history, k);
    assert history[k].isbn in multiset(members[i].borrowed);
  }

  /** After a return, the member's list loses the ISBN whose record was closed, and every other
      member's list and loans stay as they were. */
  lemma ReturnKeepsLoansAgree(members: seq<Member>, history: seq<BorrowRecord>, i: nat, k: nat, today: int)
    requires UniqueIds(members) && LoansAgree(members, history) && i < |members| && k < |history|
    requires IsActive(history[k]) && history[k].memberId == members[i].memberId
    requires history[k].isbn in members[i].borrowed
    ensures LoansAgree(WithoutLoan(members, i, history[k].isbn), history[k := Close(history[k], today)])
  {
    var ms := WithoutLoan(members, i, history[k].isbn);
    forall j | 0 <= j < |ms| ensures multiset(ms[j].borrowed) == OnLoan(history[k := Close(history[k], today)], ms[j].memberId) {
      OnLoanClose(history, k, today, ms[j].memberId);
      if j != i {
        assert members[j].memberId != members[i].memberId;
      }
    }
  }

  /** After a return, still nobody off the roster has a loan: loans only shrink. */
  lemma ReturnKeepsNoStrayLoans(members: seq<Member>, history: seq<BorrowRecord>, i: nat, k: nat, today: int)
    requires NoStrayLoans(members, history) && i < |members| && k < |history| && IsActive(history[k])
    requires history[k].isbn in members[i].borrowed
    ensures NoStrayLoans(WithoutLoan(members, i, history[k].isbn), history[k := Close(history[k], today)])
  {
    var ms := WithoutLoan(members, i, history[k].isbn);
    SameIds(members, ms);
    forall id | FindMember(ms, id).None? ensures OnLoan(history[k := Close(history[k], today)], id) == multiset{} {
      OnLoanClose(history, k, today, id);
    }
  }

  /** After a return, copy counts only shrink. */
  lemma ReturnKeepsWithinCopies(books: map<string, Book>, history: seq<BorrowRecord>, k: nat, today: int)
    requires WithinCopies(books, history) && k < |history| && IsActive(history[k])
    ensures WithinCopies(books, history[k := Close(history[k], today)])
  {
    forall x ensures ActiveCount(history[k := Close(history[k], today)], x) + Counted(history[k], x) == ActiveCount(history, x) {
      ActiveCountClose(history, k, today, x);
    }
  }

  /** A successful return keeps the invariants, and in a sound library the returned ISBN is
      always on the member's list, so `borrowed_books.remove` always happens. */
  lemma ReturnKeepsSound(books: map<string, Book>, members: seq<Member>, history: seq<BorrowRecord>, i: nat, k: nat, today: int)
    requires i < |members| && k < |history|
    requires IsActive(history[k]) && history[k].memberId == members[i].memberId
    ensures Sound(books, members, history) ==>
              && history[k].isbn in members[i].borrowed
              && Sound(books, WithoutLoan(members, i, history[k].isbn), history[k := Close(history[k], today)])
  {
    if Sound(books, members, history) {
      OpenLoanListed(members, history, i, k);
      var ms := WithoutLoan(members, i, history[k].isbn);
      SameIds(members, ms);
      assert WithinLimit(ms) by {
        assert |ms[i].borrowed| < |members[i].borrowed|;
      }
      ReturnKeepsLoansAgree(members, history, i, k, today);
      ReturnKeepsNoStrayLoans(members, history, i, k, today);
      ReturnKeepsWithinCopies(books, history, k, today);
    }
  }

  /** After a successful return in a sound library, every check of borrow_book passes for the
      same book and member: the book is still catalogued, the member still on the roster, a copy
      is free and the member is below the limit. */
  lemma ReturnFreesBorrow(books: map<string, Book>, members: seq<Member>, history: seq<BorrowRecord>, isbn: string, memberId: string, today: int)
    requires Sound(books, members, history)
    requires FindMember(members, memberId).Some? && LastActive(history, isbn, memberId).Some?
    ensures isbn in members[FindMember(members, memberId).value].borrowed
    ensures
      var i := FindMember(members, memberId).value;
      var k := LastActive(history, isbn, memberId).value;
      var ms := WithoutLoan(members, i, isbn);
      var h := history[k := Close(history[k], today)];
      && isbn in books
      && FindMember(ms, memberId) == Some(i)
      && books[isbn].totalCopies - ActiveCount(h, isbn) > 0
      && |ms[i].borrowed| < BorrowLimit
  {
    var i := FindMember(members, memberId).value;
    var k := LastActive(history, isbn, memberId).value;
    ReturnKeepsSound(books, members, history, i, k, today);
    var ms := WithoutLoan(members, i, isbn);
    SameIds(members, ms);
    ActiveCountZero(history, isbn);
    ActiveCountClose(history, k, today, isbn);
    assert |ms[i].borrowed| < |members[i].borrowed|;
  }

  class Library {
    /** `books`: ISBN -> book, with `bookOrder` holding the dict's insertion order. */
    var books: map<string, Book>
    var bookOrder: seq<string>
    var members: seq<Member>
    var history: seq<BorrowRecord>
    var users: map<string, User>

    /** The catalog has the shape of an insertion-ordered dict. */
    ghost predicate Valid()
      reads this
    {
      Indexed(bookOrder, books)
    }

    /** The library's invariants hold of its stores. */
    ghost predicate Consistent()
      reads this
    {
      Sound(books, members, history)
    }

    /** An empty library with the given login table. */
    constructor (users: map<string, User>)
      ensures Valid() && Consistent()
      ensures books == map[] && bookOrder == [] && members == [] && history == [] && this.users == users
    {
      books, bookOrder, members, history := map[], [], [], [];
      this.users := users;
      EmptySound();
    }

    /** add_book. */
    method AddBook(isbn: string, title: string, author: string, genre: string, totalCopies: int) returns (ok: bool)
      requires Valid()
      modifies this
      ensures Valid()
      ensures ok <==> isbn !in old(books) && genre in Genres
      ensures books == if ok then old(books)[isbn := Book(title, author, genre, totalCopies)] else old(books)
      ensures bookOrder == if ok then old(bookOrder) + [isbn] else old(bookOrder)
      ensures members == old(members) && history == old(history) && users == old(users)
      ensures old(Consistent()) ==> Consistent()
    {
      if isbn in books {
        return false;
      }
      if genre !in Genres {
        return false;
      }
      AddBookKeepsSound(books, members, history, isbn, Book(title, author, genre, totalCopies));
      books := books[isbn := Book(title, author, genre, totalCopies)];
      bookOrder := bookOrder + [isbn];
      return true;
    }

    /** update_book. The text fields are written before the copy count is checked, so a copy
        count below the number of copies out fails the call but leaves the new title, author and
        genre in place. */
    method UpdateBook(isbn: string, title: Option<string>, author: Option<string>, genre: Option<string>, totalCopies: Option<int>)
      returns (ok: bool)
      requires Valid()
      modifies this
      ensures Valid()
      ensures ok <==> isbn in old(books) && GenreAccepted(genre) && (totalCopies.None? || totalCopies.value >= ActiveCount(history, isbn))
      ensures isbn !in old(books) || !GenreAccepted(genre) ==> books == old(books)
      ensures ok ==> books == old(books)[isbn := Revise(old(books)[isbn], title, author, genre, totalCopies)]
      ensures !ok && isbn in old(books) && GenreAccepted(genre) ==>
        books == old(books)[isbn := Revise(old(books)[isbn], title, author, genre, None)]
      ensures bookOrder == old(bookOrder) && members == old(members) && history == old(history) && users == old(users)
      ensures old(Consistent()) ==> Consistent()
    {
      if isbn !in books {
        return false;
      }
      if Supplied(genre) && genre.value !in Genres {
        return false;
      }
      var book := Relabel(books[isbn], title, author, genre);
      if totalCopies.Some? {
        var borrowedCount := ActiveCount(history, isbn);
        if totalCopies.value < borrowedCount {
          // the book record is written in place, so the text fields are already changed
          ReviseBookKeepsSound(books, members, history, isbn, book);
          IndexedUpdate(bookOrder, books, isbn, book);
          books := books[isbn := book];
          return false;
        }
        book := book.(totalCopies := totalCopies.value);
      }
      ReviseBookKeepsSound(books, members, history, isbn, book);
      IndexedUpdate(bookOrder, books, isbn, book);
      books := books[isbn := book];
      return true;
    }

    /** delete_book. */
    method DeleteBook(isbn: string) returns (ok: bool)
      requires Valid()
      modifies this
      ensures Valid()
      ensures ok <==> isbn in old(books) && ActiveCount(old(history), isbn) == 0
      ensures books == if ok then old(books) - {isbn} else old(books)
      ensures bookOrder == if ok then Without(old(bookOrder), isbn) else old(bookOrder)
      ensures members == old(members) && history == old(history) && users == old(users)
      ensures old(Consistent()) ==> Consistent()
    {
      if isbn !in books {
        return false;
      }
      var borrowedCount := ActiveCount(history, isbn);
      if borrowedCount > 0 {
        return false;
      }
      WithoutIndexed(bookOrder, books, isbn);
      DeleteBookKeepsSound(books, members, history, isbn);
      books := books - {isbn};
      bookOrder := Without(bookOrder, isbn);
      return true;
    }

    /** add_member. */
    method AddMember(memberId: string, name: string, email: string) returns (ok: bool)
      requires Valid()
      modifies this
      ensures Valid()
      ensures ok <==> FindMember(old(members), memberId).None?
      ensures members == if ok then old(members) + [Member(memberId, name, email, [])] else old(members)
      ensures ok ==> FindMember(members, memberId) == Some(|old(members)|)
      ensures books == old(books) && bookOrder == old(bookOrder) && history == old(history) && users == old(users)
      ensures old(Consistent()) ==> Consistent()
    {
      if FindMember(members, memberId).Some? {
        return false;
      }
      FindMemberAppend(members, Member(memberId, name, email, []), memberId);
      AddMemberKeepsSound(books, members, history, Member(memberId, name, email, []));
      members := members + [Member(memberId, name, email, [])];
      return true;
    }

    /** update_member. */
    method UpdateMember(memberId: string, name: Option<string>, email: Option<string>) returns (ok: bool)
      requires Valid()
      modifies this
      ensures Valid()
      ensures ok <==> FindMember(old(members), memberId).Some?
      ensures ok ==>
        var i := FindMember(old(members), memberId).value;
        var m := old(members)[i];
        members == old(members)[i := m.(name := Overwrite(name, m.name), email := Overwrite(email, m.email))]
      ensures !ok ==> members == old(members)
      ensures FindMember(members, memberId) == FindMember(old(members), memberId)
      ensures books == old(books) && bookOrder == old(bookOrder) && history == old(history) && users == old(users)
      ensures old(Consistent()) ==> Consistent()
    {
      var found := FindMember(members, memberId);
      if found.None? {
        return false;
      }
      var i := found.value;
      var m := members[i];
      if Supplied(name) {
        m := m.(name := name.value);
      }
      if Supplied(email) {
        m := m.(email := email.value);
      }
      ReviseMemberKeepsSound(books, members, history, i, m);
      FindMemberByIds(members, members[i := m], memberId);
      members := members[i := m];
      return true;
    }

    /** delete_member. */
    method DeleteMember(memberId: string) returns (ok: bool)
      requires Valid()
      modifies this
      ensures Valid()
      ensures ok <==> FindMember(old(members), memberId).Some? && old(members)[FindMember(old(members), memberId).value].borrowed == []
      ensures ok ==>
        var i := FindMember(old(members), memberId).value;
        members == old(members)[..i] + old(members)[i + 1..]
      ensures !ok ==> members == old(members)
      ensures books == old(books) && bookOrder == old(bookOrder) && history == old(history) && users == old(users)
      ensures old(Consistent()) ==> Consistent()
    {
      var found := FindMember(members, memberId);
      if found.None? {
        return false;
      }
      var i := found.value;
      if members[i].borrowed != [] {
        return false;
      }
      DeleteMemberKeepsSound(books, members, history, i);
      members := members[..i] + members[i + 1..];
      return true;
    }

    /** search_books: the books whose `field` ("title" or "author"), lower-cased, contains the
        lower-cased query, in catalog order. */
    method SearchBooks(query: string, field: string) returns (results: seq<(string, Book)>)
      requires Valid()
      ensures results == Matching(bookOrder, books, Lower(query), field)
    {
      var q := Lower(query);
      results := [];
      var i := 0;
      while i < |bookOrder|
        invariant 0 <= i <= |bookOrder|
        invariant results == Matching(bookOrder[..i], books, q, field)
      {
        var isbn := bookOrder[i];
        var book := books[isbn];
        if field == "author" && Contains(Lower(book.author), q) {
          results := results + [(isbn, book)];
        } else if field == "title" && Contains(Lower(book.title), q) {
          results := results + [(isbn, book)];
        }
        assert bookOrder[..i + 1][..i] == bookOrder[..i];
        i := i + 1;
      }
      assert bookOrder[..i] == bookOrder;
    }

    /** borrow_book, on day `today`. The checks run in the order borrow_book makes them: the
        book exists, the member exists, a copy is free, the member is under the limit. */
    method BorrowBook(isbn: string, memberId: string, today: int) returns (ok: bool)
      requires Valid()
      modifies this
      ensures Valid()
      ensures ok <==>
        && isbn in old(books)
        && FindMember(old(members), memberId).Some?
        && old(books)[isbn].totalCopies - ActiveCount(old(history), isbn) > 0
        && |old(members)[FindMember(old(members), memberId).value].borrowed| < BorrowLimit
      ensures ok ==>
        var i := FindMember(old(members), memberId).value;
        var m := old(members)[i];
        && history == old(history) + [BorrowRecord(isbn, memberId, m.name, old(books)[isbn].title, today, today + BorrowDays, None)]
        && members == old(members)[i := m.(borrowed := m.borrowed + [isbn])]
      ensures !ok ==> history == old(history) && members == old(members)
      ensures ok ==> ActiveCount(history, isbn) == ActiveCount(old(history), isbn) + 1
      ensures FindMember(members, memberId) == FindMember(old(members), memberId)
      ensures books == old(books) && bookOrder == old(bookOrder) && users == old(users)
      ensures old(Consistent()) ==> Consistent()
    {
      if isbn !in books {
        return false;
      }
      var found := FindMember(members, memberId);
      if found.None? {
        return false;
      }
      var i := found.value;
      var borrowedCount := ActiveCount(history, isbn);
      var available := books[isbn].totalCopies - borrowedCount;
      if available <= 0 {
        return false;
      }
      if |members[i].borrowed| >= BorrowLimit {
        return false;
      }
      var record := BorrowRecord(isbn, memberId, members[i].name, books[isbn].title, today, today + BorrowDays, None);
      ActiveCountAppend(history, record);
      BorrowKeepsSound(books, members, history, i, record);
      FindMemberByIds(members, WithLoan(members, i, isbn), memberId);
      history := history + [record];
      members := members[i := members[i].(borrowed := members[i].borrowed + [isbn])];
      return true;
    }

    /** return_book, on day `today`: closes the member's most recent open loan of the book and
        takes one copy of the ISBN off the member's borrowed list. */
    method ReturnBook(isbn: string, memberId: string, today: int) returns (ok: bool)
      requires Valid()
      modifies this
      ensures Valid()
      ensures ok <==> FindMember(old(members), memberId).Some? && LastActive(old(history), isbn, memberId).Some?
      ensures ok ==>
        var k := LastActive(old(history), isbn, memberId).value;
        history == old(history)[k := Close(old(history)[k], today)]
      ensures ok ==>
        var i := FindMember(old(members), memberId).value;
        var m := old(members)[i];
        members == old(members)[i := m.(borrowed := if isbn in m.borrowed then RemoveFirst(m.borrowed, isbn) else m.borrowed)]
      ensures !ok ==> history == old(history) && members == old(members)
      ensures ok ==> ActiveCount(history, isbn) + 1 == ActiveCount(old(history), isbn)
      ensures FindMember(members, memberId) == FindMember(old(members), memberId)
      ensures books == old(books) && bookOrder == old(bookOrder) && users == old(users)
      ensures old(Consistent()) ==> Consistent()
    {
      var found := FindMember(members, memberId);
      if found.None? {
        return false;
      }
      var last := LastActive(history, isbn, memberId);
      if last.None? {
        return false;
      }
      var k := last.value;
      var i := found.value;
      ActiveCountClose(history, k, today, isbn);
      ReturnKeepsSound(books, members, history, i, k, today);
      history := history[k := Close(history[k], today)];
      if isbn in members[i].borrowed {
        FindMemberByIds(members, WithoutLoan(members, i, isbn), memberId);
        members := members[i := members[i].(borrowed := RemoveFirst(members[i].borrowed, isbn))];
      }
      return true;
    }

    /** get_member_borrow_history: every record of the member, open or closed, in ledger order. */
    function MemberBorrowHistory(memberId: string): (r: seq<BorrowRecord>)
      reads this
      ensures forall x :: x in r <==> x in history && x.memberId == memberId
    {
      RecordsOfMembers(history, memberId);
      RecordsOf(history, memberId)
    }

    /** get_active_borrows: every record with no return date, in ledger order. */
    function ActiveBorrows(): (r: seq<BorrowRecord>)
      reads this
      ensures forall x :: x in r <==> x in history && IsActive(x)
    {
      ActiveRecordsMembers(history);
      ActiveRecords(history)
    }

    /** find_member_by_username: the member a login is linked to, if the login exists, carries a
        member id, and that id is on the roster. */
    function MemberOfUser(username: string): (r: Option<nat>)
      reads this
      ensures r.Some? ==> username in users && users[username].memberId.Some?
      ensures r.Some? ==> r.value < |members| && members[r.value].memberId == users[username].memberId.value
      ensures r.None? <==> username !in users || users[username].memberId.None? || FindMember(members, users[username].memberId.value).None?
    {
      if username in users && users[username].memberId.Some? then FindMember(members, users[username].memberId.value) else None
    }

    /** verify_login: (true, role) for a known username with its password, (false, None) otherwise. */
    function VerifyLogin(username: string, password: string): (r: (bool, Option<string>))
      reads this
      ensures r.0 <==> username in users && users[username].password == password
      ensures r.0 ==> r.1 == Some(users[username].role)
      ensures !r.0 ==> r.1 == None
    {
      if username in users && users[username].password == password then (true, Some(users[username].role)) else (false, None)
    }
  }
}
