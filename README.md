# Mini library management system: the data layer, modelled in Dafny

This project models `operations.py`, the data layer of a small library management
system. It covers four in-memory stores:

- the catalog `books`: ISBN to title, author, genre and total number of copies;
- the roster `members`: a list of members, each with the ISBNs they currently have on loan;
- the ledger `borrow_history`: an append-only list of borrow records whose return date
  is filled in on return;
- the login table `users`.

The stores are the fields of one class, `Operations.Library`. The catalog is a map together
with the insertion order of its keys, as a Python dict iterates. Each operation that changes
a store is a method of that class. Each method states its boolean result as an
if-and-only-if over the checks the operation makes, in the order it makes them. It also states the
whole new state of every store.

The derived quantities are recursive functions over the ledger:

- the number of copies of a book currently out (`Ledger.ActiveCount`);
- the ISBNs a member has on loan (`Ledger.OnLoan`);
- the most recent open loan of a book by a member (`Ledger.LastActive`).

Their laws are lemmas.

The library's business invariant is `Operations.Sound`:

- member ids are unique;
- no member holds more than three books;
- every member's borrowed list agrees, copy for copy, with the member's open ledger records;
- nobody off the roster has an open loan;
- no book has more copies out than it has copies.

Every method keeps it (`old(Consistent()) ==> Consistent()`), through one lemma per operation.

Modules, in dependency order:

- `Wrappers`: `Option`.
- `Arguments`: Python's truthiness test on an optional text argument of update_book and
  update_member (`Supplied`, `Overwrite`).
- `Text`: ASCII lower-casing and substring search.
- `Catalog`: books, genres, the book-revision function, the dict key order, and the search
  specification.
- `Roster`: members, `find_member`, and the list operations `members.remove` and
  `list.remove`.
- `Ledger`: borrow records, the loan counts, and the history queries.
- `Operations`: the invariant, its preservation lemmas, and the `Library` class.
- `Scenarios`: client workflows. These are the lending sequence of the repository's
  test script, deleting a member with nothing on loan, the partial update, and borrowing
  again after a return.

Dates are integer day numbers. The current day is a parameter of `BorrowBook` and
`ReturnBook`, and the due date is that day plus `BorrowDays` (7).

Three behaviours of the code a reader might not expect, all reproduced:

- `update_book` is not all-or-nothing. The title, author and genre are written before the
  copy count is checked, so a refused copy count leaves the new text fields in place.
  `UpdateBook` states this, and `Scenarios.PartialUpdate` shows it.
- `add_book` does not check the copy count, so a book can be entered with a negative
  number of copies. The copy invariant is therefore stated as "no copies out, or no more
  than the book has". It reads as "copies out never exceed total copies" exactly when the
  entered count is not negative. A book with a negative count can never be lent.
- An optional text argument that is the empty string counts as not given. This follows
  Python's `if title:`. A copy count of 0 counts as given (`is not None`).

## Model

| member | source | states |
|---|---|---|
| Text.Lower | operations.py:123 | lower-casing keeps the length and lower-cases each ASCII capital letter, position by position |
| Text.LowerIdempotent | operations.py:123 | lower-cased text has no capital letter left, so lower-casing twice is lower-casing once |
| Text.ContainsOccurs | operations.py:126-128 | the substring test `q in s` holds exactly when q occurs in s at some offset |
| Text.ContainsEmpty | operations.py:126-128 | the empty string is a substring of every string |
| Arguments.OverwriteSettles | operations.py:75-77 | a given argument is written under `if arg:`; writing it twice is writing it once; and the field is left as it was exactly when the argument is missing, empty, or already the field's value |
| Catalog.Revise | operations.py:75-83 | update_book's writes set every supplied field to its argument and change no other field, so a call supplying nothing leaves the book as it was |
| Catalog.ReviseIdempotent | operations.py:75-83 | applying the same update twice gives the book that applying it once does |
| Catalog.Relabel | operations.py:75-77 | the three sequential `if arg: book[field] = arg` writes yield the book revised in title, author and genre, with the copy count untouched |
| Catalog.IndexedUpdate | operations.py:75-83 | overwriting the record of a present ISBN keeps the catalog's key order and key set |
| Catalog.Without | operations.py:93 | the key order after `del books[isbn]` holds exactly the other keys |
| Catalog.WithoutConcat | operations.py:93 | `del books[isbn]` keeps the other keys in their insertion order: what is left of a then b is what is left of a followed by what is left of b |
| Catalog.WithoutDistinct | operations.py:93 | deleting a key from a duplicate-free key order leaves it duplicate-free |
| Catalog.WithoutIndexed | operations.py:93 | after `del books[isbn]` the key order lists exactly the remaining keys, once each |
| Catalog.MatchingHits | operations.py:122-130 | an (ISBN, book) pair is a search result exactly when the ISBN is catalogued, the pair carries its book, and the book's chosen field, lower-cased, contains the query |
| Catalog.MatchingConcat | operations.py:125 | results follow catalog insertion order: the results over keys a then b are a's results followed by b's |
| Catalog.MatchingUnknownField | operations.py:126-129 | a `by` other than "title" or "author" finds nothing |
| Catalog.MatchingEmptyQuery | operations.py:122-130 | an empty query returns every book of the catalog, in order, for both "title" and "author" |
| Roster.FindMember | operations.py:49-50 | the position of the first member with the id; none exactly when no member has it |
| Roster.FindMemberByIds | operations.py:49-50 | the lookup depends only on the members' ids, position by position |
| Roster.FindMemberAppend | operations.py:101 | appending a member leaves earlier lookups alone and makes an unused id find the new member at the end |
| Roster.AppendKeepsIds | operations.py:99-101 | appending a member whose id is unused keeps member ids unique |
| Roster.RemoveAtKeepsIds | operations.py:118 | `members.remove(m)` keeps ids unique and drops exactly the removed member's id from the lookup |
| Roster.DropKeepsUnique | operations.py:118 | a list with one position dropped keeps its ids unique |
| Roster.DropKeepsLookup | operations.py:118 | a list with one position dropped finds every id except the dropped member's |
| Roster.FirstIndex | operations.py:186 | the first position holding the ISBN in a borrowed list |
| Roster.RemoveFirst | operations.py:186 | `list.remove(isbn)` removes exactly one copy of the ISBN: one element shorter, and the multiset loses one occurrence |
| Ledger.ActiveCountAppend | operations.py:147-168 | appending an open record raises its book's count of copies out by one and leaves every other count alone |
| Ledger.OnLoanAppend | operations.py:168-169 | appending an open record adds its ISBN to its member's loans and changes no other member's loans |
| Ledger.ActiveCountClose | operations.py:184 | setting the return date of an open record lowers its book's count by one and no other count |
| Ledger.OnLoanClose | operations.py:184 | setting the return date of an open record takes its ISBN out of its member's loans and changes no other member's loans |
| Ledger.ActiveCountZero | operations.py:90-91 | a book's count of copies out is zero exactly when no open record is for the book |
| Ledger.OnLoanHas | operations.py:180 | every open record's ISBN is among its member's loans |
| Ledger.LastActive | operations.py:180 | the position of the last open record for the book and member, found by scanning the reversed history; none exactly when there is no such record |
| Ledger.RecordsOfMembers | operations.py:191-192 | a member's history holds exactly the ledger's records for that member |
| Ledger.ActiveRecordsMembers | operations.py:194-195 | the active borrows are exactly the ledger's records without a return date |
| Ledger.RecordsOfConcat | operations.py:191-192 | a member's history keeps ledger order |
| Ledger.ActiveRecordsConcat | operations.py:194-195 | the active borrows keep ledger order |
| Operations.EmptySound | operations.py:7-28 | empty stores satisfy every invariant |
| Operations.AddBookKeepsSound | operations.py:59-66 | adding a new ISBN keeps the invariants |
| Operations.ReviseBookKeepsSound | operations.py:68-84 | revising a book whose new copy count is not below its copies out, or whose count is unchanged, keeps the invariants |
| Operations.DeleteBookKeepsSound | operations.py:86-94 | deleting a book with no copies out keeps the invariants |
| Operations.AddMemberKeepsSound | operations.py:97-102 | appending a member with an unused id and an empty list keeps the invariants |
| Operations.AddMemberKeepsLoans | operations.py:97-102 | the new member's empty list agrees with the ledger, and nobody off the new roster has a loan |
| Operations.ReviseMemberKeepsSound | operations.py:104-110 | changing a member's name or email keeps the invariants |
| Operations.RemoveAtKeepsLoans | operations.py:116-118 | removing a member keeps the borrow limit and the list-ledger agreement of those left |
| Operations.DeleteMemberKeepsSound | operations.py:112-119 | removing a member with an empty borrowed list keeps the invariants |
| Operations.SameIds | operations.py:169-186 | changing only borrowed lists changes no lookup and keeps ids unique |
| Operations.BorrowKeepsLoansAgree | operations.py:168-169 | after a borrow the borrower's list and loans both gain the ISBN, and nobody else's change |
| Operations.BorrowKeepsNoStrayLoans | operations.py:168-169 | after a borrow nobody off the roster has a loan |
| Operations.BorrowKeepsWithinCopies | operations.py:147-168 | a borrow of a book with a free copy keeps copies out within the book's copies |
| Operations.BorrowKeepsSound | operations.py:133-171 | a borrow that passes all four checks keeps the invariants, including the limit of three books |
| Operations.OpenLoanListed | operations.py:180-186 | in a library whose lists agree with the ledger, an open loan's ISBN is on its member's list |
| Operations.ReturnKeepsLoansAgree | operations.py:184-186 | after a return the member's list and loans both lose the ISBN, and nobody else's change |
| Operations.ReturnKeepsNoStrayLoans | operations.py:184-186 | after a return nobody off the roster has a loan |
| Operations.ReturnKeepsWithinCopies | operations.py:184 | a return keeps copies out within each book's copies |
| Operations.ReturnKeepsSound | operations.py:173-188 | a return keeps the invariants, and in a sound library the returned ISBN is always on the member's list, so `borrowed_books.remove` always runs |
| Operations.ReturnFreesBorrow | operations.py:138-188 | after a successful return every check of borrow_book passes for the same book and member |
| Operations.Library.constructor | operations.py:7-42 | a library with empty stores and the given login table satisfies the invariants |
| Operations.Library.AddBook | operations.py:59-66 | succeeds exactly when the ISBN is new and the genre is one of GENRES; then exactly one entry is added, at the end of the key order; otherwise nothing changes |
| Operations.Library.UpdateBook | operations.py:68-84 | fails with no change for an unknown ISBN or an unlisted supplied genre; fails for a copy count below the copies out, but with the supplied text fields already written and the copy count kept; otherwise applies every supplied field |
| Operations.Library.DeleteBook | operations.py:86-94 | succeeds exactly when the ISBN is catalogued and has no copies out; then removes it from the catalog and its key order; otherwise nothing changes |
| Operations.Library.AddMember | operations.py:97-102 | succeeds exactly when the id is unused; then appends one member with an empty borrowed list, whom the id now finds; otherwise nothing changes |
| Operations.Library.UpdateMember | operations.py:104-110 | succeeds exactly when the id is on the roster; then overwrites the supplied name and email of the first member with that id; otherwise nothing changes |
| Operations.Library.DeleteMember | operations.py:112-119 | succeeds exactly when the member exists and has nothing on loan; then removes that member; otherwise nothing changes |
| Operations.Library.SearchBooks | operations.py:122-130 | the appending loop returns exactly the catalog-ordered matches of the lower-cased query in the chosen field |
| Operations.Library.BorrowBook | operations.py:133-171 | succeeds exactly when the book exists, the member exists, a copy is free and the member holds fewer than three books; then appends one open record with the member's name, the book's title, the day and the day plus 7, adds the ISBN to that member's list, and raises the copies out by one; otherwise nothing changes |
| Operations.Library.ReturnBook | operations.py:173-188 | succeeds exactly when the member exists and has an open record for the book; then sets the return date on the last such record only, removes one copy of the ISBN from the member's list if present, and lowers the copies out by one; otherwise nothing changes |
| Operations.Library.MemberBorrowHistory | operations.py:191-192 | exactly the ledger's records for the member |
| Operations.Library.ActiveBorrows | operations.py:194-195 | exactly the ledger's records without a return date |
| Operations.Library.MemberOfUser | operations.py:52-56 | the member a login is linked to, when the login exists, carries a member id and that id is on the roster; none otherwise |
| Operations.Library.VerifyLogin | operations.py:207-212 | (true, role) exactly when the username exists and the password matches; (false, none) otherwise |
| Scenarios.BorrowUntilRefused | Test.py:25-29 | a two-copy book with none out can be borrowed twice by a member with nothing on loan, and the third borrow is refused |
| Scenarios.ReturnThenBorrow | Test.py:31-35 | in a consistent library, a book that was just returned can be borrowed again by the same member |
| Scenarios.AddThenDelete | Test.py:37-39 | a newly added member has nothing on loan, so deleting them succeeds and restores the roster |
| Scenarios.PartialUpdate | operations.py:75-82 | a copy count below the copies out is refused after the new title has already been written |

## Left out

- `Demo.py` is not part of this model. It is the interactive menu layer: input loops, printing and role dispatch, with no behaviour beyond calling `operations.py`.
- The `print` messages of `borrow_book` and `return_book` are left out. They are a side channel; only the boolean results and the store changes are modelled.
- `date.today()`, `timedelta` and `isoformat` are left out. The current day is an integer parameter, and a due date is that day plus 7.
- The `.copy()` calls in `search_books` and in the query functions are left out. Dafny values are immutable, so a copy is the value itself.
- `get_all_borrow_history`, `list_all_books` and `list_all_members` are left out. Each returns a copy of one whole store, which in this model is a plain read of the field `history`, `books` (in `bookOrder` order) or `members`.
- Aliasing between the returned lists and the stores' own `borrowed_books` lists is not modelled, because members are values here. The shallow `m.copy()` of `list_all_members` shares those lists in the source.
- The `int(...)` coercion of `total_copies` is left out. The model takes an integer directly, so strings that parse, and the exception on ones that do not, are out of scope.
- The seed contents of `books`, `members` and `users` are left out. They are fixture values; the constructor takes the login table as a parameter and starts the other stores empty.
- `Text.Lower` is ASCII only. Python's Unicode-aware `str.lower()` is not modelled.
- `SearchBooks` takes the field explicitly. The source's default `by="title"` is the call with "title".
- The key order of the catalog is modelled as a sequence beside the map. The hash-table mechanics of a Python dict are not modelled.
- User records without a `member_id` key are `memberId == None`. A `member_id` that is present but bound to a non-string is not modelled.
