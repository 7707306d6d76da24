/** The borrow ledger: an append-only list of borrow records. Which loans are open and how many
    copies of a book are out are always worked out by scanning it. */
module Ledger {
  import opened Wrappers

  /** BORROW_DAYS: the loan period, in days. */
  const BorrowDays := 7

  /** One borrow. The member's name and the book's title are copied in at borrow time; dates are
      day numbers, and `dateReturned` is None while the loan is open. */
  datatype BorrowRecord = BorrowRecord(
    isbn: string,
    memberId: string,
    memberName: string,
    title: string,
    dateBorrowed: int,
    dueDate: int,
    dateReturned: Option<int>)

  predicate IsActive(r: BorrowRecord)
  {
    r.dateReturned.None?
  }

  /** `record["date_returned"] = today`. */
  function Close(r: BorrowRecord, today: int): (closed: BorrowRecord)
  {
    r.(dateReturned := Some(today))
  }

  /** What one record adds to a book's count of open loans. */
  function Counted(r: BorrowRecord, isbn: string): nat
  {
    if IsActive(r) && r.isbn == isbn then 1 else 0
  }

  /** What one record adds to a member's loans. */
  function Lent(r: BorrowRecord, memberId: string): multiset<string>
  {
    if IsActive(r) && r.memberId == memberId then multiset{r.isbn} else multiset{}
  }

  /** The number of copies of a book out on loan: the records for the book that have no return
      date. */
  function ActiveCount(h: seq<BorrowRecord>, isbn: string): (n: nat)
  {
    if h == [] then 0 else ActiveCount(h[..|h| - 1], isbn) + Counted(h[|h| - 1], isbn)
  }

  /** The ISBNs a member has on loan according to the ledger, one per open record. */
  function OnLoan(h: seq<BorrowRecord>, memberId: string): (loans: multiset<string>)
  {
    if h == [] then multiset{} else OnLoan(h[..|h| - 1], memberId) + Lent(h[|h| - 1], memberId)
  }

  /** Appending a record adds it to the count of its book when it is open, and to no other count. */
  lemma ActiveCountAppend(h: seq<BorrowRecord>, r: BorrowRecord)
    ensures forall isbn :: ActiveCount(h + [r], isbn) == ActiveCount(h, isbn) + Counted(r, isbn)
  {
    assert (h + [r])[..|h|] == h;
  }

  /** Appending a record adds its ISBN to its member's loans when it is open, and changes no
      other member's loans. */
  lemma OnLoanAppend(h: seq<BorrowRecord>, r: BorrowRecord)
    ensures forall id :: OnLoan(h + [r], id) == OnLoan(h, id) + Lent(r, id)
  {
    assert (h + [r])[..|h|] == h;
  }

  /** Closing an open record takes it out of its book's count and out of no other count. */
  lemma {:induction false} ActiveCountClose(h: seq<BorrowRecord>, k: nat, today: int, isbn: string)
    requires k < |h| && IsActive(h[k])
    ensures ActiveCount(h[k := Close(h[k], today)], isbn) + Counted(h[k], isbn) == ActiveCount(h, isbn)
    decreases |h|
  {
    var h', n := h[k := Close(h[k], today)], |h|;
    if k == n - 1 {
      assert h'[..n - 1] == h[..n - 1];
      assert Counted(h'[n - 1], isbn) == 0;
    } else {
      ActiveCountClose(h[..n - 1], k, today, isbn);
      assert h'[..n - 1] == h[..n - 1][k := Close(h[k], today)];
      assert h'[n - 1] == h[n - 1];
    }
  }

  /** Proof step for OnLoanClose: adding two multisets to a third in either order gives the
      same multiset. */
  lemma Swap(a: multiset<string>, b: multiset<string>, c: multiset<string>)
    ensures a + b + c == a + c + b
  {
  }

  /** Closing an open record takes its ISBN out of its member's loans and changes no other
      member's loans. */
  lemma {:induction false} OnLoanClose(h: seq<BorrowRecord>, k: nat, today: int, id: string)
    requires k < |h| && IsActive(h[k])
    ensures OnLoan(h[k := Close(h[k], today)], id) + Lent(h[k], id) == OnLoan(h, id)
    decreases |h|
  {
    var h', n := h[k := Close(h[k], today)], |h|;
    if k == n - 1 {
      assert h'[..n - 1] == h[..n - 1];
      assert Lent(h'[n - 1], id) == multiset{};
    } else {
      var pre := h[..n - 1][k := Close(h[k], today)];
      OnLoanClose(h[..n - 1], k, today, id);
      assert h'[..n - 1] == pre;
      assert h'[n - 1] == h[n - 1];
      Swap(OnLoan(pre, id), Lent(h[n - 1], id), Lent(h[k], id));
    }
  }

  /** A book's count is zero exactly when no open record is for that book. */
  lemma {:induction false} ActiveCountZero(h: seq<BorrowRecord>, isbn: string)
    ensures ActiveCount(h, isbn) == 0 <==> forall i :: 0 <= i < |h| && IsActive(h[i]) ==> h[i].isbn != isbn
    decreases |h|
  {
    if h != [] {
      ActiveCountZero(h[..|h| - 1], isbn);
      assert forall i :: 0 <= i < |h| - 1 ==> h[..|h| - 1][i] == h[i];
    }
  }

  /** Every open record of a member puts its ISBN among that member's loans. */
  lemma {:induction false} OnLoanHas(h: seq<BorrowRecord>, k: nat)
    requires k < |h| && IsActive(h[k])
    ensures h[k].isbn in OnLoan(h, h[k].memberId)
    decreases |h|
  {
    if k < |h| - 1 {
      OnLoanHas(h[..|h| - 1], k);
    }
  }

  /** An open loan of this book by this member. */
  predicate IsOpenLoan(r: BorrowRecord, isbn: string, memberId: string)
  {
    r.isbn == isbn && r.memberId == memberId && IsActive(r)
  }

  /** The most recent open loan of the book by the member: `next(r for r in reversed(borrow_history)
      if ...)`, given as a position in the ledger. */
  function LastActive(h: seq<BorrowRecord>, isbn: string, memberId: string): (r: Option<nat>)
    ensures r.Some? ==> r.value < |h| && IsOpenLoan(h[r.value], isbn, memberId)
    ensures r.Some? ==> forall j :: r.value < j < |h| ==> !IsOpenLoan(h[j], isbn, memberId)
    ensures r.None? <==> forall j :: 0 <= j < |h| ==> !IsOpenLoan(h[j], isbn, memberId)
  {
    if h == [] then None
    else if IsOpenLoan(h[|h| - 1], isbn, memberId) then Some(|h| - 1)
    else LastActive(h[..|h| - 1], isbn, memberId)
  }

  /** get_member_borrow_history: a member's records, open and closed, in ledger order. */
  function RecordsOf(h: seq<BorrowRecord>, memberId: string): (r: seq<BorrowRecord>)
  {
    if h == [] then []
    else RecordsOf(h[..|h| - 1], memberId) + (if h[|h| - 1].memberId == memberId then [h[|h| - 1]] else [])
  }

  /** get_active_borrows: the open records, in ledger order. */
  function ActiveRecords(h: seq<BorrowRecord>): (r: seq<BorrowRecord>)
  {
    if h == [] then []
    else ActiveRecords(h[..|h| - 1]) + (if IsActive(h[|h| - 1]) then [h[|h| - 1]] else [])
  }

  /** A member's history holds exactly the ledger's records for that member. */
  lemma {:induction false} RecordsOfMembers(h: seq<BorrowRecord>, memberId: string)
    ensures forall x :: x in RecordsOf(h, memberId) <==> x in h && x.memberId == memberId
    decreases |h|
  {
    if h != [] {
      RecordsOfMembers(h[..|h| - 1], memberId);
      assert h == h[..|h| - 1] + [h[|h| - 1]];
    }
  }

  /** The open records are exactly the ledger's records with no return date. */
  lemma {:induction false} ActiveRecordsMembers(h: seq<BorrowRecord>)
    ensures forall x :: x in ActiveRecords(h) <==> x in h && IsActive(x)
    decreases |h|
  {
    if h != [] {
      ActiveRecordsMembers(h[..|h| - 1]);
      assert h == h[..|h| - 1] + [h[|h| - 1]];
    }
  }

  /** A member's history keeps ledger order: the records of a longer ledger are those of its
      first part followed by those of the rest. */
  lemma {:induction false} RecordsOfConcat(a: seq<BorrowRecord>, b: seq<BorrowRecord>, memberId: string)
    ensures RecordsOf(a + b, memberId) == RecordsOf(a, memberId) + RecordsOf(b, memberId)
    decreases |b|
  {
    if b == [] {
      assert a + b == a;
    } else {
      var init, last := b[..|b| - 1], b[|b| - 1];
      RecordsOfConcat(a, init, memberId);
      assert (a + b)[..|a + b| - 1] == a + init;
      assert (a + b)[|a + b| - 1] == last;
      var tail := if last.memberId == memberId then [last] else [];
      assert RecordsOf(b, memberId) == RecordsOf(init, memberId) + tail;
      assert RecordsOf(a + b, memberId) == RecordsOf(a + init, memberId) + tail;
    }
  }

  /** The open records keep ledger order in the same way. */
  lemma {:induction false} ActiveRecordsConcat(a: seq<BorrowRecord>, b: seq<BorrowRecord>)
    ensures ActiveRecords(a + b) == ActiveRecords(a) + ActiveRecords(b)
    decreases |b|
  {
    if b == [] {
      assert a + b == a;
    } else {
      var init, last := b[..|b| - 1], b[|b| - 1];
      ActiveRecordsConcat(a, init);
      assert (a + b)[..|a + b| - 1] == a + init;
      assert (a + b)[|a + b| - 1] == last;
      var tail := if IsActive(last) then [last] else [];
      assert ActiveRecords(b) == ActiveRecords(init) + tail;
      assert ActiveRecords(a + b) == ActiveRecords(a + init) + tail;
    }
  }
}
