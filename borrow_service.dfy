/**
 * The borrow service: the user, book and loan-record tables it works on, and
 * its operations, each proved to perform the matching transition of
 * `LoanWorkflow` and to keep the tables' invariants.
 */
module BorrowService {
  import opened Outcomes
  import opened Time
  import opened Entities
  import opened LoanQueries
  import opened LoanWorkflow
  import opened LoanProperties
  import opened BorrowRecordEntity

  class BorrowService {
    var users: map<ObjectId, User>
    var books: map<ObjectId, Book>
    var records: seq<Loan>

    function State(): Db
      reads this
    {
      Db(users, books, records)
    }

    ghost predicate Valid()
      reads this
    {
      LoanWorkflow.Valid(State())
    }

    /** A service over existing user and book tables and an empty loan table. */
    constructor (users: map<ObjectId, User>, books: map<ObjectId, Book>)
      requires StockNonNegative(books)
      ensures Valid() && State() == Db(users, books, [])
    {
      this.users := users;
      this.books := books;
      this.records := [];
    }

    /** `borrowBook(userId, bookId)`, with the clock read once as `now`. */
    method BorrowBook(userId: ObjectId, bookId: ObjectId, now: Instant) returns (r: Result<Loan, BorrowError>)
      requires Valid()
      modifies this
      ensures Valid()
      ensures (State(), r) == Borrow(old(State()), userId, bookId, now)
    {
      if userId !in users {
        return Failure(UserNotFound);
      }
      var user := users[userId];
      if bookId !in books {
        return Failure(BookNotFound);
      }
      var book := books[bookId];
      if book.availableCopies <= 0 {
        return Failure(OutOfStock);
      }
      var currentBorrows := Find(records, ByUserAndStatus(userId, Borrowed));
      if |currentBorrows| >= user.maxBorrow {
        return Failure(LimitExceeded);
      }
      var alreadyBorrowed := exists x :: x in currentBorrows && x.bookId == bookId;
      if alreadyBorrowed {
        return Failure(AlreadyBorrowed);
      }
      ghost var db := State();
      assert BorrowCheck(db, userId, bookId) == None;

      var record := NewBorrowRecord(userId, user.username, bookId, book.title, now);

      books := books[bookId := book.(availableCopies := book.availableCopies - 1)];

      var saved := record.Saved(|records|);
      records := records + [saved];
      r := Success(saved);
      BorrowPreservesValid(db, userId, bookId, now);
    }

    /** `returnBook(borrowRecordId)`. */
    method ReturnBook(recordId: ObjectId, now: Instant) returns (r: Result<Loan, LoanError>)
      requires Valid()
      modifies this
      ensures Valid()
      ensures (State(), r) == Return(old(State()), recordId, now)
    {
      ReturnPreservesValid(State(), recordId, now);
      if recordId >= |records| {
        return Failure(RecordNotFound);
      }
      var record := records[recordId];
      if record.status != Borrowed {
        return Failure(NotBorrowed);
      }
      record := record.(returnDate := Some(now), status := Returned);
      if record.bookId in books {
        var book := books[record.bookId];
        books := books[record.bookId := book.(availableCopies := book.availableCopies + 1)];
      }
      records := records[recordId := record];
      r := Success(record);
    }

    /** `renewBook(borrowRecordId)`. */
    method RenewBook(recordId: ObjectId) returns (r: Result<Loan, LoanError>)
      requires Valid()
      modifies this
      ensures Valid()
      ensures (State(), r) == Renew(old(State()), recordId)
    {
      RenewPreservesValid(State(), recordId);
      if recordId >= |records| {
        return Failure(RecordNotFound);
      }
      var record := records[recordId];
      if record.status != Borrowed {
        return Failure(NotBorrowed);
      }
      record := record.(dueDate := PlusDays(record.dueDate, LOAN_DAYS));
      records := records[recordId := record];
      r := Success(record);
    }

    /** `getOverdueRecords()`: a read that flips every past-due `BORROWED` record to `OVERDUE`. */
    method GetOverdueRecords(now: Instant) returns (overdue: seq<Loan>)
      requires Valid()
      modifies this
      ensures Valid()
      ensures (State(), overdue) == OverdueScan(old(State()), now)
    {
      ghost var db := State();
      var rs;
      rs, overdue := ScanForOverdue(records, now);
      records := rs;
      OverdueScanPreservesValid(db, now);
    }

    /** `getBorrowStatistics()`; the current count is taken before the overdue scan runs. */
    method GetBorrowStatistics(now: Instant) returns (stats: BorrowStats)
      requires Valid()
      modifies this
      ensures Valid()
      ensures (State(), stats) == Statistics(old(State()), now)
    {
      var totalBorrows := |records|;
      var currentBorrows := |Find(records, ByStatus(Borrowed))|;
      var overdueRecords := GetOverdueRecords(now);
      var returnedBorrows := |Find(records, ByStatus(Returned))|;
      stats := BorrowStats(totalBorrows, currentBorrows, |overdueRecords|, returnedBorrows);
    }

    /** `getUserBorrowStatistics(userId)`, a pure read over the user's records. */
    function GetUserBorrowStatistics(userId: ObjectId): (st: UserStats)
      reads this
      ensures st.currentBorrows + st.overdueCount + st.returnedCount == st.totalBorrows
      ensures st.currentBorrows == |ActiveLoans(records, userId)|
      ensures st.totalBorrows == Count(records, ByUser(userId))
      ensures st.firstBorrowDate.None? <==> st.totalBorrows == 0
      ensures st.firstBorrowDate.Some? ==> st.lastBorrowDate.Some? && st.firstBorrowDate.value <= st.lastBorrowDate.value
    {
      var rs := Find(records, ByUser(userId));
      UserStatisticsPartition(rs);
      UserCurrentIsLimitCount(records, userId);
      FirstNotAfterLast(rs);
      UserStatistics(rs)
    }
  }

  /**
   * The filter-and-save pipeline of `getOverdueRecords`, walked once over the
   * table: each `BORROWED` record due before `now` is saved as `OVERDUE` where
   * it stands and collected, in store order.
   */
  method ScanForOverdue(rs0: seq<Loan>, now: Instant) returns (rs: seq<Loan>, overdue: seq<Loan>)
    ensures rs == MarkOverdue(rs0, now)
    ensures overdue == SetAllOverdue(Find(Find(rs0, ByStatus(Borrowed)), DueBefore(now)))
  {
    rs := rs0;
    overdue := [];
    var i := 0;
    while i < |rs0|
      invariant 0 <= i <= |rs0| == |rs|
      invariant forall j :: 0 <= j < i ==>
        rs[j] == if rs0[j].status == Borrowed && rs0[j].dueDate < now then rs0[j].(status := Overdue) else rs0[j]
      invariant forall j :: i <= j < |rs| ==> rs[j] == rs0[j]
      invariant overdue == SetAllOverdue(Find(rs0[..i], PastDue(now)))
    {
      var record := rs0[i];
      ScanStep(rs0, i, now);
      if record.status == Borrowed && record.dueDate < now {
        record := record.(status := Overdue);
        rs := rs[i := record];
        overdue := overdue + [record];
      }
      i := i + 1;
    }
    assert rs0[..i] == rs0;
    FindFind(rs0, ByStatus(Borrowed), DueBefore(now));
  }

  /** A new record filled in by the setters the way `borrowBook` does. */
  method NewBorrowRecord(userId: ObjectId, username: string, bookId: ObjectId, bookTitle: string, now: Instant)
    returns (record: BorrowRecord)
    ensures fresh(record) && record.Complete()
    ensures record.Fields() == RecordFields(None, Some(userId), Some(username), Some(bookId), Some(bookTitle),
                                            Some(now), None, Some(PlusDays(now, LOAN_DAYS)), Some(Borrowed), Some(now))
  {
    record := new BorrowRecord(now);
    record.SetUserId(Some(userId));
    record.SetUsername(Some(username));
    record.SetBookId(Some(bookId));
    record.SetBookTitle(Some(bookTitle));
    record.SetBorrowDate(Some(now));
    record.SetDueDate(Some(PlusDays(now, LOAN_DAYS)));
    record.SetStatus(Some(Borrowed));
  }

  /**
   * Scenario: a reader borrows a book and returns it; the stock goes down by
   * one and comes back, and a second return of the same loan is refused.
   */
  method BorrowReturnScenario(now: Instant)
  {
    var reader := User(1, "u1", "p", "U1", "u1@x", "READER", 5);
    var book := Book(7, "B1", "A", "I", 3, 3);
    var s := new BorrowService(map[1 := reader], map[7 := book]);
    var r := s.BorrowBook(1, 7, now);
    assert r.Success? && r.value.dueDate == r.value.borrowDate + LOAN_PERIOD;
    assert s.books[7].availableCopies == 2;
    var back := s.ReturnBook(r.value.id, now + 1);
    assert back.Success? && s.books[7].availableCopies == 3;
    var again := s.ReturnBook(r.value.id, now + 2);
    assert again == Failure(NotBorrowed);
  }
}
