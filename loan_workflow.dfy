/**
 * The loan workflow of the borrow service as pure transitions over the three
 * tables it touches (users, books, loan records), with the invariants they
 * keep. The `BorrowService` class is proved to follow these transitions.
 */
module LoanWorkflow {
  import opened Outcomes
  import opened Time
  import opened Entities
  import opened LoanQueries

  datatype Db = Db(users: map<ObjectId, User>, books: map<ObjectId, Book>, records: seq<Loan>)

  /** Why a borrow is refused, one kind per guard, in the order the guards run. */
  datatype BorrowError = UserNotFound | BookNotFound | OutOfStock | LimitExceeded | AlreadyBorrowed

  /** Why a return or a renewal is refused. */
  datatype LoanError = RecordNotFound | NotBorrowed

  /** Thirty days, in seconds. */
  const LOAN_PERIOD: int := LOAN_DAYS * SECONDS_PER_DAY

  // ---------------------------------------------------------------------------
  // Invariants of the tables
  // ---------------------------------------------------------------------------

  /** The store assigns a record's id; here the id is the record's position. */
  predicate IdsArePositions(rs: seq<Loan>)
  {
    forall i :: 0 <= i < |rs| ==> rs[i].id == i
  }

  predicate ReturnDateIffReturned(rs: seq<Loan>)
  {
    forall i :: 0 <= i < |rs| ==> (rs[i].returnDate.Some? <==> rs[i].status == Returned)
  }

  /** The due date is the borrow date plus a positive whole number of loan periods. */
  predicate OnSchedule(r: Loan)
  {
    r.dueDate - r.borrowDate >= LOAN_PERIOD && (r.dueDate - r.borrowDate) % LOAN_PERIOD == 0
  }

  predicate DueOnSchedule(rs: seq<Loan>)
  {
    forall i :: 0 <= i < |rs| ==> OnSchedule(rs[i])
  }

  predicate StockNonNegative(books: map<ObjectId, Book>)
  {
    forall b :: b in books ==> books[b].availableCopies >= 0
  }

  function Cap(maxBorrow: int): nat
  {
    if maxBorrow > 0 then maxBorrow else 0
  }

  /** The user's `BORROWED` records: what `findByUserIdAndStatus(userId, "BORROWED")` returns. */
  function ActiveLoans(rs: seq<Loan>, u: ObjectId): seq<Loan>
  {
    Find(rs, ByUserAndStatus(u, Borrowed))
  }

  predicate WithinLimit(users: map<ObjectId, User>, rs: seq<Loan>)
  {
    forall u :: u in users ==> |ActiveLoans(rs, u)| <= Cap(users[u].maxBorrow)
  }

  /** No borrower holds two `BORROWED` records of the same book. */
  predicate NoDuplicateLoans(rs: seq<Loan>)
  {
    forall i, j :: 0 <= i < j < |rs| && rs[i].status == Borrowed && rs[j].status == Borrowed && rs[i].userId == rs[j].userId
      ==> rs[i].bookId != rs[j].bookId
  }

  predicate Valid(db: Db)
  {
    && IdsArePositions(db.records)
    && ReturnDateIffReturned(db.records)
    && DueOnSchedule(db.records)
    && StockNonNegative(db.books)
    && WithinLimit(db.users, db.records)
    && NoDuplicateLoans(db.records)
  }

  /** Copies of book `b` on the shelf plus copies out on loans not yet returned. */
  function Holdings(db: Db, b: ObjectId): int
    requires b in db.books
  {
    db.books[b].availableCopies + Count(db.records, OutstandingFor(b))
  }

  // ---------------------------------------------------------------------------
  // borrowBook
  // ---------------------------------------------------------------------------

  /** The five guards of `borrowBook`, in order; the first that fails decides. */
  function BorrowCheck(db: Db, u: ObjectId, b: ObjectId): Option<BorrowError>
  {
    if u !in db.users then Some(UserNotFound)
    else if b !in db.books then Some(BookNotFound)
    else if db.books[b].availableCopies <= 0 then Some(OutOfStock)
    else if |ActiveLoans(db.records, u)| >= db.users[u].maxBorrow then Some(LimitExceeded)
    else if exists r :: r in ActiveLoans(db.records, u) && r.bookId == b then Some(AlreadyBorrowed)
    else None
  }

  /** The record a successful borrow creates, with snapshots of the user's name and the book's title. */
  function NewLoan(db: Db, u: ObjectId, b: ObjectId, now: Instant): Loan
    requires u in db.users && b in db.books
  {
    Loan(|db.records|, u, db.users[u].username, b, db.books[b].title,
         now, PlusDays(now, LOAN_DAYS), None, Borrowed, now)
  }

  function Borrow(db: Db, u: ObjectId, b: ObjectId, now: Instant): (Db, Result<Loan, BorrowError>)
  {
    match BorrowCheck(db, u, b)
    case Some(e) => (db, Failure(e))
    case None =>
      var loan := NewLoan(db, u, b, now);
      var book := db.books[b];
      (db.(books := db.books[b := book.(availableCopies := book.availableCopies - 1)],
           records := db.records + [loan]),
       Success(loan))
  }

  // ---------------------------------------------------------------------------
  // returnBook and renewBook
  // ---------------------------------------------------------------------------

  function Return(db: Db, id: ObjectId, now: Instant): (Db, Result<Loan, LoanError>)
  {
    if id >= |db.records| then (db, Failure(RecordNotFound))
    else if db.records[id].status != Borrowed then (db, Failure(NotBorrowed))
    else
      var loan := db.records[id];
      var returned := loan.(returnDate := Some(now), status := Returned);
      var books :=
        if loan.bookId in db.books
        then db.books[loan.bookId := db.books[loan.bookId].(availableCopies := db.books[loan.bookId].availableCopies + 1)]
        else db.books;
      (db.(books := books, records := db.records[id := returned]), Success(returned))
  }

  function Renew(db: Db, id: ObjectId): (Db, Result<Loan, LoanError>)
  {
    if id >= |db.records| then (db, Failure(RecordNotFound))
    else if db.records[id].status != Borrowed then (db, Failure(NotBorrowed))
    else
      var renewed := db.records[id].(dueDate := PlusDays(db.records[id].dueDate, LOAN_DAYS));
      (db.(records := db.records[id := renewed]), Success(renewed))
  }

  // ---------------------------------------------------------------------------
  // getOverdueRecords and the statistics
  // ---------------------------------------------------------------------------

  /** The status flip the scan applies to one record. */
  function Flag(r: Loan, now: Instant): Loan
  {
    if Matches(PastDue(now), r) then r.(status := Overdue) else r
  }

  /**
   * The table after the scan: each `BORROWED` record due before `now` is
   * `OVERDUE` where it stands, every other record is as it was, and no record
   * is left past due.
   */
  function MarkOverdue(rs: seq<Loan>, now: Instant): (rs': seq<Loan>)
    ensures |rs'| == |rs|
    ensures forall i :: 0 <= i < |rs| ==>
      rs'[i] == if rs[i].status == Borrowed && rs[i].dueDate < now then rs[i].(status := Overdue) else rs[i]
    ensures Find(rs', PastDue(now)) == []
  {
    UnfoldQueries();
    var rs' := seq(|rs|, i requires 0 <= i < |rs| => Flag(rs[i], now));
    FindNone(rs', PastDue(now));
    rs'
  }

  function SetAllOverdue(rs: seq<Loan>): (rs': seq<Loan>)
    ensures |rs'| == |rs|
    ensures forall i :: 0 <= i < |rs| ==> rs'[i] == rs[i].(status := Overdue)
  {
    seq(|rs|, i requires 0 <= i < |rs| => rs[i].(status := Overdue))
  }

  /**
   * `getOverdueRecords`: the `BORROWED` records, filtered by due date, each set
   * to `OVERDUE` in the store and in the returned list.
   */
  function OverdueScan(db: Db, now: Instant): (Db, seq<Loan>)
  {
    (db.(records := MarkOverdue(db.records, now)),
     SetAllOverdue(Find(Find(db.records, ByStatus(Borrowed)), DueBefore(now))))
  }

  datatype BorrowStats = BorrowStats(totalBorrows: nat, currentBorrows: nat, overdueBorrows: nat, returnedBorrows: nat)

  /**
   * `getBorrowStatistics`: counts taken in the source's order, so the current
   * count is taken before the overdue scan flips records.
   */
  function Statistics(db: Db, now: Instant): (Db, BorrowStats)
  {
    var total := |db.records|;
    var current := Count(db.records, ByStatus(Borrowed));
    var scan := OverdueScan(db, now);
    var returned := Count(scan.0.records, ByStatus(Returned));
    (scan.0, BorrowStats(total, current, |scan.1|, returned))
  }

  datatype UserStats = UserStats(
    currentBorrows: nat,
    overdueCount: nat,
    totalBorrows: nat,
    returnedCount: nat,
    avgBorrowDays: int,
    lastBorrowDate: Option<Instant>,
    firstBorrowDate: Option<Instant>)

  /** Whole days each record with a return date was out, summed. */
  function TotalBorrowDays(rs: seq<Loan>): int
  {
    if rs == [] then 0
    else
      (match rs[0].returnDate
       case Some(t) => DaysBetween(rs[0].borrowDate, t)
       case None => 0)
      + TotalBorrowDays(rs[1..])
  }

  /** The latest borrow date; `None` is the "no records" sentinel. */
  function LastBorrowDate(rs: seq<Loan>): (last: Option<Instant>)
    ensures last.None? <==> rs == []
    ensures last.Some? ==> exists r :: r in rs && r.borrowDate == last.value
    ensures last.Some? ==> forall r :: r in rs ==> r.borrowDate <= last.value
  {
    if rs == [] then None
    else match LastBorrowDate(rs[1..])
      case None => Some(rs[0].borrowDate)
      case Some(t) => Some(if rs[0].borrowDate >= t then rs[0].borrowDate else t)
  }

  /** The earliest borrow date; `None` is the "no records" sentinel. */
  function FirstBorrowDate(rs: seq<Loan>): (first: Option<Instant>)
    ensures first.None? <==> rs == []
    ensures first.Some? ==> exists r :: r in rs && r.borrowDate == first.value
    ensures first.Some? ==> forall r :: r in rs ==> first.value <= r.borrowDate
  {
    if rs == [] then None
    else match FirstBorrowDate(rs[1..])
      case None => Some(rs[0].borrowDate)
      case Some(t) => Some(if rs[0].borrowDate <= t then rs[0].borrowDate else t)
  }

  /** `getUserBorrowStatistics` over the user's records (`findByUserId`). */
  function UserStatistics(rs: seq<Loan>): UserStats
  {
    var returned := Count(rs, ByStatus(Returned));
    UserStats(
      Count(rs, ByStatus(Borrowed)),
      Count(rs, ByStatus(Overdue)),
      |rs|,
      returned,
      if returned > 0 then TruncDiv(TotalBorrowDays(rs), returned) else LOAN_DAYS,
      LastBorrowDate(rs),
      FirstBorrowDate(rs))
  }

  function UserBorrowStatistics(db: Db, u: ObjectId): UserStats
  {
    UserStatistics(Find(db.records, ByUser(u)))
  }
}
