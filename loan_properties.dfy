/**
 * What the loan workflow guarantees: the guard order of a borrow, the effect
 * of each transition, the invariants every transition keeps, conservation of
 * copies, and the statistics.
 */
module LoanProperties {
  import opened Outcomes
  import opened Time
  import opened Entities
  import opened LoanQueries
  import opened LoanWorkflow

  // ---------------------------------------------------------------------------
  // borrowBook
  // ---------------------------------------------------------------------------

  /**
   * The guards run in order and the first failure wins; a refused borrow
   * changes no table.
   */
  lemma BorrowGuardOrder(db: Db, u: ObjectId, b: ObjectId, now: Instant)
    ensures var (db', r) := Borrow(db, u, b, now);
      && (u !in db.users ==> r == Failure(UserNotFound))
      && (u in db.users && b !in db.books ==> r == Failure(BookNotFound))
      && (u in db.users && b in db.books && db.books[b].availableCopies <= 0 ==> r == Failure(OutOfStock))
      && ((u in db.users && b in db.books && db.books[b].availableCopies > 0
           && |ActiveLoans(db.records, u)| >= db.users[u].maxBorrow)
          ==> r == Failure(LimitExceeded))
      && ((u in db.users && b in db.books && db.books[b].availableCopies > 0
           && |ActiveLoans(db.records, u)| < db.users[u].maxBorrow
           && (exists x :: x in ActiveLoans(db.records, u) && x.bookId == b))
          ==> r == Failure(AlreadyBorrowed))
      && ((u in db.users && b in db.books && db.books[b].availableCopies > 0
           && |ActiveLoans(db.records, u)| < db.users[u].maxBorrow
           && !(exists x :: x in ActiveLoans(db.records, u) && x.bookId == b))
          ==> r.Success?)
      && (r.Failure? ==> db' == db)
  {
  }

  /**
   * A successful borrow lowers that book's stock by one, appends one `BORROWED`
   * record due thirty days after it was made, and changes nothing else.
   */
  lemma BorrowEffects(db: Db, u: ObjectId, b: ObjectId, now: Instant)
    requires Borrow(db, u, b, now).1.Success?
    ensures var (db', r) := Borrow(db, u, b, now);
      && u in db.users && b in db.books
      && db'.users == db.users
      && b in db'.books && db'.books[b].availableCopies == db.books[b].availableCopies - 1
      && db'.books[b] == db.books[b].(availableCopies := db.books[b].availableCopies - 1)
      && (forall c :: c != b ==> (c in db'.books <==> c in db.books) && (c in db.books ==> db'.books[c] == db.books[c]))
      && db'.records == db.records + [r.value]
      && r.value.status == Borrowed && r.value.userId == u && r.value.bookId == b
      && r.value.username == db.users[u].username && r.value.bookTitle == db.books[b].title
      && r.value.borrowDate == now && r.value.dueDate == r.value.borrowDate + LOAN_PERIOD
      && r.value.returnDate == None
  {
  }

  /**
   * Only `BORROWED` records take part in the limit and duplicate guards: adding
   * a `RETURNED` or `OVERDUE` record, of any book, never changes a borrow's outcome.
   */
  lemma InactiveRecordsDoNotBlock(db: Db, u: ObjectId, b: ObjectId, r: Loan)
    requires r.status != Borrowed
    ensures BorrowCheck(db.(records := db.records + [r]), u, b) == BorrowCheck(db, u, b)
  {
    UnfoldQueries();
    var q := ByUserAndStatus(u, Borrowed);
    FindAppend(db.records, [r], q);
    FindSingle(r, q);
    assert ActiveLoans(db.records + [r], u) == ActiveLoans(db.records, u);
  }

  /** A book with no copy on the shelf cannot be borrowed by an existing user. */
  lemma NoStockNoBorrow(db: Db, u: ObjectId, b: ObjectId, now: Instant)
    requires u in db.users && b in db.books && db.books[b].availableCopies == 0
    ensures Borrow(db, u, b, now) == (db, Failure(OutOfStock))
  {
  }

  /** A borrow that succeeds leaves the borrower strictly below, or at, the limit. */
  lemma {:induction false} BorrowKeepsLimit(db: Db, u: ObjectId, b: ObjectId, now: Instant)
    requires Borrow(db, u, b, now).1.Success?
    ensures var db' := Borrow(db, u, b, now).0;
      Count(db'.records, ByUserAndStatus(u, Borrowed)) == Count(db.records, ByUserAndStatus(u, Borrowed)) + 1 <= db.users[u].maxBorrow
  {
    UnfoldQueries();
    var loan := Borrow(db, u, b, now).1.value;
    FindAppend(db.records, [loan], ByUserAndStatus(u, Borrowed));
    FindSingle(loan, ByUserAndStatus(u, Borrowed));
  }

  /** Borrowing a book the user already holds is refused while the first loan is `BORROWED`. */
  lemma {:induction false} SecondBorrowOfSameBookFails(db: Db, u: ObjectId, b: ObjectId, now: Instant, later: Instant)
    requires Borrow(db, u, b, now).1.Success?
    ensures var db' := Borrow(db, u, b, now).0;
      Borrow(db', u, b, later).1.Failure?
      && Borrow(db', u, b, later).1.error in {OutOfStock, LimitExceeded, AlreadyBorrowed}
  {
    UnfoldQueries();
    var (db', r) := Borrow(db, u, b, now);
    assert db'.records[|db.records|] == r.value;
    assert r.value in db'.records && Matches(ByUserAndStatus(u, Borrowed), r.value);
    assert r.value in ActiveLoans(db'.records, u);
  }

  // ---------------------------------------------------------------------------
  // returnBook and renewBook
  // ---------------------------------------------------------------------------

  /** A missing id, or a record that is not `BORROWED` (also `OVERDUE`), cannot be returned; nothing changes. */
  lemma ReturnRefusals(db: Db, id: ObjectId, now: Instant)
    ensures id >= |db.records| ==> Return(db, id, now) == (db, Failure(RecordNotFound))
    ensures id < |db.records| && db.records[id].status != Borrowed ==> Return(db, id, now) == (db, Failure(NotBorrowed))
  {
  }

  /**
   * A successful return marks the record `RETURNED` at `now` and puts one copy
   * back on the shelf, without any cap at the total; a book that no longer
   * exists is skipped.
   */
  lemma ReturnEffects(db: Db, id: ObjectId, now: Instant)
    requires Return(db, id, now).1.Success?
    ensures var (db', r) := Return(db, id, now);
      && id < |db.records| && db.records[id].status == Borrowed
      && r.value == db.records[id].(returnDate := Some(now), status := Returned)
      && db'.records == db.records[id := r.value]
      && db'.users == db.users
      && var b := db.records[id].bookId;
         (b in db.books ==> db'.books == db.books[b := db.books[b].(availableCopies := db.books[b].availableCopies + 1)])
         && (b !in db.books ==> db'.books == db.books)
  {
  }

  /** The stock after a return can exceed the total: the return path does not cap it. */
  lemma ReturnIsNotCapped()
    ensures var book := Book(0, "t", "a", "i", 1, 1);
      var loan := Loan(0, 0, "u", 0, "t", 0, LOAN_PERIOD, None, Borrowed, 0);
      var db := Db(map[], map[0 := book], [loan]);
      Return(db, 0, 1).1.Success? && Return(db, 0, 1).0.books[0].availableCopies > book.totalCopies
  {
  }

  /** Returning the same record twice fails the second time. */
  lemma ReturnTwiceFails(db: Db, id: ObjectId, now: Instant, later: Instant)
    requires Return(db, id, now).1.Success?
    ensures Return(Return(db, id, now).0, id, later) == (Return(db, id, now).0, Failure(NotBorrowed))
  {
  }

  /** A record the overdue scan has flagged can be neither returned nor renewed. */
  lemma OverdueIsStuck(db: Db, id: ObjectId, now: Instant)
    requires id < |db.records| && db.records[id].status == Overdue
    ensures Return(db, id, now) == (db, Failure(NotBorrowed))
    ensures Renew(db, id) == (db, Failure(NotBorrowed))
  {
  }

  /** Round trip: borrowing a book and returning that loan restores the book table exactly. */
  lemma BorrowThenReturnRestoresStock(db: Db, u: ObjectId, b: ObjectId, now: Instant, later: Instant)
    requires Borrow(db, u, b, now).1.Success?
    ensures var (db1, r1) := Borrow(db, u, b, now);
      var (db2, r2) := Return(db1, r1.value.id, later);
      r2.Success? && db2.books == db.books && db2.records[r1.value.id].status == Returned
  {
    var (db1, r1) := Borrow(db, u, b, now);
    var book := db.books[b];
    assert db1.records[|db.records|] == r1.value;
    assert book.(availableCopies := book.availableCopies - 1).(availableCopies := book.availableCopies - 1 + 1) == book;
    assert db.books[b := book] == db.books;
  }

  /** A renewal adds exactly one loan period to the current due date and touches nothing else. */
  lemma RenewEffects(db: Db, id: ObjectId)
    ensures id >= |db.records| ==> Renew(db, id) == (db, Failure(RecordNotFound))
    ensures id < |db.records| && db.records[id].status != Borrowed ==> Renew(db, id) == (db, Failure(NotBorrowed))
    ensures Renew(db, id).1.Success? ==>
      var (db', r) := Renew(db, id);
      && r.value.dueDate == db.records[id].dueDate + LOAN_PERIOD
      && r.value == db.records[id].(dueDate := r.value.dueDate)
      && db'.records == db.records[id := r.value]
      && db'.books == db.books && db'.users == db.users
  {
  }

  /** Each renewal extends again: two renewals push the due date two periods out. */
  lemma RenewTwice(db: Db, id: ObjectId)
    requires Renew(db, id).1.Success?
    ensures var db1 := Renew(db, id).0;
      Renew(db1, id).1.Success? && Renew(db1, id).0.records[id].dueDate == db.records[id].dueDate + 2 * LOAN_PERIOD
  {
  }

  // ---------------------------------------------------------------------------
  // getOverdueRecords
  // ---------------------------------------------------------------------------

  /**
   * The scan returns exactly the `BORROWED` records that are past due, each
   * now `OVERDUE`, and flips exactly those records in the store.
   */
  lemma OverdueScanExact(db: Db, now: Instant)
    ensures var (db', list) := OverdueScan(db, now);
      && list == SetAllOverdue(Find(db.records, PastDue(now)))
      && |list| == Count(db.records, PastDue(now))
      && (forall r :: r in list ==> r.status == Overdue && r.(status := Borrowed) in db.records && r.dueDate < now)
      && |db'.records| == |db.records| && db'.books == db.books && db'.users == db.users
      && (forall i :: 0 <= i < |db.records| ==>
            db'.records[i] == if db.records[i].status == Borrowed && db.records[i].dueDate < now
                              then db.records[i].(status := Overdue) else db.records[i])
  {
    UnfoldQueries();
    FindFind(db.records, ByStatus(Borrowed), DueBefore(now));
    var found := Find(db.records, PastDue(now));
    forall r | r in SetAllOverdue(found)
      ensures r.status == Overdue && r.(status := Borrowed) in db.records && r.dueDate < now
    {
      var k :| 0 <= k < |found| && r == found[k].(status := Overdue);
      assert found[k] in found;
      assert found[k].(status := Overdue).(status := Borrowed) == found[k];
    }
  }

  /** After a scan no `BORROWED` record is past due, so an immediate second scan returns nothing and changes nothing. */
  lemma OverdueScanTwice(db: Db, now: Instant)
    ensures var db' := OverdueScan(db, now).0;
      && Count(db'.records, PastDue(now)) == 0
      && OverdueScan(db', now) == (db', [])
  {
    UnfoldQueries();
    var db' := OverdueScan(db, now).0;
    var rs' := db'.records;
    FindFind(rs', ByStatus(Borrowed), DueBefore(now));
    assert MarkOverdue(rs', now) == rs';
  }

  /** One step of the overdue scan over a prefix of the records. */
  lemma ScanStep(rs: seq<Loan>, i: nat, now: Instant)
    requires i < |rs|
    ensures SetAllOverdue(Find(rs[..i + 1], PastDue(now)))
         == SetAllOverdue(Find(rs[..i], PastDue(now)))
            + (if rs[i].status == Borrowed && rs[i].dueDate < now then [rs[i].(status := Overdue)] else [])
  {
    UnfoldQueries();
    assert rs[..i + 1] == rs[..i] + [rs[i]];
    FindAppend(rs[..i], [rs[i]], PastDue(now));
    FindSingle(rs[i], PastDue(now));
    var a := Find(rs[..i], PastDue(now));
    var b := Find([rs[i]], PastDue(now));
    assert SetAllOverdue(a + b) == SetAllOverdue(a) + SetAllOverdue(b);
  }

  // ---------------------------------------------------------------------------
  // Invariants kept by every transition
  // ---------------------------------------------------------------------------

  lemma {:induction false} BorrowPreservesValid(db: Db, u: ObjectId, b: ObjectId, now: Instant)
    requires Valid(db)
    ensures Valid(Borrow(db, u, b, now).0)
  {
    if BorrowCheck(db, u, b).None? {
      var (db', r) := Borrow(db, u, b, now);
      assert r.value.dueDate - r.value.borrowDate == LOAN_PERIOD;
      BorrowKeepsLimits(db, u, b, now);
      BorrowKeepsLoansDistinct(db, u, b, now);
    }
  }

  lemma BorrowKeepsLimits(db: Db, u: ObjectId, b: ObjectId, now: Instant)
    requires WithinLimit(db.users, db.records) && BorrowCheck(db, u, b).None?
    ensures WithinLimit(Borrow(db, u, b, now).0.users, Borrow(db, u, b, now).0.records)
  {
    UnfoldQueries();
    var (db', r) := Borrow(db, u, b, now);
    forall v | v in db'.users
      ensures |ActiveLoans(db'.records, v)| <= Cap(db'.users[v].maxBorrow)
    {
      FindAppend(db.records, [r.value], ByUserAndStatus(v, Borrowed));
      FindSingle(r.value, ByUserAndStatus(v, Borrowed));
    }
  }

  lemma BorrowKeepsLoansDistinct(db: Db, u: ObjectId, b: ObjectId, now: Instant)
    requires NoDuplicateLoans(db.records) && BorrowCheck(db, u, b).None?
    ensures NoDuplicateLoans(Borrow(db, u, b, now).0.records)
  {
    var (db', r) := Borrow(db, u, b, now);
    var rs := db.records;
    assert db'.records == rs + [r.value];
    forall i, j | 0 <= i < j < |db'.records| && db'.records[i].status == Borrowed && db'.records[j].status == Borrowed
                  && db'.records[i].userId == db'.records[j].userId
      ensures db'.records[i].bookId != db'.records[j].bookId
    {
      if j == |rs| {
        UnfoldQueries();
        assert rs[i] in rs && Matches(ByUserAndStatus(u, Borrowed), rs[i]);
        assert rs[i] in ActiveLoans(rs, u);
      }
    }
  }

  lemma {:induction false} ReturnPreservesValid(db: Db, id: ObjectId, now: Instant)
    requires Valid(db)
    ensures Valid(Return(db, id, now).0)
  {
    UnfoldQueries();
    if Return(db, id, now).1.Success? {
      var db' := Return(db, id, now).0;
      forall v | v in db'.users
        ensures |ActiveLoans(db'.records, v)| <= Cap(db'.users[v].maxBorrow)
      {
        CountMonotone(db.records, db'.records, ByUserAndStatus(v, Borrowed));
      }
    }
  }

  lemma {:induction false} RenewPreservesValid(db: Db, id: ObjectId)
    requires Valid(db)
    ensures Valid(Renew(db, id).0)
  {
    if Renew(db, id).1.Success? {
      var db' := Renew(db, id).0;
      RenewStaysOnSchedule(db.records[id]);
      forall v | v in db'.users
        ensures |ActiveLoans(db'.records, v)| <= Cap(db'.users[v].maxBorrow)
      {
        UnfoldQueries();
        CountMonotone(db.records, db'.records, ByUserAndStatus(v, Borrowed));
      }
    }
  }

  /** A renewal keeps a due date a whole number of loan periods after the borrow date. */
  lemma RenewStaysOnSchedule(r: Loan)
    requires OnSchedule(r)
    ensures OnSchedule(r.(dueDate := PlusDays(r.dueDate, LOAN_DAYS)))
  {
    var x := r.dueDate - r.borrowDate;
    assert (x + LOAN_PERIOD) % LOAN_PERIOD == x % LOAN_PERIOD;
  }

  lemma {:induction false} OverdueScanPreservesValid(db: Db, now: Instant)
    requires Valid(db)
    ensures Valid(OverdueScan(db, now).0)
  {
    UnfoldQueries();
    var db' := OverdueScan(db, now).0;
    forall v | v in db'.users
      ensures |ActiveLoans(db'.records, v)| <= Cap(db'.users[v].maxBorrow)
    {
      CountMonotone(db.records, db'.records, ByUserAndStatus(v, Borrowed));
    }
  }

  // ---------------------------------------------------------------------------
  // Conservation of copies
  // ---------------------------------------------------------------------------

  /**
   * For every book, copies on the shelf plus copies out on unreturned loans
   * stay constant across borrow, return, renewal and the overdue scan.
   */
  lemma {:induction false} BorrowConservesCopies(db: Db, u: ObjectId, b: ObjectId, now: Instant, c: ObjectId)
    requires c in db.books
    ensures c in Borrow(db, u, b, now).0.books && Holdings(Borrow(db, u, b, now).0, c) == Holdings(db, c)
  {
    UnfoldQueries();
    if BorrowCheck(db, u, b).None? {
      var loan := Borrow(db, u, b, now).1.value;
      FindAppend(db.records, [loan], OutstandingFor(c));
      FindSingle(loan, OutstandingFor(c));
    }
  }

  lemma {:induction false} ReturnConservesCopies(db: Db, id: ObjectId, now: Instant, c: ObjectId)
    requires c in db.books
    ensures c in Return(db, id, now).0.books && Holdings(Return(db, id, now).0, c) == Holdings(db, c)
  {
    UnfoldQueries();
    if Return(db, id, now).1.Success? {
      var returned := Return(db, id, now).1.value;
      CountUpdate(db.records, id, returned, OutstandingFor(c));
    }
  }

  lemma {:induction false} RenewConservesCopies(db: Db, id: ObjectId, c: ObjectId)
    requires c in db.books
    ensures c in Renew(db, id).0.books && Holdings(Renew(db, id).0, c) == Holdings(db, c)
  {
    UnfoldQueries();
    if Renew(db, id).1.Success? {
      CountSameMatches(db.records, Renew(db, id).0.records, OutstandingFor(c));
    }
  }

  lemma {:induction false} OverdueScanConservesCopies(db: Db, now: Instant, c: ObjectId)
    requires c in db.books
    ensures c in OverdueScan(db, now).0.books && Holdings(OverdueScan(db, now).0, c) == Holdings(db, c)
  {
    UnfoldQueries();
    CountSameMatches(db.records, OverdueScan(db, now).0.records, OutstandingFor(c));
  }

  // ---------------------------------------------------------------------------
  // Statistics
  // ---------------------------------------------------------------------------

  /**
   * The global statistics: the total, the `BORROWED` count before the scan,
   * the number of records the scan flips, and the `RETURNED` count. The overdue
   * figure never exceeds the current one, and current plus returned never
   * exceeds the total.
   */
  lemma {:induction false} StatisticsCounts(db: Db, now: Instant)
    ensures var (db', st) := Statistics(db, now);
      && st == BorrowStats(|db.records|, Count(db.records, ByStatus(Borrowed)),
                           Count(db.records, PastDue(now)), Count(db.records, ByStatus(Returned)))
      && st.overdueBorrows <= st.currentBorrows
      && st.currentBorrows + st.returnedBorrows <= st.totalBorrows
      && db' == OverdueScan(db, now).0
  {
    var rs := db.records;
    OverdueScanExact(db, now);
    CountSameMatches(rs, MarkOverdue(rs, now), ByStatus(Returned));
    CountMonotone(rs, rs, And(ByStatus(Borrowed), DueBefore(now)));
    FindFind(rs, ByStatus(Borrowed), DueBefore(now));
    assert |Find(Find(rs, ByStatus(Borrowed)), DueBefore(now))| <= |Find(rs, ByStatus(Borrowed))|;
    StatusCountsPartition(rs);
  }

  /** The user's current, overdue and returned counts partition the user's records. */
  lemma UserStatisticsPartition(rs: seq<Loan>)
    ensures var st := UserStatistics(rs);
      st.currentBorrows + st.overdueCount + st.returnedCount == st.totalBorrows == |rs|
  {
    StatusCountsPartition(rs);
  }

  /** The current count a user sees is the count the borrow limit is checked against. */
  lemma UserCurrentIsLimitCount(rs: seq<Loan>, u: ObjectId)
    ensures UserStatistics(Find(rs, ByUser(u))).currentBorrows == |ActiveLoans(rs, u)|
    ensures UserStatistics(Find(rs, ByUser(u))).totalBorrows == Count(rs, ByUser(u))
  {
    FindFind(rs, ByUser(u), ByStatus(Borrowed));
  }

  /** The first borrow date never comes after the last; both are the sentinel exactly when there are no records. */
  lemma FirstNotAfterLast(rs: seq<Loan>)
    ensures var st := UserStatistics(rs);
      && (st.firstBorrowDate.None? <==> rs == []) && (st.lastBorrowDate.None? <==> rs == [])
      && (rs != [] ==> st.firstBorrowDate.value <= st.lastBorrowDate.value)
  {
    if rs != [] {
      assert rs[0] in rs;
    }
  }

  /** Bounds on the summed borrow days when each returned loan lasted between 0 and `m` days. */
  lemma {:induction false} TotalBorrowDaysBounds(rs: seq<Loan>, m: int)
    requires forall i :: 0 <= i < |rs| ==> (rs[i].returnDate.Some? <==> rs[i].status == Returned)
    requires forall i :: 0 <= i < |rs| && rs[i].returnDate.Some? ==> 0 <= DaysBetween(rs[i].borrowDate, rs[i].returnDate.value) <= m
    ensures 0 <= TotalBorrowDays(rs) <= Count(rs, ByStatus(Returned)) * m
  {
    if rs != [] {
      TotalBorrowDaysBounds(rs[1..], m);
      var n := Count(rs[1..], ByStatus(Returned));
      var n' := Count(rs, ByStatus(Returned));
      var d := TotalBorrowDays(rs) - TotalBorrowDays(rs[1..]);
      if rs[0].status == Returned {
        assert n' == n + 1;
        assert 0 <= d <= m;
        MulSucc(n, m);
      } else {
        assert n' == n && d == 0;
      }
    }
  }

  /**
   * With return dates exactly on the `RETURNED` records, the average is 30 when
   * nothing was returned, and otherwise lies within the range of the returned
   * loans' durations.
   */
  lemma AvgBorrowDaysBounds(rs: seq<Loan>, m: int)
    requires forall i :: 0 <= i < |rs| ==> (rs[i].returnDate.Some? <==> rs[i].status == Returned)
    requires forall i :: 0 <= i < |rs| && rs[i].returnDate.Some? ==> 0 <= DaysBetween(rs[i].borrowDate, rs[i].returnDate.value) <= m
    ensures var st := UserStatistics(rs);
      (st.returnedCount == 0 ==> st.avgBorrowDays == LOAN_DAYS)
      && (st.returnedCount > 0 ==> 0 <= st.avgBorrowDays <= m)
  {
    var n := Count(rs, ByStatus(Returned));
    if n > 0 {
      TotalBorrowDaysBounds(rs, m);
      QuotientBound(TotalBorrowDays(rs), n, m);
    }
  }

  lemma MulSucc(n: int, m: int)
    ensures (n + 1) * m == n * m + m
  {
  }

  /** If `0 <= s <= n * m` then the truncated quotient `s / n` lies in `0..m`. */
  lemma QuotientBound(s: int, n: int, m: int)
    requires n > 0 && 0 <= s <= n * m
    ensures 0 <= TruncDiv(s, n) <= m
  {
    var q := TruncDiv(s, n);
    assert q * n <= s;
    ProductBound(q, n, m, s);
  }

  lemma ProductBound(q: int, n: int, m: int, s: int)
    requires n > 0 && q * n <= s <= n * m
    ensures q <= m
  {
    if q > m {
      MulMonotone(m + 1, q, n);
      MulSucc(m, n);
      MulComm(m, n);
    }
  }

  lemma MulComm(a: int, b: int)
    ensures a * b == b * a
  {
  }

  lemma MulMonotone(a: int, b: int, n: nat)
    requires a <= b
    ensures a * n <= b * n
  {
  }
}
