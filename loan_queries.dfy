/**
 * The loan-record repository's derived queries (`findByUserId`,
 * `findByStatus`, `findByUserIdAndStatus`, ...) and the stream filters the
 * service applies to their results, as filters over the record collection in
 * store order.
 */
module LoanQueries {
  import opened Time
  import opened Entities

  datatype Query =
    | ByUser(userId: ObjectId)
    | ByStatus(status: Status)
    | ByBook(bookId: ObjectId)
    | DueBefore(t: Instant)
    | Not(inner: Query)
    | And(left: Query, right: Query)

  predicate Matches(q: Query, r: Loan)
  {
    match q
    case ByUser(u) => r.userId == u
    case ByStatus(s) => r.status == s
    case ByBook(b) => r.bookId == b
    case DueBefore(t) => r.dueDate < t
    case Not(q1) => !Matches(q1, r)
    case And(q1, q2) => Matches(q1, r) && Matches(q2, r)
  }

  /** `findByUserIdAndStatus(userId, status)`. */
  function ByUserAndStatus(u: ObjectId, s: Status): Query
  {
    And(ByUser(u), ByStatus(s))
  }

  /** The stream filter of the overdue scan: `BORROWED` records due before `now`. */
  function PastDue(now: Instant): Query
  {
    And(ByStatus(Borrowed), DueBefore(now))
  }

  /** Records whose copy is still out: the book matches and the loan is not `RETURNED`. */
  function OutstandingFor(b: ObjectId): Query
  {
    And(ByBook(b), Not(ByStatus(Returned)))
  }

  /** What the composite queries match, spelled out. */
  lemma UnfoldQueries()
    ensures forall u, s, r :: Matches(ByUserAndStatus(u, s), r) <==> r.userId == u && r.status == s
    ensures forall now, r :: Matches(PastDue(now), r) <==> r.status == Borrowed && r.dueDate < now
    ensures forall b, r :: Matches(OutstandingFor(b), r) <==> r.bookId == b && r.status != Returned
  {
    forall u, s, r ensures Matches(ByUserAndStatus(u, s), r) <==> r.userId == u && r.status == s {
      assert Matches(ByUserAndStatus(u, s), r) == (Matches(ByUser(u), r) && Matches(ByStatus(s), r));
    }
    forall now, r ensures Matches(PastDue(now), r) <==> r.status == Borrowed && r.dueDate < now {
      assert Matches(PastDue(now), r) == (Matches(ByStatus(Borrowed), r) && Matches(DueBefore(now), r));
    }
    forall b, r ensures Matches(OutstandingFor(b), r) <==> r.bookId == b && r.status != Returned {
      assert Matches(OutstandingFor(b), r) == (Matches(ByBook(b), r) && Matches(Not(ByStatus(Returned)), r));
    }
  }

  /** The records matching `q`, in store order. */
  function Find(rs: seq<Loan>, q: Query): (found: seq<Loan>)
    ensures |found| <= |rs|
    ensures forall r :: r in found ==> r in rs && Matches(q, r)
    ensures forall r :: r in rs && Matches(q, r) ==> r in found
  {
    if rs == [] then []
    else if Matches(q, rs[0]) then [rs[0]] + Find(rs[1..], q)
    else Find(rs[1..], q)
  }

  function Count(rs: seq<Loan>, q: Query): nat
  {
    |Find(rs, q)|
  }

  lemma {:induction false} FindAppend(a: seq<Loan>, b: seq<Loan>, q: Query)
    ensures Find(a + b, q) == Find(a, q) + Find(b, q)
  {
    if a == [] {
      assert a + b == b;
    } else {
      assert (a + b)[1..] == a[1..] + b;
      FindAppend(a[1..], b, q);
    }
  }

  /** A query that no record matches finds nothing. */
  lemma {:induction false} FindNone(rs: seq<Loan>, q: Query)
    requires forall r :: r in rs ==> !Matches(q, r)
    ensures Find(rs, q) == []
  {
    if rs != [] {
      assert forall r :: r in rs[1..] ==> r in rs;
      FindNone(rs[1..], q);
    }
  }

  lemma FindSingle(r: Loan, q: Query)
    ensures Find([r], q) == if Matches(q, r) then [r] else []
  {
    assert [r][1..] == [];
  }

  /** Filtering a filtered list is filtering by both conditions. */
  lemma {:induction false} FindFind(rs: seq<Loan>, q1: Query, q2: Query)
    ensures Find(Find(rs, q1), q2) == Find(rs, And(q1, q2))
  {
    if rs != [] {
      FindFind(rs[1..], q1, q2);
      if Matches(q1, rs[0]) {
        assert ([rs[0]] + Find(rs[1..], q1))[1..] == Find(rs[1..], q1);
      }
    }
  }

  /**
   * If every position of `rs'` matches only where `rs` does, `rs'` has no more
   * matches than `rs`.
   */
  lemma {:induction false} CountMonotone(rs: seq<Loan>, rs': seq<Loan>, q: Query)
    requires |rs| == |rs'|
    requires forall i :: 0 <= i < |rs| && Matches(q, rs'[i]) ==> Matches(q, rs[i])
    ensures Count(rs', q) <= Count(rs, q)
  {
    if rs != [] {
      assert Matches(q, rs'[0]) ==> Matches(q, rs[0]);
      forall i | 0 <= i < |rs[1..]| && Matches(q, rs'[1..][i])
        ensures Matches(q, rs[1..][i])
      {
        assert rs'[1..][i] == rs'[i + 1] && rs[1..][i] == rs[i + 1];
      }
      CountMonotone(rs[1..], rs'[1..], q);
    }
  }

  /** Positions that match in exactly the same places give the same count. */
  lemma CountSameMatches(rs: seq<Loan>, rs': seq<Loan>, q: Query)
    requires |rs| == |rs'|
    requires forall i :: 0 <= i < |rs| ==> (Matches(q, rs'[i]) <==> Matches(q, rs[i]))
    ensures Count(rs', q) == Count(rs, q)
  {
    CountMonotone(rs, rs', q);
    CountMonotone(rs', rs, q);
  }

  /** Replacing one record changes a count by at most that record's own contribution. */
  lemma CountUpdate(rs: seq<Loan>, i: nat, r: Loan, q: Query)
    requires i < |rs|
    ensures Count(rs[i := r], q) == Count(rs, q) - (if Matches(q, rs[i]) then 1 else 0) + (if Matches(q, r) then 1 else 0)
  {
    var rs' := rs[i := r];
    assert rs == rs[..i] + [rs[i]] + rs[i + 1..];
    assert rs' == rs[..i] + [r] + rs[i + 1..];
    FindAppend(rs[..i] + [rs[i]], rs[i + 1..], q);
    FindAppend(rs[..i], [rs[i]], q);
    FindAppend(rs[..i] + [r], rs[i + 1..], q);
    FindAppend(rs[..i], [r], q);
    FindSingle(rs[i], q);
    FindSingle(r, q);
  }

  /** Every status is one of three, so the three status counts partition the records. */
  lemma {:induction false} StatusCountsPartition(rs: seq<Loan>)
    ensures Count(rs, ByStatus(Borrowed)) + Count(rs, ByStatus(Returned)) + Count(rs, ByStatus(Overdue)) == |rs|
  {
    if rs != [] {
      StatusCountsPartition(rs[1..]);
    }
  }
}
