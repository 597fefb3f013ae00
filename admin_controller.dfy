/**
 * The counting loops of the administration pages: readers and administrators
 * on the user-management and user-search pages, and the overdue-day buckets
 * on the overdue page. Each page first requires the session role `ADMIN`.
 */
module AdminController {
  import opened Outcomes
  import opened Time
  import opened Entities
  import opened LoanWorkflow
  import opened LoanProperties
  import BorrowService
  import UserService
  import BookService

  const READER_ROLE: string := "READER"
  const ADMIN_ROLE: string := "ADMIN"

  // ---------------------------------------------------------------------------
  // Role counting
  // ---------------------------------------------------------------------------

  /** Users with exactly the given role, counted over the list from the front. */
  function CountRole(users: seq<User>, role: string): nat
  {
    if users == [] then 0
    else CountRole(users[..|users| - 1], role) + (if users[|users| - 1].role == role then 1 else 0)
  }

  datatype RoleCounts = RoleCounts(totalUsers: nat, totalReaders: nat, totalAdmins: nat, activeUsers: nat)

  /** The role-counting loop: readers, administrators, and the active count, which is never incremented. */
  method CountRoles(users: seq<User>) returns (c: RoleCounts)
    ensures c.totalUsers == |users|
    ensures c.totalReaders == CountRole(users, READER_ROLE)
    ensures c.totalAdmins == CountRole(users, ADMIN_ROLE)
    ensures c.activeUsers == 0
  {
    var totalReaders := 0;
    var totalAdmins := 0;
    var activeUsers := 0;
    for i := 0 to |users|
      invariant totalReaders == CountRole(users[..i], READER_ROLE)
      invariant totalAdmins == CountRole(users[..i], ADMIN_ROLE)
      invariant activeUsers == 0
    {
      assert users[..i + 1][..i] == users[..i];
      var userRole := users[i].role;
      if userRole == READER_ROLE {
        totalReaders := totalReaders + 1;
      } else if userRole == ADMIN_ROLE {
        totalAdmins := totalAdmins + 1;
      }
    }
    assert users[..|users|] == users;
    c := RoleCounts(|users|, totalReaders, totalAdmins, activeUsers);
  }

  /** Users with neither counted role are in neither count. */
  function CountOtherRoles(users: seq<User>): nat
  {
    if users == [] then 0
    else CountOtherRoles(users[..|users| - 1])
         + (if users[|users| - 1].role != READER_ROLE && users[|users| - 1].role != ADMIN_ROLE then 1 else 0)
  }

  /** Readers, administrators and the rest partition the users, so readers plus administrators never exceed them. */
  lemma {:induction false} RolesPartitionUsers(users: seq<User>)
    ensures CountRole(users, READER_ROLE) + CountRole(users, ADMIN_ROLE) + CountOtherRoles(users) == |users|
    ensures CountRole(users, READER_ROLE) + CountRole(users, ADMIN_ROLE) <= |users|
  {
    if users != [] {
      RolesPartitionUsers(users[..|users| - 1]);
    }
  }

  /** The counts are below the total exactly when some user has another role. */
  lemma {:induction false} OtherRolesWitness(users: seq<User>)
    ensures CountOtherRoles(users) > 0 <==>
      exists i :: 0 <= i < |users| && users[i].role != READER_ROLE && users[i].role != ADMIN_ROLE
  {
    if users != [] {
      var init := users[..|users| - 1];
      OtherRolesWitness(init);
      if exists i :: 0 <= i < |init| && init[i].role != READER_ROLE && init[i].role != ADMIN_ROLE {
        var i :| 0 <= i < |init| && init[i].role != READER_ROLE && init[i].role != ADMIN_ROLE;
        assert users[i] == init[i];
      }
      if exists i :: 0 <= i < |users| && users[i].role != READER_ROLE && users[i].role != ADMIN_ROLE {
        var i :| 0 <= i < |users| && users[i].role != READER_ROLE && users[i].role != ADMIN_ROLE;
        if i < |init| {
          assert init[i] == users[i];
        }
      }
    }
  }

  datatype UsersPage =
    | RedirectHome
    | Users(users: seq<User>, counts: RoleCounts)
    | UsersError(users: seq<User>, counts: RoleCounts)

  /** `userManagement`: the role guard, then every user with the counts. */
  method UserManagement(sessionRole: Option<string>, svc: UserService.UserService) returns (page: UsersPage)
    ensures sessionRole != Some(ADMIN_ROLE) <==> page == RedirectHome
    ensures sessionRole == Some(ADMIN_ROLE) ==>
      && page.Users?
      && page.users == svc.table.users
      && page.counts.totalUsers == |svc.table.users|
      && page.counts.totalReaders == CountRole(svc.table.users, READER_ROLE)
      && page.counts.totalAdmins == CountRole(svc.table.users, ADMIN_ROLE)
      && page.counts.totalReaders + page.counts.totalAdmins <= page.counts.totalUsers
      && page.counts.activeUsers == 0
  {
    if sessionRole != Some(ADMIN_ROLE) {
      return RedirectHome;
    }
    var users := svc.table.users;
    var counts := CountRoles(users);
    RolesPartitionUsers(users);
    page := Users(users, counts);
  }

  /**
   * `searchUsers`: with no keyword and no role filter, every user; otherwise
   * the service's search, which returns no list, so counting over it fails and
   * the page shows the error with an empty list and zero counts.
   */
  method SearchUsers(sessionRole: Option<string>, keyword: Option<string>, roleFilter: Option<string>,
                     svc: UserService.UserService) returns (page: UsersPage)
    ensures sessionRole != Some(ADMIN_ROLE) <==> page == RedirectHome
    ensures sessionRole == Some(ADMIN_ROLE) && BookService.IsBlank(keyword) && BookService.IsBlank(roleFilter) ==>
      && page.Users?
      && page.users == svc.table.users
      && page.counts.totalReaders == CountRole(svc.table.users, READER_ROLE)
      && page.counts.totalAdmins == CountRole(svc.table.users, ADMIN_ROLE)
      && page.counts.totalReaders + page.counts.totalAdmins <= |svc.table.users|
    ensures sessionRole == Some(ADMIN_ROLE) && !(BookService.IsBlank(keyword) && BookService.IsBlank(roleFilter)) ==>
      page == UsersError([], RoleCounts(0, 0, 0, 0))
  {
    if sessionRole != Some(ADMIN_ROLE) {
      return RedirectHome;
    }
    if BookService.IsBlank(keyword) && BookService.IsBlank(roleFilter) {
      var searchResults := svc.table.users;
      var counts := CountRoles(searchResults);
      RolesPartitionUsers(searchResults);
      return Users(searchResults, counts);
    }
    page := UsersError([], RoleCounts(0, 0, 0, 0));
  }

  // ---------------------------------------------------------------------------
  // Overdue-day buckets
  // ---------------------------------------------------------------------------

  /** Whole days the record is past its due date at `now`. */
  function DaysOverdue(r: Loan, now: Instant): int
  {
    DaysBetween(r.dueDate, now)
  }

  /** Records more than `days` whole days past due. */
  function CountOver(rs: seq<Loan>, now: Instant, days: int): nat
  {
    if rs == [] then 0
    else CountOver(rs[..|rs| - 1], now, days) + (if DaysOverdue(rs[|rs| - 1], now) > days then 1 else 0)
  }

  /** The id-to-days map the loop builds; a later record with the same id overwrites an earlier one. */
  function DaysMap(rs: seq<Loan>, now: Instant): map<ObjectId, int>
  {
    if rs == [] then map[]
    else DaysMap(rs[..|rs| - 1], now)[rs[|rs| - 1].id := DaysOverdue(rs[|rs| - 1], now)]
  }

  /** The overdue-bucketing loop. */
  method OverdueBuckets(overdueRecords: seq<Loan>, now: Instant) returns (days: map<ObjectId, int>, over7: nat, over30: nat)
    ensures days == DaysMap(overdueRecords, now)
    ensures over7 == CountOver(overdueRecords, now, 7)
    ensures over30 == CountOver(overdueRecords, now, 30)
  {
    days := map[];
    over7 := 0;
    over30 := 0;
    for i := 0 to |overdueRecords|
      invariant days == DaysMap(overdueRecords[..i], now)
      invariant over7 == CountOver(overdueRecords[..i], now, 7)
      invariant over30 == CountOver(overdueRecords[..i], now, 30)
    {
      assert overdueRecords[..i + 1][..i] == overdueRecords[..i];
      var record := overdueRecords[i];
      var daysOverdue := DaysBetween(record.dueDate, now);
      days := days[record.id := daysOverdue];
      if daysOverdue > 7 {
        over7 := over7 + 1;
      }
      if daysOverdue > 30 {
        over30 := over30 + 1;
      }
    }
    assert overdueRecords[..|overdueRecords|] == overdueRecords;
  }

  /** A higher threshold never counts more records, and no threshold counts more than all of them. */
  lemma {:induction false} CountOverAntitone(rs: seq<Loan>, now: Instant, low: int, high: int)
    requires low <= high
    ensures CountOver(rs, now, high) <= CountOver(rs, now, low) <= |rs|
  {
    if rs != [] {
      CountOverAntitone(rs[..|rs| - 1], now, low, high);
    }
  }

  /** The map has one key per record id, and the entry of the last record with an id is that record's days. */
  lemma {:induction false} DaysMapEntries(rs: seq<Loan>, now: Instant)
    ensures DaysMap(rs, now).Keys == set r | r in rs :: r.id
    ensures |rs| > 0 ==> DaysMap(rs, now)[rs[|rs| - 1].id] == DaysOverdue(rs[|rs| - 1], now)
  {
    if rs != [] {
      var init := rs[..|rs| - 1];
      DaysMapEntries(init, now);
      assert rs == init + [rs[|rs| - 1]];
      assert (set r | r in rs :: r.id) == (set r | r in init :: r.id) + {rs[|rs| - 1].id};
    }
  }

  /** With distinct ids, every record has its own entry holding its own days. */
  lemma {:induction false} DaysMapDistinct(rs: seq<Loan>, now: Instant)
    requires forall i, j :: 0 <= i < j < |rs| ==> rs[i].id != rs[j].id
    ensures |DaysMap(rs, now).Keys| == |rs|
    ensures forall i :: 0 <= i < |rs| ==> rs[i].id in DaysMap(rs, now) && DaysMap(rs, now)[rs[i].id] == DaysOverdue(rs[i], now)
  {
    if rs != [] {
      var init := rs[..|rs| - 1];
      var last := rs[|rs| - 1];
      DaysMapDistinct(init, now);
      assert last.id !in DaysMap(init, now) by {
        DaysMapEntries(init, now);
      }
      forall i | 0 <= i < |rs|
        ensures rs[i].id in DaysMap(rs, now) && DaysMap(rs, now)[rs[i].id] == DaysOverdue(rs[i], now)
      {
        if i < |init| {
          assert rs[i] == init[i];
        }
      }
    }
  }

  datatype OverduePage =
    | OverdueRedirectHome
    | OverdueView(records: seq<Loan>, overdueCount: nat, daysMap: map<ObjectId, int>, overdue7Days: nat, overdue30Days: nat)

  /**
   * `overdueManagement`: the role guard, then the service's overdue scan at
   * `scanTime`, then the buckets over what the scan returned, at `viewTime`,
   * the page's own later reading of the clock.
   */
  method OverdueManagement(sessionRole: Option<string>, svc: BorrowService.BorrowService,
                           scanTime: Instant, viewTime: Instant) returns (page: OverduePage)
    requires svc.Valid()
    modifies svc
    ensures svc.Valid()
    ensures sessionRole != Some(ADMIN_ROLE) ==> page == OverdueRedirectHome && svc.State() == old(svc.State())
    ensures sessionRole == Some(ADMIN_ROLE) ==>
      && page.OverdueView?
      && (svc.State(), page.records) == OverdueScan(old(svc.State()), scanTime)
      && page.overdueCount == |page.records|
      && page.daysMap == DaysMap(page.records, viewTime)
      && page.overdue7Days == CountOver(page.records, viewTime, 7)
      && page.overdue30Days == CountOver(page.records, viewTime, 30)
      && page.daysMap.Keys == (set r | r in page.records :: r.id)
      && page.overdue30Days <= page.overdue7Days <= page.overdueCount
    ensures sessionRole == Some(ADMIN_ROLE) && scanTime <= viewTime ==>
      forall id :: id in page.daysMap ==> page.daysMap[id] >= 0
  {
    if sessionRole != Some(ADMIN_ROLE) {
      return OverdueRedirectHome;
    }
    ghost var db := svc.State();
    var overdueRecords := svc.GetOverdueRecords(scanTime);
    var days, over7, over30 := OverdueBuckets(overdueRecords, viewTime);
    CountOverAntitone(overdueRecords, viewTime, 7, 30);
    DaysMapEntries(overdueRecords, viewTime);
    if scanTime <= viewTime {
      OverdueScanExact(db, scanTime);
      DaysMapNonNegative(overdueRecords, viewTime);
    }
    page := OverdueView(overdueRecords, |overdueRecords|, days, over7, over30);
  }

  /** Records already past due at `now` are at least zero days overdue. */
  lemma {:induction false} DaysMapNonNegative(rs: seq<Loan>, now: Instant)
    requires forall r :: r in rs ==> r.dueDate < now
    ensures forall id :: id in DaysMap(rs, now) ==> DaysMap(rs, now)[id] >= 0
  {
    if rs != [] {
      var init := rs[..|rs| - 1];
      assert forall r :: r in init ==> r in rs;
      DaysMapNonNegative(init, now);
    }
  }
}
