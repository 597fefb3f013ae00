/**
 * The user service: registration, login, deletion and lookup over the user
 * table, with password hashing and checking as functions the service is
 * given (the system's password utility).
 */
module UserService {
  import opened Outcomes
  import opened Entities
  import opened Paging

  /** The user table in store order, and the next id the store will assign. */
  datatype UserTable = UserTable(users: seq<User>, nextId: ObjectId)

  datatype RegisterError = UsernameExists | EmailExists

  datatype LoginResult = UnknownUser | WrongPassword | LoginOk(user: User)

  const DEFAULT_ROLE: string := "READER"
  const DEFAULT_MAX_BORROW: int := 5

  /** Ids below the counter and distinct; usernames and e-mail addresses distinct. */
  predicate ValidTable(t: UserTable)
  {
    && (forall i :: 0 <= i < |t.users| ==> t.users[i].id < t.nextId)
    && Distinct(t.users)
  }

  predicate Distinct(users: seq<User>)
  {
    forall i, j :: 0 <= i < j < |users| ==>
      && users[i].id != users[j].id
      && users[i].username != users[j].username
      && users[i].email != users[j].email
  }

  /** `existsByUsername`. */
  predicate UsernameTaken(users: seq<User>, username: string)
  {
    exists i :: 0 <= i < |users| && users[i].username == username
  }

  /** `existsByEmail`. */
  predicate EmailTaken(users: seq<User>, email: string)
  {
    exists i :: 0 <= i < |users| && users[i].email == email
  }

  /** `findByUsername`: the first user with that name. */
  function FindByUsername(users: seq<User>, username: string): (r: Option<User>)
    ensures r.None? <==> !UsernameTaken(users, username)
    ensures r.Some? ==> r.value in users && r.value.username == username
  {
    if users == [] then None
    else if users[0].username == username then Some(users[0])
    else
      var r := FindByUsername(users[1..], username);
      assert UsernameTaken(users, username) <==> UsernameTaken(users[1..], username) by {
        if UsernameTaken(users[1..], username) {
          var i :| 0 <= i < |users[1..]| && users[1..][i].username == username;
          assert users[i + 1].username == username;
        }
        if UsernameTaken(users, username) {
          var i :| 0 <= i < |users| && users[i].username == username;
          assert i > 0 && users[1..][i - 1].username == username;
        }
      }
      r
  }

  /** `findById`. */
  function FindById(users: seq<User>, id: ObjectId): (r: Option<User>)
    ensures r.None? <==> forall u :: u in users ==> u.id != id
    ensures r.Some? ==> r.value in users && r.value.id == id
  {
    if users == [] then None
    else if users[0].id == id then Some(users[0])
    else FindById(users[1..], id)
  }

  /** `deleteById`: the table without the users carrying that id. */
  function Without(users: seq<User>, id: ObjectId): seq<User>
  {
    if users == [] then []
    else (if users[0].id == id then [] else [users[0]]) + Without(users[1..], id)
  }

  /**
   * `register`: the username check, then the e-mail check; on success one
   * reader with the hashed password and the default borrow limit is added.
   */
  function Register(t: UserTable, username: string, hashed: string, name: string, email: string): (UserTable, Result<User, RegisterError>)
  {
    if UsernameTaken(t.users, username) then (t, Failure(UsernameExists))
    else if EmailTaken(t.users, email) then (t, Failure(EmailExists))
    else
      var user := User(t.nextId, username, hashed, name, email, DEFAULT_ROLE, DEFAULT_MAX_BORROW);
      (UserTable(t.users + [user], t.nextId + 1), Success(user))
  }

  /** `login`: unknown name, wrong password, or the stored user. */
  function Login(t: UserTable, username: string, password: string, verify: (string, string) -> bool): LoginResult
  {
    match FindByUsername(t.users, username)
    case None => UnknownUser
    case Some(u) => if verify(password, u.password) then LoginOk(u) else WrongPassword
  }

  /** `deleteUser`: `true` and the user removed when the id exists, otherwise `false` and no change. */
  function DeleteUser(t: UserTable, id: ObjectId): (UserTable, bool)
  {
    if FindById(t.users, id).Some? then (t.(users := Without(t.users, id)), true)
    else (t, false)
  }

  function MaxInt(a: int, b: int): int
  {
    if a >= b then a else b
  }

  /** `getAllUsers(page, size)`: the request is clamped to a valid one before the repository pages. */
  function GetAllUsersPage(t: UserTable, page: int, size: int): Page<User>
  {
    RepositoryPage(t.users, Pageable(MaxInt(page, 0), MaxInt(size, 1)))
  }

  // ---------------------------------------------------------------------------
  // Properties
  // ---------------------------------------------------------------------------

  lemma RegisterOutcome(t: UserTable, username: string, hashed: string, name: string, email: string)
    ensures var (t', r) := Register(t, username, hashed, name, email);
      && (r == Failure(UsernameExists) <==> UsernameTaken(t.users, username))
      && (r == Failure(EmailExists) <==> !UsernameTaken(t.users, username) && EmailTaken(t.users, email))
      && (r.Failure? ==> t' == t)
      && (r.Success? ==>
            && t'.users == t.users + [r.value]
            && r.value == User(t.nextId, username, hashed, name, email, "READER", 5))
  {
  }

  lemma {:induction false} FindByUsernameUnique(users: seq<User>, k: nat)
    requires k < |users|
    requires forall i, j :: 0 <= i < j < |users| ==> users[i].username != users[j].username
    ensures FindByUsername(users, users[k].username) == Some(users[k])
  {
    if k > 0 {
      assert users[0].username != users[k].username;
      assert users[1..][k - 1] == users[k];
      FindByUsernameUnique(users[1..], k - 1);
    }
  }

  lemma {:induction false} FindByIdUnique(users: seq<User>, k: nat)
    requires k < |users|
    requires forall i, j :: 0 <= i < j < |users| ==> users[i].id != users[j].id
    ensures FindById(users, users[k].id) == Some(users[k])
  {
    if k > 0 {
      assert users[0].id != users[k].id;
      assert users[1..][k - 1] == users[k];
      FindByIdUnique(users[1..], k - 1);
    }
  }

  lemma RegisterPreservesValid(t: UserTable, username: string, hashed: string, name: string, email: string)
    requires ValidTable(t)
    ensures ValidTable(Register(t, username, hashed, name, email).0)
  {
    var (t', r) := Register(t, username, hashed, name, email);
    if r.Success? {
      forall i | 0 <= i < |t.users|
        ensures t.users[i].username != username && t.users[i].email != email && t.users[i].id < t.nextId
      {
        if t.users[i].username == username {
          assert UsernameTaken(t.users, username);
        }
        if t.users[i].email == email {
          assert EmailTaken(t.users, email);
        }
      }
    }
  }

  /**
   * Registering and then logging in with the same raw password succeeds and
   * yields the registered user, given that checking a password against its
   * own hash succeeds.
   */
  lemma RegisterThenLogin(t: UserTable, username: string, password: string, name: string, email: string,
                          encrypt: string -> string, verify: (string, string) -> bool)
    requires ValidTable(t)
    requires verify(password, encrypt(password))
    requires Register(t, username, encrypt(password), name, email).1.Success?
    ensures var (t', r) := Register(t, username, encrypt(password), name, email);
      Login(t', username, password, verify) == LoginOk(r.value)
  {
    var (t', r) := Register(t, username, encrypt(password), name, email);
    RegisterPreservesValid(t, username, encrypt(password), name, email);
    FindByUsernameUnique(t'.users, |t'.users| - 1);
  }

  lemma LoginOutcome(t: UserTable, username: string, password: string, verify: (string, string) -> bool)
    requires ValidTable(t)
    ensures var r := Login(t, username, password, verify);
      && (r == UnknownUser <==> !UsernameTaken(t.users, username))
      && (r == WrongPassword <==> exists i :: 0 <= i < |t.users| && t.users[i].username == username && !verify(password, t.users[i].password))
      && (r.LoginOk? ==> r.user in t.users && r.user.username == username && verify(password, r.user.password))
  {
    if UsernameTaken(t.users, username) {
      var k :| 0 <= k < |t.users| && t.users[k].username == username;
      FindByUsernameUnique(t.users, k);
      assert Login(t, username, password, verify) ==
        if verify(password, t.users[k].password) then LoginOk(t.users[k]) else WrongPassword;
      OnlyHolder(t.users, k);
    }
  }

  /** In a table with distinct usernames, position `k` is the only one with its username. */
  lemma OnlyHolder(users: seq<User>, k: nat)
    requires k < |users| && Distinct(users)
    ensures forall i :: 0 <= i < |users| && users[i].username == users[k].username ==> i == k
  {
    forall i | 0 <= i < |users| && users[i].username == users[k].username
      ensures i == k
    {
    }
  }

  lemma DeleteUserOutcome(t: UserTable, id: ObjectId)
    requires ValidTable(t)
    ensures var (t', ok) := DeleteUser(t, id);
      && (ok <==> exists u :: u in t.users && u.id == id)
      && (ok ==> FindById(t'.users, id).None? && |t'.users| == |t.users| - 1)
      && (!ok ==> t' == t)
      && (forall u :: u in t.users && u.id != id ==> u in t'.users)
  {
    WithoutMembers(t.users, id);
    if FindById(t.users, id).Some? {
      var k :| 0 <= k < |t.users| && t.users[k].id == id;
      WithoutOne(t.users, k);
    }
  }

  /** Removing an id that only the `k`-th user carries removes exactly that user. */
  lemma WithoutOne(users: seq<User>, k: nat)
    requires k < |users|
    requires forall i :: 0 <= i < |users| && i != k ==> users[i].id != users[k].id
    ensures Without(users, users[k].id) == users[..k] + users[k + 1..]
  {
    SplitAt(users, k);
    BeforeHasNoId(users, k);
    AfterHasNoId(users, k, k + 1);
    WithoutSplit(users[..k], users[k], users[k + 1..]);
  }

  lemma SplitAt(users: seq<User>, k: nat)
    requires k < |users|
    ensures users == users[..k] + ([users[k]] + users[k + 1..])
  {
  }

  /** No user before position `k` carries that user's id. */
  lemma BeforeHasNoId(users: seq<User>, k: nat)
    requires k < |users|
    requires forall i :: 0 <= i < |users| && i != k ==> users[i].id != users[k].id
    ensures forall j :: 0 <= j < |users[..k]| ==> users[..k][j].id != users[k].id
  {
    forall j | 0 <= j < |users[..k]|
      ensures users[..k][j].id != users[k].id
    {
      assert users[..k][j] == users[j];
    }
  }

  /** No user from position `lo`, just after `k`, carries the `k`-th user's id. */
  lemma AfterHasNoId(users: seq<User>, k: nat, lo: nat)
    requires k < |users| && lo == k + 1
    requires forall i :: 0 <= i < |users| && i != k ==> users[i].id != users[k].id
    ensures forall j :: 0 <= j < |users[lo..]| ==> users[lo..][j].id != users[k].id
  {
    forall j | 0 <= j < |users[lo..]|
      ensures users[lo..][j].id != users[k].id
    {
      assert users[lo..][j] == users[lo + j];
    }
  }

  lemma WithoutSplit(before: seq<User>, x: User, after: seq<User>)
    requires forall i :: 0 <= i < |before| ==> before[i].id != x.id
    requires forall i :: 0 <= i < |after| ==> after[i].id != x.id
    ensures Without(before + ([x] + after), x.id) == before + after
  {
    WithoutAppend(before, [x] + after, x.id);
    WithoutNone(before, x.id);
    WithoutNone(after, x.id);
    WithoutSkipsHead(x, after);
  }

  lemma WithoutSkipsHead(u: User, after: seq<User>)
    ensures Without([u] + after, u.id) == Without(after, u.id)
  {
    assert ([u] + after)[0] == u && ([u] + after)[1..] == after;
  }

  lemma {:induction false} WithoutAppend(a: seq<User>, b: seq<User>, id: ObjectId)
    ensures Without(a + b, id) == Without(a, id) + Without(b, id)
  {
    if a == [] {
      assert a + b == b;
    } else {
      var head := if a[0].id == id then [] else [a[0]];
      assert (a + b)[0] == a[0];
      assert (a + b)[1..] == a[1..] + b;
      WithoutAppend(a[1..], b, id);
      assert Without(a + b, id) == head + (Without(a[1..], id) + Without(b, id));
      assert head + (Without(a[1..], id) + Without(b, id)) == (head + Without(a[1..], id)) + Without(b, id);
    }
  }

  /** The table after deleting an id keeps exactly the users without that id. */
  lemma {:induction false} WithoutMembers(users: seq<User>, id: ObjectId)
    ensures forall u :: u in Without(users, id) <==> u in users && u.id != id
  {
    if users != [] {
      WithoutMembers(users[1..], id);
      assert forall u :: u in users <==> u == users[0] || u in users[1..];
    }
  }

  lemma {:induction false} WithoutNone(users: seq<User>, id: ObjectId)
    requires forall i :: 0 <= i < |users| ==> users[i].id != id
    ensures Without(users, id) == users
  {
    if users != [] {
      WithoutNone(users[1..], id);
    }
  }

  lemma DeleteUserPreservesValid(t: UserTable, id: ObjectId)
    requires ValidTable(t)
    ensures ValidTable(DeleteUser(t, id).0)
  {
    if FindById(t.users, id).Some? {
      var k :| 0 <= k < |t.users| && t.users[k].id == id;
      WithoutOne(t.users, k);
      RemoveKeepsDistinct(t.users, k);
    }
  }

  lemma RemoveKeepsDistinct(users: seq<User>, k: nat)
    requires k < |users| && Distinct(users)
    ensures Distinct(users[..k] + users[k + 1..])
  {
    var rest := users[..k] + users[k + 1..];
    forall i, j | 0 <= i < j < |rest|
      ensures rest[i].id != rest[j].id && rest[i].username != rest[j].username && rest[i].email != rest[j].email
    {
      var i0 := if i < k then i else i + 1;
      var j0 := if j < k then j else j + 1;
      assert rest[i] == users[i0] && rest[j] == users[j0] && i0 < j0;
    }
  }

  /** The clamped request never fails, and a page never holds more than the clamped size. */
  lemma GetAllUsersPageClamps(t: UserTable, page: int, size: int)
    ensures PageRequestOf(MaxInt(page, 0), MaxInt(size, 1)).Success?
    ensures |GetAllUsersPage(t, page, size).content| <= MaxInt(size, 1)
    ensures GetAllUsersPage(t, page, size).totalElements == |t.users|
    ensures page <= 0 ==> GetAllUsersPage(t, page, size).content == t.users[..Min(MaxInt(size, 1), |t.users|)]
  {
    RepositoryPageShape(t.users, Pageable(MaxInt(page, 0), MaxInt(size, 1)));
  }

  /** The user table, updated in place by registration and deletion. */
  class UserService {
    var table: UserTable
    const encrypt: string -> string
    const verify: (string, string) -> bool

    ghost predicate Valid()
      reads this
    {
      ValidTable(table)
    }

    constructor (encrypt: string -> string, verify: (string, string) -> bool)
      ensures Valid() && table == UserTable([], 0)
      ensures this.encrypt == encrypt && this.verify == verify
    {
      this.table := UserTable([], 0);
      this.encrypt := encrypt;
      this.verify := verify;
    }

    method RegisterUser(username: string, password: string, name: string, email: string) returns (r: Result<User, RegisterError>)
      requires Valid()
      modifies this
      ensures Valid()
      ensures (table, r) == Register(old(table), username, encrypt(password), name, email)
    {
      RegisterPreservesValid(table, username, encrypt(password), name, email);
      if UsernameTaken(table.users, username) {
        return Failure(UsernameExists);
      }
      if EmailTaken(table.users, email) {
        return Failure(EmailExists);
      }
      var user := User(table.nextId, username, encrypt(password), name, email, DEFAULT_ROLE, DEFAULT_MAX_BORROW);
      table := UserTable(table.users + [user], table.nextId + 1);
      r := Success(user);
    }

    method LoginUser(username: string, password: string) returns (r: LoginResult)
      ensures r == Login(table, username, password, verify)
    {
      var found := FindByUsername(table.users, username);
      if found.None? {
        return UnknownUser;
      }
      if !verify(password, found.value.password) {
        return WrongPassword;
      }
      r := LoginOk(found.value);
    }

    method DeleteUserById(id: ObjectId) returns (ok: bool)
      requires Valid()
      modifies this
      ensures Valid()
      ensures (table, ok) == DeleteUser(old(table), id)
    {
      DeleteUserPreservesValid(table, id);
      if FindById(table.users, id).Some? {
        table := table.(users := Without(table.users, id));
        return true;
      }
      return false;
    }

    /** `getUserById`: `None` for an unknown id. */
    function GetUserById(id: ObjectId): (u: Option<User>)
      reads this
      requires Valid()
      ensures u.None? <==> forall x :: x in table.users ==> x.id != id
      ensures u.Some? ==> u.value in table.users && u.value.id == id
    {
      FindById(table.users, id)
    }
  }
}
