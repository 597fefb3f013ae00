/**
 * The request interceptor's access decision: public paths pass, every other
 * path needs a session user, and the administration paths need the `ADMIN`
 * role. The redirect the interceptor sends is the decision's value.
 */
module AuthInterceptor {
  import opened Outcomes

  datatype Decision = Allow | Redirect(to: string)

  const ADMIN_ROLE: string := "ADMIN"

  /** Paths served without a session: seven prefixes and the root itself. */
  predicate IsPublic(uri: string)
  {
    || "/login" <= uri
    || "/register" <= uri
    || "/css/" <= uri
    || "/js/" <= uri
    || "/images/" <= uri
    || uri == "/"
    || "/test" <= uri
    || "/api/" <= uri
  }

  /** Paths that need the administrator role. */
  predicate IsAdminOnly(uri: string)
  {
    "/admin" <= uri || "/books/add" <= uri || "/books/edit" <= uri
  }

  /**
   * `preHandle`: `loggedIn` says whether the session holds a user, `role` is
   * the session's role attribute, absent when never set.
   */
  function PreHandle(uri: string, loggedIn: bool, role: Option<string>): Decision
  {
    if IsPublic(uri) then Allow
    else if !loggedIn then Redirect("/login")
    else if IsAdminOnly(uri) && role != Some(ADMIN_ROLE) then Redirect("/")
    else Allow
  }

  // ---------------------------------------------------------------------------
  // Properties
  // ---------------------------------------------------------------------------

  /** The decision is one of three: allow, back to the login page, or back to the home page. */
  lemma DecisionKinds(uri: string, loggedIn: bool, role: Option<string>)
    ensures var d := PreHandle(uri, loggedIn, role);
      d == Allow || d == Redirect("/login") || d == Redirect("/")
    ensures PreHandle(uri, loggedIn, role) == Redirect("/login") <==> !IsPublic(uri) && !loggedIn
    ensures PreHandle(uri, loggedIn, role) == Redirect("/") <==>
      !IsPublic(uri) && loggedIn && IsAdminOnly(uri) && role != Some(ADMIN_ROLE)
  {
  }

  /** Everything under a public prefix is served with no session at all. */
  lemma PublicPrefixesNeedNoSession(rest: string, role: Option<string>)
    ensures PreHandle("/login" + rest, false, role) == Allow
    ensures PreHandle("/register" + rest, false, role) == Allow
    ensures PreHandle("/css/" + rest, false, role) == Allow
    ensures PreHandle("/js/" + rest, false, role) == Allow
    ensures PreHandle("/images/" + rest, false, role) == Allow
    ensures PreHandle("/test" + rest, false, role) == Allow
    ensures PreHandle("/api/" + rest, false, role) == Allow
    ensures PreHandle("/", false, role) == Allow
  {
    assert "/login" <= "/login" + rest;
    assert "/register" <= "/register" + rest;
    assert "/css/" <= "/css/" + rest;
    assert "/js/" <= "/js/" + rest;
    assert "/images/" <= "/images/" + rest;
    assert "/test" <= "/test" + rest;
    assert "/api/" <= "/api/" + rest;
  }

  /** The public check comes first, so the JSON borrow endpoint passes without a login. */
  lemma ApiBorrowIsPublic()
    ensures PreHandle("/api/borrow", false, None) == Allow
  {
    assert "/api/" <= "/api/borrow";
  }

  /** Without a session user, every non-public path is sent to the login page. */
  lemma NoSessionGoesToLogin(uri: string, role: Option<string>)
    requires !IsPublic(uri)
    ensures PreHandle(uri, false, role) == Redirect("/login")
  {
  }

  /** A reader is sent home from the administration pages. */
  lemma ReaderKeptOutOfAdmin(rest: string)
    ensures PreHandle("/admin" + rest, true, Some("READER")) == Redirect("/")
  {
    var uri := "/admin" + rest;
    assert "/admin" <= uri;
    assert uri[1] == 'a' && uri[2] == 'd';
  }

  /** A reader is sent home from the form that adds a book. */
  lemma ReaderKeptOutOfBookAdd(rest: string)
    ensures PreHandle("/books/add" + rest, true, Some("READER")) == Redirect("/")
  {
    var uri := "/books/add" + rest;
    assert "/books/add" <= uri;
    assert uri[1] == 'b';
  }

  /** A session without a role attribute is sent home from the book editor. */
  lemma NoRoleKeptOutOfBookEdit(rest: string)
    ensures PreHandle("/books/edit" + rest, true, None) == Redirect("/")
  {
    var uri := "/books/edit" + rest;
    assert "/books/edit" <= uri;
    assert uri[1] == 'b';
  }

  /** `/books/{id}/edit` does not start with `/books/edit`, so any logged-in user passes. */
  lemma EditByIdIsNotGuarded()
    ensures PreHandle("/books/1/edit", true, Some("READER")) == Allow
  {
    assert "/books/1/edit"[7] == '1';
    assert !("/books/edit" <= "/books/1/edit") by {
      assert "/books/edit"[7] == 'e';
    }
    assert !("/books/add" <= "/books/1/edit") by {
      assert "/books/add"[7] == 'a';
    }
    assert !("/admin" <= "/books/1/edit") by {
      assert "/admin"[1] == 'a' && "/books/1/edit"[1] == 'b';
    }
  }

  /** Logging in never takes access away. */
  lemma LoginNeverRestricts(uri: string, role: Option<string>)
    ensures PreHandle(uri, false, role) == Allow ==> PreHandle(uri, true, role) == Allow
  {
  }

  /** A logged-in administrator is allowed everywhere, so wherever anyone else is. */
  lemma AdminAllowedEverywhere(uri: string, loggedIn: bool, role: Option<string>)
    ensures PreHandle(uri, true, Some(ADMIN_ROLE)) == Allow
    ensures PreHandle(uri, loggedIn, role) == Allow ==> PreHandle(uri, true, Some(ADMIN_ROLE)) == Allow
  {
  }
}
