/**
 * The session state of the application (lib/auth-provider.tsx): who is
 * signed in, whether the session is still being restored, the stored copy of
 * the user, and the redirects the route guard issues.
 */
module AuthProvider {
  import opened Wrappers

  datatype Role = Admin | Teacher | Nurse

  datatype User = User(id: string, name: string, email: string, role: Role)

  /** The user every successful sign-in produces, whatever the password. */
  function MockUser(email: string): (u: User)
    ensures u.email == email && u.role == Admin
  {
    User("1", "John Doe", email, Admin)
  }

  /** The paths a visitor may see without signing in. */
  function IsPublicPath(pathname: string): (public: bool)
    ensures public <==> pathname == "/login" || pathname == "/signup"
    ensures public ==> !(|pathname| >= 10 && pathname[..10] == "/dashboard")
  {
    pathname in ["/login", "/signup"]
  }

  /**
   * The route-protection effect: where to send the visitor, if anywhere.
   * Nothing happens while loading; a visitor without a user is sent to the
   * sign-in page from every other page, and a signed-in user is sent from
   * the public pages to the dashboard.
   */
  function Guard(isLoading: bool, user: Option<User>, pathname: string): (target: Option<string>)
    ensures isLoading ==> target == None
    ensures !isLoading && user.None? && !IsPublicPath(pathname) ==> target == Some("/login")
    ensures !isLoading && user.Some? && IsPublicPath(pathname) ==> target == Some("/dashboard")
    ensures target.Some? ==> !isLoading && (user.None? <==> !IsPublicPath(pathname))
  {
    if isLoading then None
    else if user.None? && !IsPublicPath(pathname) then Some("/login")
    else if user.Some? && IsPublicPath(pathname) then Some("/dashboard")
    else None
  }

  /** Following a redirect lands on a page where the guard is satisfied. */
  lemma GuardSettles(user: Option<User>, pathname: string)
    requires Guard(false, user, pathname).Some?
    ensures Guard(false, user, Guard(false, user, pathname).value) == None
  {
    assert "/dashboard" != "/login" && "/dashboard" != "/signup";
  }

  /** Every dashboard page sends a visitor without a user to the sign-in page. */
  lemma DashboardNeedsUser(pathname: string)
    requires |pathname| >= 10 && pathname[..10] == "/dashboard"
    ensures Guard(false, None, pathname) == Some("/login")
  {
    assert pathname[1] == "/dashboard"[1] == 'd';
  }

  class Session {
    /** The signed-in user, or null. */
    var user: Option<User>
    var isLoading: bool
    /** The "user" entry of localStorage, kept as the user it serialises. */
    var storage: Option<User>
    /** The targets passed to `router.push`, oldest first. */
    var redirects: seq<string>

    /** The provider as first rendered: no user and loading, over whatever storage holds. */
    constructor(stored: Option<User>)
      ensures user == None && isLoading && storage == stored && redirects == []
    {
      user := None;
      isLoading := true;
      storage := stored;
      redirects := [];
    }

    /** Children are rendered only once loading is over. */
    function RendersChildren(): (r: bool)
      reads this
      ensures r <==> !isLoading
      ensures !r ==> forall pathname :: Guard(isLoading, user, pathname) == None
    {
      !isLoading
    }

    /** `checkAuth`: restore the stored user if there is one, then stop loading. */
    method CheckAuth()
      modifies this
      ensures user == (if old(storage).Some? then old(storage) else old(user))
      ensures !isLoading && RendersChildren()
      ensures storage == old(storage) && redirects == old(redirects)
    {
      if storage.Some? {
        user := storage;
      }
      isLoading := false;
    }

    /** The part of `login` before the simulated request: loading starts. */
    method BeginLogin()
      modifies this
      ensures isLoading && !RendersChildren()
      ensures user == old(user) && storage == old(storage) && redirects == old(redirects)
    {
      isLoading := true;
    }

    /**
     * The part of `login` after the simulated request. Both fields must be
     * non-empty; then the mock user is written to storage and signed in.
     * `storageWritable` is false when `localStorage.setItem` throws, which the
     * catch turns into a failure. Loading ends either way (the `finally`).
     */
    method FinishLogin(email: string, password: string, storageWritable: bool) returns (ok: bool)
      modifies this
      ensures ok <==> email != "" && password != "" && storageWritable
      ensures ok ==> user == Some(MockUser(email)) && storage == Some(MockUser(email))
      ensures !ok ==> user == old(user) && storage == old(storage)
      ensures !isLoading && redirects == old(redirects)
    {
      ok := false;
      if email != "" && password != "" {
        var mockUser := MockUser(email);
        if storageWritable {
          storage := Some(mockUser);
          user := Some(mockUser);
          ok := true;
        }
      }
      isLoading := false;
    }

    /** `login`: both halves, with the request in between. */
    method Login(email: string, password: string, storageWritable: bool) returns (ok: bool)
      modifies this
      ensures ok <==> email != "" && password != "" && storageWritable
      ensures ok ==> user == Some(MockUser(email)) && storage == Some(MockUser(email))
      ensures !ok ==> user == old(user) && storage == old(storage)
      ensures !isLoading && redirects == old(redirects)
    {
      BeginLogin();
      ok := FinishLogin(email, password, storageWritable);
    }

    /** `logout`: forget the stored user and the session, and go to the sign-in page. */
    method Logout()
      modifies this
      ensures storage == None && user == None
      ensures redirects == old(redirects) + ["/login"]
      ensures isLoading == old(isLoading)
    {
      storage := None;
      user := None;
      redirects := redirects + ["/login"];
    }

    /** One run of the route-protection effect on `pathname`. */
    method ProtectRoutes(pathname: string)
      modifies this
      ensures redirects == old(redirects) + (match Guard(isLoading, user, pathname) case None => [] case Some(t) => [t])
      ensures user == old(user) && isLoading == old(isLoading) && storage == old(storage)
    {
      var target := Guard(isLoading, user, pathname);
      if target.Some? {
        redirects := redirects + [target.value];
      }
    }
  }

  /**
   * Sign in, then reload the page: the new provider starts empty and loading,
   * restores the stored user, and so comes back with the user the sign-in
   * produced; after a failed sign-in it comes back with what was stored before.
   */
  method LoginThenReload(stored: Option<User>, email: string, password: string, storageWritable: bool)
    returns (ok: bool, before: Option<User>, after: Option<User>)
    ensures ok <==> email != "" && password != "" && storageWritable
    ensures ok ==> before == Some(MockUser(email)) && after == before
    ensures !ok ==> after == stored
  {
    var session := new Session(stored);
    session.CheckAuth();
    ok := session.Login(email, password, storageWritable);
    before := session.user;
    var reloaded := new Session(session.storage);
    reloaded.CheckAuth();
    after := reloaded.user;
  }

  /** After logging out and reloading, nobody is signed in, and every non-public page redirects to sign-in. */
  method LogoutThenReload(stored: Option<User>, pathname: string) returns (after: Option<User>, target: Option<string>)
    ensures after == None
    ensures !IsPublicPath(pathname) ==> target == Some("/login")
    ensures IsPublicPath(pathname) ==> target == None
  {
    var session := new Session(stored);
    session.CheckAuth();
    session.Logout();
    var reloaded := new Session(session.storage);
    reloaded.CheckAuth();
    after := reloaded.user;
    target := Guard(reloaded.isLoading, reloaded.user, pathname);
  }
}
