/**
 The in-memory session registry of app.py: the process-wide `auth_cookies`
 dict (line 43) from cookie token to `{user_name, user_id}`, written by the
 login handler (lines 194-220), read by the `is_authorized` guard (lines 46-60)
 and cleared by the logout handler (lines 222-229).

 The registry is threaded through pure transition functions. The user lookup
 (`db.login`), the password check (`verify_password`) and the token generator
 (`rand_hash`) are parameters: an arbitrary lookup function, an arbitrary
 verifier and an arbitrary token, with no freshness assumed.
 */
module Sessions {
  import opened Wrappers
  import opened PyChar
  import opened PyStr

  type Token = string

  /** One entry of `auth_cookies`. */
  datatype Session = Session(userName: string, userId: int)

  type Registry = map<Token, Session>

  /** Request cookies and form fields, by name. */
  type Cookies = map<string, string>
  type Form = map<string, string>

  datatype Method = Get | Post

  /** The row `db.login` returns: `(pass, rowid)` of the first user with that
      name. A NULL `pass` column is `None`. */
  datatype UserRow = UserRow(storedHash: Option<string>, userId: int)

  /** The user lookup: `None` where `db.login` returns `False`. */
  type Lookup = string -> Option<UserRow>

  /** `verify_password(stored_hash, password)`. */
  type Verifier = (string, string) -> bool

  /** Python truthiness of the stored hash: neither NULL nor empty. */
  predicate Truthy(h: Option<string>) {
    h.Some? && h.value != ""
  }

  /** The `auth` cookie of a request, if it sent one. */
  function AuthCookie(cookies: Cookies): (t: Option<Token>)
    ensures t.Some? <==> "auth" in cookies
    ensures t.Some? ==> t.value == cookies["auth"]
  {
    if "auth" in cookies then Some(cookies["auth"]) else None
  }

  /** Two registries hold the same entries for every key other than `t`. */
  ghost predicate AgreeExcept(a: Registry, b: Registry, t: Token) {
    forall k :: k != t ==> (k in a <==> k in b) && (k in a ==> a[k] == b[k])
  }

  // ---------------------------------------------------------------------------
  // Login

  /** What the login handler answers. */
  datatype LoginOutcome =
    | LoginPage               // GET: the login form
    | LoggedIn(cookie: Token) // redirect to the index with the `auth` cookie set
    | UnencodableKeyError     // a missing form field: the `KeyError` handler passes the
                              // exception to `jsonify`, which cannot encode it and raises
    | LackOfParameters        // a missing form field answered with "Lack of parameters."
    | UnpackError             // unknown user: unpacking `False` raises an uncaught `TypeError`
    | WrongCredentials        // falsy stored hash: the wrong-password-or-name page
    | UserCreated(name: string) // wrong password: falls through to "User <name> created."
  {
    /** The `auth` cookie set on the response, if any. */
    function IssuedCookie(): Option<Token> {
      if LoggedIn? then Some(cookie) else None
    }
  }

  datatype LoginResult = LoginResult(outcome: LoginOutcome, registry: Registry)

  /** The user name the handler works with: `data['username'].lower()`. */
  function FormName(form: Form): (name: string)
    requires "username" in form
    ensures |name| == |form["username"]|
    ensures forall i :: 0 <= i < |name| ==> name[i] == Lower(form["username"][i])
    ensures IsLowerCased(name)
  {
    LowerStrShape(form["username"]);
    LowerStr(form["username"])
  }

  /** The form names a known user with a truthy stored hash that the verifier
      accepts for the submitted password. */
  predicate Authenticates(form: Form, lookup: Lookup, verify: Verifier) {
    && "username" in form && "password" in form
    && var row := lookup(FormName(form));
       row.Some? && Truthy(row.value.storedHash)
       && verify(row.value.storedHash.value, form["password"])
  }

  /** The login handler (app.py 194-220), issuing `token` if it succeeds. */
  function Login(verb: Method, form: Form, lookup: Lookup, verify: Verifier,
                 token: Token, reg: Registry): (r: LoginResult)
    // a cookie is issued exactly on a POST whose credentials check out
    ensures r.outcome.LoggedIn? <==> verb == Post && Authenticates(form, lookup, verify)
    ensures r.outcome.IssuedCookie().Some? <==> r.outcome.LoggedIn?
    // success: the issued token now names this user; every other key is as it was
    ensures r.outcome.LoggedIn? ==>
      && r.outcome.cookie == token
      && token in r.registry
      && r.registry[token] == Session(FormName(form), lookup(FormName(form)).value.userId)
      && r.registry.Keys == reg.Keys + {token}
      && AgreeExcept(reg, r.registry, token)
    // every other path leaves the registry exactly as it was
    ensures !r.outcome.LoggedIn? ==> r.registry == reg
    // which failure the handler reports
    ensures verb == Get ==> r.outcome == LoginPage
    ensures verb == Post && ("username" !in form || "password" !in form) ==>
      r.outcome == UnencodableKeyError
    ensures verb == Post && "username" in form && "password" in form ==>
      && (lookup(FormName(form)).None? ==> r.outcome == UnpackError)
      && (lookup(FormName(form)).Some? && !Truthy(lookup(FormName(form)).value.storedHash) ==>
            r.outcome == WrongCredentials)
      && (!r.outcome.LoggedIn? && lookup(FormName(form)).Some?
          && Truthy(lookup(FormName(form)).value.storedHash) ==>
            r.outcome == UserCreated(FormName(form)))
  {
    if verb != Post then LoginResult(LoginPage, reg)
    else if "username" !in form || "password" !in form then LoginResult(UnencodableKeyError, reg)
    else
      var name := FormName(form);
      var password := form["password"];
      match lookup(name)
      case None => LoginResult(UnpackError, reg)
      case Some(row) =>
        if !Truthy(row.storedHash) then LoginResult(WrongCredentials, reg)
        else if verify(row.storedHash.value, password) then
          LoginResult(LoggedIn(token), reg[token := Session(name, row.userId)])
        else LoginResult(UserCreated(name), reg)
  }

  // ---------------------------------------------------------------------------
  // The authorisation guard

  datatype GuardOutcome = RunHandler | RedirectToLogin

  /** The `is_authorized` wrapper (app.py 46-60): run the handler when the
      request's `auth` cookie is a key of the registry, otherwise redirect.
      It only reads the registry. */
  function Guard(cookies: Cookies, reg: Registry): (g: GuardOutcome)
    ensures g == RunHandler <==> "auth" in cookies && cookies["auth"] in reg
  {
    match AuthCookie(cookies)
    case None => RedirectToLogin
    case Some(t) => if t in reg then RunHandler else RedirectToLogin
  }

  /** The user a guarded handler reads back (app.py 65-69, 87-91, ...). */
  function CurrentUser(cookies: Cookies, reg: Registry): Session
    requires Guard(cookies, reg) == RunHandler
  {
    reg[cookies["auth"]]
  }

  // ---------------------------------------------------------------------------
  // Logout

  datatype LogoutOutcome =
    | RedirectToLoginPage
    | NoResponse  // no `auth` cookie: the view returns None, which Flask rejects

  datatype LogoutResult = LogoutResult(outcome: LogoutOutcome, registry: Registry)

  /** The logout handler (app.py 222-229): with an `auth` cookie, delete that
      key (silently doing nothing if it is absent) and redirect. */
  function Logout(cookies: Cookies, reg: Registry): (r: LogoutResult)
    ensures "auth" in cookies ==>
      && r.outcome == RedirectToLoginPage
      && r.registry.Keys == reg.Keys - {cookies["auth"]}
      && AgreeExcept(reg, r.registry, cookies["auth"])
    ensures "auth" !in cookies ==> r.outcome == NoResponse && r.registry == reg
  {
    match AuthCookie(cookies)
    case None => LogoutResult(NoResponse, reg)
    case Some(t) => LogoutResult(RedirectToLoginPage, reg - {t})
  }

  // ---------------------------------------------------------------------------
  // How the three handlers interact

  /** After a successful login, presenting the issued cookie passes the guard
      and the handler sees the lower-cased form name and the looked-up id. */
  lemma LoginThenAuthorized(verb: Method, form: Form, lookup: Lookup, verify: Verifier,
                            token: Token, reg: Registry)
    requires Login(verb, form, lookup, verify, token, reg).outcome.LoggedIn?
    ensures var reg' := Login(verb, form, lookup, verify, token, reg).registry;
      && Guard(map["auth" := token], reg') == RunHandler
      && CurrentUser(map["auth" := token], reg') ==
           Session(FormName(form), lookup(FormName(form)).value.userId)
  {
  }

  /** A login never logs anybody out, and requests carrying any cookie other
      than the issued token are authorised as before, as the same user. */
  lemma LoginKeepsOtherSessions(verb: Method, form: Form, lookup: Lookup, verify: Verifier,
                                token: Token, reg: Registry, cookies: Cookies)
    ensures var reg' := Login(verb, form, lookup, verify, token, reg).registry;
      && (Guard(cookies, reg) == RunHandler ==> Guard(cookies, reg') == RunHandler)
      && (AuthCookie(cookies) != Some(token) ==>
            && Guard(cookies, reg') == Guard(cookies, reg)
            && (Guard(cookies, reg) == RunHandler ==>
                  CurrentUser(cookies, reg') == CurrentUser(cookies, reg)))
  {
  }

  /** After logging out, the same cookie no longer passes the guard. */
  lemma LogoutThenUnauthorized(cookies: Cookies, reg: Registry)
    requires "auth" in cookies
    ensures Guard(cookies, Logout(cookies, reg).registry) == RedirectToLogin
  {
  }

  /** Logging out a token that is not registered changes nothing. */
  lemma LogoutAbsentIsNoop(cookies: Cookies, reg: Registry)
    requires "auth" in cookies && cookies["auth"] !in reg
    ensures Logout(cookies, reg).registry == reg
  {
  }

  /** Logging out twice is logging out once. */
  lemma LogoutIdempotent(cookies: Cookies, reg: Registry)
    ensures Logout(cookies, Logout(cookies, reg).registry) == Logout(cookies, reg)
  {
  }

  // ---------------------------------------------------------------------------
  // A run of requests against the registry

  /** A request that touches the registry: a login attempt (with the token
      `rand_hash` would produce for it), a logout, or any handler behind the
      guard. */
  datatype Request =
    | LoginRequest(verb: Method, form: Form, lookup: Lookup, verify: Verifier, token: Token)
    | LogoutRequest(cookies: Cookies)
    | GuardedRequest(cookies: Cookies)

  /** The registry after one request. Guarded handlers only read it. */
  function Step(reg: Registry, req: Request): Registry {
    match req
    case LoginRequest(verb, form, lookup, verify, token) =>
      Login(verb, form, lookup, verify, token, reg).registry
    case LogoutRequest(cookies) => Logout(cookies, reg).registry
    case GuardedRequest(_) => reg
  }

  /** The registry after a sequence of requests, in order. */
  function Run(reg: Registry, reqs: seq<Request>): Registry
    decreases |reqs|
  {
    if reqs == [] then reg else Run(Step(reg, reqs[0]), reqs[1..])
  }

  /** The request could end or replace the session under `t`: a logout with
      that cookie, or a login that would issue that very token. */
  predicate MayEnd(req: Request, t: Token) {
    || (req.LogoutRequest? && AuthCookie(req.cookies) == Some(t))
    || (req.LoginRequest? && req.token == t)
  }

  /** One request that cannot end the session under `t` keeps it as it was. */
  lemma StepKeeps(reg: Registry, req: Request, t: Token)
    requires t in reg && !MayEnd(req, t)
    ensures t in Step(reg, req) && Step(reg, req)[t] == reg[t]
  {
  }

  /** A session stays, with the same user, through every run of requests none of
      which can end it: there is no expiry and no eviction. */
  lemma {:induction false} SessionPersists(reg: Registry, reqs: seq<Request>, t: Token)
    requires t in reg
    requires forall i :: 0 <= i < |reqs| ==> !MayEnd(reqs[i], t)
    ensures t in Run(reg, reqs) && Run(reg, reqs)[t] == reg[t]
    decreases |reqs|
  {
    if reqs != [] {
      StepKeeps(reg, reqs[0], t);
      SessionPersists(Step(reg, reqs[0]), reqs[1..], t);
    }
  }

  /** Running requests one batch after another is running them all. */
  lemma {:induction false} RunAppend(reg: Registry, a: seq<Request>, b: seq<Request>)
    ensures Run(reg, a + b) == Run(Run(reg, a), b)
    decreases |a|
  {
    if a != [] {
      assert (a + b)[0] == a[0];
      assert (a + b)[1..] == a[1..] + b;
      RunAppend(Step(reg, a[0]), a[1..], b);
    } else {
      assert a + b == b;
    }
  }

  /** The life of one session: a successful login issuing `t`, then any requests
      that cannot end it, during which every request carrying `t` passes the
      guard as the logged-in user; a final logout with `t` ends it. */
  lemma SessionLifecycle(verb: Method, form: Form, lookup: Lookup, verify: Verifier,
                         t: Token, reg: Registry, middle: seq<Request>, cookies: Cookies)
    requires Login(verb, form, lookup, verify, t, reg).outcome.LoggedIn?
    requires forall i :: 0 <= i < |middle| ==> !MayEnd(middle[i], t)
    requires AuthCookie(cookies) == Some(t)
    ensures var login := LoginRequest(verb, form, lookup, verify, t);
      && Guard(cookies, Run(reg, [login] + middle)) == RunHandler
      && CurrentUser(cookies, Run(reg, [login] + middle)) ==
           Session(FormName(form), lookup(FormName(form)).value.userId)
      && Guard(cookies, Run(reg, [login] + middle + [LogoutRequest(cookies)])) == RedirectToLogin
  {
    var login := LoginRequest(verb, form, lookup, verify, t);
    var afterLogin := Step(reg, login);
    assert Run(reg, [login]) == afterLogin;
    RunAppend(reg, [login], middle);
    SessionPersists(afterLogin, middle, t);
    RunAppend(reg, [login] + middle, [LogoutRequest(cookies)]);
  }

  // ---------------------------------------------------------------------------
  // The failure paths as their messages evidently intend

  /** As written, an unknown user and a wrong password for a known user give
      different answers: a crash, and a claim that the user was created. */
  lemma LoginRevealsUnknownUser()
    ensures var form := map["username" := "bob", "password" := "x"];
      && Login(Post, form, _ => None, (_, _) => false, "t", map[]).outcome == UnpackError
      && Login(Post, form, _ => Some(UserRow(Some("h"), 1)), (_, _) => false, "t", map[]).outcome
           == UserCreated("bob")
  {
    var form := map["username" := "bob", "password" := "x"];
    assert FormName(form) == "bob";
  }

  /** As written, a login form without a password field ends in an error
      instead of the "Lack of parameters." answer. */
  lemma LoginMissingFieldCrashes(lookup: Lookup, verify: Verifier, token: Token, reg: Registry)
    ensures var r := Login(Post, map["username" := "bob"], lookup, verify, token, reg);
      r.outcome == UnencodableKeyError && r.registry == reg
  {
  }

  /** The login handler with every failed credential check answered by the
      wrong-password-or-name page, and a missing field by the "Lack of
      parameters." answer: it registers exactly what `Login` registers, and
      its answer to failed credentials does not depend on whether the user
      exists. */
  function LoginIntended(verb: Method, form: Form, lookup: Lookup, verify: Verifier,
                         token: Token, reg: Registry): (r: LoginResult)
    ensures r.outcome.LoggedIn? <==> verb == Post && Authenticates(form, lookup, verify)
    ensures r.registry == Login(verb, form, lookup, verify, token, reg).registry
    ensures (verb == Post && "username" in form && "password" in form
             && !Authenticates(form, lookup, verify)) ==> r.outcome == WrongCredentials
    ensures (verb == Post && ("username" !in form || "password" !in form)) ==>
      r.outcome == LackOfParameters
  {
    if verb != Post then LoginResult(LoginPage, reg)
    else if "username" !in form || "password" !in form then LoginResult(LackOfParameters, reg)
    else if Authenticates(form, lookup, verify) then
      var name := FormName(form);
      LoginResult(LoggedIn(token), reg[token := Session(name, lookup(name).value.userId)])
    else LoginResult(WrongCredentials, reg)
  }

  /** As written, a logout request without an `auth` cookie gets no response. */
  lemma LogoutWithoutCookieFails(reg: Registry)
    ensures Logout(map[], reg).outcome == NoResponse
  {
  }

  /** The logout handler with the redirect taken on every path: it always
      answers, and changes the registry exactly as `Logout` does. */
  function LogoutIntended(cookies: Cookies, reg: Registry): (r: LogoutResult)
    ensures r.outcome == RedirectToLoginPage
    ensures r.registry == Logout(cookies, reg).registry
  {
    match AuthCookie(cookies)
    case None => LogoutResult(RedirectToLoginPage, reg)
    case Some(t) => LogoutResult(RedirectToLoginPage, reg - {t})
  }
}
