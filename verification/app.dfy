/**
 The add-group and add-subject routes of app.py (lines 84-110 and 112-138):
 the `is_authorized` guard in front of the roster normalisation, with the
 author of the new group taken from the session the cookie names.
 */
module App {
  import opened Sessions
  import opened Roster

  datatype RosterPage =
    | LoginRedirect                     // the guard turned the request away
    | NotSubmitted                      // GET: the page branch, whose contents are not modelled
    | Submitted(outcome: RosterOutcome) // POST: the roster handed on, or the error page

  /** One request to `/actions/add_group` (or `/actions/add_subject`). */
  function RosterRoute(verb: Method, cookies: Cookies, reg: Registry, form: Form): (p: RosterPage)
    ensures p.LoginRedirect? <==> !("auth" in cookies && cookies["auth"] in reg)
    ensures p.Submitted? <==> verb == Post && "auth" in cookies && cookies["auth"] in reg
    ensures p.Submitted? ==> (p.outcome.Broken? <==> "group_id" !in form || "members" !in form)
    ensures p.Submitted? && p.outcome.AddGroup? ==>
      p.outcome.author == reg[cookies["auth"]].userId
  {
    if Guard(cookies, reg) == RedirectToLogin then LoginRedirect
    else match verb
      case Get => NotSubmitted
      case Post => Submitted(SubmitRoster(form, CurrentUser(cookies, reg).userId))
  }

  /** Logged in and submitting a complete form with the issued cookie, a user
      hands the store the upper-cased group id and the normalised member list,
      under their own user id. */
  lemma LoggedInSubmission(verb: Method, login: Form, lookup: Lookup, verify: Verifier,
                           t: Token, reg: Registry, form: Form)
    requires Login(verb, login, lookup, verify, t, reg).outcome.LoggedIn?
    requires "group_id" in form && "members" in form
    ensures RosterRoute(Post, map["auth" := t], Login(verb, login, lookup, verify, t, reg).registry, form)
      == Submitted(AddGroup(NormaliseGroupId(form["group_id"]), NormaliseMembers(form["members"]),
                            lookup(FormName(login)).value.userId))
  {
    LoginThenAuthorized(verb, login, lookup, verify, t, reg);
  }
}
