# Fesmoorique roster and session core, in Dafny

Fesmoorique is a small Flask application that teachers use to register groups of
students and record lessons. Two pieces of `app.py` are more than plumbing, and
this project models both of them:

1. **Roster normalisation.** The add-group form (and its copy in the add-subject
   form) takes a group id and a free-text member list. The group id is
   upper-cased. The member text is split on `'\n'` and each line is right-stripped.
   Each line is then split on whitespace runs, every word is `capitalize()`d, and
   the words are joined with single spaces. The result is the list handed to
   `db.add_group`.
2. **Session registry.** `auth_cookies` is a process-wide dict from cookie token
   to `{user_name, user_id}`. The login handler writes it, the `is_authorized`
   guard reads it, and the logout handler deletes from it. Entries never expire.

Modules, leaf first:

- `Wrappers` (`wrappers.dfy`): `Option`.
- `PyChar` (`pychar.dfy`): Python's `str.isspace` character set, plus upper and
  lower case mapping for Basic Latin and Cyrillic U+0400..U+045F.
- `PyStr` (`pystr.dfy`): the `str` methods the roster uses: `upper`, `lower`,
  `capitalize`, `rstrip()`, `split()`, `split(d)` and `d.join`. Also their round
  trips: `split(d)`/`d.join` are mutual inverses, `split()` undoes `" ".join` on
  words, and `split()` keeps exactly the non-whitespace characters.
- `Roster` (`roster.dfy`): group-id and member-list normalisation, and the POST
  branch of the two roster forms.
- `Sessions` (`sessions.dfy`): the registry as an immutable `map<Token, Session>`
  threaded through `Login`, `Guard` and `Logout`. It also holds a request-run
  model (`Step`, `Run`) for the lifecycle of one session.
- `App` (`app.dfy`): the roster route behind its guard. The new group's author is
  the user named by the session.

The environment is passed in as parameters:

- The user lookup `db.login` becomes a function `string -> Option<UserRow>`.
  `None` stands for the `False` it returns for an unknown name
  (tools/database.py:171-177). Otherwise it gives the first row's `(pass, rowid)`.
- `verify_password` becomes an arbitrary function `(string, string) -> bool`.
- `rand_hash` becomes an arbitrary token argument. No freshness is assumed:
  a login that draws a token already in the map overwrites that entry, as
  app.py:208 does.

Three failure paths of the login and logout handlers answer differently from
what the handlers' own messages show was meant:

- The bad-credentials page (app.py:213) reads "wrong password or user name",
  so it is meant for both kinds of failure. Yet:
  - an unknown user crashes the handler with an uncaught `TypeError`;
  - a known user with a wrong password gets the message "User <name> created.".
- The missing-field handler (app.py:217) passes the `KeyError` itself to
  `jsonify`. Flask cannot encode an exception as JSON, so the request ends in
  an error instead of the "Lack of parameters." message.
- Logout's redirect to the login page (app.py:229) is returned only when an
  `auth` cookie was sent. Otherwise the view returns `None`, which Flask
  refuses as a response.

The model follows the code as written. Each discrepancy is listed under
Findings, with a corrected definition.

## Model

| member | source | states |
|---|---|---|
| PyChar.Upper | app.py:95 | lower-case letters map to their upper-case partner; every other character is unchanged |
| PyChar.Lower | app.py:199 | upper-case letters map to their lower-case partner; every other character is unchanged |
| PyStr.UpperStrShape | app.py:95 | `upper()` gives a fully upper-cased string; it is idempotent; it fixes exactly the strings already upper case |
| PyStr.LowerStrShape | app.py:199 | `lower()` gives a fully lower-cased string; it is idempotent; it fixes exactly the strings already lower case |
| PyStr.CapitalizeShape | app.py:100 | `capitalize()` upper-cases the first character and lower-cases the rest; the result has the capitalized shape; it is idempotent; it fixes exactly the capitalized strings; it keeps a word free of whitespace |
| PyStr.RStrip | app.py:98 | `rstrip()` returns a prefix of its input; everything removed is whitespace; the result is empty or ends in a non-whitespace character |
| PyStr.Words | app.py:100 | every item of `split()` is a non-empty run with no whitespace |
| PyStr.WordsOfSpread | app.py:100 | words with whitespace runs of any length between them (non-empty between two words) and any whitespace at either end split back into exactly those words |
| PyStr.GapsOf | app.py:100 | every string is its own words spread over valid whitespace gaps, with the same text back |
| PyStr.WordsCharacterised | app.py:100 | `split()` yields a list of words if and only if the string is those words separated by non-empty whitespace runs, with optional whitespace at either end |
| PyStr.Split | app.py:97 | `split('\n')` gives one more piece than there are line breaks; no piece contains a line break |
| PyStr.SplitJoin | app.py:97 | joining the pieces of `split(d)` with `d` gives back the original text |
| PyStr.JoinSplit | app.py:97 | splitting a `d`-join of separator-free pieces gives back the pieces |
| PyStr.WordsOfJoin | app.py:100 | `split()` of `" ".join(words)` gives back the words |
| PyStr.JoinWordsClean | app.py:100 | `" ".join` of words has no whitespace at either end, no whitespace other than single spaces, and is empty only for no words |
| PyStr.CleanIsJoinOfWords | app.py:100 | a string is clean if and only if it equals `" ".join` of its own words |
| PyStr.WordsOfRStrip | app.py:98-100 | the `rstrip()` before `split()` does not change the words |
| PyStr.WordsConcat | app.py:100 | the words of a line, end to end, are exactly its non-whitespace characters in order |
| PyStr.WordsEmptyIffBlank | app.py:100 | `split()` yields no words if and only if the line is all whitespace |
| Roster.NormaliseGroupId | app.py:95 | the stored group id is the submitted id with each character upper-cased in place, so it is fully upper case |
| Roster.CapitalizeAllShape | app.py:100 | capitalizing every word keeps each a word, gives each the capitalized shape, and is idempotent |
| Roster.NormaliseLine | app.py:98-100 | a normalised entry is clean, its words are the line's words capitalized in order, and each is capitalized |
| Roster.NormaliseMembers | app.py:96-100 | the member list has one entry per `'\n'`-separated line, and every entry is clean |
| Roster.MembersOnePerLine | app.py:97-100 | the lines join back to the submitted text; entry i holds the capitalized words of line i |
| Roster.BlankLinesKept | app.py:97-100 | an entry is the empty string if and only if its line is blank: blank lines are kept, not dropped |
| Roster.NormaliseLineIdempotent | app.py:98-100 | normalising a normalised entry changes nothing |
| Roster.NormaliseMembersIdempotent | app.py:96-100 | resubmitting the normalised list, one entry per line, gives the same list |
| Roster.GroupIdIdempotent | app.py:95 | upper-casing the group id is idempotent and fixes exactly the ids already upper case |
| Roster.SubmitRoster | app.py:93-107 | a missing `group_id` or `members` field gives the error page (`Broken`, which records the first missing key; the page itself shows only a generic bad-request text); otherwise the store gets the normalised group id, the normalised member list (one clean entry per line) and the caller's user id (add_subject, app.py:121-135, is the same code) |
| Sessions.FormName | app.py:199 | the login name is the submitted username with each character lower-cased in place |
| Sessions.Login | app.py:194-220 | a cookie is issued if and only if a POST names a known user with a truthy hash that verifies. On success the token maps to {lower-cased name, looked-up id}, the key set grows by the token, and every other key is unchanged. Every other path leaves the map as it was. GET gives the form; a missing field ends in the error raised by `jsonify` on the `KeyError`; an unknown user gives the unpack error; a falsy hash gives the bad-credentials page; a wrong password gives "User … created." |
| Sessions.Guard | app.py:46-60 | the wrapped handler runs if and only if an `auth` cookie was sent and is a key of the map; otherwise the request is redirected to login |
| Sessions.Logout | app.py:222-229 | with an `auth` cookie: that key is removed (a no-op if absent), every other entry is unchanged, and the request is redirected to login; without one: no response and no change |
| Sessions.LoginThenAuthorized | app.py:199-210 | after a successful login, the issued cookie passes the guard and the handler sees the lower-cased name and the looked-up id |
| Sessions.LoginKeepsOtherSessions | app.py:208-210 | a login never de-authorises any cookie; cookies other than the issued token keep their guard outcome and their user |
| Sessions.LogoutThenUnauthorized | app.py:224-226 | after logout the same cookie is turned away by the guard |
| Sessions.LogoutAbsentIsNoop | app.py:225-228 | logging out an unregistered token leaves the map unchanged |
| Sessions.LogoutIdempotent | app.py:224-229 | logging out twice equals logging out once, in both answer and map |
| Sessions.StepKeeps | app.py:43 | a request that is neither a logout of `t` nor a login issuing `t` keeps the entry for `t` |
| Sessions.SessionPersists | app.py:43 | an entry survives, unchanged, every run of requests none of which can end it; there is no expiry |
| Sessions.RunAppend | app.py:43 | running two batches of requests in turn is running them as one |
| Sessions.SessionLifecycle | app.py:194-229 | after a successful login and any requests that cannot end the session, the cookie passes the guard as the logged-in user; after a logout with it, it does not |
| Sessions.LoginRevealsUnknownUser | app.py:202-218 | as written, an unknown user crashes the handler, while a known user with a wrong password is told "User bob created." |
| Sessions.LoginMissingFieldCrashes | app.py:197-217 | as written, a login form without a password field ends in the `jsonify` error and leaves the map unchanged |
| Sessions.LoginIntended | app.py:197-218 | corrected login: every failed credential check gives the bad-credentials page, whether or not the user exists; a missing field gives "Lack of parameters."; it registers exactly what Login registers |
| Sessions.LogoutWithoutCookieFails | app.py:224-229 | as written, logout without an `auth` cookie produces no response |
| Sessions.LogoutIntended | app.py:224-229 | corrected logout: always redirects to login, and changes the map exactly as Logout does |
| App.RosterRoute | app.py:84-107 | the guard turns away exactly the requests without a registered cookie; only an authorised POST submits the roster (the GET branch's page is not modelled); a submitted roster ends in the error page exactly when a form field is missing; a submitted group's author is the id of the session the cookie names |
| App.LoggedInSubmission | app.py:87-103 | a user who just logged in and posts a complete form with the issued cookie hands the store the upper-cased id, the normalised members and their own user id |

## Left out

- tools/database.py: the SQLite store is not part of this model. The only thing kept is the shape of `db.login`'s result, as the `Lookup` parameter. Inserts, the schema, uniqueness, and SQL errors are not modelled. An SQL error would arise, for example, from a quote in an interpolated name.
- `db.add_group` and its effect on the store: the roster route ends with the call's arguments (`Roster.AddGroup`). Any exception it raises is not modelled.
- Password hashing, `verify_password` and `rand_hash` (the `tools/passwd` module is not part of this model): the last two are parameters. `hash_password` is called at app.py:201 and its result is never used, so it is not modelled.
- The `IntegrityError` handler of the login route (app.py:214-215) is not modelled. Only a SELECT runs inside that `try`, so nothing modelled can reach it.
- The GET branches of the roster routes: add_group's (app.py:109) passes `favourites=True` to `group_list`, which takes no such argument (tools/database.py:139), and add_subject's (app.py:137) calls `subject_list`, which tools/database.py does not define. `App.RosterRoute` records only that a GET does not submit.
- Flask itself: routing, templates, `make_response`/`redirect`/`jsonify` rendering, CORS, logging and `print`. Outcomes are datatype constructors, not responses.
- The other guarded routes (index, details_group, start_lesson, add/remove favourite): their store calls are not modelled. index, start_lesson and the favourite routes call methods that tools/database.py does not define; details_group calls `db.get_group` (tools/database.py:104). Towards the registry they all only read it, which `Sessions.Step` models as `GuardedRequest`.
- Concurrency on the shared `auth_cookies` dict: the model is sequential.
- PyChar.Upper: only Basic Latin and Cyrillic U+0400..U+045F letters are mapped. Python maps all of Unicode, including special cases that change the length (`'ß'.upper() == 'SS'`) and title-case digraphs in `capitalize()`.
- PyChar.Lower: only Basic Latin and Cyrillic U+0400..U+045F letters are mapped, for the same reason as `PyChar.Upper`.
- Roster.NormaliseGroupId: inherits the restricted case mapping of `PyChar.Upper`.
- Sessions.FormName: inherits the restricted case mapping of `PyChar.Lower`.
- Sessions.Guard: does not model the race in which a concurrent logout removes the entry between the check and its use.

## Findings

| source | as written | input that shows it | evidently intended | confidence | as-written member | corrected member |
|---|---|---|---|---|---|---|
| app.py:202-218 | An unknown user makes `db.login` return `False`. Unpacking it raises an uncaught `TypeError`. A known user with a wrong password falls through to "User <name> created.". | username "bob", password "x": unknown, versus known with a hash the verifier rejects | every failed credential check answered with the wrong-password-or-name page of app.py:213, so the answer does not reveal whether the user exists | medium, not executed | Sessions.LoginRevealsUnknownUser | Sessions.LoginIntended |
| app.py:197-217 | A missing `username` or `password` raises `KeyError`. The handler passes that exception to `jsonify`, whose JSON encoder cannot encode it, so the request ends in an error. This rests on Flask's encoder, which is not part of this model. | a login form with only a `username` field | the "Lack of parameters." message | medium, not executed | Sessions.LoginMissingFieldCrashes | Sessions.LoginIntended |
| app.py:224-229 | The redirect is returned only inside `if 'auth' in request.cookies`. Without the cookie the view returns `None`, which Flask rejects. | a logout request with no cookies | redirect to the login page in every case | medium, not executed | Sessions.LogoutWithoutCookieFails | Sessions.LogoutIntended |

The corrected handlers change only the answer. `Sessions.LoginIntended` and
`Sessions.LogoutIntended` are proved to leave the registry exactly as `Login`
and `Logout` do. So every registry property above (`SessionPersists`,
`SessionLifecycle`, `LogoutIdempotent`, ...) holds for them unchanged.
