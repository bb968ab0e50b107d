/** The Flask side of accounts (app.py): the current user derived from the
    session before each request, login's session population, and the
    profile page's group-name validation and update. The users table is a
    map from id to row. */
module Accounts {
  import opened Text

  /** A row of the `users` table; `groupName` is the nullable `group_name`. */
  datatype UserRow = UserRow(
    firstName: string,
    lastName: string,
    email: string,
    password: string,
    groupName: Option<string>)

  type Users = map<int, UserRow>

  /** No two rows share an e-mail address. app.py's first `init_db`
      declares `email TEXT UNIQUE`, but the second definition replaces it and
      builds the table from schema.sql, which is not part of this model; so
      login does not rely on this, and the lemmas that do say so. */
  predicate UniqueEmails(users: Users)
  {
    forall a, b :: a in users && b in users && users[a].email == users[b].email ==> a == b
  }

  /** The session keys the app reads and writes (None when absent). */
  datatype Session = Session(userId: Option<int>, firstName: Option<string>, lastName: Option<string>)

  /** `g.user`: the id and the names as the session holds them. */
  datatype CurrentUser = CurrentUser(id: int, firstName: Option<string>, lastName: Option<string>)

  /** load_logged_in_user: no user without `user_id` in the session,
      otherwise the three session values. */
  function LoadLoggedInUser(session: Session): (u: Option<CurrentUser>)
    ensures u.None? <==> session.userId.None?
    ensures u.Some? ==>
      && u.value.id == session.userId.value
      && u.value.firstName == session.firstName
      && u.value.lastName == session.lastName
  {
    match session.userId
    case None => None
    case Some(id) => Some(CurrentUser(id, session.firstName, session.lastName))
  }

  datatype HttpMethod = Get | Post

  /** The ids whose row matches both the e-mail and the password. */
  function Matching(users: Users, email: string, password: string): set<int>
  {
    set id | id in users && users[id].email == email && users[id].password == password
  }

  lemma AtMostOneMatch(users: Users, email: string, password: string, a: int, b: int)
    requires UniqueEmails(users)
    requires a in Matching(users, email, password) && b in Matching(users, email, password)
    ensures a == b
  {
  }

  lemma SomeMember(s: set<int>)
    requires s != {}
    ensures exists x :: x in s
  {
    if forall x :: x !in s {
      assert false;
    }
  }

  predicate IsLeast(m: int, s: set<int>)
  {
    m in s && forall j :: j in s ==> m <= j
  }

  /** Every non-empty finite set of ids has a least one. */
  lemma {:induction false} HasLeast(s: set<int>)
    requires s != {}
    ensures exists m :: IsLeast(m, s)
    decreases |s|
  {
    SomeMember(s);
    var x :| x in s;
    if s == {x} {
      assert IsLeast(x, s);
    } else {
      var rest := s - {x};
      assert s == rest + {x};
      HasLeast(rest);
      var m :| IsLeast(m, rest);
      if x < m {
        assert IsLeast(x, s);
      } else {
        assert IsLeast(m, s);
      }
    }
  }

  /** The row `fetchone()` returns: with no ORDER BY, SQLite's scan of the
      table visits rows in id order, so the first match is the least id. */
  function FirstMatch(users: Users, email: string, password: string): (r: Option<int>)
    ensures r.None? <==> Matching(users, email, password) == {}
    ensures r.Some? ==> IsLeast(r.value, Matching(users, email, password))
  {
    var found := Matching(users, email, password);
    if found == {} then None
    else
      HasLeast(found);
      var id :| IsLeast(id, found);
      Some(id)
  }

  datatype LoginOutcome = RedirectIndex | RenderLogin | LoginBadRequest

  /** login: a POST whose e-mail and password match a row writes that row's
      id and names into the session and redirects; anything else leaves the
      session alone. A POST without either form field is a 400. */
  function Login(users: Users, httpMethod: HttpMethod, email: Option<string>, password: Option<string>, session: Session): (r: (LoginOutcome, Session))
    ensures r.0 != RedirectIndex ==> r.1 == session
    ensures r.0 == LoginBadRequest <==> httpMethod.Post? && (email.None? || password.None?)
    ensures r.0 == RedirectIndex <==>
      httpMethod.Post? && email.Some? && password.Some? && Matching(users, email.value, password.value) != {}
    ensures r.0 == RedirectIndex ==>
      exists id :: IsLeast(id, Matching(users, email.value, password.value))
        && r.1 == Session(Some(id), Some(users[id].firstName), Some(users[id].lastName))
  {
    if httpMethod.Get? then (RenderLogin, session)
    else if email.None? || password.None? then (LoginBadRequest, session)
    else match FirstMatch(users, email.value, password.value)
      case None => (RenderLogin, session)
      case Some(id) =>
        (RedirectIndex, Session(Some(id), Some(users[id].firstName), Some(users[id].lastName)))
  }

  /** After a successful login the next request's `g.user` is the matching
      row with the least id, and, when e-mails are unique, the only one. */
  lemma LoginThenLoad(users: Users, email: string, password: string, session: Session, id: int)
    requires id in Matching(users, email, password)
    ensures var r := Login(users, Post, Some(email), Some(password), session);
      && r.0 == RedirectIndex
      && LoadLoggedInUser(r.1).Some?
      && var u := LoadLoggedInUser(r.1).value;
      && u.id in Matching(users, email, password) && u.id <= id
      && u == CurrentUser(u.id, Some(users[u.id].firstName), Some(users[u.id].lastName))
      && (UniqueEmails(users) ==> u.id == id)
  {
    var r := Login(users, Post, Some(email), Some(password), session);
    var other :| IsLeast(other, Matching(users, email, password))
      && r.1 == Session(Some(other), Some(users[other].firstName), Some(users[other].lastName));
    if UniqueEmails(users) {
      AtMostOneMatch(users, email, password, id, other);
    }
  }

  /** A wrong password never logs anyone in. */
  lemma WrongPasswordKeepsSession(users: Users, email: string, password: string, session: Session)
    requires forall id :: id in users && users[id].email == email ==> users[id].password != password
    ensures Login(users, Post, Some(email), Some(password), session) == (RenderLogin, session)
  {
    forall id | id in Matching(users, email, password)
      ensures false
    {
    }
  }

  /** One element of the group-name pattern. */
  datatype Token = Range(lo: char, hi: char) | Lit(c: char) | Digit

  predicate TokenMatches(t: Token, c: char)
  {
    match t
    case Range(lo, hi) => lo <= c <= hi
    case Lit(x) => c == x
    case Digit => IsDigit(c)
  }

  /** `^[А-Я]{2}-\d{2}$` with the repetition written out. */
  const GroupPattern: seq<Token> :=
    [Range('А', 'Я'), Range('А', 'Я'), Lit('-'), Digit, Digit]

  /** re.match of a `^…$` pattern of single-character tokens: every token
      consumes one character in turn, and `$` then accepts the end of the
      string or a single newline that ends it. */
  function RegexMatch(pattern: seq<Token>, s: string): (b: bool)
    ensures b <==>
      && (|s| == |pattern| || (|s| == |pattern| + 1 && s[|pattern|] == '\n'))
      && forall i :: 0 <= i < |pattern| ==> TokenMatches(pattern[i], s[i])
    decreases |pattern|
  {
    if pattern == [] then s == "" || s == "\n"
    else |s| > 0 && TokenMatches(pattern[0], s[0]) && RegexMatch(pattern[1..], s[1..])
  }

  /** The letters `[А-Я]` admits: U+0410 through U+042F, the basic Cyrillic
      capitals. Ё (U+0401) and the Ukrainian І, Ї, Є, Ґ lie outside it. */
  predicate CyrillicCapital(c: char) { 'А' <= c <= 'Я' }

  /** The accepted names, said directly: two such capitals, a hyphen, two
      digits, and at most one final newline. */
  predicate GroupNameAccepted(s: string)
  {
    (|s| == 5 || (|s| == 6 && s[5] == '\n'))
    && CyrillicCapital(s[0]) && CyrillicCapital(s[1]) && s[2] == '-'
    && IsDigit(s[3]) && IsDigit(s[4])
  }

  /** The token matcher accepts exactly the names described above. */
  lemma {:induction false} GroupPatternIff(s: string)
    ensures RegexMatch(GroupPattern, s) <==> GroupNameAccepted(s)
  {
    var p := GroupPattern;
    if RegexMatch(p, s) {
      assert |s| > 0 && TokenMatches(p[0], s[0]) && RegexMatch(p[1..], s[1..]);
      assert RegexMatch(p[2..], s[2..]);
      assert RegexMatch(p[3..], s[3..]);
      assert RegexMatch(p[4..], s[4..]);
      assert RegexMatch(p[5..], s[5..]);
    }
    if GroupNameAccepted(s) {
      assert RegexMatch(p[5..], s[5..]);
      assert RegexMatch(p[4..], s[4..]);
      assert RegexMatch(p[3..], s[3..]);
      assert RegexMatch(p[2..], s[2..]);
      assert RegexMatch(p[1..], s[1..]);
    }
  }

  /** Sample names: the usual form passes, with or without a final
      newline. */
  lemma GroupNameSamples()
    ensures RegexMatch(GroupPattern, "КН-12")
    ensures RegexMatch(GroupPattern, "КН-12\n")
  {
    GroupPatternIff("КН-12");
    GroupPatternIff("КН-12\n");
  }

  /** The error message's own example fails, and so do Ukrainian-only
      letters and Ё. */
  lemma GroupNameLetterRejections()
    ensures !RegexMatch(GroupPattern, "AB-12")
    ensures !RegexMatch(GroupPattern, "ІК-12")
    ensures !RegexMatch(GroupPattern, "ЇЄ-12")
    ensures !RegexMatch(GroupPattern, "ҐК-12")
    ensures !RegexMatch(GroupPattern, "ЁЖ-12")
    ensures !RegexMatch(GroupPattern, "кн-12")
  {
    GroupPatternIff("AB-12");
    GroupPatternIff("ІК-12");
    GroupPatternIff("ЇЄ-12");
    GroupPatternIff("ҐК-12");
    GroupPatternIff("ЁЖ-12");
    GroupPatternIff("кн-12");
  }

  /** A third digit or a second newline fails. */
  lemma GroupNameLengthRejections()
    ensures !RegexMatch(GroupPattern, "КН-123")
    ensures !RegexMatch(GroupPattern, "КН-12\n\n")
  {
    GroupPatternIff("КН-123");
    GroupPatternIff("КН-12\n\n");
  }

  const GroupFormatError: string := "Невірний формат групи. Приклад: AB-12"

  datatype ProfileOutcome =
    | RedirectLogin
    | RenderProfile(row: Option<UserRow>)
    | RenderError(message: string)
    | RedirectProfile
    | ProfileBadRequest

  /** profile: redirect to login without a user; on GET show the user's
      row; on POST reject a name the pattern refuses with the format
      message, else set that user's group_name and redirect back. */
  function Profile(user: Option<CurrentUser>, httpMethod: HttpMethod, groupName: Option<string>, users: Users): (r: (ProfileOutcome, Users))
    ensures user.None? ==> r == (RedirectLogin, users)
    ensures r.0 != RedirectProfile ==> r.1 == users
    ensures user.Some? && httpMethod.Get? ==>
      r.0 == RenderProfile(if user.value.id in users then Some(users[user.value.id]) else None)
    ensures r.0 == ProfileBadRequest <==> user.Some? && httpMethod.Post? && groupName.None?
    ensures r.0 == RenderError(GroupFormatError) <==>
      user.Some? && httpMethod.Post? && groupName.Some? && !GroupNameAccepted(groupName.value)
    ensures r.0 == RedirectProfile <==>
      user.Some? && httpMethod.Post? && groupName.Some? && GroupNameAccepted(groupName.value)
    ensures r.0 == RedirectProfile ==>
      r.1 == if user.value.id in users
             then users[user.value.id := users[user.value.id].(groupName := Some(groupName.value))]
             else users
  {
    match user
    case None => (RedirectLogin, users)
    case Some(u) =>
      if httpMethod.Get? then
        (RenderProfile(if u.id in users then Some(users[u.id]) else None), users)
      else match groupName
        case None => (ProfileBadRequest, users)
        case Some(name) =>
          GroupPatternIff(name);
          if !RegexMatch(GroupPattern, name) then (RenderError(GroupFormatError), users)
          else if u.id in users then
            (RedirectProfile, users[u.id := users[u.id].(groupName := Some(name))])
          else (RedirectProfile, users)
  }

  /** The update touches one field of one row: every other row, and every
      other field of the user's row, stay as they were, and the stored group
      is exactly the submitted string. */
  lemma ProfileChangesOnlyGroup(user: Option<CurrentUser>, httpMethod: HttpMethod, groupName: Option<string>, users: Users)
    ensures var after := Profile(user, httpMethod, groupName, users).1;
      && after.Keys == users.Keys
      && (forall id :: id in users && (user.None? || id != user.value.id) ==> after[id] == users[id])
      && (forall id :: id in users ==> after[id].(groupName := users[id].groupName) == users[id])
      && (forall id :: id in users && after[id] != users[id] ==>
            groupName.Some? && after[id].groupName == Some(groupName.value) && GroupNameAccepted(groupName.value))
  {
  }

  /** The update keeps e-mail addresses unique, so login stays well defined. */
  lemma ProfileKeepsEmailsUnique(user: Option<CurrentUser>, httpMethod: HttpMethod, groupName: Option<string>, users: Users)
    requires UniqueEmails(users)
    ensures UniqueEmails(Profile(user, httpMethod, groupName, users).1)
  {
    var after := Profile(user, httpMethod, groupName, users).1;
    ProfileChangesOnlyGroup(user, httpMethod, groupName, users);
    forall a, b | a in after && b in after && after[a].email == after[b].email
      ensures a == b
    {
      assert after[a].email == users[a].email;
      assert after[b].email == users[b].email;
    }
  }
}
