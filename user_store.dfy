/**
  The in-memory user and session store shared by both template-injection
  applications, as pure functions over an abstract state.

  Python keeps two module-level dictionaries: `users` (username to a record
  with `password_hash` and an ordered `comments` list) and `sessions`
  (session token to username). `State` holds both, together with `names`,
  the keys of `users` in dictionary insertion order, which is the order in
  which Python lists them (`list(users.keys())` on the profile page).

  Each request handler is a function from the state before to its outcome
  and the state after. The class in module SstiApp updates the same state
  in place and is proved against these functions.
*/
module UserStore {

  import opened Wrappers

  /** One account: the digest of its password and the comments left on its profile, oldest first. */
  datatype User = User(passwordHash: string, comments: seq<string>)

  datatype State = State(users: map<string, User>, names: seq<string>, sessions: map<string, string>)

  /** The state both applications start from: `users = {}` and `sessions = {}`. */
  function Empty(): (r: State)
    ensures Valid(r)
    ensures r.users == map[] && r.names == [] && r.sessions == map[]
  {
    State(map[], [], map[])
  }

  predicate Distinct(xs: seq<string>)
  {
    forall i, j :: 0 <= i < j < |xs| ==> xs[i] != xs[j]
  }

  /**
    The store invariant: `names` lists every key of `users` exactly once,
    and every session belongs to a stored user (users are never deleted,
    and sessions are only created for stored users).
  */
  predicate Valid(s: State)
  {
    && Distinct(s.names)
    && (forall u :: u in s.users ==> u in s.names)
    && (forall i :: 0 <= i < |s.names| ==> s.names[i] in s.users)
    && (forall t :: t in s.sessions ==> s.sessions[t] in s.users)
  }

  /**
    `sessions.get(session_id)` followed by Python's truthiness test: a
    missing cookie, an unknown token and a session naming the empty
    username all count as "not logged in".
  */
  function CurrentUser(sessions: map<string, string>, cookie: Option<string>): (r: Option<string>)
    ensures r.Some? <==> cookie.Some? && cookie.value in sessions && sessions[cookie.value] != ""
    ensures r.Some? ==> r.value != "" && r.value == sessions[cookie.value]
  {
    if cookie.Some? && cookie.value in sessions && sessions[cookie.value] != "" then
      Some(sessions[cookie.value])
    else
      None
  }

  // ---------------------------------------------------------------------
  // Landing page
  // ---------------------------------------------------------------------

  datatype Redirect = ToProfile(username: string) | ToLogin

  /** The landing route: to the caller's own profile when logged in, to the login page otherwise. */
  function Home(s: State, cookie: Option<string>): (r: Redirect)
    requires Valid(s)
    ensures r.ToProfile? <==> cookie.Some? && cookie.value in s.sessions && s.sessions[cookie.value] != ""
    ensures r.ToProfile? ==> r.username == s.sessions[cookie.value] && r.username in s.users
  {
    match CurrentUser(s.sessions, cookie)
    case Some(u) => ToProfile(u)
    case None => ToLogin
  }

  // ---------------------------------------------------------------------
  // Registration
  // ---------------------------------------------------------------------

  datatype RegisterOutcome = UsernameTaken | Registered(token: string)

  /**
    Registration: a taken username is refused and nothing changes;
    otherwise exactly one user is added, holding the digest of the password
    and no comments, and `token` is bound to it as a new session.
  */
  function Register(s: State, username: string, password: string, token: string,
                    digest: string -> string): (r: (RegisterOutcome, State))
    requires Valid(s)
    ensures Valid(r.1)
    ensures r.0 == UsernameTaken <==> username in s.users
    ensures r.0 == UsernameTaken ==> r.1 == s
    ensures r.0 != UsernameTaken ==>
      && r.0 == Registered(token)
      && r.1.users.Keys == s.users.Keys + {username}
      && r.1.users[username] == User(digest(password), [])
      && (forall u :: u in s.users ==> r.1.users[u] == s.users[u])
      && r.1.names == s.names + [username]
      && r.1.sessions.Keys == s.sessions.Keys + {token}
      && r.1.sessions[token] == username
      && (forall t :: t in s.sessions && t != token ==> r.1.sessions[t] == s.sessions[t])
  {
    if username in s.users then
      (UsernameTaken, s)
    else
      var users := s.users[username := User(digest(password), [])];
      AddUserKeepsValid(s, username, User(digest(password), []), token);
      (Registered(token), State(users, s.names + [username], s.sessions[token := username]))
  }

  /** Storing a new username last in `names` and binding a token to it keeps the invariant. */
  lemma AddUserKeepsValid(s: State, username: string, user: User, token: string)
    requires Valid(s)
    requires username !in s.users
    ensures Valid(State(s.users[username := user], s.names + [username], s.sessions[token := username]))
  {
    var names := s.names + [username];
    forall i, j | 0 <= i < j < |names| ensures names[i] != names[j] {
      if j == |s.names| {
        assert s.names[i] in s.users;
      } else {
        assert names[i] == s.names[i] && names[j] == s.names[j];
      }
    }
  }

  // ---------------------------------------------------------------------
  // Login
  // ---------------------------------------------------------------------

  /**
    A successful login hands back the token and, as cookies, the plaintext
    login and password (a disclosure the application keeps on purpose).
  */
  datatype LoginOutcome = InvalidCredentials | LoggedIn(token: string, login: string, password: string)

  /**
    Login: an unknown username or a password whose digest differs from the
    stored one is refused with no change; otherwise `token` is bound to the
    username and the users are left as they were.
  */
  function Login(s: State, username: string, password: string, token: string,
                 digest: string -> string): (r: (LoginOutcome, State))
    requires Valid(s)
    ensures Valid(r.1)
    ensures r.0 == InvalidCredentials <==>
              username !in s.users || s.users[username].passwordHash != digest(password)
    ensures r.0 == InvalidCredentials ==> r.1 == s
    ensures r.0 != InvalidCredentials ==>
      && r.0 == LoggedIn(token, username, password)
      && r.1.users == s.users && r.1.names == s.names
      && r.1.sessions.Keys == s.sessions.Keys + {token}
      && r.1.sessions[token] == username
      && (forall t :: t in s.sessions && t != token ==> r.1.sessions[t] == s.sessions[t])
  {
    if username !in s.users || s.users[username].passwordHash != digest(password) then
      (InvalidCredentials, s)
    else
      (LoggedIn(token, username, password), s.(sessions := s.sessions[token := username]))
  }

  /** A token that was not in use becomes one more session, whichever of the two handlers created it. */
  lemma NewSessionCount(s: State, username: string, password: string, token: string,
                        digest: string -> string)
    requires Valid(s) && token !in s.sessions
    ensures Register(s, username, password, token, digest).0 != UsernameTaken ==>
              |Register(s, username, password, token, digest).1.sessions| == |s.sessions| + 1
    ensures Login(s, username, password, token, digest).0 != InvalidCredentials ==>
              |Login(s, username, password, token, digest).1.sessions| == |s.sessions| + 1
  {
  }

  // ---------------------------------------------------------------------
  // Comments
  // ---------------------------------------------------------------------

  datatype CommentOutcome = CommentOk | CannotComment

  /**
    Adding a comment: refused, with no change, when the caller is not
    logged in, the target is unknown or the target is the caller. Otherwise
    the answer is ok; non-empty text is appended to the end of the target's
    list and nothing else changes, and empty text changes nothing.
  */
  function AddComment(s: State, cookie: Option<string>, target: string, text: string): (r: (CommentOutcome, State))
    requires Valid(s)
    ensures Valid(r.1)
    ensures r.0 == CannotComment <==>
              || CurrentUser(s.sessions, cookie).None?
              || target !in s.users
              || CurrentUser(s.sessions, cookie) == Some(target)
    ensures r.0 == CannotComment || text == "" ==> r.1 == s
    ensures r.0 == CommentOk && text != "" ==>
      && r.1.sessions == s.sessions && r.1.names == s.names
      && r.1.users.Keys == s.users.Keys
      && r.1.users[target].passwordHash == s.users[target].passwordHash
      && r.1.users[target].comments == s.users[target].comments + [text]
      && (forall u :: u in s.users && u != target ==> r.1.users[u] == s.users[u])
  {
    var current := CurrentUser(s.sessions, cookie);
    if current.None? || target !in s.users || target == current.value then
      (CannotComment, s)
    else if text != "" then
      var old_ := s.users[target];
      (CommentOk, s.(users := s.users[target := old_.(comments := old_.comments + [text])]))
    else
      (CommentOk, s)
  }

  // ---------------------------------------------------------------------
  // Logout
  // ---------------------------------------------------------------------

  /** Logout drops the caller's session if there is one, and touches nothing else. */
  function Logout(s: State, cookie: Option<string>): (r: State)
    requires Valid(s)
    ensures Valid(r)
    ensures r.users == s.users && r.names == s.names
    ensures cookie.Some? ==> r.sessions.Keys == s.sessions.Keys - {cookie.value}
    ensures cookie.None? ==> r.sessions == s.sessions
    ensures forall t :: t in r.sessions ==> r.sessions[t] == s.sessions[t]
  {
    if cookie.Some? && cookie.value in s.sessions then
      s.(sessions := s.sessions - {cookie.value})
    else
      s
  }

  /** Logging out twice with the same cookie is the same as logging out once. */
  lemma LogoutIdempotent(s: State, cookie: Option<string>)
    requires Valid(s)
    ensures Logout(Logout(s, cookie), cookie) == Logout(s, cookie)
  {
  }

  // ---------------------------------------------------------------------
  // Profile page
  // ---------------------------------------------------------------------

  /** What each comment template is rendered against: the viewer, the whole user table and the secret. */
  datatype RenderContext = RenderContext(currentUser: string, users: map<string, User>, secretKey: string)

  /** The text displayed for one comment: the rendering, or the raw text when rendering failed. */
  function Shown(rendered: Option<string>, raw: string): (r: string)
    ensures rendered.Some? ==> r == rendered.value
    ensures rendered.None? ==> r == raw
  {
    match rendered
    case Some(text) => text
    case None => raw
  }

  /** Every stored comment rendered in turn, in order (the loop of the profile handler). */
  function RenderAll(raw: seq<string>, ctx: RenderContext,
                     render: (string, RenderContext) -> Option<string>): (r: seq<string>)
    ensures |r| == |raw|
    ensures forall i :: 0 <= i < |raw| ==> r[i] == Shown(render(raw[i], ctx), raw[i])
    decreases |raw|
  {
    if raw == [] then []
    else
      var last := |raw| - 1;
      RenderAll(raw[..last], ctx, render) + [Shown(render(raw[last], ctx), raw[last])]
  }

  datatype ProfileOutcome =
    | ProfileToLogin
    | UserNotFound
    | ProfileView(currentUser: string, profileUsername: string, comments: seq<string>,
                  userList: seq<string>, canComment: bool)

  /**
    The profile page: a caller who is not logged in is sent to the login
    page, an unknown profile is not found, and otherwise the page shows one
    line per stored comment, in order, each the rendering of that comment
    or its raw text, lists every user in insertion order, and offers the
    comment form exactly when the profile is not the caller's own.
  */
  function Profile(s: State, cookie: Option<string>, profileUsername: string, secretKey: string,
                   render: (string, RenderContext) -> Option<string>): (r: ProfileOutcome)
    requires Valid(s)
    ensures r == ProfileToLogin <==> CurrentUser(s.sessions, cookie).None?
    ensures r == UserNotFound <==> CurrentUser(s.sessions, cookie).Some? && profileUsername !in s.users
    ensures r.ProfileView? ==>
      && Some(r.currentUser) == CurrentUser(s.sessions, cookie)
      && r.profileUsername == profileUsername
      && r.userList == s.names
      && (r.canComment <==> profileUsername != r.currentUser)
      && var raw := s.users[profileUsername].comments;
         var ctx := RenderContext(r.currentUser, s.users, secretKey);
         && |r.comments| == |raw|
         && forall i :: 0 <= i < |raw| ==> r.comments[i] == Shown(render(raw[i], ctx), raw[i])
  {
    match CurrentUser(s.sessions, cookie)
    case None => ProfileToLogin
    case Some(current) =>
      if profileUsername !in s.users then UserNotFound
      else
        var ctx := RenderContext(current, s.users, secretKey);
        ProfileView(current, profileUsername, RenderAll(s.users[profileUsername].comments, ctx, render),
                    s.names, profileUsername != current)
  }

  // ---------------------------------------------------------------------
  // Loading the user file
  // ---------------------------------------------------------------------

  /** One row of the user file, its three fields still as text. */
  datatype Row = Row(username: string, passwordHash: string, comments: string)

  /**
    The record built from one row: `parse` stands for decoding the comments
    field as JSON, and a field that fails to decode gives no comments.
  */
  function FromRow(row: Row, parse: string -> Option<seq<string>>): (u: User)
    ensures u.passwordHash == row.passwordHash
    ensures parse(row.comments).Some? ==> u.comments == parse(row.comments).value
    ensures parse(row.comments).None? ==> u.comments == []
  {
    match parse(row.comments)
    case Some(comments) => User(row.passwordHash, comments)
    case None => User(row.passwordHash, [])
  }

  /** `users[row["username"]] = {...}`: insert or overwrite; a new key goes last in insertion order. */
  function LoadRow(s: State, row: Row, parse: string -> Option<seq<string>>): (r: State)
    ensures r.users.Keys == s.users.Keys + {row.username}
    ensures r.users[row.username] == FromRow(row, parse)
    ensures forall u :: u in s.users && u != row.username ==> r.users[u] == s.users[u]
    ensures row.username in s.users ==> r.names == s.names
    ensures row.username !in s.users ==> r.names == s.names + [row.username]
    ensures r.sessions == s.sessions
  {
    var names := if row.username in s.users then s.names else s.names + [row.username];
    s.(users := s.users[row.username := FromRow(row, parse)], names := names)
  }

  /** The rows applied in file order. */
  function LoadRows(s: State, rows: seq<Row>, parse: string -> Option<seq<string>>): (r: State)
    ensures r.sessions == s.sessions
    ensures s.users.Keys <= r.users.Keys
    ensures s.names <= r.names
    decreases |rows|
  {
    if rows == [] then s
    else LoadRow(LoadRows(s, rows[..|rows| - 1], parse), rows[|rows| - 1], parse)
  }

  /** Loading at start-up: a missing file (`None`) leaves the store as it is. */
  function LoadFile(s: State, file: Option<seq<Row>>, parse: string -> Option<seq<string>>): (r: State)
    ensures file.None? ==> r == s
    ensures Valid(s) ==> Valid(r)
    ensures r.sessions == s.sessions
    ensures file.Some? ==> r.names == s.names + NewNames(s.users.Keys, file.value)
  {
    match file
    case None => s
    case Some(rows) =>
      var r := LoadRows(s, rows, parse);
      assert Valid(s) ==> Valid(r) by {
        if Valid(s) {
          LoadRowsValid(s, rows, parse);
        }
      }
      LoadRowsNames(s, rows, parse);
      r
  }

  /** The usernames the rows name. */
  function Usernames(rows: seq<Row>): set<string>
  {
    set j | 0 <= j < |rows| :: rows[j].username
  }

  /**
    The usernames of `rows` not in `known`, each once, in the order of their
    first appearance in the file: the keys loading adds to `users`.
  */
  function NewNames(known: set<string>, rows: seq<Row>): (r: seq<string>)
    ensures forall u :: u in r <==> u in Usernames(rows) && u !in known
    ensures Distinct(r)
    decreases |rows|
  {
    if rows == [] then []
    else
      UsernamesCons(rows);
      var u := rows[0].username;
      if u in known then NewNames(known, rows[1..])
      else [u] + NewNames(known + {u}, rows[1..])
  }

  lemma UsernamesCons(rows: seq<Row>)
    requires rows != []
    ensures Usernames(rows) == {rows[0].username} + Usernames(rows[1..])
  {
    forall u | u in Usernames(rows)
      ensures u in {rows[0].username} + Usernames(rows[1..])
    {
      var j :| 0 <= j < |rows| && rows[j].username == u;
      if j > 0 {
        assert rows[1..][j - 1] == rows[j];
      }
    }
    forall u | u in Usernames(rows[1..])
      ensures u in Usernames(rows)
    {
      var j :| 0 <= j < |rows[1..]| && rows[1..][j].username == u;
      assert rows[j + 1] == rows[1..][j];
    }
  }

  lemma UsernamesSnoc(rows: seq<Row>)
    requires rows != []
    ensures Usernames(rows) == Usernames(rows[..|rows| - 1]) + {rows[|rows| - 1].username}
  {
    var prefix := rows[..|rows| - 1];
    forall u | u in Usernames(rows)
      ensures u in Usernames(prefix) + {rows[|rows| - 1].username}
    {
      var j :| 0 <= j < |rows| && rows[j].username == u;
      if j < |rows| - 1 {
        assert prefix[j] == rows[j];
      }
    }
    forall u | u in Usernames(prefix)
      ensures u in Usernames(rows)
    {
      var j :| 0 <= j < |prefix| && prefix[j].username == u;
      assert rows[j] == prefix[j];
    }
  }

  /** Appending a row adds its username to the new names exactly when no earlier row and no stored user has it. */
  lemma {:induction false} NewNamesSnoc(known: set<string>, rows: seq<Row>, row: Row)
    ensures NewNames(known, rows + [row]) ==
      NewNames(known, rows) + (if row.username in known + Usernames(rows) then [] else [row.username])
    decreases |rows|
  {
    var all := rows + [row];
    var added := if row.username in known + Usernames(rows) then [] else [row.username];
    if rows == [] {
      assert Usernames(rows) == {};
      assert all[0] == row && all[1..] == [];
    } else {
      var u := rows[0].username;
      assert all[0] == rows[0] && all[1..] == rows[1..] + [row];
      UsernamesCons(rows);
      if u in known {
        NewNamesSnoc(known, rows[1..], row);
        assert known + Usernames(rows[1..]) == known + Usernames(rows);
        calc {
          NewNames(known, all);
          NewNames(known, rows[1..] + [row]);
          NewNames(known, rows[1..]) + added;
          NewNames(known, rows) + added;
        }
      } else {
        NewNamesSnoc(known + {u}, rows[1..], row);
        assert known + {u} + Usernames(rows[1..]) == known + Usernames(rows);
        calc {
          NewNames(known, all);
          [u] + NewNames(known + {u}, rows[1..] + [row]);
          [u] + (NewNames(known + {u}, rows[1..]) + added);
          ([u] + NewNames(known + {u}, rows[1..])) + added;
          NewNames(known, rows) + added;
        }
      }
    }
  }

  /** Loading adds exactly the usernames the rows name. */
  lemma {:induction false} LoadRowsKeys(s: State, rows: seq<Row>, parse: string -> Option<seq<string>>)
    ensures LoadRows(s, rows, parse).users.Keys == s.users.Keys + Usernames(rows)
    decreases |rows|
  {
    if rows == [] {
      assert Usernames(rows) == {};
    } else {
      LoadRowsKeys(s, rows[..|rows| - 1], parse);
      UsernamesSnoc(rows);
    }
  }

  /**
    The insertion order after loading: the usernames already stored keep
    their places, and each new username follows in the order of its first
    appearance in the file — the order the profile page lists users in.
  */
  lemma {:induction false} LoadRowsNames(s: State, rows: seq<Row>, parse: string -> Option<seq<string>>)
    ensures LoadRows(s, rows, parse).names == s.names + NewNames(s.users.Keys, rows)
    decreases |rows|
  {
    if rows != [] {
      var last := |rows| - 1;
      var prefix := rows[..last];
      LoadRowsNames(s, prefix, parse);
      LoadRowsKeys(s, prefix, parse);
      NewNamesSnoc(s.users.Keys, prefix, rows[last]);
      assert prefix + [rows[last]] == rows;
    }
  }

  /** Loading keeps the store invariant: a username already stored keeps its place, a new one goes last. */
  lemma {:induction false} LoadRowsValid(s: State, rows: seq<Row>, parse: string -> Option<seq<string>>)
    requires Valid(s)
    ensures Valid(LoadRows(s, rows, parse))
    decreases |rows|
  {
    if rows != [] {
      LoadRowsValid(s, rows[..|rows| - 1], parse);
    }
  }

  /** The entry a username ends up with is the one built from the last row that names it. */
  lemma {:induction false} LoadedFromLastRow(s: State, rows: seq<Row>, parse: string -> Option<seq<string>>, i: nat)
    requires i < |rows|
    requires forall j :: i < j < |rows| ==> rows[j].username != rows[i].username
    ensures rows[i].username in LoadRows(s, rows, parse).users
    ensures LoadRows(s, rows, parse).users[rows[i].username] == FromRow(rows[i], parse)
    decreases |rows|
  {
    var last := |rows| - 1;
    var prefix := rows[..last];
    if i < last {
      assert prefix[i] == rows[i];
      forall j | i < j < |prefix|
        ensures prefix[j].username != rows[i].username
      {
        assert prefix[j] == rows[j];
      }
      LoadedFromLastRow(s, prefix, parse, i);
    }
  }

  /** A user named on no row keeps the record it had before loading, and no user appears from nowhere. */
  lemma {:induction false} LoadKeepsUnlisted(s: State, rows: seq<Row>, parse: string -> Option<seq<string>>, u: string)
    requires forall j :: 0 <= j < |rows| ==> rows[j].username != u
    ensures u in LoadRows(s, rows, parse).users <==> u in s.users
    ensures u in s.users ==> LoadRows(s, rows, parse).users[u] == s.users[u]
    decreases |rows|
  {
    if rows != [] {
      LoadKeepsUnlisted(s, rows[..|rows| - 1], parse, u);
    }
  }
}
