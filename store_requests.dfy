/**
  Sequences of the four handlers that change the dictionaries directly
  (register, login, add_comment, logout) and what they preserve: the store
  invariant, and the fact that the store only grows — no user is removed,
  a stored password digest never changes, and a user's comments are only
  extended at the end. Profile views are not among them: rendering is
  taken to have no side effects, although a comment rendered as a template
  can reach the live `users` dictionary.
*/
module StoreRequests {

  import opened Wrappers
  import opened UserStore

  /** One state-changing request, with the fresh session token already drawn where one is needed. */
  datatype Request =
    | RegisterRequest(username: string, password: string, token: string)
    | LoginRequest(username: string, password: string, token: string)
    | CommentRequest(cookie: Option<string>, target: string, text: string)
    | LogoutRequest(cookie: Option<string>)

  /** `t` keeps everything `s` stored: every user, its digest, its comments as a prefix, and the insertion order. */
  predicate Grows(s: State, t: State)
  {
    && s.names <= t.names
    && forall u :: u in s.users ==>
         && u in t.users
         && t.users[u].passwordHash == s.users[u].passwordHash
         && s.users[u].comments <= t.users[u].comments
  }

  lemma GrowsTransitive(s: State, t: State, w: State)
    requires Grows(s, t) && Grows(t, w)
    ensures Grows(s, w)
  {
  }

  /** The new state after one request. */
  function Step(s: State, req: Request, digest: string -> string): (r: State)
    requires Valid(s)
    ensures Valid(r)
    ensures Grows(s, r)
  {
    match req
    case RegisterRequest(username, password, token) => Register(s, username, password, token, digest).1
    case LoginRequest(username, password, token) => Login(s, username, password, token, digest).1
    case CommentRequest(cookie, target, text) => AddComment(s, cookie, target, text).1
    case LogoutRequest(cookie) => Logout(s, cookie)
  }

  /** The state after a sequence of requests handled one after another. */
  function Run(s: State, reqs: seq<Request>, digest: string -> string): (r: State)
    requires Valid(s)
    ensures Valid(r)
    decreases |reqs|
  {
    if reqs == [] then s else Run(Step(s, reqs[0], digest), reqs[1..], digest)
  }

  /** However many of these requests are handled, the store only grows. */
  lemma {:induction false} RunGrows(s: State, reqs: seq<Request>, digest: string -> string)
    requires Valid(s)
    ensures Grows(s, Run(s, reqs, digest))
    decreases |reqs|
  {
    if reqs == [] {
      assert Run(s, reqs, digest) == s;
    } else {
      var next := Step(s, reqs[0], digest);
      RunGrows(next, reqs[1..], digest);
      GrowsTransitive(s, next, Run(s, reqs, digest));
    }
  }

  /**
    A username registered once is never handed out again: after a
    successful registration of `username`, any further requests of the
    four kinds above leave it
    stored with the digest of the password it was registered with, and a
    later registration of the same name is refused.
  */
  lemma {:induction false} RegisteredNameStaysTaken(s: State, username: string, password: string, token: string,
                                                    reqs: seq<Request>, digest: string -> string)
    requires Valid(s)
    requires username !in s.users
    ensures var after := Run(Register(s, username, password, token, digest).1, reqs, digest);
      && username in after.users
      && after.users[username].passwordHash == digest(password)
      && forall p, t :: Register(after, username, p, t, digest).0 == UsernameTaken
  {
    var registered := Register(s, username, password, token, digest).1;
    RunGrows(registered, reqs, digest);
  }
}
