/**
  The template-injection application's state and request handlers.

  An `App` object holds what Python keeps in module-level dictionaries
  (`users`, `sessions`) and updates them in place, handler by handler.
  `names` is the insertion order of `users`. Every handler is proved to
  do exactly what the matching function of module UserStore describes,
  so the properties proved there hold of the object.

  Library calls are parameters: `digest` (the password hash), `parse`
  (decoding a comments field as JSON) and `render` (evaluating a comment
  as a Jinja2 template, `None` when evaluation raises).
*/
module SstiApp {

  import opened Wrappers
  import opened UserStore

  class App {
    var users: map<string, User>
    var names: seq<string>
    var sessions: map<string, string>

    /** The value templates see as `secret_key`. */
    const secretKey: string
    /** `hash_password`: the hex digest of a password. */
    const digest: string -> string

    function Snapshot(): State
      reads this
    {
      State(users, names, sessions)
    }

    predicate Valid()
      reads this
    {
      UserStore.Valid(Snapshot())
    }

    /** Both dictionaries start empty. */
    constructor (secretKey: string, digest: string -> string)
      ensures Valid()
      ensures Snapshot() == Empty()
      ensures this.secretKey == secretKey && this.digest == digest
    {
      this.secretKey := secretKey;
      this.digest := digest;
      users := map[];
      names := [];
      sessions := map[];
    }

    /**
      `load_users`: nothing happens when there is no file; otherwise each
      row in turn inserts or overwrites the entry for its username, with no
      comments when the comments field does not decode.
    */
    method LoadUsers(file: Option<seq<Row>>, parse: string -> Option<seq<string>>)
      requires Valid()
      modifies this
      ensures Valid()
      ensures Snapshot() == LoadFile(old(Snapshot()), file, parse)
    {
      if file.None? {
        return;
      }
      var rows := file.value;
      var i := 0;
      while i < |rows|
        invariant 0 <= i <= |rows|
        invariant Snapshot() == LoadRows(old(Snapshot()), rows[..i], parse)
      {
        var row := rows[i];
        var comments: seq<string>;
        match parse(row.comments) {
          case Some(decoded) => comments := decoded;
          case None => comments := [];
        }
        if row.username !in users {
          names := names + [row.username];
        }
        users := users[row.username := User(row.passwordHash, comments)];
        assert rows[..i + 1][..i] == rows[..i];
        i := i + 1;
      }
      assert rows[..i] == rows;
      LoadRowsValid(old(Snapshot()), rows, parse);
    }

    /** The landing route. */
    method Home(cookie: Option<string>) returns (r: Redirect)
      requires Valid()
      ensures r == UserStore.Home(Snapshot(), cookie)
    {
      if cookie.Some? && cookie.value in sessions && sessions[cookie.value] != "" {
        r := ToProfile(sessions[cookie.value]);
      } else {
        r := ToLogin;
      }
    }

    /** `register`; `token` is the fresh `secrets.token_hex(16)`. */
    method Register(username: string, password: string, token: string) returns (outcome: RegisterOutcome)
      requires Valid()
      modifies this
      ensures Valid()
      ensures (outcome, Snapshot()) == UserStore.Register(old(Snapshot()), username, password, token, digest)
    {
      if username in users {
        return UsernameTaken;
      }
      users := users[username := User(digest(password), [])];
      names := names + [username];
      sessions := sessions[token := username];
      outcome := Registered(token);
    }

    /** `login`; `token` is the fresh `secrets.token_hex(16)`. */
    method Login(username: string, password: string, token: string) returns (outcome: LoginOutcome)
      requires Valid()
      modifies this
      ensures Valid()
      ensures (outcome, Snapshot()) == UserStore.Login(old(Snapshot()), username, password, token, digest)
    {
      if username !in users || users[username].passwordHash != digest(password) {
        return InvalidCredentials;
      }
      sessions := sessions[token := username];
      outcome := LoggedIn(token, username, password);
    }

    /**
      `profile_page`: after the session and existence checks, every stored
      comment of the profile is rendered in turn, falling back to its raw
      text when rendering fails.
    */
    method ProfilePage(cookie: Option<string>, profileUsername: string,
                       render: (string, RenderContext) -> Option<string>) returns (r: ProfileOutcome)
      requires Valid()
      ensures r == UserStore.Profile(Snapshot(), cookie, profileUsername, secretKey, render)
    {
      if !(cookie.Some? && cookie.value in sessions && sessions[cookie.value] != "") {
        return ProfileToLogin;
      }
      var current := sessions[cookie.value];
      if profileUsername !in users {
        return UserNotFound;
      }
      var canComment := profileUsername != current;
      var raw := users[profileUsername].comments;
      var ctx := RenderContext(current, users, secretKey);
      var processed: seq<string> := [];
      for i := 0 to |raw|
        invariant |processed| == i
        invariant forall k :: 0 <= k < i ==> processed[k] == Shown(render(raw[k], ctx), raw[k])
      {
        match render(raw[i], ctx) {
          case Some(rendered) => processed := processed + [rendered];
          case None => processed := processed + [raw[i]];
        }
      }
      assert processed == RenderAll(raw, ctx, render);
      r := ProfileView(current, profileUsername, processed, names, canComment);
    }

    /** `add_comment`; `text` is the request's `text` field, `""` when it has none. */
    method AddComment(cookie: Option<string>, target: string, text: string) returns (outcome: CommentOutcome)
      requires Valid()
      modifies this
      ensures Valid()
      ensures (outcome, Snapshot()) == UserStore.AddComment(old(Snapshot()), cookie, target, text)
    {
      if !(cookie.Some? && cookie.value in sessions && sessions[cookie.value] != "") {
        return CannotComment;
      }
      var current := sessions[cookie.value];
      if target !in users || target == current {
        return CannotComment;
      }
      if text != "" {
        var user := users[target];
        users := users[target := user.(comments := user.comments + [text])];
      }
      outcome := CommentOk;
    }

    /** `logout`. */
    method Logout(cookie: Option<string>)
      requires Valid()
      modifies this
      ensures Valid()
      ensures Snapshot() == UserStore.Logout(old(Snapshot()), cookie)
    {
      if cookie.Some? && cookie.value in sessions {
        sessions := sessions - {cookie.value};
      }
    }
  }
}
