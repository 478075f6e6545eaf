/**
  The two deployments of the template-injection application. They differ
  only in the secret templates see and in their URL prefixes (not
  modelled); each starts with empty dictionaries and loads the user file
  once, when the module is imported.
*/
module Deployments {

  import opened Wrappers
  import opened UserStore
  import Flags
  import SstiApp

  /** The secret of the stand-alone CSV edition. */
  const CsvEditionSecret := "SECRET_FLAG_CSV_EDITION"

  /** Start-up of the combined application: its secret is the template-injection flag. */
  method StartCombined(digest: string -> string, file: Option<seq<Row>>,
                       parse: string -> Option<seq<string>>) returns (app: SstiApp.App)
    ensures fresh(app) && app.Valid()
    ensures app.secretKey == Flags.SstiFlag && app.digest == digest
    ensures app.Snapshot() == LoadFile(Empty(), file, parse)
  {
    app := new SstiApp.App(Flags.SstiFlag, digest);
    app.LoadUsers(file, parse);
  }

  /** Start-up of the stand-alone CSV edition. */
  method StartCsvEdition(digest: string -> string, file: Option<seq<Row>>,
                         parse: string -> Option<seq<string>>) returns (app: SstiApp.App)
    ensures fresh(app) && app.Valid()
    ensures app.secretKey == CsvEditionSecret && app.digest == digest
    ensures app.Snapshot() == LoadFile(Empty(), file, parse)
  {
    app := new SstiApp.App(CsvEditionSecret, digest);
    app.LoadUsers(file, parse);
  }

  /**
    Clients of the handlers: what a caller can conclude from their
    contracts alone. First, a username can be registered only once.
  */
  method TwoUsers(digest: string -> string)
  {
    var app := new SstiApp.App(CsvEditionSecret, digest);
    var r1 := app.Register("alice", "pw1", "t1");
    assert "alice" in app.users && app.users["alice"].comments == [];
    assert "t1" in app.sessions && app.sessions["t1"] == "alice";
    var r2 := app.Register("alice", "other", "t2");
    assert r2 == UsernameTaken && "t2" !in app.sessions;
    var r3 := app.Register("bob", "pw2", "t3");
    assert r3 == Registered("t3") && app.sessions["t3"] == "bob";
    assert app.names == ["alice", "bob"];
  }

  /** Nobody comments on their own profile; a comment on someone else's goes to the end of their list. */
  method CommentOnOthers(app: SstiApp.App, mine: string, theirs: string, text: string)
    requires app.Valid()
    requires mine in app.sessions && app.sessions[mine] == "alice"
    requires theirs in app.sessions && app.sessions[theirs] == "bob"
    requires text != ""
    modifies app
  {
    ghost var before := app.users["alice"].comments;
    var self := app.AddComment(Some(mine), "alice", text);
    assert self == CannotComment;
    var c := app.AddComment(Some(theirs), "alice", text);
    assert c == CommentOk && app.users["alice"].comments == before + [text];
  }

  /** Once a session is logged out, its cookie no longer lets the caller comment. */
  method LoggedOutCannotComment(app: SstiApp.App, cookie: string, target: string, text: string)
    requires app.Valid()
    modifies app
  {
    app.Logout(Some(cookie));
    app.Logout(Some(cookie));
    var after := app.AddComment(Some(cookie), target, text);
    assert after == CannotComment;
  }
}
