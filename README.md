# Template-injection CTF store, modelled in Dafny

The repository holds two deliberately vulnerable web applications: a combined
SSRF/SSTI application (`server.py`) and a stand-alone SSTI application with
CSV storage (`ssti_ctf/server.py`). The only logic they have besides HTTP glue is
in-memory state plus a flag checker:

- `users`: a dictionary from username to `{password_hash, comments}`, where
  `comments` is an ordered list;
- `sessions`: a dictionary from session token to username;
- the handlers `register`, `login`, `add_comment`, `logout`, the landing route and
  the profile page, which read and update those two dictionaries;
- `load_users`, which fills `users` from the user file at start-up;
- in `server.py` only, the flag checker, which compares the digest of the
  stripped submission with the digests of two known flags.

Both applications run identical store code. The only differences are the URL
prefixes and the secret passed to comment templates. The model therefore has
these parts:

- `wrappers.dfy` (`Wrappers`): the `Option` type.
- `user_store.dfy` (`UserStore`): the store as a value, `State(users, names, sessions)`.
  It has one function per handler, giving the handler's outcome and the new state,
  plus the lemmas about loading the user file. `names` holds the keys of `users` in
  dictionary insertion order. The profile page lists users in that order.
- `ssti_app.dfy` (`SstiApp`): class `App`, whose fields `users`, `names` and
  `sessions` the handler methods update in place. Each method is proved to
  produce exactly the outcome and state that the matching `UserStore` function
  describes.
- `store_requests.dfy` (`StoreRequests`): sequences of the four handlers that
  change the dictionaries directly: register, login, add_comment and logout. Over
  any sequence of these, the store invariant holds and the store only grows: no
  user is removed, no stored digest changes, and comments are only appended.
  Profile views are not among them. Rendering is taken to have no side effects,
  which the program does not guarantee (see "Left out").
- `flags.dfy` (`Flags`): Python's `str.strip()` over the characters `isspace()`
  accepts, the first-match search of the digest table, and the verdict text.
- `deployments.dfy` (`Deployments`): the start-up of each application (empty
  dictionaries, then `load_users`), and three client methods that exercise the
  handlers' contracts. These model nothing in the source.

The store invariant (`UserStore.Valid`) says three things. `names` lists every
user exactly once. Every user appears in `names`. Every session names a stored
user.

Library calls are parameters:

- `digest` stands for SHA-256 as a hex string (`hash_password`).
- `parse` stands for `json.loads` on a comments field. It returns `None` where
  Python raises `JSONDecodeError`.
- `render` stands for evaluating a comment as a Jinja2 template against the
  viewer, the user table and the secret. It returns `None` where evaluation
  raises.
- The fresh session token (`secrets.token_hex(16)`) is an argument. The source
  does not check it for freshness and overwrites any existing entry. The model
  does the same, and `UserStore.NewSessionCount` states that a token not yet in
  use adds exactly one session.

Three behaviours of the code worth noting:

- An empty comment text is accepted with status ok but is not stored.
- A session whose username is the empty string counts as "not logged in",
  because Python tests `current_user` for truthiness. So does a missing cookie.
- The flag check strips whitespace but does not fold case.

## Model

| member | source | states |
|---|---|---|
| `UserStore.Empty` | ssti_ctf/server.py:20-22 | both dictionaries start empty, which satisfies the store invariant |
| `UserStore.CurrentUser` | ssti_ctf/server.py:71-72 | `sessions.get(session_id)` with Python's truthiness test: a user exactly when the cookie is present, names a session, and that session's username is not empty |
| `UserStore.Home` | ssti_ctf/server.py:69-74 | redirects to the caller's own profile exactly when the cookie names a session with a non-empty username; that user is stored |
| `UserStore.Register` | ssti_ctf/server.py:82-97 | refused iff the username is taken, and then nothing changes; otherwise exactly one user is added with the password's digest and no comments, appended last in insertion order, other users unchanged, and the token is bound to the new user with other sessions unchanged; the invariant is kept |
| `UserStore.Login` | ssti_ctf/server.py:105-118 | refused iff the user is unknown or the password digest differs, and then nothing changes; otherwise users are untouched, the token is bound to the username, and the outcome carries the plaintext login and password set as cookies |
| `UserStore.NewSessionCount` | ssti_ctf/server.py:92-112 | a successful register or login with an unused token adds exactly one session |
| `UserStore.AddComment` | ssti_ctf/server.py:161-177 | refused iff the caller is not logged in, the target is unknown, or the target is the caller, and then nothing changes; otherwise ok: non-empty text is appended at the end of the target's comments only, and empty text changes nothing |
| `UserStore.Logout` | ssti_ctf/server.py:180-187 | removes exactly the cookie's token from the sessions and touches nothing else; a missing cookie changes nothing |
| `UserStore.LogoutIdempotent` | ssti_ctf/server.py:183-184 | logging out twice with the same cookie equals logging out once |
| `UserStore.Shown` | ssti_ctf/server.py:140-149 | a successful rendering is what is displayed; the raw text is displayed when rendering fails |
| `UserStore.RenderAll` | ssti_ctf/server.py:135-149 | one displayed string per stored comment, in order, each the rendering of that comment or, on failure, its raw text |
| `UserStore.Profile` | ssti_ctf/server.py:121-158 | redirect to login iff not logged in; not found iff logged in and the profile is unknown; otherwise the comments are rendered one-for-one in order, the user list is every user in insertion order, and the comment form is offered iff the profile is not the caller's |
| `UserStore.LoadRows` | ssti_ctf/server.py:30-43 | loading rows keeps the sessions, never loses a user and only appends to the insertion order |
| `UserStore.FromRow` | ssti_ctf/server.py:33-43 | the record built from a row keeps the row's hash, and holds the decoded comments, or none when the field does not decode |
| `UserStore.LoadRow` | ssti_ctf/server.py:40-43 | one row inserts or overwrites its username's record with the row's record, leaves other users and the sessions alone, and appends the username to the insertion order only when it is new |
| `UserStore.LoadFile` | ssti_ctf/server.py:27-43 | a missing file changes nothing; loading keeps the invariant and the sessions, and extends the insertion order by the new usernames in order of first appearance |
| `UserStore.LoadRowsValid` | ssti_ctf/server.py:39-43 | loading rows keeps the store invariant: a username already stored keeps its place, a new one goes last |
| `UserStore.LoadedFromLastRow` | ssti_ctf/server.py:32-43 | a username on some row is stored after loading, and when it is on several rows the last one wins: its record is the one built from that row (`FromRow`) |
| `UserStore.LoadRowsKeys` | ssti_ctf/server.py:32-43 | loading adds exactly the usernames the rows name to the keys of `users` |
| `UserStore.NewNames` | ssti_ctf/server.py:40 | the usernames the rows name that were not yet stored, each exactly once, in order of first appearance |
| `UserStore.LoadRowsNames` | ssti_ctf/server.py:32-43 | after loading, the insertion order is the old one followed by the new usernames in order of first appearance in the file, the order the profile page lists users in |
| `UserStore.LoadKeepsUnlisted` | ssti_ctf/server.py:39-43 | a username on no row keeps its earlier record, and no user appears that no row names |
| `StoreRequests.Step` | ssti_ctf/server.py:82-187 | every state-changing handler keeps the invariant and only grows the store |
| `StoreRequests.Run` | ssti_ctf/server.py:20-22 | any sequence of handler calls keeps the store invariant |
| `StoreRequests.RunGrows` | ssti_ctf/server.py:161-177 | after any sequence of register, login, comment and logout requests, every earlier user is still stored with the same digest, its old comments form a prefix of its new ones, and the insertion order is extended |
| `StoreRequests.RegisteredNameStaysTaken` | ssti_ctf/server.py:84-87 | once registered, a username keeps its digest through any later register, login, comment and logout requests, and registering it again is always refused |
| `Deployments.StartCsvEdition` | ssti_ctf/server.py:18-66 | the stand-alone application starts from empty dictionaries, loads the user file, and exposes its own secret to templates |
| `SstiApp.App.constructor` | server.py:115-117 | both dictionaries start empty |
| `SstiApp.App.LoadUsers` | server.py:120-135 | the loop gives exactly the state the row-by-row load describes; a missing file changes nothing |
| `SstiApp.App.Home` | server.py:159-164 | the landing redirect is the one `UserStore.Home` gives for the current sessions |
| `SstiApp.App.Register` | server.py:172-185 | the in-place updates give exactly the outcome and new state of `UserStore.Register`, and keep the invariant |
| `SstiApp.App.Login` | server.py:193-206 | the in-place update gives exactly the outcome and new state of `UserStore.Login` |
| `SstiApp.App.ProfilePage` | server.py:209-247 | the rendering loop builds exactly the page of `UserStore.Profile`, changing nothing |
| `SstiApp.App.AddComment` | server.py:250-265 | the guard and the in-place append give exactly the outcome and new state of `UserStore.AddComment` |
| `SstiApp.App.Logout` | server.py:268-275 | the conditional delete gives exactly the state of `UserStore.Logout` |
| `Deployments.StartCombined` | server.py:114-156 | the combined application starts from empty dictionaries, loads the user file, and exposes its template-injection flag to templates |
| `Flags.FlagHashes` | server.py:26-29 | the table lists `ssrf` then `ssti`, each with the digest of its flag |
| `Flags.Strip` | server.py:82 | the result is the slice of the submission that follows its leading whitespace, is followed only by whitespace, and neither starts nor ends with whitespace |
| `Flags.TrimStart` | server.py:82 | the result is a suffix of the input, everything removed is whitespace, and it does not start with whitespace |
| `Flags.TrimEnd` | server.py:82 | the result is a prefix of the input, everything removed is whitespace, and it does not end with whitespace |
| `Flags.StripUnpadded` | server.py:82 | a text with no whitespace at either end is its own `strip()` |
| `Flags.StripIgnoresPadding` | server.py:82 | whitespace added at either end of a submission does not change its `strip()` |
| `Flags.FirstMatch` | server.py:83 | the index found has the submitted digest and no earlier entry has it; when none is found, no entry has it |
| `Flags.Verdict` | server.py:83-87 | with no entry for the digest the verdict is "Invalid flag"; otherwise it is decided by the first entry with that digest: "Valid flag for: " and its upper-cased label, or "Invalid flag" when the label is empty |
| `Flags.Upper` | server.py:85 | same length, each letter upper-cased in place |
| `Flags.FlagResult` | server.py:80-91 | valid for SSRF iff the stripped submission's digest equals the SSRF flag's; valid for SSTI iff it equals the SSTI flag's and not the SSRF one's; "Invalid flag" otherwise; whole-digest equality, not prefix |
| `Flags.FlagsUnpadded` | server.py:23-24 | neither known flag has whitespace at either end |
| `Flags.PaddedSubmission` | server.py:80-91 | a submission padded with whitespace at either end gets the same verdict as the bare submission |
| `Flags.SsrfFlagAlone` | server.py:23-29 | the bare SSRF flag is accepted as SSRF |
| `Flags.SstiFlagAlone` | server.py:23-29 | the bare SSTI flag is accepted as SSTI when its digest differs from the SSRF flag's |
| `Flags.SsrfFlagAccepted` | server.py:80-91 | the SSRF flag surrounded by any whitespace is accepted as SSRF |
| `Flags.SstiFlagAccepted` | server.py:80-91 | the SSTI flag surrounded by any whitespace is accepted as SSTI when its digest differs from the SSRF flag's |

## Left out

- HTTP routing, cookies, status codes, redirect URLs and HTML responses are framework glue. Handlers return abstract outcomes such as `UsernameTaken`, `ProfileToLogin` or `CannotComment`. The GET pages that only render a form (`landing`, `flags_page`, `register_page`, `login_page`) are not modelled.
- `save_users` and the file I/O of `load_users` are left out. The CSV and JSON codecs are library code, so a save/load round trip cannot be stated against this code. Loading starts from rows already split into fields. A missing file is `None`.
- `UserStore.LoadRows`: rows always have three text fields, so every file loads. In the program, a CSV row with fewer fields than the header has `None` as its comments field. `json.loads(None)` then raises `TypeError`, which `except json.JSONDecodeError` does not catch, and the application fails at start-up. A header without a `comments` column fails the same way, with `KeyError`. Those failures are not modelled.
- `load_users`: a comments field that decodes to a JSON value other than a list of strings is stored as-is by Python. The model's `parse` returns a list of strings or nothing. The start-up log line is left out.
- `add_comment`: a request body that is not JSON, or a `text` value that is not a string, is not modelled. `text` is the field's string value, or `""` when the field is missing.
- Rendering is a pure function of the comment and its context. In the program, a comment is rendered as an unsandboxed Jinja2 template with the live `users` dictionary in scope. So a stored comment such as `{{ users.pop('alice') }}` removes a user, and one that updates a record changes a stored digest, when the profile holding it is viewed. After such a removal the name can be registered again. That side effect of the injection is not modelled. `StoreRequests.Step`, `StoreRequests.Run`, `StoreRequests.RunGrows` and `StoreRequests.RegisteredNameStaysTaken` cover only register, login, add_comment and logout, and hold only while no profile view changes the store.
- SHA-256, `secrets.token_hex` and Jinja2 are foreign libraries. They are parameters, as described above.
- The SSRF fetcher (`fetch_url`) and the in-process target server and its thread do network I/O and threading, and are not modelled.
- Concurrent requests racing on the shared dictionaries are not modelled. Each handler runs atomically.
- `Flags.Upper`: upper-cases ASCII letters only, rather than applying Python's full Unicode case mapping. It is only applied to the table's fixed ASCII labels.
