/**
  The two database tables the handlers read and write (`users` and `files`),
  the claims a verified JSON Web Token carries, and the responses the
  endpoints return. The relational database, bcrypt, token signing and the
  blob store are not modelled; what they contribute is passed in.
 */
module Model {
  import Text

  datatype Option<T> = None | Some(value: T)

  type UserId = nat
  type FileId = nat
  type Bytes = seq<bv8>

  /** The two role names the handlers compare against. */
  const UserRole: string := "user"
  const AdminRole: string := "admin"

  /** A row of `users`. `passwordHash` is opaque: only bcrypt reads it. */
  datatype User = User(name: string, email: string, passwordHash: string, role: string)

  /** A row of `files`. `uploadedAt` is the server-assigned timestamp, kept
      only as an ordering key. */
  datatype FileRec = FileRec(filename: string, url: string, owner: UserId, uploadedAt: int, edited: bool)

  /** The database: both tables plus the next value of each auto-increment
      primary-key sequence. */
  datatype State = State(
    users: map<UserId, User>,
    files: map<FileId, FileRec>,
    nextUserId: nat,
    nextFileId: nat)

  /** An empty database. */
  function Empty(): State {
    State(map[], map[], 1, 1)
  }

  /** The claims of a token the token library has already verified:
      the identity (a user id) and the optional `role` claim. */
  datatype Claims = Claims(identity: UserId, role: Option<string>)

  datatype TokenKind = Access | Refresh

  /** A token stands for its kind and its claims; signing and expiry belong
      to the token library. */
  datatype Token = Token(kind: TokenKind, claims: Claims)

  /** A JSON request body: `None` for a JSON `null` body (or any other falsy
      one, which the handlers treat alike), otherwise the object's
      string-valued fields. */
  type JsonBody = Option<map<string, string>>

  /** Python's `not data`: no JSON, or an empty object. */
  predicate MissingJson(body: JsonBody) {
    body.None? || body.value == map[]
  }

  /** Python's `data.get(key, default)` on a body that is present. */
  function Field(body: JsonBody, key: string, default: string): string {
    if body.Some? && key in body.value then body.value[key] else default
  }

  /** What the endpoints return: a status code and a body. */
  datatype Body =
    | Message(text: string)
    | LoginTokens(access: Token, refresh: Token, role: string)
    | NewAccess(access: Token)
    | FileInfo(id: FileId, file: FileRec)
    | FileList(ids: seq<FileId>)
    | Download(content: Bytes, filename: string)

  datatype Response = Response(status: int, body: Body)

  /** A state transition: the response and the database afterwards. */
  datatype Transition = Transition(response: Response, state: State)

  /** The 404 message of the handlers that look the caller up by id. */
  const UserNotFoundMsg: string := "User not found"

  /** A response from a handler that does not write. */
  function Reply(st: State, status: int, body: Body): Transition {
    Transition(Response(status, body), st)
  }

  // ---------------------------------------------------------------------
  // Invariants of the database

  ghost predicate KeysBelowCounters(st: State) {
    && (forall id :: id in st.users ==> id < st.nextUserId)
    && (forall id :: id in st.files ==> id < st.nextFileId)
  }

  /** The UNIQUE constraint on `users.email`. */
  ghost predicate EmailsUnique(users: map<UserId, User>) {
    forall a, b :: a in users && b in users && a != b ==> users[a].email != users[b].email
  }

  /** The foreign key `files.uploaded_by` -> `users.id`. */
  ghost predicate OwnersExist(st: State) {
    forall id :: id in st.files ==> st.files[id].owner in st.users
  }

  /** What registration guarantees of every stored user: a non-empty
      name, and a non-empty e-mail address in normal form. */
  ghost predicate UsersWellFormed(users: map<UserId, User>) {
    forall id :: id in users ==>
      users[id].name != [] && users[id].email != [] && Text.IsNormal(users[id].email)
  }

  ghost predicate Valid(st: State) {
    && KeysBelowCounters(st)
    && EmailsUnique(st.users)
    && OwnersExist(st)
    && UsersWellFormed(st.users)
  }

  /** What no endpoint does to a file: delete it, move it to another owner,
      change its upload time, or set `edited` back to false. */
  ghost predicate FilesKept(st: State, st': State) {
    forall id :: id in st.files ==>
      && id in st'.files
      && st'.files[id].owner == st.files[id].owner
      && st'.files[id].uploadedAt == st.files[id].uploadedAt
      && (st.files[id].edited ==> st'.files[id].edited)
  }

  /** What no endpoint does to a user: delete it or change its name,
      address or role. Roles are fixed at registration. */
  ghost predicate AccountsKept(st: State, st': State) {
    forall id :: id in st.users ==>
      && id in st'.users
      && st'.users[id].name == st.users[id].name
      && st'.users[id].email == st.users[id].email
      && st'.users[id].role == st.users[id].role
  }

  /** A request that writes nothing keeps every file and every account. */
  lemma KeptReflexive(st: State)
    ensures FilesKept(st, st) && AccountsKept(st, st)
  {
  }

  lemma EmptyValid()
    ensures Valid(Empty())
  {
  }

  /** Inserting a well-formed user whose address is not yet stored, under
      the next id, keeps the database valid. */
  lemma AddUserPreservesValid(st: State, u: User)
    requires Valid(st)
    requires !EmailTaken(st.users, u.email)
    requires u.name != [] && u.email != [] && Text.IsNormal(u.email)
    ensures Valid(st.(users := st.users[st.nextUserId := u], nextUserId := st.nextUserId + 1))
  {
    var st' := st.(users := st.users[st.nextUserId := u], nextUserId := st.nextUserId + 1);
    assert st.nextUserId !in st.users;
    forall a, b | a in st'.users && b in st'.users && a != b
      ensures st'.users[a].email != st'.users[b].email
    {
      if a == st.nextUserId {
        assert st'.users[b] == st.users[b];
      } else if b == st.nextUserId {
        assert st'.users[a] == st.users[a];
      }
    }
  }

  /** `user.password_hash = ...` followed by a commit. */
  function SetPassword(st: State, id: UserId, hash: string): State
    requires id in st.users
  {
    st.(users := st.users[id := st.users[id].(passwordHash := hash)])
  }

  /** Overwriting one user's password hash keeps the database valid, keeps
      every file, and changes no other user and nobody's name, address or
      role. */
  lemma SetPasswordPreservesValid(st: State, id: UserId, hash: string)
    requires Valid(st) && id in st.users
    ensures var st' := SetPassword(st, id, hash);
      && Valid(st')
      && AccountsKept(st, st')
      && st'.users.Keys == st.users.Keys
      && st'.files == st.files
      && (forall x :: x in st.users && x != id ==> st'.users[x] == st.users[x])
  {
    var st' := SetPassword(st, id, hash);
    assert st'.users.Keys == st.users.Keys;
    assert forall x :: x in st'.users ==>
      (st'.users[x].email == st.users[x].email && st'.users[x].name == st.users[x].name && st'.users[x].role == st.users[x].role);
  }

  /** Rewriting one file's row, keeping its owner and upload time and not
      clearing `edited`, keeps the database valid and every file kept. */
  lemma ReplaceFilePreservesValid(st: State, id: FileId, rec: FileRec)
    requires Valid(st) && id in st.files
    requires rec.owner == st.files[id].owner && rec.uploadedAt == st.files[id].uploadedAt
    requires st.files[id].edited ==> rec.edited
    ensures var st' := st.(files := st.files[id := rec]);
      && Valid(st')
      && FilesKept(st, st')
      && st'.files.Keys == st.files.Keys
  {
    var st' := st.(files := st.files[id := rec]);
    assert st'.files.Keys == st.files.Keys;
    assert forall x :: x in st'.files ==> st'.files[x].owner == st.files[x].owner;
  }

  /** Adding a row under a new key grows the table by exactly one and
      leaves the other rows as they were. */
  lemma AddRow<K, V>(m: map<K, V>, k: K, v: V)
    requires k !in m
    ensures m[k := v].Keys == m.Keys + {k}
    ensures |m[k := v]| == |m| + 1
    ensures forall x :: x in m ==> m[k := v][x] == m[x]
  {
    assert m[k := v].Keys == m.Keys + {k};
  }

  /** Inserting a user under the next id keeps every existing account. */
  lemma AddUserKeepsAccounts(st: State, u: User)
    requires KeysBelowCounters(st)
    ensures st.nextUserId !in st.users
    ensures var users' := st.users[st.nextUserId := u];
      && users'.Keys == st.users.Keys + {st.nextUserId}
      && |users'| == |st.users| + 1
      && (forall id :: id in st.users ==> users'[id] == st.users[id])
      && AccountsKept(st, st.(users := users'))
  {
    AddRow(st.users, st.nextUserId, u);
  }

  // ---------------------------------------------------------------------
  // Lookups

  ghost predicate EmailTaken(users: map<UserId, User>, email: string) {
    exists id :: id in users && users[id].email == email
  }

  /** `User.query.filter_by(email=email).first()`. Without an `order_by`
      SQL does not say which matching row comes first; the model picks the
      least id in `[lo, hi)` whose user has this address. On a valid
      database at most one row matches, so the choice does not matter
      (`FindByEmailExact`). */
  function FindEmailFrom(users: map<UserId, User>, email: string, lo: nat, hi: nat): (r: Option<UserId>)
    ensures r.Some? ==> lo <= r.value < hi && r.value in users && users[r.value].email == email
    ensures r.Some? ==> forall id :: lo <= id < r.value && id in users ==> users[id].email != email
    ensures r.None? ==> forall id :: lo <= id < hi && id in users ==> users[id].email != email
    decreases hi - lo
  {
    if lo >= hi then None
    else if lo in users && users[lo].email == email then Some(lo)
    else FindEmailFrom(users, email, lo + 1, hi)
  }

  function FindByEmail(st: State, email: string): Option<UserId> {
    FindEmailFrom(st.users, email, 0, st.nextUserId)
  }

  /** On a valid database the lookup finds the one user with the address,
      and finds nobody exactly when the address is not registered. */
  lemma FindByEmailExact(st: State, email: string)
    requires Valid(st)
    ensures FindByEmail(st, email).None? <==> !EmailTaken(st.users, email)
    ensures forall id :: id in st.users && st.users[id].email == email ==> FindByEmail(st, email) == Some(id)
  {
    var r := FindByEmail(st, email);
    if r.None? {
      forall id | id in st.users ensures st.users[id].email != email {
        assert id < st.nextUserId;
      }
    }
  }

  /** `get_current_user()`: the user the token's identity names, if that
      row still exists. */
  function CurrentUser(st: State, c: Claims): Option<User> {
    if c.identity in st.users then Some(st.users[c.identity]) else None
  }

  /** `get_jwt().get("role") or current_user.role`: the role claim unless it
      is absent or empty, in which case the stored role. */
  function EffectiveRole(c: Claims, u: User): string {
    match c.role
    case Some(r) => if r != [] then r else u.role
    case None => u.role
  }
}
