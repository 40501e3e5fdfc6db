/**
  The whole application as one state machine: a request, together with
  what the outside world contributes to it, moves the database from one
  state to the next. The lemmas here hold for every endpoint at once.
 */
module Server {
  import opened Model
  import opened Auth
  import opened Files

  /** The collaborators fixed for the life of the process: bcrypt and
      `secure_filename`. */
  datatype Env = Env(bcrypt: Bcrypt, sanitize: string -> string)

  /** One request per endpoint. Access-token endpoints carry the claims of
      the verified token; the blob store's replies, the upload target URL
      and the database clock are part of the request. */
  datatype Request =
    | RegisterReq(body: JsonBody)
    | LoginReq(body: JsonBody)
    | RefreshReq(refresh: Claims)
    | ResetReq(body: JsonBody)
    | UploadReq(c: Claims, part: Option<FilePart>, target: string, put: PutReply, now: int)
    | RawReq(c: Claims, id: FileId, fetch: FetchReply)
    | EditReq(c: Claims, id: FileId, part: Option<FilePart>, target: string, put: PutReply)
    | ListReq(c: Claims)
    | DetailReq(c: Claims, id: FileId)
    | UserFilesReq(c: Claims)
    | UserEditedReq(c: Claims)

  /** Only registration, password reset, upload and edit write. */
  predicate Writes(req: Request) {
    req.RegisterReq? || req.ResetReq? || req.UploadReq? || req.EditReq?
  }

  function Handle(st: State, env: Env, req: Request): (t: Transition)
    ensures !Writes(req) ==> t.state == st
  {
    match req
    case RegisterReq(body) => Register(st, body, env.bcrypt)
    case LoginReq(body) => Transition(Login(st, body, env.bcrypt), st)
    case RefreshReq(c) => Transition(RefreshToken(st, c), st)
    case ResetReq(body) => ResetPassword(st, body, env.bcrypt)
    case UploadReq(c, part, target, put, now) => Upload(st, c, part, env.sanitize, target, put, now)
    case RawReq(c, id, fetch) => Transition(GetRaw(st, c, id, fetch), st)
    case EditReq(c, id, part, target, put) => EditFile(st, c, id, part, env.sanitize, target, put)
    case ListReq(c) => Transition(ListFiles(st, c), st)
    case DetailReq(c, id) => Transition(FileDetail(st, c, id), st)
    case UserFilesReq(c) => Transition(UserFiles(st, c), st)
    case UserEditedReq(c) => Transition(UserEditedFiles(st, c), st)
  }

  /** Every endpoint keeps the database valid: keys below their counters,
      e-mail addresses unique, every file owned by a stored user. */
  lemma {:induction false} HandlePreservesValid(st: State, env: Env, req: Request)
    requires Valid(st)
    ensures Valid(Handle(st, env, req).state)
  {
    match req
    case RegisterReq(body) => RegisterPreservesValid(st, body, env.bcrypt);
    case ResetReq(body) => ResetChangesOnlyHash(st, body, env.bcrypt);
    case UploadReq(c, part, target, put, now) => UploadAddsOneFile(st, c, part, env.sanitize, target, put, now);
    case EditReq(c, id, part, target, put) => EditChangesOnlyThatFile(st, c, id, part, env.sanitize, target, put);
    case _ =>
  }

  /** No endpoint deletes a file, moves it to another owner, changes its
      upload time, or sets `edited` back to false. */
  lemma {:induction false} FilesOnlyGrow(st: State, env: Env, req: Request)
    requires Valid(st)
    ensures FilesKept(st, Handle(st, env, req).state)
  {
    var st' := Handle(st, env, req).state;
    match req
    case UploadReq(c, part, target, put, now) =>
      assert st' == Upload(st, c, part, env.sanitize, target, put, now).state;
      UploadAddsOneFile(st, c, part, env.sanitize, target, put, now);
    case EditReq(c, id, part, target, put) =>
      assert st' == EditFile(st, c, id, part, env.sanitize, target, put).state;
      EditChangesOnlyThatFile(st, c, id, part, env.sanitize, target, put);
    case RegisterReq(body) =>
      assert st'.files == st.files;
    case ResetReq(body) =>
      assert st'.files == st.files;
    case _ =>
      assert st' == st;
  }

  /** No endpoint deletes a user or changes a user's name, address or
      role. */
  lemma {:induction false} AccountsOnlyGrow(st: State, env: Env, req: Request)
    requires Valid(st)
    ensures AccountsKept(st, Handle(st, env, req).state)
  {
    var st' := Handle(st, env, req).state;
    match req
    case RegisterReq(body) =>
      assert st' == Register(st, body, env.bcrypt).state;
      if Register(st, body, env.bcrypt).response.status == 201 {
        RegisterAddsOneUser(st, body, env.bcrypt);
      }
    case ResetReq(body) =>
      assert st' == ResetPassword(st, body, env.bcrypt).state;
      ResetChangesOnlyHash(st, body, env.bcrypt);
    case UploadReq(c, part, target, put, now) =>
      assert st'.users == st.users;
    case EditReq(c, id, part, target, put) =>
      assert st'.users == st.users;
    case _ =>
      assert st' == st;
  }

  /** A user uploads a file, which starts out unedited, and then edits
      it: the edit succeeds and marks the file edited, under the same id
      and owner. */
  lemma {:induction false} UploadThenEdit(st: State, c: Claims, sanitize: string -> string,
                                          part: Option<FilePart>, target: string, put: PutReply, now: int,
                                          part2: Option<FilePart>, target2: string, put2: PutReply)
    requires Valid(st) && c.identity in st.users
    requires PartUsable(part, sanitize) && PutAccepted(put)
    requires PartUsable(part2, sanitize) && PutAccepted(put2)
    ensures var t3 := Upload(st, c, part, sanitize, target, put, now);
      && t3.response.status == 201
      && !t3.response.body.file.edited
      && var f := t3.response.body.id;
      var t4 := EditFile(t3.state, c, f, part2, sanitize, target2, put2);
      && t4.response.status == 200
      && t4.state.files[f].edited
      && t4.state.files[f].owner == c.identity
      && Valid(t4.state)
  {
    var t3 := Upload(st, c, part, sanitize, target, put, now);
    UploadAddsOneFile(st, c, part, sanitize, target, put, now);
    var f := st.nextFileId;
    assert t3.state.files[f].owner == c.identity;
    EditChangesOnlyThatFile(t3.state, c, f, part2, sanitize, target2, put2);
  }
}
