/**
  The file endpoints (`backend/app.py`, sections 14 to 20): upload, raw
  fetch, edit, the admin-only listing and detail views, and the caller's
  own listings. Every handler first looks the caller up by the identity
  of its (already verified) access token.
 */
module Files {
  import opened Model
  import opened Listing

  /** The `file` part of a multipart form, when there is one. */
  datatype FilePart = FilePart(filename: string)

  /** The blob store's reply to the PUT: its status, and the `url` field of
      its JSON body when the body is JSON and has one. */
  datatype PutReply = PutReply(status: int, url: Option<string>)

  /** The blob store's reply to the GET of a file's URL. */
  datatype FetchReply = FetchReply(status: int, content: Bytes)

  const NoUserForTokenMsg: string := "User not found (invalid or missing token)."
  const FileNotFoundMsg: string := "File not found"
  const ForbiddenMsg: string := "Forbidden"
  const CannotEditMsg: string := "Forbidden: cannot edit this file"
  const AdminsOnlyMsg: string := "Forbidden: admins only"
  const NoFilePartMsg: string := "No file part in request (key must be 'file')."
  const NoFileSelectedMsg: string := "No file selected."
  const InvalidFileNameMsg: string := "Invalid file name."
  const UploadFailedMsg: string := "Vercel Blob upload failed."
  const MissingEditedMsg: string := "Missing edited PDF in form-data as 'file'"
  const NoEditSelectedMsg: string := "No file selected"
  const InvalidEditNameMsg: string := "Invalid filename"
  const EditUploadFailedMsg: string := "Failed to upload edited PDF to blob"
  const FetchFailedMsg: string := "Failed to fetch PDF from storage."

  /** The blob store took the bytes: it answered 200 or 201. */
  predicate PutAccepted(put: PutReply) {
    put.status == 200 || put.status == 201
  }

  /** `json.get("url", upload_url)`: where the stored blob lives. */
  function BlobUrl(put: PutReply, target: string): string {
    match put.url
    case Some(u) => u
    case None => target
  }

  /** A form whose file part gets past the 400 checks: there is a part,
      its name is not empty, and `secure_filename` (`sanitize`) leaves
      something of it. */
  predicate PartUsable(part: Option<FilePart>, sanitize: string -> string) {
    part.Some? && part.value.filename != [] && sanitize(part.value.filename) != []
  }

  /** The message of the first 400 check a form fails, if any. */
  function PartProblem(part: Option<FilePart>, sanitize: string -> string,
                       noPart: string, noName: string, badName: string): (m: Option<string>)
    ensures m.None? <==> PartUsable(part, sanitize)
  {
    match part
    case None => Some(noPart)
    case Some(p) =>
      if p.filename == [] then Some(noName)
      else if sanitize(p.filename) == [] then Some(badName)
      else None
  }

  // ---------------------------------------------------------------------
  // Upload

  /** POST /api/upload. `target` is the URL the handler PUTs the bytes to
      (a fresh uuid under the blob store's base URL), `put` the store's
      reply and `now` the database's current timestamp. */
  function Upload(st: State, c: Claims, part: Option<FilePart>, sanitize: string -> string,
                  target: string, put: PutReply, now: int): (t: Transition)
    ensures t.response.status in {201, 400, 404, 502}
    ensures t.response.status != 201 ==> t.state == st
    ensures t.response.status == 404 <==> c.identity !in st.users
    ensures t.response.status == 400 <==>
      c.identity in st.users && !PartUsable(part, sanitize)
    ensures t.response.status == 502 <==>
      c.identity in st.users && PartUsable(part, sanitize) && !PutAccepted(put)
    ensures t.response.status == 201 ==>
      var rec := FileRec(sanitize(part.value.filename), BlobUrl(put, target), c.identity, now, false);
      && t.response.body == FileInfo(st.nextFileId, rec)
      && t.state == st.(files := st.files[st.nextFileId := rec], nextFileId := st.nextFileId + 1)
  {
    if CurrentUser(st, c).None? then
      Reply(st, 404, Message(NoUserForTokenMsg))
    else
      match PartProblem(part, sanitize, NoFilePartMsg, NoFileSelectedMsg, InvalidFileNameMsg)
      case Some(m) => Reply(st, 400, Message(m))
      case None =>
        if !PutAccepted(put) then
          Reply(st, 502, Message(UploadFailedMsg))
        else
          var id := st.nextFileId;
          var rec := FileRec(sanitize(part.value.filename), BlobUrl(put, target), c.identity, now, false);
          Transition(Response(201, FileInfo(id, rec)),
                     st.(files := st.files[id := rec], nextFileId := id + 1))
  }

  /** A successful upload adds exactly one file, unedited and owned by the
      caller, under a fresh id; existing files and all users stay as they
      were. The database stays valid. */
  lemma {:induction false} UploadAddsOneFile(st: State, c: Claims, part: Option<FilePart>,
                                             sanitize: string -> string, target: string, put: PutReply, now: int)
    requires Valid(st)
    ensures Valid(Upload(st, c, part, sanitize, target, put, now).state)
    ensures var t := Upload(st, c, part, sanitize, target, put, now);
      t.response.status == 201 ==>
        && st.nextFileId !in st.files
        && t.state.files.Keys == st.files.Keys + {st.nextFileId}
        && |t.state.files| == |st.files| + 1
        && (forall id :: id in st.files ==> t.state.files[id] == st.files[id])
        && FilesKept(st, t.state)
        && t.state.users == st.users
        && !t.state.files[st.nextFileId].edited
        && t.state.files[st.nextFileId].owner == c.identity
  {
    var t := Upload(st, c, part, sanitize, target, put, now);
    if t.response.status == 201 {
      var rec := FileRec(sanitize(part.value.filename), BlobUrl(put, target), c.identity, now, false);
      assert st.nextFileId !in st.files;
      AddRow(st.files, st.nextFileId, rec);
    }
  }

  // ---------------------------------------------------------------------
  // Raw fetch

  /** Whether `get_pdf_bytes` refuses the caller: only when the effective
      role is exactly "user" and the caller does not own the file. Any
      other role, "admin" or not, may fetch any file. */
  predicate RawForbidden(role: string, caller: UserId, f: FileRec) {
    role == UserRole && f.owner != caller
  }

  /** GET /api/file/<id>/raw. `fetch` is the blob store's reply to the GET
      of the file's URL. It reads only. */
  function GetRaw(st: State, c: Claims, id: FileId, fetch: FetchReply): (r: Response)
    ensures r.status in {200, 403, 404, 502}
    ensures r.status == 404 <==> c.identity !in st.users || id !in st.files
    ensures r.status == 403 <==>
      c.identity in st.users && id in st.files
      && RawForbidden(EffectiveRole(c, st.users[c.identity]), c.identity, st.files[id])
    ensures r.status == 502 <==>
      c.identity in st.users && id in st.files
      && !RawForbidden(EffectiveRole(c, st.users[c.identity]), c.identity, st.files[id])
      && fetch.status != 200
    ensures r.status == 200 ==>
      fetch.status == 200 && r.body == Download(fetch.content, st.files[id].filename)
  {
    match CurrentUser(st, c)
    case None => Response(404, Message(UserNotFoundMsg))
    case Some(u) =>
      if id !in st.files then Response(404, Message(FileNotFoundMsg))
      else if RawForbidden(EffectiveRole(c, u), c.identity, st.files[id]) then
        Response(403, Message(ForbiddenMsg))
      else if fetch.status != 200 then Response(502, Message(FetchFailedMsg))
      else Response(200, Download(fetch.content, st.files[id].filename))
  }

  /** The owner always gets past the access check, whatever the token's
      role. */
  lemma RawOwnerAllowed(st: State, c: Claims, id: FileId, fetch: FetchReply)
    requires c.identity in st.users && id in st.files && st.files[id].owner == c.identity
    ensures GetRaw(st, c, id, fetch).status == (if fetch.status == 200 then 200 else 502)
  {
  }

  /** A caller whose token carries a non-empty role claim other than "user"
      (for example "admin", or any role registration accepted) fetches a
      file it does not own, even when its stored role is "user". */
  lemma RawOpenToOtherRoles(st: State, c: Claims, id: FileId, fetch: FetchReply)
    requires c.identity in st.users && id in st.files && fetch.status == 200
    requires c.role.Some? && c.role.value != [] && c.role.value != UserRole
    ensures GetRaw(st, c, id, fetch).status == 200
  {
  }

  // ---------------------------------------------------------------------
  // Edit

  /** PUT /api/file/<id>/edit-pdf. The checks run in this order: caller
      missing (404), file missing (404), caller not the owner (403, whatever
      the role), file part (400), blob store refusal (502). */
  function EditFile(st: State, c: Claims, id: FileId, part: Option<FilePart>, sanitize: string -> string,
                    target: string, put: PutReply): (t: Transition)
    ensures t.response.status in {200, 400, 403, 404, 502}
    ensures t.response.status != 200 ==> t.state == st
    ensures t.response.status == 404 <==> c.identity !in st.users || id !in st.files
    ensures t.response.status == 403 <==>
      c.identity in st.users && id in st.files && st.files[id].owner != c.identity
    ensures t.response.status == 400 <==>
      c.identity in st.users && id in st.files && st.files[id].owner == c.identity
      && !PartUsable(part, sanitize)
    ensures t.response.status == 502 <==>
      c.identity in st.users && id in st.files && st.files[id].owner == c.identity
      && PartUsable(part, sanitize) && !PutAccepted(put)
    ensures t.response.status == 200 ==>
      var rec := st.files[id].(filename := sanitize(part.value.filename), url := BlobUrl(put, target), edited := true);
      && PutAccepted(put)
      && t.response.body == FileInfo(id, rec)
      && t.state == st.(files := st.files[id := rec])
  {
    match CurrentUser(st, c)
    case None => Reply(st, 404, Message(NoUserForTokenMsg))
    case Some(_) =>
      if id !in st.files then Reply(st, 404, Message(FileNotFoundMsg))
      else if st.files[id].owner != c.identity then Reply(st, 403, Message(CannotEditMsg))
      else
        match PartProblem(part, sanitize, MissingEditedMsg, NoEditSelectedMsg, InvalidEditNameMsg)
        case Some(m) => Reply(st, 400, Message(m))
        case None =>
          if !PutAccepted(put) then Reply(st, 502, Message(EditUploadFailedMsg))
          else
            var rec := st.files[id].(filename := sanitize(part.value.filename),
                                     url := BlobUrl(put, target), edited := true);
            Transition(Response(200, FileInfo(id, rec)), st.(files := st.files[id := rec]))
  }

  /** The role claim plays no part in editing: two tokens for the same
      identity get the same answer and the same database. */
  lemma EditIgnoresRole(st: State, c1: Claims, c2: Claims, id: FileId, part: Option<FilePart>,
                        sanitize: string -> string, target: string, put: PutReply)
    requires c1.identity == c2.identity
    ensures EditFile(st, c1, id, part, sanitize, target, put) == EditFile(st, c2, id, part, sanitize, target, put)
  {
  }

  /** A successful edit changes only that file's name and URL and marks it
      edited; its owner and upload time, every other file and every user
      stay as they were, and the database stays valid. */
  lemma {:induction false} EditChangesOnlyThatFile(st: State, c: Claims, id: FileId, part: Option<FilePart>,
                                                   sanitize: string -> string, target: string, put: PutReply)
    requires Valid(st)
    ensures Valid(EditFile(st, c, id, part, sanitize, target, put).state)
    ensures var t := EditFile(st, c, id, part, sanitize, target, put);
      t.response.status == 200 ==>
        && t.state.users == st.users
        && t.state.files.Keys == st.files.Keys
        && (forall other :: other in st.files && other != id ==> t.state.files[other] == st.files[other])
        && t.state.files[id].owner == st.files[id].owner
        && t.state.files[id].uploadedAt == st.files[id].uploadedAt
        && t.state.files[id].edited
        && FilesKept(st, t.state)
  {
    var t := EditFile(st, c, id, part, sanitize, target, put);
    if t.response.status == 200 {
      var rec := st.files[id].(filename := sanitize(part.value.filename), url := BlobUrl(put, target), edited := true);
      assert t.state == st.(files := st.files[id := rec]);
      ReplaceFilePreservesValid(st, id, rec);
    }
  }

  // ---------------------------------------------------------------------
  // Admin views

  /** GET /api/files: every file, newest first, for an effective role of
      exactly "admin". It reads only. */
  function ListFiles(st: State, c: Claims): (r: Response)
    ensures r.status in {200, 403, 404}
    ensures r.status == 404 <==> c.identity !in st.users
    ensures r.status == 200 <==> c.identity in st.users && EffectiveRole(c, st.users[c.identity]) == AdminRole
    ensures r.status == 200 ==> r.body == FileList(Query(st, AllFiles))
  {
    match CurrentUser(st, c)
    case None => Response(404, Message(UserNotFoundMsg))
    case Some(u) =>
      if EffectiveRole(c, u) != AdminRole then Response(403, Message(AdminsOnlyMsg))
      else Response(200, FileList(Query(st, AllFiles)))
  }

  /** An admin's listing holds every file of every owner exactly once,
      newest first. */
  lemma ListFilesComplete(st: State, c: Claims)
    requires Valid(st) && ListFiles(st, c).status == 200
    ensures IsListing(st.files, AllFiles, ListFiles(st, c).body.ids)
  {
    QueryIsListing(st, AllFiles);
  }

  /** GET /api/file/<id>. Unlike the raw fetch, the role is checked before
      the file is looked up, so a non-admin gets 403 even for a missing
      file. It reads only. */
  function FileDetail(st: State, c: Claims, id: FileId): (r: Response)
    ensures r.status in {200, 403, 404}
    ensures r.status == 403 <==> c.identity in st.users && EffectiveRole(c, st.users[c.identity]) != AdminRole
    ensures r.status == 404 <==>
      c.identity !in st.users || (EffectiveRole(c, st.users[c.identity]) == AdminRole && id !in st.files)
    ensures r.status == 200 ==> id in st.files && r.body == FileInfo(id, st.files[id])
  {
    match CurrentUser(st, c)
    case None => Response(404, Message(UserNotFoundMsg))
    case Some(u) =>
      if EffectiveRole(c, u) != AdminRole then Response(403, Message(AdminsOnlyMsg))
      else if id !in st.files then Response(404, Message(FileNotFoundMsg))
      else Response(200, FileInfo(id, st.files[id]))
  }

  // ---------------------------------------------------------------------
  // The caller's own listings

  /** GET /api/user-files: the caller's files, newest first. Any role. */
  function UserFiles(st: State, c: Claims): (r: Response)
    ensures r.status in {200, 404}
    ensures r.status == 404 <==> c.identity !in st.users
    ensures r.status == 200 ==> r.body == FileList(Query(st, OwnedBy(c.identity)))
  {
    match CurrentUser(st, c)
    case None => Response(404, Message(UserNotFoundMsg))
    case Some(_) => Response(200, FileList(Query(st, OwnedBy(c.identity))))
  }

  /** GET /api/user-files/edited: the caller's listing with the unedited
      files filtered out. */
  function UserEditedFiles(st: State, c: Claims): (r: Response)
    ensures r.status in {200, 404}
    ensures r.status == 404 <==> c.identity !in st.users
    ensures r.status == 200 ==> r.body.FileList?
  {
    match CurrentUser(st, c)
    case None => Response(404, Message(UserNotFoundMsg))
    case Some(_) => Response(200, FileList(EditedOnly(st.files, Query(st, OwnedBy(c.identity)))))
  }

  /** The caller's listing holds exactly its files, newest first; the
      edited view holds exactly its edited files, newest first, and is the
      full listing with the unedited files dropped, in the same order. */
  lemma {:induction false} OwnListingsCorrect(st: State, c: Claims)
    requires Valid(st) && c.identity in st.users
    ensures IsListing(st.files, OwnedBy(c.identity), UserFiles(st, c).body.ids)
    ensures IsListing(st.files, EditedBy(c.identity), UserEditedFiles(st, c).body.ids)
    ensures forall id :: id in UserEditedFiles(st, c).body.ids ==> id in UserFiles(st, c).body.ids
    ensures Subsequence(UserEditedFiles(st, c).body.ids, UserFiles(st, c).body.ids)
  {
    QueryIsListing(st, OwnedBy(c.identity));
    EditedOnlyIsListing(st.files, c.identity, Query(st, OwnedBy(c.identity)));
  }

  /** On a valid database a file is in the caller's listing exactly when
      the caller owns it, and in the edited view exactly when the caller
      owns it and it has been edited. */
  lemma ListingMembership(st: State, c: Claims, id: FileId)
    requires Valid(st) && c.identity in st.users
    ensures id in UserFiles(st, c).body.ids <==> id in st.files && st.files[id].owner == c.identity
    ensures id in UserEditedFiles(st, c).body.ids <==>
      id in st.files && st.files[id].owner == c.identity && st.files[id].edited
  {
    OwnListingsCorrect(st, c);
    var s := UserFiles(st, c).body.ids;
    if id in s {
      var i :| 0 <= i < |s| && s[i] == id;
    }
    var e := UserEditedFiles(st, c).body.ids;
    if id in e {
      var i :| 0 <= i < |e| && e[i] == id;
    }
  }
}
