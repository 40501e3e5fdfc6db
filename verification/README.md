# PDF upload service: request handling, modelled in Dafny

The backend of this service is a Flask application (`backend/app.py`) in
front of two database tables. The `users` table holds name, e-mail,
bcrypt password hash and role. The `files` table holds file name, blob
URL, owner, upload time and an `edited` flag. The file bytes live in an
external blob store.

This project models the eleven request handlers and the two tables as a
state machine. Every handler is a pure function from the database state,
the request and whatever the outside world contributes to a response
(status code and body) and the next state. The lemmas prove
the contracts the handlers keep:

- input normalisation
- the error cases and their order
- who may see or change which file
- the frame of every write
- the invariants of the tables
- the listing order

| file | module | contents |
|---|---|---|
| `text.dfy` | `Text` | Python's `str.strip()` and `str.lower()`, and the normal form of an e-mail address |
| `model.dfy` | `Model` | the tables, token claims, responses, the database invariant `Valid`, and lookups (`User.query.get` and `filter_by(email=...).first()`) |
| `listing.dfy` | `Listing` | the three listings (all files, one owner's files, one owner's edited files) and what makes a sequence of ids a correct listing |
| `auth.dfy` | `Auth` | register, login, refresh, reset password |
| `files.dfy` | `Files` | upload, raw fetch, edit, the admin list and detail views, and the caller's own listings |
| `server.dfy` | `Server` | one `Handle` over all endpoints, and the lemmas that hold for every request |

The outside world enters as parameters:

- bcrypt is a pair of functions `hash` and `check`. `Sound` says a hash made from a password accepts that password.
- `werkzeug.secure_filename` is a function `sanitize`.
- A signed token is represented by its claims: the identity and the optional `role` claim.
- The blob store's reply to a PUT is its status and the `url` field of its JSON body, if any. The reply to a GET is its status and the bytes.
- The upload URL (a fresh uuid under the store's base URL) is a request parameter, `target`.
- The database clock is a request parameter, `now`.
- Auto-increment primary keys are counters in the state.

Where the code and its own comments disagree, the model follows the
code. The docstring of `get_pdf_bytes` says only the uploader or an admin
may fetch a file. The check at `backend/app.py:354` refuses only a caller
whose effective role is exactly `"user"` and who does not own the file.
Registration stores any role it is given (`backend/app.py:151`), so a
caller with any other role reads every file. `Files.RawForbidden` models
the check as written, and `Files.RawOpenToOtherRoles` states its
consequence.

## Model

| member | source | states |
|---|---|---|
| Text.Strip | backend/app.py:148 | `strip()` keeps a contiguous slice of the input with no white space at either end, and what it drops is white space |
| Text.StripEmpty | backend/app.py:153 | a field is empty after stripping exactly when every character of it is white space, so `if not name` refuses all-blank fields |
| Text.Lower | backend/app.py:149 | lower-casing keeps the length, maps every character on its own and leaves no upper-case letter |
| Text.NormalizeIsNormal | backend/app.py:149 | a stripped and lower-cased address is in normal form, normalising twice changes nothing, and normalising keeps the stripped length |
| Text.NormalizeFixesNormal | backend/app.py:151 | normalising an address already in normal form (such as the default role "user") returns it unchanged |
| Model.FindEmailFrom | backend/app.py:156 | the e-mail lookup returns the least matching id in range, and finds nothing only when no id in range matches |
| Model.FindByEmailExact | backend/app.py:184 | on a valid database the lookup finds nobody exactly when the address is not registered, and otherwise finds the one user with it |
| Model.AddUserPreservesValid | backend/app.py:156-162 | inserting a well-formed user whose address is not stored, under the next id, keeps keys below counters, addresses unique and every file's owner stored |
| Model.SetPasswordPreservesValid | backend/app.py:238-240 | overwriting one password hash keeps the database valid, keeps every file and leaves every other user and every name, address and role unchanged |
| Model.ReplaceFilePreservesValid | backend/app.py:435-438 | rewriting one file row with the same owner and upload time, without clearing `edited`, keeps the database valid and every file kept |
| Listing.SortNewestFirst | backend/app.py:557 | ordering by upload time descending is a permutation of its input, newest first, with no id repeated |
| Listing.Collect | backend/app.py:557 | the filter by scope yields, in increasing order, exactly the ids in range whose rows are in scope |
| Listing.QueryIsListing | backend/app.py:475 | on a valid database a query returns every row in scope exactly once and nothing else, newest first |
| Listing.EditedOnly | backend/app.py:592-596 | the edited view keeps exactly the edited ids of the listing and drops the rest, so it is a subsequence of the listing in the same relative order, without repeats and newest first |
| Listing.SubsequenceKeepsOrder | backend/app.py:594-595 | every element of a subsequence occurs in the sequence it was taken from, and any two of them occur there in the same order |
| Listing.EditedOnlyIsListing | backend/app.py:592-604 | filtering a correct listing of an owner's files yields a correct listing of that owner's edited files |
| Auth.ReadRegistration | backend/app.py:148-151 | name and password are stripped, the address is stripped and lower-cased, and the role is "user" when absent and stripped and lower-cased otherwise |
| Auth.Register | backend/app.py:139-165 | registration answers 201, 400 or 409; 400 exactly for a missing or empty body or a blank name, address or password; only 201 writes, and it inserts the new user under the next id and touches no file |
| Auth.RegisterDuplicate | backend/app.py:156-157 | on a valid database a complete form gets 409 exactly when its normalised address is already stored, and 201 exactly when it is not |
| Auth.RegisterAddsOneUser | backend/app.py:159-162 | a successful registration adds exactly one user under a fresh id, leaves every other user and every file as it was, and grows the table by one |
| Auth.RegisterStoresForm | backend/app.py:148-160 | the stored name is the form's, stripped; the stored hash is bcrypt's hash of the stripped password; the stored address is the form's, normalised; and the stored role is "user" when none is given and otherwise the given role normalised, with no restriction to "user" or "admin" |
| Auth.RegisterPreservesValid | backend/app.py:156-162 | registration keeps the database valid: stored addresses stay pairwise distinct and in normal form |
| Auth.Login | backend/app.py:169-198 | login answers 200, 400 or 401; 400 exactly for a missing or empty body or a blank address or password; every 401 carries the same message; a 200 names a user with that address whose hash accepts the password, and both tokens carry that user's id and stored role as their claims |
| Auth.LoginSucceedsIff | backend/app.py:184-186 | on a valid database a complete login form succeeds exactly when a stored user has the address and a hash accepting the password, and an unknown address gets the very same 401 response as a wrong password |
| Auth.RegisterThenLogin | backend/app.py:184-189 | after a registration, logging in with the same password and the address in any spacing and case returns tokens for the new user with its stored role |
| Auth.RefreshToken | backend/app.py:204-215 | refresh answers 404 exactly when the identity is no longer a stored user; otherwise the new access token has the same identity and the role stored now |
| Auth.RefreshSeesCurrentRole | backend/app.py:210-214 | the refresh token from a login, used on any later database holding that user, yields an access token carrying the user's current stored role, not the role at login |
| Auth.ResetPassword | backend/app.py:220-242 | reset answers 200, 400 or 404; 400 exactly for a missing or empty body or a blank address or new password; 404 only when the address is not found; only 200 writes, and it sets the found user's hash to the hash of the stripped new password |
| Auth.ResetChangesOnlyHash | backend/app.py:234-240 | on a valid database a reset keeps the database valid, keeps every file, and leaves every user with another address, and every name, address and role, unchanged |
| Auth.ResetNotFound | backend/app.py:234-236 | a complete reset form gets 404 exactly when no stored user has its normalised address |
| Auth.ResetThenLogin | backend/app.py:238-240 | after a reset, logging in with the new password succeeds |
| Files.PartProblem | backend/app.py:259-268 | a form passes the 400 checks exactly when it has a file part whose name is non-empty and survives `secure_filename` |
| Files.Upload | backend/app.py:248-321 | upload answers 404 exactly for an unknown caller, 400 exactly for an unusable file part, and 502 exactly when the blob store refuses; only 201 writes, inserting an unedited row owned by the caller under the next id |
| Files.UploadAddsOneFile | backend/app.py:300-306 | upload keeps the database valid; a successful one adds exactly one file, unedited and owned by the caller, under a fresh id, and changes no other file and no user |
| Files.GetRaw | backend/app.py:334-366 | raw fetch answers 404 exactly for an unknown caller or file, 403 exactly when the effective role is "user" and the caller does not own the file, 502 exactly when a permitted fetch gets a non-200 reply from the blob store, and otherwise 200 with the stored bytes and the file's name |
| Files.RawOwnerAllowed | backend/app.py:354 | the owner of a file always gets past the access check, whatever the token's role |
| Files.RawOpenToOtherRoles | backend/app.py:350-355 | a non-empty role claim other than "user" fetches a file the caller does not own, even when the stored role is "user" |
| Files.EditFile | backend/app.py:376-450 | edit checks, in order, the caller (404), the file (404), ownership (403, whatever the role), the file part (400) and the blob store's reply (502 exactly when it refuses); otherwise it answers 200, and only 200 writes, replacing name and URL and setting `edited` |
| Files.EditIgnoresRole | backend/app.py:394-396 | two tokens for the same identity with different role claims get the same response and the same database |
| Files.EditChangesOnlyThatFile | backend/app.py:434-438 | edit keeps the database valid; a successful one keeps the file's owner and upload time, marks it edited, and changes no other file and no user |
| Files.ListFiles | backend/app.py:459-489 | the full list answers 404 exactly for an unknown caller and 200 exactly for an effective role of "admin", with the query over all files |
| Files.ListFilesComplete | backend/app.py:475-489 | an admin's listing holds every file of every owner exactly once, newest first |
| Files.FileDetail | backend/app.py:502-533 | the detail view checks the role before the file, so a non-admin gets 403 even for a missing file; an admin gets 404 exactly for a missing file and otherwise the file's row |
| Files.UserFiles | backend/app.py:546-568 | the caller's listing answers 404 exactly for an unknown caller, for any role |
| Files.UserEditedFiles | backend/app.py:581-604 | the edited listing answers 404 exactly for an unknown caller, for any role |
| Files.OwnListingsCorrect | backend/app.py:557-604 | the caller's listing holds exactly its files, newest first; the edited listing holds exactly its edited files, newest first, and is the full listing with the unedited files dropped, in the same order, up to the order of files with equal upload times (the two listings come from separate queries, `backend/app.py:557` and `backend/app.py:592`) |
| Files.ListingMembership | backend/app.py:557-595 | a file is in the caller's listing exactly when the caller owns it, and in the edited listing exactly when the caller owns it and it is edited |
| Server.Handle | backend/app.py:138-604 | only register, reset, upload and edit can change the database |
| Server.HandlePreservesValid | backend/app.py:61-114 | every endpoint keeps the database valid: keys below their counters, addresses unique and normalised, names and addresses non-empty, every file owned by a stored user |
| Server.FilesOnlyGrow | backend/app.py:435-438 | no endpoint deletes a file, changes its owner or upload time, or sets `edited` back to false |
| Server.AccountsOnlyGrow | backend/app.py:159-162 | no endpoint deletes a user or changes a name, address or role |
| Server.UploadThenEdit | backend/app.py:300-438 | a file a user uploads starts unedited; the same user's edit of it then succeeds and marks it edited, under the same id and owner, and the database stays valid |

## Left out

- Token signing, verification and expiry (30 minutes for access tokens, 7 days for refresh tokens, `backend/app.py:41-42`) belong to Flask-JWT-Extended. A request carries the claims of a token that has already been verified, and a token of the wrong kind never reaches a handler.
- The `except Exception` wrappers that answer 500 are not modelled. Neither are the failures they catch: a database error, a blob reply whose JSON is not an object (so `.get("url", ...)` raises), or an unreachable blob store.
- A request body whose JSON is falsy (`[]`, `0`, `false`, `""`, `null`) fails `if not data` and gets 400, which the model covers as a missing body. A truthy body that is not an object, or whose fields are not strings, raises inside the handler (and gives 500); the model takes the body as an optional map from strings to strings and does not cover that case.
- A request whose content type is not JSON may be refused by Flask before the handler runs: from Werkzeug 2.1 on, `request.get_json()` (`backend/app.py:144`, `175`, `225`) answers 400 itself (415 from Werkzeug 2.3), so `if not data` is never reached. The model's `None` body stands for a JSON `null`, not for a missing or non-JSON body.
- Requests are handled one at a time (`Server.Handle`); concurrency is not modelled. Two concurrent registrations of one address can both pass the lookup at `backend/app.py:156`; the second insert then violates the UNIQUE constraint (`backend/app.py:69`) and raises, answering 500 rather than 409.
- Text.Lower: lower-cases ASCII letters only, because Python's full Unicode case mapping (including characters whose lower case is longer) is not modelled.
- Database column lengths (`String(100)`, `String(150)`, `String(10)` on users, `String(255)` on `files.filename`, `backend/app.py:102`) are not enforced; an over-long value is a database error. In particular a sanitised file name longer than 255 characters fails at upload or edit, which the model accepts.
- The users columns `created_at` and `updated_at` (`backend/app.py:72-75`) are not modelled. A password reset also moves `updated_at` forward through its `onupdate`, so "the reset changes only the password hash" (`Auth.ResetChangesOnlyHash`) holds of the model's user, not of the whole database row.
- The status code and body text of the blob store in a 502 response are not part of the response body in the model. A `url` field whose JSON value is null is not modelled.
- Response rendering is not modelled: `to_dict`, `isoformat`, uploader names and the exact JSON keys. A file response carries the id and the row, and a listing carries the ids in order.
- The `ping` and `dashboard` endpoints are not part of this model (diagnostic and greeting only). Neither are `create_tables`, `backend/config.py` (environment settings) and `backend/vercel_blob_upload.py` (an HTTP wrapper the application never calls).
- The `getattr(f, "edited", False)` default for databases without an `edited` column is not modelled; the column always exists.
- bcrypt's random salt is fixed per run: `hash` is a function, so two hashes of one password are equal in the model.
- The order SQL gives rows with equal upload times is unspecified. The model sorts them in one particular order, and `Listing.IsListing` allows any.
- Files.UserEditedFiles: its own contract states only the status codes, because what its listing holds is stated by `Files.OwnListingsCorrect` and `Files.ListingMembership`.
- Files.UserFiles: its own contract states only the status codes and the query it answers, because what its listing holds is stated by `Files.OwnListingsCorrect` and `Files.ListingMembership`.
