/**
  The account endpoints: registration, login, token refresh and password
  reset (`backend/app.py`, sections 10 to 13).
 */
module Auth {
  import Text
  import opened Model

  /** bcrypt, as the handlers use it: `hash` stands for
      `generate_password_hash` (one fixed draw of its random salt) and
      `check` for `check_password_hash`. */
  datatype Bcrypt = Bcrypt(hash: string -> string, check: (string, string) -> bool)

  /** A hash made from a password is accepted for that password. */
  ghost predicate Sound(b: Bcrypt) {
    forall p :: b.check(b.hash(p), p)
  }

  const MissingJsonMsg: string := "Missing JSON in request"
  const RegisterFieldsMsg: string := "Name, email, and password are required"
  const DuplicateEmailMsg: string := "Email already registered"
  const RegisteredMsg: string := "User registered successfully."
  const LoginFieldsMsg: string := "Email and password required"
  const InvalidCredentialsMsg: string := "Invalid credentials"
  const ResetFieldsMsg: string := "Email and new_password required"
  const PasswordUpdatedMsg: string := "Password updated successfully."

  // ---------------------------------------------------------------------
  // Registration

  /** The register form after `strip()` (and `lower()` for e-mail and role);
      an absent role is "user". */
  datatype Registration = Registration(name: string, email: string, password: string, role: string)

  function ReadRegistration(body: JsonBody): (f: Registration)
    ensures f.name == Text.Strip(Field(body, "name", ""))
    ensures f.password == Text.Strip(Field(body, "password", ""))
    ensures f.email == Text.Normalize(Field(body, "email", ""))
    ensures body.None? || "role" !in body.value ==> f.role == UserRole
    ensures body.Some? && "role" in body.value ==> f.role == Text.Normalize(body.value["role"])
  {
    assert Text.IsNormal(UserRole);
    Text.NormalizeFixesNormal(UserRole);
    Registration(
      Text.Strip(Field(body, "name", "")),
      Text.Normalize(Field(body, "email", "")),
      Text.Strip(Field(body, "password", "")),
      Text.Normalize(Field(body, "role", UserRole)))
  }

  /** The fields registration refuses with 400: one of name, e-mail and
      password is empty after stripping. */
  predicate RegistrationIncomplete(f: Registration) {
    f.name == [] || f.email == [] || f.password == []
  }

  /** The row registration inserts. */
  function NewUser(f: Registration, bcrypt: Bcrypt): User {
    User(f.name, f.email, bcrypt.hash(f.password), f.role)
  }

  /** POST /api/register. */
  function Register(st: State, body: JsonBody, bcrypt: Bcrypt): (t: Transition)
    ensures t.response.status in {201, 400, 409}
    ensures t.response.status != 201 ==> t.state == st
    ensures t.response.status == 400 <==>
      MissingJson(body) || RegistrationIncomplete(ReadRegistration(body))
    ensures t.response.status == 201 ==>
      && t.state.users == st.users[st.nextUserId := NewUser(ReadRegistration(body), bcrypt)]
      && t.state.files == st.files
      && t.state.nextUserId == st.nextUserId + 1
      && t.state.nextFileId == st.nextFileId
  {
    if MissingJson(body) then
      Reply(st, 400, Message(MissingJsonMsg))
    else
      var f := ReadRegistration(body);
      if RegistrationIncomplete(f) then
        Reply(st, 400, Message(RegisterFieldsMsg))
      else if FindByEmail(st, f.email).Some? then
        Reply(st, 409, Message(DuplicateEmailMsg))
      else
        var st' := st.(users := st.users[st.nextUserId := NewUser(f, bcrypt)],
                       nextUserId := st.nextUserId + 1);
        Transition(Response(201, Message(RegisteredMsg)), st')
  }

  /** An address that, once stripped and lower-cased, is already stored is
      refused with 409 and nothing changes; every other complete form is
      accepted. */
  lemma RegisterDuplicate(st: State, body: JsonBody, bcrypt: Bcrypt)
    requires Valid(st)
    requires !MissingJson(body) && !RegistrationIncomplete(ReadRegistration(body))
    ensures var t := Register(st, body, bcrypt);
      && (t.response.status == 409 <==> EmailTaken(st.users, Text.Normalize(Field(body, "email", ""))))
      && (t.response.status == 201 <==> !EmailTaken(st.users, Text.Normalize(Field(body, "email", ""))))
  {
    FindByEmailExact(st, ReadRegistration(body).email);
  }

  /** A successful registration adds exactly one user, under a fresh id,
      and leaves every other user as it was. */
  lemma {:induction false} RegisterAddsOneUser(st: State, body: JsonBody, bcrypt: Bcrypt)
    requires Valid(st)
    requires Register(st, body, bcrypt).response.status == 201
    ensures var st' := Register(st, body, bcrypt).state;
      && st.nextUserId !in st.users
      && st'.users.Keys == st.users.Keys + {st.nextUserId}
      && |st'.users| == |st.users| + 1
      && (forall id :: id in st.users ==> st'.users[id] == st.users[id])
      && AccountsKept(st, st')
      && st'.files == st.files
  {
    var t := Register(st, body, bcrypt);
    var u := NewUser(ReadRegistration(body), bcrypt);
    AddUserKeepsAccounts(st, u);
    assert t.state.users == st.users[st.nextUserId := u];
  }

  /** The new user's name is the form's, stripped; its password hash is
      the hash of the form's password, stripped; its address and role are
      the form's, stripped and lower-cased. The role is "user" when the
      form has none, and nothing restricts it to "user" or "admin". */
  lemma RegisterStoresForm(st: State, body: JsonBody, bcrypt: Bcrypt)
    requires Register(st, body, bcrypt).response.status == 201
    ensures var u := Register(st, body, bcrypt).state.users[st.nextUserId];
      && u.name == Text.Strip(body.value["name"])
      && u.passwordHash == bcrypt.hash(Text.Strip(body.value["password"]))
      && u.email == Text.Normalize(body.value["email"])
      && u.role == (if "role" in body.value then Text.Normalize(body.value["role"]) else UserRole)
  {
    var f := ReadRegistration(body);
    assert !MissingJson(body) && !RegistrationIncomplete(f);
    FormFieldsPresent(body);
    assert Register(st, body, bcrypt).state.users[st.nextUserId] == NewUser(f, bcrypt);
  }

  /** A form registration accepts as complete carries all three fields:
      an absent one would default to "", which strips to nothing. */
  lemma FormFieldsPresent(body: JsonBody)
    requires !MissingJson(body) && !RegistrationIncomplete(ReadRegistration(body))
    ensures "name" in body.value && "password" in body.value && "email" in body.value
  {
    Text.StripEmpty("");
  }

  /** Registration keeps the database valid; in particular stored e-mail
      addresses stay pairwise distinct. */
  lemma {:induction false} RegisterPreservesValid(st: State, body: JsonBody, bcrypt: Bcrypt)
    requires Valid(st)
    ensures Valid(Register(st, body, bcrypt).state)
  {
    var t := Register(st, body, bcrypt);
    if t.response.status == 201 {
      var f := ReadRegistration(body);
      FindByEmailExact(st, f.email);
      Text.NormalizeIsNormal(Field(body, "email", ""));
      AddUserPreservesValid(st, NewUser(f, bcrypt));
    }
  }

  // ---------------------------------------------------------------------
  // Login

  /** The token pair login issues: both name the user and carry its stored
      role as the `role` claim. */
  function TokensFor(id: UserId, u: User): Body {
    var claims := Claims(id, Some(u.role));
    LoginTokens(Token(Access, claims), Token(Refresh, claims), u.role)
  }

  /** The user a login form names and whose hash accepts its password. */
  ghost predicate Authenticates(st: State, id: UserId, email: string, password: string, bcrypt: Bcrypt) {
    id in st.users && st.users[id].email == email && bcrypt.check(st.users[id].passwordHash, password)
  }

  /** POST /api/login. It reads only. */
  function Login(st: State, body: JsonBody, bcrypt: Bcrypt): (r: Response)
    ensures r.status in {200, 400, 401}
    ensures r.status == 400 <==>
      MissingJson(body)
      || Text.Normalize(Field(body, "email", "")) == []
      || Text.Strip(Field(body, "password", "")) == []
    ensures r.status == 401 ==> r.body == Message(InvalidCredentialsMsg)
    ensures r.status == 200 ==>
      exists id :: Authenticates(st, id, Text.Normalize(Field(body, "email", "")),
                                 Text.Strip(Field(body, "password", "")), bcrypt)
                && r.body.LoginTokens?
                && r.body.access == Token(Access, Claims(id, Some(st.users[id].role)))
                && r.body.refresh == Token(Refresh, Claims(id, Some(st.users[id].role)))
                && r.body.role == st.users[id].role
  {
    if MissingJson(body) then
      Response(400, Message(MissingJsonMsg))
    else
      var email := Text.Normalize(Field(body, "email", ""));
      var password := Text.Strip(Field(body, "password", ""));
      if email == [] || password == [] then
        Response(400, Message(LoginFieldsMsg))
      else
        match FindByEmail(st, email)
        case None => Response(401, Message(InvalidCredentialsMsg))
        case Some(id) =>
          if !bcrypt.check(st.users[id].passwordHash, password) then
            Response(401, Message(InvalidCredentialsMsg))
          else
            assert Authenticates(st, id, email, password, bcrypt);
            Response(200, TokensFor(id, st.users[id]))
  }

  /** On a valid database a complete login form succeeds exactly when some
      user has the address and a hash that accepts the password; an
      unknown address and a wrong password get the same 401 response. */
  lemma LoginSucceedsIff(st: State, body: JsonBody, bcrypt: Bcrypt)
    requires Valid(st)
    requires Login(st, body, bcrypt).status != 400
    ensures var email := Text.Normalize(Field(body, "email", ""));
      var password := Text.Strip(Field(body, "password", ""));
      && (Login(st, body, bcrypt).status == 200 <==>
            exists id :: Authenticates(st, id, email, password, bcrypt))
      && (Login(st, body, bcrypt).status != 200 ==>
            Login(st, body, bcrypt) == Response(401, Message(InvalidCredentialsMsg)))
  {
    var email := Text.Normalize(Field(body, "email", ""));
    FindByEmailExact(st, email);
  }

  /** Registering and then logging in with the same address and password
      (typed with any spacing and case of the address) yields tokens for
      the new user that carry its stored role. */
  lemma {:induction false} RegisterThenLogin(st: State, reg: JsonBody, login: JsonBody, bcrypt: Bcrypt)
    requires Valid(st) && Sound(bcrypt)
    requires Register(st, reg, bcrypt).response.status == 201
    requires !MissingJson(login)
    requires Text.Normalize(Field(login, "email", "")) == Text.Normalize(Field(reg, "email", ""))
    requires Text.Strip(Field(login, "password", "")) == Text.Strip(Field(reg, "password", ""))
    ensures var st' := Register(st, reg, bcrypt).state;
      Login(st', login, bcrypt) == Response(200, TokensFor(st.nextUserId, st'.users[st.nextUserId]))
  {
    var st' := Register(st, reg, bcrypt).state;
    RegisterPreservesValid(st, reg, bcrypt);
    var f := ReadRegistration(reg);
    assert st'.users[st.nextUserId] == NewUser(f, bcrypt);
    FindByEmailExact(st', f.email);
  }

  // ---------------------------------------------------------------------
  // Refresh

  /** POST /api/refresh, called with the claims of a verified refresh
      token. The role claim of that token plays no part. */
  function RefreshToken(st: State, c: Claims): (r: Response)
    ensures r.status in {200, 404}
    ensures r.status == 404 <==> c.identity !in st.users
    ensures r.status == 200 ==>
      r.body == NewAccess(Token(Access, Claims(c.identity, Some(st.users[c.identity].role))))
  {
    match CurrentUser(st, c)
    case None => Response(404, Message(UserNotFoundMsg))
    case Some(u) => Response(200, NewAccess(Token(Access, Claims(c.identity, Some(u.role)))))
  }

  /** The refresh token from a login, presented after the user's stored
      role has changed, yields an access token with the role as it is now. */
  lemma RefreshSeesCurrentRole(st: State, body: JsonBody, bcrypt: Bcrypt, st': State)
    requires Login(st, body, bcrypt).status == 200
    requires var id := Login(st, body, bcrypt).body.refresh.claims.identity;
      id in st'.users
    ensures var claims := Login(st, body, bcrypt).body.refresh.claims;
      RefreshToken(st', claims).body.access.claims == Claims(claims.identity, Some(st'.users[claims.identity].role))
  {
  }

  // ---------------------------------------------------------------------
  // Password reset

  /** POST /api/reset_password. No proof of the old password is asked for. */
  function ResetPassword(st: State, body: JsonBody, bcrypt: Bcrypt): (t: Transition)
    ensures t.response.status in {200, 400, 404}
    ensures t.response.status != 200 ==> t.state == st
    ensures t.response.status == 400 <==>
      MissingJson(body)
      || Text.Normalize(Field(body, "email", "")) == []
      || Text.Strip(Field(body, "new_password", "")) == []
    ensures t.response.status == 404 ==> FindByEmail(st, Text.Normalize(Field(body, "email", ""))).None?
    ensures t.response.status == 200 ==>
      var found := FindByEmail(st, Text.Normalize(Field(body, "email", "")));
      && found.Some?
      && var id := found.value;
      t.state == SetPassword(st, id, bcrypt.hash(Text.Strip(Field(body, "new_password", ""))))
  {
    if MissingJson(body) then
      Reply(st, 400, Message(MissingJsonMsg))
    else
      var email := Text.Normalize(Field(body, "email", ""));
      var password := Text.Strip(Field(body, "new_password", ""));
      if email == [] || password == [] then
        Reply(st, 400, Message(ResetFieldsMsg))
      else
        match FindByEmail(st, email)
        case None => Reply(st, 404, Message(UserNotFoundMsg))
        case Some(id) =>
          Transition(Response(200, Message(PasswordUpdatedMsg)), SetPassword(st, id, bcrypt.hash(password)))
  }

  /** On a valid database a reset changes the password hash of at most the
      user with the form's address and nothing else: the database stays
      valid and every file and account is kept. */
  lemma {:induction false} ResetChangesOnlyHash(st: State, body: JsonBody, bcrypt: Bcrypt)
    requires Valid(st)
    ensures var t := ResetPassword(st, body, bcrypt);
      var email := Text.Normalize(Field(body, "email", ""));
      && Valid(t.state)
      && t.state.files == st.files
      && t.state.users.Keys == st.users.Keys
      && (forall id :: id in st.users && st.users[id].email != email ==> t.state.users[id] == st.users[id])
      && AccountsKept(st, t.state)
  {
    var t := ResetPassword(st, body, bcrypt);
    if t.response.status == 200 {
      var email := Text.Normalize(Field(body, "email", ""));
      var id := FindByEmail(st, email).value;
      var hash := bcrypt.hash(Text.Strip(Field(body, "new_password", "")));
      SetPasswordPreservesValid(st, id, hash);
      assert st.users[id].email == email;
      assert t.state == SetPassword(st, id, hash);
    } else {
      assert t.state == st;
      KeptReflexive(st);
    }
  }

  /** A complete reset form is refused with 404 exactly when no stored
      user has the form's address, stripped and lower-cased. */
  lemma ResetNotFound(st: State, body: JsonBody, bcrypt: Bcrypt)
    requires Valid(st)
    requires ResetPassword(st, body, bcrypt).response.status != 400
    ensures ResetPassword(st, body, bcrypt).response.status == 404 <==>
      !EmailTaken(st.users, Text.Normalize(Field(body, "email", "")))
  {
    FindByEmailExact(st, Text.Normalize(Field(body, "email", "")));
  }

  /** After a reset the new password logs in. */
  lemma {:induction false} ResetThenLogin(st: State, reset: JsonBody, login: JsonBody, bcrypt: Bcrypt)
    requires Valid(st) && Sound(bcrypt)
    requires ResetPassword(st, reset, bcrypt).response.status == 200
    requires !MissingJson(login)
    requires Text.Normalize(Field(login, "email", "")) == Text.Normalize(Field(reset, "email", ""))
    requires Text.Strip(Field(login, "password", "")) == Text.Strip(Field(reset, "new_password", ""))
    ensures Login(ResetPassword(st, reset, bcrypt).state, login, bcrypt).status == 200
  {
    var st' := ResetPassword(st, reset, bcrypt).state;
    var email := Text.Normalize(Field(reset, "email", ""));
    var id := FindByEmail(st, email).value;
    var hash := bcrypt.hash(Text.Strip(Field(reset, "new_password", "")));
    assert st' == SetPassword(st, id, hash);
    SetPasswordPreservesValid(st, id, hash);
    FindByEmailExact(st', email);
    assert st'.users[id].email == email;
  }
}
