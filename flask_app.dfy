/** app.py: the single-file variant. A `users` table from username to password hash, a
    session slot holding the signed-in username, and four handlers that each run a short
    chain of guards before changing either. `hash_pw` (SHA-256 there) is any deterministic
    function, fixed when the application is created. */
module FlaskApp {
  import opened Wrappers

  const MinUsernameLength: nat := 3
  const MinPasswordLength: nat := 6

  const InvalidCredentials: string := "Invalid credentials"
  const UsernameTooShort: string := "Username must be at least 3 characters"
  const PasswordTooShort: string := "Password must be at least 6 characters"
  const PasswordsDoNotMatch: string := "Passwords do not match"
  const UsernameExists: string := "Username already exists"
  const OldPasswordIncorrect: string := "Old password is incorrect"
  const NewPasswordTooShort: string := "New password must be at least 6 characters"
  const PasswordChanged: string := "Password changed successfully"

  /** Where `redirect(url_for(...))` sends the browser. */
  datatype Route = LoginRoute | DashboardRoute

  datatype Template = LoginTemplate | SignupTemplate | DashboardTemplate | SettingsTemplate

  datatype Response =
    | Redirect(to: Route)
    /** `render_template(template, username=..., error=..., success=...)` */
    | Page(template: Template, username: Option<string>, error: Option<string>, success: Option<string>)
    /** Flask's answer when `request.form[key]` names a field the form lacks. */
    | BadRequest

  datatype Request<Form> = Get | Post(form: Form)

  datatype LoginForm = LoginForm(username: Option<string>, password: Option<string>)
  datatype SignupForm = SignupForm(username: Option<string>, password: Option<string>, confirmPassword: Option<string>)
  datatype SettingsForm = SettingsForm(oldPassword: Option<string>, newPassword: Option<string>, confirmPassword: Option<string>)

  function ErrorPage(template: Template, username: Option<string>, message: string): Response {
    Page(template, username, Some(message), None)
  }

  class App {
    const hashPw: string -> string
    /** username -> stored hash; the table's integer `id` plays no part in any handler. */
    var users: map<string, string>
    /** `session["username"]`, or None when the key is absent. */
    var session: Option<string>

    constructor (hashPw: string -> string)
      ensures this.hashPw == hashPw && users == map[] && session == None
    {
      this.hashPw := hashPw;
      users := map[];
      session := None;
    }

    /** The password `password` opens the account `username`. */
    predicate Authenticates(username: string, password: string)
      reads this
    {
      username in users && users[username] == hashPw(password)
    }

    /** `get_user`: the stored hash of the account, if it exists. */
    function GetUser(username: string): (r: Option<string>)
      reads this
      ensures r.Some? <==> username in users
      ensures r.Some? ==> r.value == users[username]
    {
      if username in users then Some(users[username]) else None
    }

    /** What `login` and `settings` compare: the stored hash is the password's hash exactly
        when that password opens the account. */
    lemma LookupMatches(username: string, password: string)
      ensures GetUser(username) == Some(hashPw(password)) <==> Authenticates(username, password)
    {
    }

    /** `create_user`: the unique constraint on `username` turns an existing name into
        False; otherwise exactly one row, mapping the name to the password's hash, is added. */
    method CreateUser(username: string, password: string) returns (ok: bool)
      modifies this
      ensures ok <==> username !in old(users)
      ensures users == if ok then old(users)[username := hashPw(password)] else old(users)
      ensures ok ==> GetUser(username) == Some(hashPw(password)) && Authenticates(username, password)
      ensures session == old(session)
    {
      ok := username !in users;
      if ok {
        users := users[username := hashPw(password)];
      }
    }

    /** `update_password`: `UPDATE ... WHERE username = ?` rewrites that one row's hash, and
        changes nothing when no row has that name. */
    method UpdatePassword(username: string, newPassword: string)
      modifies this
      ensures users == if username in old(users) then old(users)[username := hashPw(newPassword)] else old(users)
      ensures username in old(users) ==> Authenticates(username, newPassword)
      ensures session == old(session)
    {
      if username in users {
        users := users[username := hashPw(newPassword)];
      }
    }

    /** `login`: a POST whose password hashes to the stored hash signs the user in; any
        other POST gets "Invalid credentials" and leaves the session as it was. */
    method Login(req: Request<LoginForm>) returns (r: Response)
      modifies this
      ensures users == old(users)
      ensures req.Get? ==> r == Page(LoginTemplate, None, None, None) && session == old(session)
      ensures req.Post? && (req.form.username.None? || req.form.password.None?) ==>
                r == BadRequest && session == old(session)
      ensures req.Post? && req.form.username.Some? && req.form.password.Some? ==>
                var username, password := req.form.username.value, req.form.password.value;
                if old(Authenticates(username, password))
                then r == Redirect(DashboardRoute) && session == Some(username)
                else r == ErrorPage(LoginTemplate, None, InvalidCredentials) && session == old(session)
    {
      match req
      case Get =>
        r := Page(LoginTemplate, None, None, None);
      case Post(form) =>
        if form.username.None? || form.password.None? {
          return BadRequest;
        }
        var username, password := form.username.value, form.password.value;
        var user := GetUser(username);
        if user.Some? && user.value == hashPw(password) {
          session := Some(username);
          r := Redirect(DashboardRoute);
        } else {
          r := ErrorPage(LoginTemplate, None, InvalidCredentials);
        }
    }

    /** `signup`: username length, then password length, then confirmation, then the
        uniqueness of the name; the first failing guard decides the message and leaves the
        table as it was. The session is never touched. */
    method Signup(req: Request<SignupForm>) returns (r: Response)
      modifies this
      ensures session == old(session)
      ensures req.Get? ==> r == Page(SignupTemplate, None, None, None) && users == old(users)
      ensures req.Post? && (req.form.username.None? || req.form.password.None? || req.form.confirmPassword.None?) ==>
                r == BadRequest && users == old(users)
      ensures req.Post? && req.form.username.Some? && req.form.password.Some? && req.form.confirmPassword.Some? ==>
                var username, password, confirm := req.form.username.value, req.form.password.value, req.form.confirmPassword.value;
                if |username| < MinUsernameLength then
                  r == ErrorPage(SignupTemplate, None, UsernameTooShort) && users == old(users)
                else if |password| < MinPasswordLength then
                  r == ErrorPage(SignupTemplate, None, PasswordTooShort) && users == old(users)
                else if password != confirm then
                  r == ErrorPage(SignupTemplate, None, PasswordsDoNotMatch) && users == old(users)
                else if username in old(users) then
                  r == ErrorPage(SignupTemplate, None, UsernameExists) && users == old(users)
                else
                  r == Redirect(LoginRoute) && users == old(users)[username := hashPw(password)]
    {
      match req
      case Get =>
        r := Page(SignupTemplate, None, None, None);
      case Post(form) =>
        if form.username.None? || form.password.None? || form.confirmPassword.None? {
          return BadRequest;
        }
        var username, password, confirm := form.username.value, form.password.value, form.confirmPassword.value;
        if |username| < MinUsernameLength {
          return ErrorPage(SignupTemplate, None, UsernameTooShort);
        }
        if |password| < MinPasswordLength {
          return ErrorPage(SignupTemplate, None, PasswordTooShort);
        }
        if password != confirm {
          return ErrorPage(SignupTemplate, None, PasswordsDoNotMatch);
        }
        var created := CreateUser(username, password);
        if created {
          r := Redirect(LoginRoute);
        } else {
          r := ErrorPage(SignupTemplate, None, UsernameExists);
        }
    }

    /** `dashboard`: only a signed-in user sees it. */
    method Dashboard() returns (r: Response)
      ensures session.None? ==> r == Redirect(LoginRoute)
      ensures session.Some? ==> r == Page(DashboardTemplate, session, None, None)
    {
      if session.None? {
        r := Redirect(LoginRoute);
      } else {
        r := Page(DashboardTemplate, session, None, None);
      }
    }

    /** `settings`: without a signed-in user, a redirect to the login page. A POST changes
        the signed-in user's password only when the old password matches the stored hash,
        the new one has at least six characters and equals its confirmation, checked in that
        order; then that row alone gets the new password's hash. Absent fields read as "". */
    method Settings(req: Request<SettingsForm>) returns (r: Response)
      modifies this
      ensures session == old(session)
      ensures session.None? ==> r == Redirect(LoginRoute) && users == old(users)
      ensures session.Some? && req.Get? ==> r == Page(SettingsTemplate, session, None, None) && users == old(users)
      ensures session.Some? && req.Post? ==>
                var username := session.value;
                var oldPassword := req.form.oldPassword.GetOr("");
                var newPassword := req.form.newPassword.GetOr("");
                var confirm := req.form.confirmPassword.GetOr("");
                if !old(Authenticates(username, oldPassword)) then
                  r == ErrorPage(SettingsTemplate, session, OldPasswordIncorrect) && users == old(users)
                else if |newPassword| < MinPasswordLength then
                  r == ErrorPage(SettingsTemplate, session, NewPasswordTooShort) && users == old(users)
                else if newPassword != confirm then
                  r == ErrorPage(SettingsTemplate, session, PasswordsDoNotMatch) && users == old(users)
                else
                  r == Page(SettingsTemplate, session, None, Some(PasswordChanged))
                  && users == old(users)[username := hashPw(newPassword)]
    {
      if session.None? {
        return Redirect(LoginRoute);
      }
      var username := session.value;
      match req
      case Get =>
        r := Page(SettingsTemplate, session, None, None);
      case Post(form) =>
        var oldPassword := form.oldPassword.GetOr("");
        var newPassword := form.newPassword.GetOr("");
        var confirm := form.confirmPassword.GetOr("");
        var user := GetUser(username);
        if user.None? || user.value != hashPw(oldPassword) {
          return ErrorPage(SettingsTemplate, session, OldPasswordIncorrect);
        }
        if |newPassword| < MinPasswordLength {
          return ErrorPage(SettingsTemplate, session, NewPasswordTooShort);
        }
        if newPassword != confirm {
          return ErrorPage(SettingsTemplate, session, PasswordsDoNotMatch);
        }
        UpdatePassword(username, newPassword);
        r := Page(SettingsTemplate, session, None, Some(PasswordChanged));
    }

    /** `logout`: the session is emptied, whoever was signed in. */
    method Logout() returns (r: Response)
      modifies this
      ensures session == None && users == old(users)
      ensures r == Redirect(LoginRoute)
    {
      session := None;
      r := Redirect(LoginRoute);
    }
  }

  /** A fresh signup with acceptable input, then a login with the same credentials, ends
      with the new user signed in and sent to the dashboard. */
  method SignupThenLogin(app: App, username: string, password: string) returns (r: Response)
    requires |username| >= MinUsernameLength && |password| >= MinPasswordLength
    requires username !in app.users
    modifies app
    ensures r == Redirect(DashboardRoute) && app.session == Some(username)
    ensures app.users == old(app.users)[username := app.hashPw(password)]
  {
    var signedUp := app.Signup(Post(SignupForm(Some(username), Some(password), Some(password))));
    r := app.Login(Post(LoginForm(Some(username), Some(password))));
  }

  /** A second signup under a taken name fails with "Username already exists", and the
      one row for that name keeps the first password's hash. */
  method SignupTwice(app: App, username: string, first: string, second: string) returns (r: Response)
    requires |username| >= MinUsernameLength && |first| >= MinPasswordLength && |second| >= MinPasswordLength
    requires username !in app.users
    modifies app
    ensures r == ErrorPage(SignupTemplate, None, UsernameExists)
    ensures app.users == old(app.users)[username := app.hashPw(first)]
  {
    var once := app.Signup(Post(SignupForm(Some(username), Some(first), Some(first))));
    r := app.Signup(Post(SignupForm(Some(username), Some(second), Some(second))));
  }

  /** After a successful password change, the new password signs the user in; the old one
      does not, provided the two hash differently. */
  method ChangePasswordThenLogin(app: App, oldPassword: string, newPassword: string) returns (withOld: Response, withNew: Response)
    requires app.session.Some? && app.Authenticates(app.session.value, oldPassword)
    requires |newPassword| >= MinPasswordLength
    requires app.hashPw(oldPassword) != app.hashPw(newPassword)
    modifies app
    ensures withOld == ErrorPage(LoginTemplate, None, InvalidCredentials)
    ensures withNew == Redirect(DashboardRoute)
  {
    var username := app.session.value;
    var changed := app.Settings(Post(SettingsForm(Some(oldPassword), Some(newPassword), Some(newPassword))));
    withOld := app.Login(Post(LoginForm(Some(username), Some(oldPassword))));
    withNew := app.Login(Post(LoginForm(Some(username), Some(newPassword))));
  }
}
