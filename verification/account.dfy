/**
 * The account controller: the login decision and the session it issues,
 * registration, and the remote check that an email is still free.
 */
module Account {
  import opened Wrappers
  import opened Text
  import opened Dates
  import opened Outcomes
  import opened Validation
  import opened Store
  import opened Authorization
  import opened UsuarioModel
  import RegisterViewModel
  import LoginViewModel

  /** Cookie lifetimes in seconds: seven days with "remember me", two hours without. */
  const RememberMeLifetime: int := 7 * 24 * 60 * 60
  const SessionLifetime: int := 2 * 60 * 60

  /** What the sign-in is given: the claims and the cookie's properties. */
  datatype Session = Session(claims: seq<Claim>, isPersistent: bool, expiresUtc: int)

  datatype Destination = LocalUrl(url: string) | HomeIndex

  /** The login page again with its errors, or a sign-in followed by a redirect. */
  datatype LoginResult =
    | LoginPage(errors: seq<FieldError>)
    | SignedIn(session: Session, redirect: Destination)

  /**
   * The first user whose email equals `email` once both are lower-cased. The
   * query has no ordering; the model takes the smallest key.
   */
  function FindByEmail(users: Table<Usuario>, email: string): (r: Option<int>)
    ensures r.Some? ==> r.value in users.rows && SameEmail(users.rows[r.value].email, email)
    ensures r.Some? ==> forall k | k in users.rows && SameEmail(users.rows[k].email, email) :: r.value <= k
    ensures r.None? <==> forall id | id in users.rows :: !SameEmail(users.rows[id].email, email)
  {
    if forall id | id in users.rows :: !SameEmail(users.rows[id].email, email) then None
    else
      var hits := set id | id in users.rows && SameEmail(users.rows[id].email, email);
      assert exists id | id in users.rows :: SameEmail(users.rows[id].email, email) && id in hits;
      assert forall k | k in users.rows && SameEmail(users.rows[k].email, email) :: k in hits;
      Some(FirstKey(hits))
  }

  /**
   * The claims of a signed-in user: key (as text), full name, email and role.
   * The role claim is the only one, and the key claim reads back as the key.
   */
  function Claims(id: int, u: Usuario): (cs: seq<Claim>)
    ensures forall r :: IsInRole(cs, r) <==> r == u.rol
    ensures |cs| == 4 && cs[0].kind == NameIdentifier && IsNumeral(cs[0].value) && ParseInt(cs[0].value) == id
    ensures cs[1] == Claim(Name, u.nombreCompleto) && cs[2] == Claim(ClaimType.Email, u.email) && cs[3] == Claim(Role, u.rol)
  {
    IntRoundTrip(id);
    var cs := [ Claim(NameIdentifier, IntToString(id)),
                Claim(Name, u.nombreCompleto),
                Claim(ClaimType.Email, u.email),
                Claim(Role, u.rol) ];
    assert cs[3].kind == Role;
    cs
  }

  /** After sign-in: the return URL if it is present, non-empty and local, else the home page. */
  function RedirectAfterLogin(returnUrl: Option<string>, ext: Oracles): (d: Destination)
    ensures d.LocalUrl? ==> returnUrl == Some(d.url) && d.url != "" && ext.isLocalUrl(d.url)
    ensures d == HomeIndex <==> returnUrl.None? || returnUrl.value == "" || !ext.isLocalUrl(returnUrl.value)
  {
    if returnUrl.Some? && returnUrl.value != "" && ext.isLocalUrl(returnUrl.value)
    then LocalUrl(returnUrl.value)
    else HomeIndex
  }

  /**
   * POST Login. An invalid form comes back with its errors. Then, in this
   * order: an unknown email, an inactive account, a wrong password, each a
   * single form-level error; otherwise a session for the stored user.
   */
  function Login(users: Table<Usuario>, f: LoginViewModel.LoginForm, returnUrl: Option<string>, clock: Clock, ext: Oracles): (r: LoginResult)
    ensures LoginViewModel.Validate(f, ext) != [] ==> r == LoginPage(LoginViewModel.Validate(f, ext))
    ensures r.LoginPage? && LoginViewModel.Validate(f, ext) == [] ==> |r.errors| == 1 && r.errors[0].key == FormLevel
    ensures r.SignedIn? ==>
      exists id | id in users.rows ::
        && SameEmail(users.rows[id].email, f.email)
        && users.rows[id].estaActivo
        && users.rows[id].password == f.password
        && r.session.claims == Claims(id, users.rows[id])
    ensures r.SignedIn? ==>
      && r.session.isPersistent == f.rememberMe
      && r.session.expiresUtc == clock.utcNow + (if f.rememberMe then RememberMeLifetime else SessionLifetime)
      && r.redirect == RedirectAfterLogin(returnUrl, ext)
  {
    var errs := LoginViewModel.Validate(f, ext);
    if errs != [] then LoginPage(errs)
    else match FindByEmail(users, f.email)
      case None => LoginPage([FieldError(FormLevel, EmailNoRegistrado)])
      case Some(id) =>
        var u := users.rows[id];
        if !u.estaActivo then LoginPage([FieldError(FormLevel, CuentaDesactivada)])
        else if u.password != f.password then LoginPage([FieldError(FormLevel, PasswordIncorrecta)])
        else
          var lifetime := if f.rememberMe then RememberMeLifetime else SessionLifetime;
          SignedIn(Session(Claims(id, u), f.rememberMe, clock.utcNow + lifetime), RedirectAfterLogin(returnUrl, ext))
  }

  /**
   * The checks in order, for the account the lookup finds: an inactive
   * account is reported as such whatever the password; an active one with a
   * wrong password as a wrong password; otherwise the user is signed in.
   */
  lemma LoginDecision(users: Table<Usuario>, f: LoginViewModel.LoginForm, returnUrl: Option<string>, clock: Clock, ext: Oracles, id: int)
    requires LoginViewModel.Validate(f, ext) == []
    requires FindByEmail(users, f.email) == Some(id)
    ensures !users.rows[id].estaActivo ==>
      Login(users, f, returnUrl, clock, ext) == LoginPage([FieldError(FormLevel, CuentaDesactivada)])
    ensures users.rows[id].estaActivo && users.rows[id].password != f.password ==>
      Login(users, f, returnUrl, clock, ext) == LoginPage([FieldError(FormLevel, PasswordIncorrecta)])
    ensures users.rows[id].estaActivo && users.rows[id].password == f.password ==>
      Login(users, f, returnUrl, clock, ext).SignedIn? &&
      Login(users, f, returnUrl, clock, ext).session.claims == Claims(id, users.rows[id])
  {
  }

  /** An email no stored user has (case aside) is answered "not registered" and nothing else. */
  lemma LoginUnknownEmail(users: Table<Usuario>, f: LoginViewModel.LoginForm, returnUrl: Option<string>, clock: Clock, ext: Oracles)
    requires LoginViewModel.Validate(f, ext) == []
    requires CheckEmailUnicoRegistro(users, f.email)
    ensures Login(users, f, returnUrl, clock, ext) == LoginPage([FieldError(FormLevel, EmailNoRegistrado)])
  {
  }

  /** The remote check of the registration form: no stored user has this email, case aside. */
  function CheckEmailUnicoRegistro(users: Table<Usuario>, email: string): (free: bool)
    ensures free <==> FindByEmail(users, email).None?
  {
    forall id | id in users.rows :: !SameEmail(users.rows[id].email, email)
  }

  /** The user a successful registration stores: the form's fields, role Cliente, active, registered now. */
  function Registrado(m: RegisterViewModel.RegisterForm, now: int): Usuario {
    Usuario(m.nombreCompleto, m.email, m.password, Cliente, m.fechaNacimiento, now, true)
  }

  /** The errors the action adds about the birth date: under age, and (independently) in the future. */
  function FechaNacimientoErrors(b: Date, today: Date): (errs: seq<FieldError>)
    ensures forall e | e in errs :: e.key == "FechaNacimiento"
    ensures errs == [] <==> RegisterViewModel.EsMayorDeEdad(b, today) && !Before(today, b)
    ensures Before(today, b) ==> errs == [FieldError("FechaNacimiento", MenorDeEdad), FieldError("FechaNacimiento", FechaFutura)]
  {
    RegisterViewModel.SameAgeCheck(b, today);
    (if !RegisterViewModel.EsMayorDeEdad(b, today) then [FieldError("FechaNacimiento", MenorDeEdad)] else [])
    + (if Before(today, b) then [FieldError("FechaNacimiento", FechaFutura)] else [])
  }

  /**
   * POST Register: the annotation errors and the birth-date errors together;
   * with none, one new user with the form's fields, role Cliente and an active
   * account. No server-side email check is made.
   */
  function Register(users: Table<Usuario>, m: RegisterViewModel.RegisterForm, clock: Clock, ext: Oracles): (r: Response<Table<Usuario>>)
    ensures r.Ok? || r.Invalid?
    ensures r.Ok? <==>
      && RegisterViewModel.Validate(m, ext) == []
      && RegisterViewModel.EsMayorDeEdad(m.fechaNacimiento, clock.today)
      && !Before(clock.today, m.fechaNacimiento)
    ensures Before(clock.today, m.fechaNacimiento) ==> ReportsFutureBirth(r)
    ensures !r.Ok? ==> r == Invalid(RegisterViewModel.Validate(m, ext) + FechaNacimientoErrors(m.fechaNacimiento, clock.today))
    ensures r.Ok? && WellFormed(users) ==>
      && AddedOne(users, r.value, users.nextId, Registrado(m, clock.now))
      && WellFormed(r.value)
      && r.value.rows[users.nextId].rol == Cliente && r.value.rows[users.nextId].estaActivo
  {
    var errs := RegisterViewModel.Validate(m, ext) + FechaNacimientoErrors(m.fechaNacimiento, clock.today);
    if errs != [] then Invalid(errs) else Ok(Insert(users, Registrado(m, clock.now)))
  }

  /**
   * The round trip: when no stored user had the email, a registration that
   * succeeds is followed by a login with the same email and password that
   * succeeds, carrying role Cliente, which every gated controller refuses.
   */
  lemma RegisterThenLogin(users: Table<Usuario>, m: RegisterViewModel.RegisterForm, clock: Clock, ext: Oracles,
                          rememberMe: bool, returnUrl: Option<string>)
    requires WellFormed(users)
    requires CheckEmailUnicoRegistro(users, m.email)
    requires Register(users, m, clock, ext).Ok?
    ensures var after := Register(users, m, clock, ext).value;
            var r := Login(after, LoginViewModel.LoginForm(m.email, m.password, rememberMe), returnUrl, clock, ext);
            && r.SignedIn?
            && r.session.claims == Claims(users.nextId, Registrado(m, clock.now))
            && HasRole(Some(r.session.claims), Cliente)
            && forall c, a | IsGated(c) :: Authorize(Some(r.session.claims), Requirements(c, a)) == Deny
  {
    var after := Register(users, m, clock, ext).value;
    var f := LoginViewModel.LoginForm(m.email, m.password, rememberMe);
    RegisteredFormPassesLogin(m, ext, rememberMe);
    RegisteredIsFound(users, m, clock, ext);
    LoginDecision(after, f, returnUrl, clock, ext, users.nextId);
    var claims := Login(after, f, returnUrl, clock, ext).session.claims;
    assert claims == Claims(users.nextId, Registrado(m, clock.now));
    forall c, a | IsGated(c)
      ensures Authorize(Some(claims), Requirements(c, a)) == Deny
    {
      PassMeansStaff(Some(claims), c, a);
    }
  }

  /** The fields a valid registration form carries pass the login form's annotations. */
  lemma RegisteredFormPassesLogin(m: RegisterViewModel.RegisterForm, ext: Oracles, rememberMe: bool)
    requires RegisterViewModel.Validate(m, ext) == []
    ensures LoginViewModel.Validate(LoginViewModel.LoginForm(m.email, m.password, rememberMe), ext) == []
  {
    PatternExcludesBlank(m.password);
  }

  /** Once an unused email registers, looking it up finds the new row. */
  lemma RegisteredIsFound(users: Table<Usuario>, m: RegisterViewModel.RegisterForm, clock: Clock, ext: Oracles)
    requires WellFormed(users)
    requires CheckEmailUnicoRegistro(users, m.email)
    requires Register(users, m, clock, ext).Ok?
    ensures FindByEmail(Register(users, m, clock, ext).value, m.email) == Some(users.nextId)
    ensures Register(users, m, clock, ext).value.rows[users.nextId] == Registrado(m, clock.now)
  {
  }

  /**
   * As written, Register stores a second account for an email that is already
   * taken (the form's remote check runs only in the browser), so emails are no
   * longer unique whichever row a lookup returns. When the lookup returns the
   * older row, as the model's FindByEmail does, that row shadows the new one:
   * if it is active with another password, logging in with the new
   * credentials is answered "wrong password".
   */
  lemma RegisterDuplicateShadowed(users: Table<Usuario>, m: RegisterViewModel.RegisterForm, clock: Clock, ext: Oracles, id: int)
    requires WellFormed(users)
    requires Register(users, m, clock, ext).Ok?
    requires FindByEmail(users, m.email) == Some(id)
    requires users.rows[id].estaActivo && users.rows[id].password != m.password
    ensures !EmailsUnique(Register(users, m, clock, ext).value.rows)
    ensures Login(Register(users, m, clock, ext).value, LoginViewModel.LoginForm(m.email, m.password, false), None, clock, ext)
            == LoginPage([FieldError(FormLevel, PasswordIncorrecta)])
  {
  }

  /**
   * A concrete instance: "ANA@x.com" registers although "ana@x.com" is taken;
   * with the lookup returning the older row, the new account cannot log in.
   */
  lemma RegisterAllowsDuplicateEmail(users: Table<Usuario>, m: RegisterViewModel.RegisterForm, clock: Clock, ext: Oracles)
    requires users == Table(map[0 := Usuario("Ana Ruiz", "ana@x.com", "Clave1!", Cliente, Date(1990, 1, 1), 0, true)], 1)
    requires m == RegisterViewModel.RegisterForm("Ana Bis", "ANA@x.com", "Otra2$x", "Otra2$x", Date(1991, 2, 2))
    requires clock.today == Date(2026, 1, 1)
    requires ext == Oracles(_ => true, _ => true, _ => true)
    ensures !CheckEmailUnicoRegistro(users, m.email)
    ensures Register(users, m, clock, ext).Ok?
    ensures !EmailsUnique(Register(users, m, clock, ext).value.rows)
    ensures Login(Register(users, m, clock, ext).value, LoginViewModel.LoginForm(m.email, m.password, false), None, clock, ext)
            == LoginPage([FieldError(FormLevel, PasswordIncorrecta)])
  {
    ConcreteLookup(users, m.email);
    ConcreteRegisterOk(users, m, clock, ext);
    RegisterDuplicateShadowed(users, m, clock, ext, 0);
  }

  lemma ConcreteLookup(users: Table<Usuario>, email: string)
    requires users == Table(map[0 := Usuario("Ana Ruiz", "ana@x.com", "Clave1!", Cliente, Date(1990, 1, 1), 0, true)], 1)
    requires email == "ANA@x.com"
    ensures WellFormed(users)
    ensures FindByEmail(users, email) == Some(0) && !CheckEmailUnicoRegistro(users, email)
  {
    assert SameEmail(users.rows[0].email, email) by { ConcreteSameEmail(); }
  }

  lemma ConcreteRegisterOk(users: Table<Usuario>, m: RegisterViewModel.RegisterForm, clock: Clock, ext: Oracles)
    requires m == RegisterViewModel.RegisterForm("Ana Bis", "ANA@x.com", "Otra2$x", "Otra2$x", Date(1991, 2, 2))
    requires clock.today == Date(2026, 1, 1)
    requires ext == Oracles(_ => true, _ => true, _ => true)
    ensures Register(users, m, clock, ext).Ok?
  {
    ConcreteFormValid(m, ext);
    assert RegisterViewModel.EsMayorDeEdad(m.fechaNacimiento, clock.today);
  }

  lemma ConcreteSameEmail()
    ensures SameEmail("ana@x.com", "ANA@x.com")
  {
  }

  lemma ConcreteFormValid(m: RegisterViewModel.RegisterForm, ext: Oracles)
    requires m == RegisterViewModel.RegisterForm("Ana Bis", "ANA@x.com", "Otra2$x", "Otra2$x", Date(1991, 2, 2))
    requires ext == Oracles(_ => true, _ => true, _ => true)
    ensures RegisterViewModel.Validate(m, ext) == []
  {
    ConcretePassword(m.password);
    ConcreteNombre(m.nombreCompleto, ext);
    assert !IsBlank(m.email) by { assert !IsWhiteSpace(m.email[0]); }
  }

  lemma ConcretePassword(p: string)
    requires p == "Otra2$x"
    ensures PasswordRule(p)
  {
    assert IsLowerAscii(p[1]) && IsUpperAscii(p[0]);
    assert IsDigit(p[4]) && IsSpecial(p[5]);
  }

  lemma ConcreteNombre(n: string, ext: Oracles)
    requires n == "Ana Bis"
    requires ext == Oracles(_ => true, _ => true, _ => true)
    ensures NombreRule(n, ext)
  {
    assert !IsWhiteSpace(n[0]);
  }

  /**
   * Register with the server-side check the form's remote validation implies:
   * an email some user already has (case aside) is refused with the
   * attribute's message, and nothing is stored.
   */
  function RegisterChecked(users: Table<Usuario>, m: RegisterViewModel.RegisterForm, clock: Clock, ext: Oracles): (r: Response<Table<Usuario>>)
    ensures r.Ok? || r.Invalid?
    ensures r.Ok? <==> Register(users, m, clock, ext).Ok? && CheckEmailUnicoRegistro(users, m.email)
    ensures r.Ok? ==> r == Register(users, m, clock, ext)
    ensures !CheckEmailUnicoRegistro(users, m.email) ==> r.Invalid? && FieldError("Email", UsuarioEmailDuplicado) in r.errors
  {
    var errs := RegisterViewModel.Validate(m, ext)
      + (if CheckEmailUnicoRegistro(users, m.email) then [] else [FieldError("Email", UsuarioEmailDuplicado)])
      + FechaNacimientoErrors(m.fechaNacimiento, clock.today);
    if errs != [] then Invalid(errs) else Ok(Insert(users, Registrado(m, clock.now)))
  }

  /** The corrected registration keeps user emails unique, case aside. */
  lemma RegisterCheckedKeepsEmailsUnique(users: Table<Usuario>, m: RegisterViewModel.RegisterForm, clock: Clock, ext: Oracles)
    requires WellFormed(users) && EmailsUnique(users.rows)
    requires RegisterChecked(users, m, clock, ext).Ok?
    ensures EmailsUnique(RegisterChecked(users, m, clock, ext).value.rows)
  {
  }

  /** With the check in place the round trip needs no hypothesis about the email: every successful registration can log in. */
  lemma RegisterCheckedThenLogin(users: Table<Usuario>, m: RegisterViewModel.RegisterForm, clock: Clock, ext: Oracles,
                                 rememberMe: bool, returnUrl: Option<string>)
    requires WellFormed(users)
    requires RegisterChecked(users, m, clock, ext).Ok?
    ensures var r := Login(RegisterChecked(users, m, clock, ext).value, LoginViewModel.LoginForm(m.email, m.password, rememberMe), returnUrl, clock, ext);
            r.SignedIn? && HasRole(Some(r.session.claims), Cliente)
  {
  }
}
