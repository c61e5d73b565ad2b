/**
 * The registration form: its annotations, its confirmation field and its own
 * copy of the age check.
 */
module RegisterViewModel {
  import opened Wrappers
  import opened Text
  import opened Dates
  import opened Outcomes
  import opened Validation
  import UsuarioModel

  datatype RegisterForm = RegisterForm(
    nombreCompleto: string,
    email: string,
    password: string,
    confirmPassword: string,
    fechaNacimiento: Date)

  /** The value model binding hands the validators: a blank field is null. */
  function Bound(s: string): Option<string> {
    if IsBlank(s) then None else Some(s)
  }

  /** The annotations of the form, as the errors ModelState collects before the action runs. */
  function Validate(m: RegisterForm, ext: Oracles): (errs: seq<FieldError>)
    ensures errs == [] <==>
      && NombreRule(m.nombreCompleto, ext)
      && !IsBlank(m.email) && ext.isEmailAddress(m.email)
      && PasswordRule(m.password)
      && m.confirmPassword == m.password
  {
    NombreErrors("NombreCompleto", m.nombreCompleto, ext)
    + Required("Email", m.email, EmailObligatorio)
    + Rule("Email", m.email, ext.isEmailAddress(m.email), EmailFormato)
    + PasswordErrors("Password", m.password)
    + Required("ConfirmPassword", m.confirmPassword, ConfirmacionObligatoria)
    + (if Bound(m.confirmPassword) != Bound(m.password)
       then [FieldError("ConfirmPassword", PasswordsNoCoinciden)] else [])
  }

  /** The form's age check, written out again exactly as the record's. */
  predicate EsMayorDeEdad(fechaNacimiento: Date, today: Date) {
    var edad := today.year - fechaNacimiento.year;
    var cumplida := if Before(AddYears(today, -edad), fechaNacimiento) then edad - 1 else edad;
    cumplida >= 18
  }

  /** The two copies of the age check agree on every birth date and every today. */
  lemma SameAgeCheck(b: Date, today: Date)
    ensures EsMayorDeEdad(b, today) == UsuarioModel.EsMayorDeEdad(b, today)
  {
  }

  /** Registration is refused unless the confirmation repeats the password exactly. */
  lemma ConfirmationMustMatch(m: RegisterForm, ext: Oracles)
    requires m.confirmPassword != m.password
    ensures Validate(m, ext) != []
  {
  }

  /**
   * A password gets the same Password-field errors on the form as on the user
   * record: the same length bounds, the same pattern, the same messages.
   */
  lemma {:induction false} SamePasswordErrors(m: RegisterForm, u: UsuarioModel.Usuario, ext: Oracles)
    requires m.password == u.password
    ensures ErrorsFor("Password", Validate(m, ext)) == ErrorsFor("Password", UsuarioModel.Validate(u, ext))
    ensures ErrorsFor("Password", Validate(m, ext)) == [] <==> PasswordRule(m.password)
  {
    var key := "Password";
    var pw := PasswordErrors(key, m.password);
    var mBefore := NombreErrors("NombreCompleto", m.nombreCompleto, ext)
      + Required("Email", m.email, EmailObligatorio)
      + Rule("Email", m.email, ext.isEmailAddress(m.email), EmailFormato);
    var mAfter := Required("ConfirmPassword", m.confirmPassword, ConfirmacionObligatoria)
      + (if Bound(m.confirmPassword) != Bound(m.password)
         then [FieldError("ConfirmPassword", PasswordsNoCoinciden)] else []);
    var uBefore := NombreErrors("NombreCompleto", u.nombreCompleto, ext)
      + Required("Email", u.email, EmailObligatorio)
      + Rule("Email", u.email, ext.isEmailAddress(u.email), EmailFormato)
      + Rule("Email", u.email, Utf16Length(u.email) <= 160, EmailLongitud);
    var uAfter := RolErrors("Rol", u.rol);
    assert Validate(m, ext) == mBefore + pw + mAfter;
    assert UsuarioModel.Validate(u, ext) == uBefore + pw + uAfter;
    ErrorsForBlock(key, mBefore, pw, mAfter);
    ErrorsForBlock(key, uBefore, pw, uAfter);
  }
}
