/** The login form: the input record of the login action. */
module LoginViewModel {
  import opened Text
  import opened Outcomes
  import opened Validation

  datatype LoginForm = LoginForm(email: string, password: string, rememberMe: bool)

  /** The annotations of the form: email present and an address, password present. */
  function Validate(f: LoginForm, ext: Oracles): (errs: seq<FieldError>)
    ensures errs == [] <==> !IsBlank(f.email) && ext.isEmailAddress(f.email) && !IsBlank(f.password)
  {
    Required("Email", f.email, EmailObligatorio)
    + Rule("Email", f.email, ext.isEmailAddress(f.email), EmailFormato)
    + Required("Password", f.password, PasswordObligatoria)
  }
}
