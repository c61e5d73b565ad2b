/**
 * The user record, its field annotations, its defaults and its own age check.
 */
module UsuarioModel {
  import opened Text
  import opened Dates
  import opened Outcomes
  import opened Validation

  /** A row of the Usuarios table; the key is the table's, not a field. */
  datatype Usuario = Usuario(
    nombreCompleto: string,
    email: string,
    password: string,
    rol: string,
    fechaNacimiento: Date,
    fechaRegistro: int,
    estaActivo: bool)

  /**
   * A newly constructed record: the property initialisers give an empty name,
   * email and password, role Cliente, `default(DateTime)` as birth date,
   * registration at `now`, and an active account.
   */
  function Nuevo(now: int): (u: Usuario)
    ensures u.rol == Cliente && u.estaActivo && u.fechaRegistro == now
    ensures RolErrors("Rol", u.rol) == []
    ensures Validate(u, Oracles(_ => true, _ => true, _ => true)) != []
  {
    Usuario("", "", "", Cliente, Date(1, 1, 1), now, true)
  }

  /** Two emails equal once lower-cased, the comparison every user lookup makes. */
  predicate SameEmail(a: string, b: string) {
    ToLower(a) == ToLower(b)
  }

  /** No two users share an email, case aside: what the remote checks try to keep. */
  ghost predicate EmailsUnique(rows: map<int, Usuario>) {
    forall i, j | i in rows && j in rows && i != j :: !SameEmail(rows[i].email, rows[j].email)
  }

  /** The email rule of the record: present, an address, at most 160 characters. */
  predicate EmailRule(e: string, ext: Oracles) {
    !IsBlank(e) && ext.isEmailAddress(e) && Utf16Length(e) <= 160
  }

  /** The annotations of the record, as the errors ModelState collects before the action runs. */
  function Validate(u: Usuario, ext: Oracles): (errs: seq<FieldError>)
    ensures errs == [] <==>
      && NombreRule(u.nombreCompleto, ext)
      && EmailRule(u.email, ext)
      && PasswordRule(u.password)
      && u.rol in {"Administrador", "Vendedor", "Cliente"}
  {
    NombreErrors("NombreCompleto", u.nombreCompleto, ext)
    + Required("Email", u.email, EmailObligatorio)
    + Rule("Email", u.email, ext.isEmailAddress(u.email), EmailFormato)
    + Rule("Email", u.email, Utf16Length(u.email) <= 160, EmailLongitud)
    + PasswordErrors("Password", u.password)
    + RolErrors("Rol", u.rol)
  }

  /**
   * The record's age check, against `today`: the difference of the years, less
   * one when the birth date falls after today moved back by that many years.
   */
  predicate EsMayorDeEdad(fechaNacimiento: Date, today: Date) {
    var edad := today.year - fechaNacimiento.year;
    var cumplida := if Before(AddYears(today, -edad), fechaNacimiento) then edad - 1 else edad;
    cumplida >= 18
  }

  /**
   * The check is exactly "at least 18 completed years". Moving today back by the
   * year difference lands in the birth year; the only clamp (29 February to
   * 28 February) happens in a common year, where no birth date is 29 February.
   */
  lemma EsMayorDeEdadIff(b: Date, today: Date)
    requires Valid(b) && Valid(today)
    ensures EsMayorDeEdad(b, today) <==> CompletedYears(b, today) >= 18
  {
  }

  /** Born exactly 18 years before today (29 February moved to the 28th) passes; born one day later fails. */
  lemma EsMayorDeEdadBoundary(today: Date)
    requires Valid(today) && today.year >= 19
    ensures Valid(AddYears(today, -18)) && Valid(NextDay(AddYears(today, -18)))
    ensures EsMayorDeEdad(AddYears(today, -18), today)
    ensures !EsMayorDeEdad(NextDay(AddYears(today, -18)), today)
  {
  }

  /** Whoever passes, anyone born earlier passes too. */
  lemma EsMayorDeEdadMonotone(earlier: Date, later: Date, today: Date)
    requires Valid(earlier) && Valid(later) && Valid(today)
    requires !Before(later, earlier)
    requires EsMayorDeEdad(later, today)
    ensures EsMayorDeEdad(earlier, today)
  {
  }

  /** A refusal that reports a birth date in the future twice over: under age, and in the future. */
  predicate ReportsFutureBirth<T>(r: Response<T>) {
    && r.Invalid?
    && FieldError("FechaNacimiento", MenorDeEdad) in r.errors
    && FieldError("FechaNacimiento", FechaFutura) in r.errors
  }

  /** A birth date after today never passes. */
  lemma FutureBirthFails(b: Date, today: Date)
    requires Before(today, b)
    ensures !EsMayorDeEdad(b, today)
  {
  }

  /**
   * Passing means the 18th birthday, as `AddYears` computes it, has come; the
   * converse holds for everyone not born on 29 February.
   */
  lemma EsMayorDeEdadEighteenthBirthday(b: Date, today: Date)
    requires Valid(b) && Valid(today) && b.year <= 9999 - 18
    ensures EsMayorDeEdad(b, today) ==> !Before(today, AddYears(b, 18))
    ensures !IsLeapDay(b) ==> (EsMayorDeEdad(b, today) <==> !Before(today, AddYears(b, 18)))
  {
  }

  /**
   * Someone born on 29 February 2000 fails on 28 February 2018, the date
   * `AddYears(18)` gives for the 18th birthday, and passes on 1 March 2018.
   */
  lemma LeapDayBirth()
    ensures AddYears(Date(2000, 2, 29), 18) == Date(2018, 2, 28)
    ensures !EsMayorDeEdad(Date(2000, 2, 29), Date(2018, 2, 28))
    ensures EsMayorDeEdad(Date(2000, 2, 29), Date(2018, 3, 1))
  {
  }
}
