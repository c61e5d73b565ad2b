/**
 * The user administration controller: the list, create and edit with the age
 * gates, delete, the remote email check, the active-flag toggle and the
 * password change. It carries no role attribute of its own.
 */
module Usuarios {
  import opened Wrappers
  import opened Text
  import opened Dates
  import opened Outcomes
  import opened Validation
  import opened Store
  import opened Listing
  import opened UsuarioModel
  import Crud
  import Account

  /** `OrderByDescending(u => u.FechaRegistro)`: later registrations first. */
  function NewestFirst(): ((int, Usuario), (int, Usuario)) -> bool {
    (a: (int, Usuario), b: (int, Usuario)) => a.1.fechaRegistro >= b.1.fechaRegistro
  }

  lemma NewestFirstIsOrder()
    ensures TotalPreorder(NewestFirst())
  {
  }

  /** GET Index: every user once, later registrations first. */
  method Index(t: Table<Usuario>) returns (xs: seq<(int, Usuario)>)
    ensures RowsOf(xs, t.rows) && DistinctKeys(xs)
    ensures forall k :: k in t.rows ==> (k, t.rows[k]) in xs
    ensures forall i, j :: 0 <= i < j < |xs| ==> xs[i].1.fechaRegistro >= xs[j].1.fechaRegistro
  {
    NewestFirstIsOrder();
    xs := Query(t.rows, (u: Usuario) => true, NewestFirst());
  }

  /** The errors the action adds about the birth date, with the record's own age check. */
  function FechaNacimientoErrors(b: Date, today: Date): (errs: seq<FieldError>)
    ensures forall e | e in errs :: e.key == "FechaNacimiento"
    ensures errs == [] <==> EsMayorDeEdad(b, today) && !Before(today, b)
    ensures Before(today, b) ==> errs == [FieldError("FechaNacimiento", MenorDeEdad), FieldError("FechaNacimiento", FechaFutura)]
  {
    (if !EsMayorDeEdad(b, today) then [FieldError("FechaNacimiento", MenorDeEdad)] else [])
    + (if Before(today, b) then [FieldError("FechaNacimiento", FechaFutura)] else [])
  }

  /** Everything ModelState holds once the action has added its own checks. */
  function Errors(u: Usuario, clock: Clock, ext: Oracles): (errs: seq<FieldError>)
    ensures errs == [] <==> Validate(u, ext) == [] && EsMayorDeEdad(u.fechaNacimiento, clock.today) && !Before(clock.today, u.fechaNacimiento)
  {
    Validate(u, ext) + FechaNacimientoErrors(u.fechaNacimiento, clock.today)
  }

  /**
   * POST Create: nothing is stored for an invalid record, an under-age user or
   * a birth date in the future; otherwise the record is stored with its
   * registration time replaced by now. No server-side email check is made.
   */
  function Create(t: Table<Usuario>, u: Usuario, clock: Clock, ext: Oracles): (r: Response<Table<Usuario>>)
    ensures r.Ok? || r.Invalid?
    ensures r.Ok? <==> Validate(u, ext) == [] && EsMayorDeEdad(u.fechaNacimiento, clock.today) && !Before(clock.today, u.fechaNacimiento)
    ensures Before(clock.today, u.fechaNacimiento) ==> ReportsFutureBirth(r)
    ensures !r.Ok? ==> r == Invalid(Errors(u, clock, ext))
    ensures r.Ok? && WellFormed(t) ==>
      && AddedOne(t, r.value, t.nextId, u.(fechaRegistro := clock.now))
      && WellFormed(r.value)
  {
    Crud.Create(t, u.(fechaRegistro := clock.now), Errors(u, clock, ext))
  }

  /**
   * POST Edit: a path id other than the posted one is a 404; then the same
   * gates as Create; then the row is replaced as posted, or a 404 when it has
   * vanished. No server-side email check is made.
   */
  function Edit(t: Table<Usuario>, id: int, payloadId: int, u: Usuario, clock: Clock, ext: Oracles): (r: Response<Table<Usuario>>)
    ensures id != payloadId ==> r == NotFound
    ensures r.Ok? <==>
      && id == payloadId && id in t.rows
      && Validate(u, ext) == [] && EsMayorDeEdad(u.fechaNacimiento, clock.today) && !Before(clock.today, u.fechaNacimiento)
    ensures id == payloadId && Errors(u, clock, ext) == [] && id !in t.rows ==> r == NotFound
    ensures id == payloadId && Before(clock.today, u.fechaNacimiento) ==> ReportsFutureBirth(r)
    ensures id == payloadId && Errors(u, clock, ext) != [] ==> r == Invalid(Errors(u, clock, ext))
    ensures r.Ok? ==> ReplacedOne(t, r.value, id, u)
    ensures r.Ok? && WellFormed(t) ==> WellFormed(r.value)
  {
    Crud.Edit(t, id, payloadId, u, Errors(u, clock, ext))
  }

  /** The remote check of the record form: no user other than `id` has this email, case aside. */
  function CheckEmailUnico(t: Table<Usuario>, email: string, id: int): (free: bool)
    ensures id !in t.rows ==> (free <==> Account.CheckEmailUnicoRegistro(t, email))
    ensures free <==> forall k | k in t.rows && SameEmail(t.rows[k].email, email) :: k == id
  {
    forall k | k in t.rows && k != id :: !SameEmail(t.rows[k].email, email)
  }

  /** With unique emails, a user's own email checked against its own key is free. */
  lemma OwnEmailIsFree(t: Table<Usuario>, id: int)
    requires EmailsUnique(t.rows) && id in t.rows
    ensures CheckEmailUnico(t, t.rows[id].email, id)
  {
  }

  /** If the remote check passed for the key being written, Create keeps emails unique. */
  lemma CreateKeepsEmailsUnique(t: Table<Usuario>, u: Usuario, clock: Clock, ext: Oracles)
    requires WellFormed(t) && EmailsUnique(t.rows)
    requires CheckEmailUnico(t, u.email, t.nextId)
    ensures Create(t, u, clock, ext).Ok? ==> EmailsUnique(Create(t, u, clock, ext).value.rows)
  {
  }

  /** If the remote check passed for the edited key, Edit keeps emails unique. */
  lemma EditKeepsEmailsUnique(t: Table<Usuario>, id: int, u: Usuario, clock: Clock, ext: Oracles)
    requires EmailsUnique(t.rows)
    requires CheckEmailUnico(t, u.email, id)
    ensures Edit(t, id, id, u, clock, ext).Ok? ==> EmailsUnique(Edit(t, id, id, u, clock, ext).value.rows)
  {
  }

  /** POST ToggleEstado: a 404 for an unknown key; otherwise only the active flag of that user flips. */
  function ToggleEstado(t: Table<Usuario>, id: int): (r: Response<Table<Usuario>>)
    ensures r.NotFound? <==> id !in t.rows
    ensures r.Ok? || r.NotFound?
    ensures r.Ok? ==>
      && ReplacedOne(t, r.value, id, t.rows[id].(estaActivo := !t.rows[id].estaActivo))
      && r.value.rows[id].estaActivo != t.rows[id].estaActivo
  {
    if id !in t.rows then NotFound
    else match Update(t, id, t.rows[id].(estaActivo := !t.rows[id].estaActivo))
      case None => NotFound
      case Some(t') => Ok(t')
  }

  /** Toggling twice restores the table. */
  lemma ToggleTwice(t: Table<Usuario>, id: int)
    requires id in t.rows
    ensures ToggleEstado(ToggleEstado(t, id).value, id) == Ok(t)
  {
    var once := ToggleEstado(t, id).value;
    var twice := ToggleEstado(once, id).value;
    assert twice.rows == t.rows;
  }

  /**
   * POST CambiarPassword: a 404 for an unknown key; a blank password or one
   * whose `Length` (UTF-16 code units) is under six is refused; otherwise only
   * the password changes.
   */
  function CambiarPassword(t: Table<Usuario>, id: int, password: string): (r: Response<Table<Usuario>>)
    ensures r.NotFound? <==> id !in t.rows
    ensures r.Ok? <==> id in t.rows && !IsBlank(password) && Utf16Length(password) >= 6
    ensures r.Ok? || r.NotFound? || r.Invalid?
    ensures id in t.rows && !r.Ok? ==> r == Invalid([FieldError("Password", PasswordCorta)])
    ensures r.Ok? ==> ReplacedOne(t, r.value, id, t.rows[id].(password := password))
  {
    if id !in t.rows then NotFound
    else if IsBlank(password) || Utf16Length(password) < 6 then Invalid([FieldError("Password", PasswordCorta)])
    else match Update(t, id, t.rows[id].(password := password))
      case None => NotFound
      case Some(t') => Ok(t')
  }

  /** Every password the record's rule accepts is accepted by the change form. */
  lemma CambiarPasswordAcceptsRule(t: Table<Usuario>, id: int, password: string)
    requires id in t.rows && PasswordRule(password)
    ensures CambiarPassword(t, id, password).Ok?
  {
  }

  /** The converse fails: the change form does not apply the complexity pattern. */
  lemma CambiarPasswordSkipsPattern(t: Table<Usuario>, id: int)
    requires id in t.rows
    ensures !PasswordRule("aaaaaa") && CambiarPassword(t, id, "aaaaaa").Ok?
  {
    assert !IsWhiteSpace("aaaaaa"[0]);
  }

  /** The length is counted in code units: three characters outside the Basic Multilingual Plane make six, and pass. */
  lemma CambiarPasswordCountsCodeUnits(t: Table<Usuario>, id: int, password: string)
    requires id in t.rows
    requires password == "\U{1F600}\U{1F600}\U{1F600}"
    ensures |password| == 3 && CambiarPassword(t, id, password).Ok?
  {
    assert !IsWhiteSpace(password[0]);
    assert password[2..][1..] == [] && password[1..][1..] == password[2..];
    assert Utf16Length(password[2..]) == 2;
    assert Utf16Length(password[1..]) == 4;
  }
}
