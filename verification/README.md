# Artesanías: accounts, users, customers and orders, as a verified model

This project models the rule-bearing core of a role-gated ASP.NET MVC shop for
a small crafts business. The store has four tables: users, customers, orders and order lines.
Behind the form and database plumbing sit a handful of rules, and the model states and proves them:

- the field rules of the user record and of the registration and login forms:
  name, email, password pattern, role whitelist, password confirmation, and the
  "at least 18" birth-date check that both the record and the form define;
- the login decision: unknown email, then inactive account, then wrong
  password, then a session with four claims, a lifetime chosen by
  "remember me", and a redirect to a local return URL or to the home page;
- registration with its fixed defaults, and the round trip from registration
  to login;
- the user administration actions: the remote email check that excludes the
  record's own key, toggling the active flag, and changing the password;
- the customer list search and name ordering, and the server-side
  case-insensitive email check that keeps customer emails distinct;
- the role attributes of the customer, order and order-line controllers. Their
  class attribute and their delete attribute combine, so only an Administrador
  deletes, and a Cliente reaches none of their actions;
- the scaffolded shapes every controller repeats. Details and the GET pages
  give a 404 for a missing or unknown id. Edit gives a 404 when the path id
  differs from the posted id, and when the row vanished before the write.
  Delete is idempotent.

Each table is a `Store.Table`: a map from key to row, plus the identity
counter that supplies the next key. Actions take the table, and also the
caller's claims, the form and the clock where they use them. Most return an
`Outcomes.Response`: `Challenged`, `Forbidden`, `NotFound`, `Invalid(errors)`
or `Ok(value)`, where the value is the new table or the row shown. The
exceptions:

- the Index actions are methods that build a sequence of rows. For a gated
  controller that sequence is wrapped in a `Response`;
- `Account.Login` returns a `LoginResult`: the login page with its errors, or
  a session and a redirect;
- `Crud.DeleteConfirmed` returns the table itself, since a delete post never
  refuses.

"Today", "now" and "UTC now" are the fields of a `Dates.Clock` value. The framework's email-address validator,
`Url.IsLocalUrl` and the project's `NotOnlyPunctuation` attribute are opaque
predicates passed in as `Validation.Oracles`.

Two points about the code itself:

- Register and the user Create and Edit actions never check on the server
  that the email is unused. Only the form's remote check does (see Findings);
- the customer search uses the database's `Contains`. The model takes that as
  a plain, case-sensitive substring test.

Lengths are counted as .NET's `string.Length` counts them: in UTF-16 code
units, so a character outside the Basic Multilingual Plane counts twice
(`Text.Utf16Length`).

Modules, one per file: `Wrappers`, `Text`, `Dates`, `Outcomes`, `Store`,
`Listing`, `Validation`, `UsuarioModel`, `RegisterViewModel`,
`LoginViewModel`, `Authorization`, `Crud`, `Gated`, `Account`, `Usuarios`,
`Clientes`, `Pedidos`, `DetallesPedido`.

## Model

| member | source | states |
|---|---|---|
| Validation.Required | mvcpr1-main/practicamvc/practicamvc/Models/usuarioModel.cs:14 | a required field yields an error exactly when it is blank (null after binding), and every error it yields is filed under that field |
| Validation.NombreErrors | mvcpr1-main/practicamvc/practicamvc/Models/usuarioModel.cs:13-17 | the full name is accepted exactly when it is not blank, is 2 to 100 UTF-16 code units long and is not only punctuation |
| Validation.PasswordErrors | mvcpr1-main/practicamvc/practicamvc/Models/usuarioModel.cs:27-33 | a password is accepted exactly when it has 6 to 100 characters, all from `A-Za-z0-9@$!%*?&`, with at least one lower-case letter, one upper-case letter, one digit and one special character; the lookahead pattern as written is proved equal to this plain rule |
| Validation.LookaheadIsContains | mvcpr1-main/practicamvc/practicamvc/Models/usuarioModel.cs:31 | each lookahead of the pattern holds exactly when some character of the string belongs to its class |
| Validation.PatternExcludesBlank | mvcpr1-main/practicamvc/practicamvc/Models/usuarioModel.cs:31 | no blank string matches the password pattern, so the pattern never adds an error to a missing password |
| Validation.RolErrors | mvcpr1-main/practicamvc/practicamvc/Models/usuarioModel.cs:35-40 | the role is accepted exactly when it is "Administrador", "Vendedor" or "Cliente" |
| UsuarioModel.Nuevo | mvcpr1-main/practicamvc/practicamvc/Models/usuarioModel.cs:17-54 | a fresh record has role Cliente, is active, is registered now, passes the role rule and fails validation (its name, email and password are empty) |
| UsuarioModel.Validate | mvcpr1-main/practicamvc/practicamvc/Models/usuarioModel.cs:13-40 | the record's annotations pass exactly when the name rule, the email rule (present, an address, at most 160 UTF-16 code units), the password rule and the role whitelist all hold |
| UsuarioModel.EsMayorDeEdadIff | mvcpr1-main/practicamvc/practicamvc/Models/usuarioModel.cs:56-61 | for valid dates the age check passes exactly when the completed years between birth and today are at least 18 |
| UsuarioModel.EsMayorDeEdadBoundary | mvcpr1-main/practicamvc/practicamvc/Models/usuarioModel.cs:58-60 | born exactly 18 years before today passes; born one day later fails |
| UsuarioModel.EsMayorDeEdadMonotone | mvcpr1-main/practicamvc/practicamvc/Models/usuarioModel.cs:56-61 | if a birth date passes, every earlier birth date passes on the same day |
| UsuarioModel.FutureBirthFails | mvcpr1-main/practicamvc/practicamvc/Models/usuarioModel.cs:58-60 | a birth date after today never passes |
| UsuarioModel.EsMayorDeEdadEighteenthBirthday | mvcpr1-main/practicamvc/practicamvc/Models/usuarioModel.cs:58-59 | passing means the 18th birthday, as year shifting computes it, has come; the converse holds for everyone not born on 29 February |
| UsuarioModel.LeapDayBirth | mvcpr1-main/practicamvc/practicamvc/Models/usuarioModel.cs:59 | someone born on 29 February becomes adult on 1 March of a common year, though year shifting clamps the birthday to 28 February |
| Dates.AddYears | mvcpr1-main/practicamvc/practicamvc/Models/usuarioModel.cs:59 | shifting by whole years keeps month and day, except that 29 February becomes 28 February in a common year; the result is a valid date |
| RegisterViewModel.Validate | mvcpr1-main/practicamvc/practicamvc/ViewModels/RegisterViewModel.cs:10-35 | the form passes exactly when the name rule holds, the email is present and an address, the password rule holds and the confirmation equals the password |
| RegisterViewModel.SameAgeCheck | mvcpr1-main/practicamvc/practicamvc/ViewModels/RegisterViewModel.cs:43-48 | the form's age check and the record's give the same answer for every birth date and every day |
| RegisterViewModel.ConfirmationMustMatch | mvcpr1-main/practicamvc/practicamvc/ViewModels/RegisterViewModel.cs:31-35 | a confirmation that differs from the password makes the form invalid |
| RegisterViewModel.SamePasswordErrors | mvcpr1-main/practicamvc/practicamvc/ViewModels/RegisterViewModel.cs:23-29 | the form and the record give a password the very same Password-field errors, and none exactly when the password rule holds |
| LoginViewModel.Validate | mvcpr1-main/practicamvc/practicamvc/ViewModels/LoginViewModel.cs:7-15 | the login form passes exactly when the email is present and an address and the password is present |
| Store.FirstKey | mvcpr1-main/practicamvc/practicamvc/Controllers/AccountController.cs:40-41 | the user lookup returns a matching key, and the smallest one |
| Store.Insert | mvcpr1-main/practicamvc/practicamvc/Controllers/AccountController.cs:131-132 | saving a new row adds exactly one key, the identity counter's, and keeps every other row |
| Store.Update | mvcpr1-main/practicamvc/practicamvc/Controllers/UsuariosController.cs:131-146 | a write of a key that is gone reports the vanished row; otherwise exactly that row is replaced |
| Store.Remove | mvcpr1-main/practicamvc/practicamvc/Controllers/UsuariosController.cs:177-182 | removal drops exactly that key, and a missing key changes nothing |
| Listing.Select | mvcpr1-main/practicamvc/practicamvc/Controllers/DetallesPedidoController.cs:25-29 | a list without ordering holds every kept row exactly once, paired with its key |
| Listing.Query | mvcpr1-main/practicamvc/practicamvc/Controllers/UsuariosController.cs:23-25 | an ordered list holds every kept row exactly once, in the requested order |
| Text.Trim | mvcpr1-main/practicamvc/practicamvc/Controllers/ClientesController.cs:23 | the result occurs in the input with only white space before and after it, starts and ends with a non-blank character, and is empty exactly for a blank string |
| Text.BmpLength | mvcpr1-main/practicamvc/practicamvc/Models/usuarioModel.cs:15 | `Length` counts UTF-16 code units, which equal the characters when all of them lie in the Basic Multilingual Plane |
| Validation.AlphabetLength | mvcpr1-main/practicamvc/practicamvc/Models/usuarioModel.cs:28-31 | a password drawn from the pattern's alphabet has as many code units as characters, so the length bound and the pattern's six-character minimum measure the same thing |
| Text.IntRoundTrip | mvcpr1-main/practicamvc/practicamvc/Controllers/AccountController.cs:66 | the key written into the identifier claim reads back as the same key |
| Account.FindByEmail | mvcpr1-main/practicamvc/practicamvc/Controllers/AccountController.cs:40-41 | the lookup finds a user exactly when some user's email equals the given one once both are lower-cased, and then the first such user |
| Account.Claims | mvcpr1-main/practicamvc/practicamvc/Controllers/AccountController.cs:64-70 | the session's claims are the key, name, email and role of the stored user; the caller is in a role exactly when it is the user's role, and the key claim reads back as the key |
| Account.RedirectAfterLogin | mvcpr1-main/practicamvc/practicamvc/Controllers/AccountController.cs:85-90 | the user is sent to the return URL when it is present, non-empty and local, and to the home page otherwise |
| Account.Login | mvcpr1-main/practicamvc/practicamvc/Controllers/AccountController.cs:33-93 | an invalid form comes back with its errors; every other refusal is one form-level error; a sign-in belongs to an active user whose email matches and whose password is equal; it is persistent exactly with "remember me" and expires seven days or two hours after now |
| Account.LoginDecision | mvcpr1-main/practicamvc/practicamvc/Controllers/AccountController.cs:43-61 | for the account the lookup returns, the checks run in order: an inactive account is reported as such even with a wrong password, then a wrong password, then the sign-in |
| Account.LoginUnknownEmail | mvcpr1-main/practicamvc/practicamvc/Controllers/AccountController.cs:43-47 | an email no user has is answered "not registered" and nothing else |
| Account.CheckEmailUnicoRegistro | mvcpr1-main/practicamvc/practicamvc/Controllers/AccountController.cs:158-167 | the email is free exactly when the login lookup would find nobody with it |
| Account.FechaNacimientoErrors | mvcpr1-main/practicamvc/practicamvc/Controllers/AccountController.cs:108-116 | the birth date adds no error exactly when the age check passes and the date is not in the future; a future date gets both errors |
| Account.Register | mvcpr1-main/practicamvc/practicamvc/Controllers/AccountController.cs:106-138 | registration stores nothing unless the form, the age check and the not-in-the-future check all pass; a refusal carries the form's errors followed by the birth-date errors, and a birth date in the future gets both the under-age and the future-date error; otherwise it adds exactly one user with the form's fields, role Cliente, active, registered now |
| Account.RegisterThenLogin | mvcpr1-main/practicamvc/practicamvc/Controllers/AccountController.cs:120-132 | when the email was free, a successful registration followed by a login with the same email and password signs in with role Cliente, which every gated controller refuses |
| Account.RegisterDuplicateShadowed | mvcpr1-main/practicamvc/practicamvc/Controllers/AccountController.cs:118-132 | a successful registration of a taken email breaks email uniqueness, whichever row a lookup returns; when the lookup returns the older row, active with another password, the new credentials are answered "wrong password" |
| Account.RegisterAllowsDuplicateEmail | mvcpr1-main/practicamvc/practicamvc/Controllers/AccountController.cs:118-132 | a concrete registration of "ANA@x.com" beside an existing "ana@x.com" succeeds and then cannot log in |
| Account.RegisterChecked | mvcpr1-main/practicamvc/practicamvc/ViewModels/RegisterViewModel.cs:19-20 | the corrected registration succeeds exactly when the original would and the email is free; a taken email is refused with the attribute's message |
| Account.RegisterCheckedKeepsEmailsUnique | mvcpr1-main/practicamvc/practicamvc/Controllers/AccountController.cs:158-167 | the corrected registration keeps user emails unique, case aside |
| Account.RegisterCheckedThenLogin | mvcpr1-main/practicamvc/practicamvc/Controllers/AccountController.cs:40-70 | after the corrected registration, logging in with the same credentials always signs in with role Cliente |
| Usuarios.Index | mvcpr1-main/practicamvc/practicamvc/Controllers/UsuariosController.cs:21-27 | the list holds every user exactly once, later registrations first |
| Usuarios.FechaNacimientoErrors | mvcpr1-main/practicamvc/practicamvc/Controllers/UsuariosController.cs:65-73 | the birth date adds no error exactly when the record's age check passes and the date is not in the future; a future date gets both errors |
| Usuarios.Errors | mvcpr1-main/practicamvc/practicamvc/Controllers/UsuariosController.cs:65-75 | the form is valid exactly when the annotations pass, the age check passes and the birth date is not in the future |
| Usuarios.Create | mvcpr1-main/practicamvc/practicamvc/Controllers/UsuariosController.cs:63-87 | nothing is stored unless all the checks pass; a refusal carries every collected error, and a birth date in the future gets both the under-age and the future-date error; then exactly one user is added, with the registration time replaced by now |
| Usuarios.Edit | mvcpr1-main/practicamvc/practicamvc/Controllers/UsuariosController.cs:110-151 | a path id other than the posted id is a 404; when the ids agree, any failed check comes back with every collected error, and a birth date in the future gets both the under-age and the future-date error; the write happens exactly when the ids agree, all checks pass and the row still exists, and it replaces only that row |
| Usuarios.CheckEmailUnico | mvcpr1-main/practicamvc/practicamvc/Controllers/UsuariosController.cs:196-207 | the email is free exactly when no user other than the given key has it, case aside; for a key not in the table this is the registration check |
| Usuarios.OwnEmailIsFree | mvcpr1-main/practicamvc/practicamvc/Controllers/UsuariosController.cs:198-199 | with unique emails, a user's own email checked with its own key is free |
| Usuarios.CreateKeepsEmailsUnique | mvcpr1-main/practicamvc/practicamvc/Models/usuarioModel.cs:23-24 | if the remote check passed for the new key, Create keeps user emails unique |
| Usuarios.EditKeepsEmailsUnique | mvcpr1-main/practicamvc/practicamvc/Controllers/UsuariosController.cs:196-206 | if the remote check passed for the edited key, Edit keeps user emails unique |
| Usuarios.ToggleEstado | mvcpr1-main/practicamvc/practicamvc/Controllers/UsuariosController.cs:209-227 | an unknown key is a 404; otherwise only that user's active flag flips |
| Usuarios.ToggleTwice | mvcpr1-main/practicamvc/practicamvc/Controllers/UsuariosController.cs:219 | toggling twice restores the table |
| Usuarios.CambiarPassword | mvcpr1-main/practicamvc/practicamvc/Controllers/UsuariosController.cs:246-269 | an unknown key is a 404; a blank password or one under six UTF-16 code units is refused with one Password error; otherwise only that user's password changes |
| Usuarios.CambiarPasswordAcceptsRule | mvcpr1-main/practicamvc/practicamvc/Controllers/UsuariosController.cs:257 | every password the record's rule accepts is accepted by the change |
| Usuarios.CambiarPasswordSkipsPattern | mvcpr1-main/practicamvc/practicamvc/Controllers/UsuariosController.cs:257-263 | the change accepts "aaaaaa", which the record's rule refuses |
| Usuarios.CambiarPasswordCountsCodeUnits | mvcpr1-main/practicamvc/practicamvc/Controllers/UsuariosController.cs:257 | three characters outside the Basic Multilingual Plane are six code units, and the change accepts them |
| Authorization.Guard | mvcpr1-main/practicamvc/practicamvc/Controllers/ClientesController.cs:9 | the response is a challenge exactly when the gate challenges, a refusal exactly when it denies; when it passes, the action's own response unchanged |
| Authorization.StaffOnly | mvcpr1-main/practicamvc/practicamvc/Controllers/PedidosController.cs:12 | every non-delete action of a gated controller admits exactly the Administrador and Vendedor roles |
| Authorization.OnlyAdministradorDeletes | mvcpr1-main/practicamvc/practicamvc/Controllers/ClientesController.cs:110-121 | the delete page and the delete post of a gated controller admit exactly Administrador |
| Authorization.PassMeansStaff | mvcpr1-main/practicamvc/practicamvc/Controllers/DetallesPedidoController.cs:117-134 | passing a gated action means holding a staff role, and Administrador for a delete |
| Authorization.AnonymousChallenged | mvcpr1-main/practicamvc/practicamvc/Controllers/ClientesController.cs:9 | an anonymous caller is sent to log in on every gated action |
| Authorization.UngatedControllers | mvcpr1-main/practicamvc/practicamvc/Controllers/UsuariosController.cs:11 | the user and account controllers admit every caller, anonymous or not |
| Authorization.SingleRoleGate | mvcpr1-main/practicamvc/practicamvc/Controllers/PedidosController.cs:12-13 | a caller holding exactly one role passes a gated action exactly when that role is a staff role and, for a delete, is Administrador |
| Crud.Details | mvcpr1-main/practicamvc/practicamvc/Controllers/UsuariosController.cs:30-46 | a missing id or an unknown id is a 404; otherwise the stored row |
| Crud.Create | mvcpr1-main/practicamvc/practicamvc/Controllers/UsuariosController.cs:75-86 | ModelState errors come back unchanged; otherwise exactly one row is added under the next key |
| Crud.Edit | mvcpr1-main/practicamvc/practicamvc/Controllers/UsuariosController.cs:110-151 | the id mismatch is a 404 before anything else, then the errors, then a 404 for a vanished row; otherwise exactly that row is replaced |
| Crud.DeleteConfirmed | mvcpr1-main/practicamvc/practicamvc/Controllers/UsuariosController.cs:175-188 | a missing key changes nothing; otherwise exactly that row is removed |
| Crud.DeleteConfirmedIdempotent | mvcpr1-main/practicamvc/practicamvc/Controllers/UsuariosController.cs:177-187 | posting the same delete twice leaves what posting it once left |
| Gated.Show | mvcpr1-main/practicamvc/practicamvc/Controllers/PedidosController.cs:33-46 | the gate's answer; then a 404 for no id or an unknown id; a shown row implies a staff caller, and Administrador on the delete page |
| Gated.Create | mvcpr1-main/practicamvc/practicamvc/Controllers/DetallesPedidoController.cs:60-72 | the gate's answer; then the errors; otherwise exactly one new row; success implies a staff caller |
| Gated.Edit | mvcpr1-main/practicamvc/practicamvc/Controllers/PedidosController.cs:86-109 | the gate's answer; then the id mismatch, the errors and the vanished row, in that order; otherwise exactly that row is replaced |
| Gated.DeleteConfirmed | mvcpr1-main/practicamvc/practicamvc/Controllers/PedidosController.cs:126-140 | the gate's answer; then exactly that row is removed, if present; success implies an Administrador caller |
| Gated.DeleteConfirmedIdempotent | mvcpr1-main/practicamvc/practicamvc/Controllers/ClientesController.cs:122-132 | repeating the delete post leaves the table as one post left it |
| Gated.ClienteRefused | mvcpr1-main/practicamvc/practicamvc/Controllers/DetallesPedidoController.cs:12 | a caller whose only role is Cliente is refused every action of a gated controller |
| Clientes.Filter | mvcpr1-main/practicamvc/practicamvc/Controllers/ClientesController.cs:21-29 | with no term or a blank one every customer is kept; otherwise a customer is kept exactly when the trimmed term occurs in its name, email, address (null read as empty) or phone |
| Clientes.ByNombreIsOrder | mvcpr1-main/practicamvc/practicamvc/Controllers/ClientesController.cs:31 | ordering by name is a total preorder |
| Clientes.Index | mvcpr1-main/practicamvc/practicamvc/Controllers/ClientesController.cs:17-34 | the gate's answer; then every matching customer exactly once, and every customer when there is no term, ordered by name |
| Clientes.Create | mvcpr1-main/practicamvc/practicamvc/Controllers/ClientesController.cs:52-68 | the gate's answer; an invalid model comes back first; an email any customer has is refused, case aside; otherwise exactly one new customer |
| Clientes.Edit | mvcpr1-main/practicamvc/practicamvc/Controllers/ClientesController.cs:81-107 | the gate's answer; the id mismatch is a 404; an invalid model comes back before any check; an email another customer has is refused; then the row is replaced, or a 404 if it vanished |
| Clientes.KeepOwnEmail | mvcpr1-main/practicamvc/practicamvc/Controllers/ClientesController.cs:86-87 | with distinct emails, a customer keeping its own email passes the edit check |
| Clientes.CreateKeepsEmailsDistinct | mvcpr1-main/practicamvc/practicamvc/Controllers/ClientesController.cs:56-65 | Create keeps customer emails distinct, case aside |
| Clientes.EditKeepsEmailsDistinct | mvcpr1-main/practicamvc/practicamvc/Controllers/ClientesController.cs:86-98 | Edit keeps customer emails distinct, case aside |
| Clientes.SameEmailEitherCase | mvcpr1-main/practicamvc/practicamvc/Controllers/ClientesController.cs:57 | comparing emails upper-cased, as customers do, agrees with comparing them lower-cased, as users do |
| Pedidos.NewestFirstIsOrder | mvcpr1-main/practicamvc/practicamvc/Controllers/PedidosController.cs:27 | ordering by order date descending is a total preorder |
| Pedidos.Index | mvcpr1-main/practicamvc/practicamvc/Controllers/PedidosController.cs:23-30 | a staff caller gets every order exactly once, later orders first; anyone else gets the gate's answer |
| Pedidos.DeleteOnlyAdministrador | mvcpr1-main/practicamvc/practicamvc/Controllers/PedidosController.cs:111-129 | only an Administrador sees the delete page of an existing order or deletes one |
| DetallesPedido.Index | mvcpr1-main/practicamvc/practicamvc/Controllers/DetallesPedidoController.cs:23-31 | a staff caller gets every order line exactly once; anyone else gets the gate's answer |
| DetallesPedido.CreateOnlyWhenValid | mvcpr1-main/practicamvc/practicamvc/Controllers/DetallesPedidoController.cs:60-72 | a line is stored exactly for a staff caller with a valid model; otherwise the table is as it was |
| DetallesPedido.DeleteOnlyAdministrador | mvcpr1-main/practicamvc/practicamvc/Controllers/DetallesPedidoController.cs:116-135 | only an Administrador sees the delete page of an existing line or deletes one |

## Left out

- Persistence and I/O: the database context, asynchronous saves, `Include`/`ThenInclude` navigation loading and `SelectList` drop-down lists are not modelled. A table is a map, and every action that writes returns the table it leaves.
- Account.Register, Usuarios.CambiarPassword: the database schema is not part of this model. If the `[StringLength(160)]` on the email and the `[StringLength(100)]` on the password of the user record become column limits, a registration with an email over 160 code units (the registration form sets no limit on it) or a password change to more than 100 code units fails in `SaveChangesAsync`. The model instead returns `Ok` with the row stored. Likewise a unique index on the user email, if the schema declared one, would turn the duplicate registration under "## Findings" into a save failure rather than a second row.
- Presentation: views, TempData success messages, `ViewData`/`ViewBag`, anti-forgery tokens, and the GET pages that only render a form (Login, Register, Create) are not modelled.
- Cookie mechanics: `SignInAsync`, `SignOutAsync`, Logout and AccessDenied are left out. The model stops at the claims and the cookie properties handed to the sign-in.
- The email-address validator, `Url.IsLocalUrl` and `NotOnlyPunctuation` are opaque predicates. The source of the last one is not part of this model.
- The annotations of the customer, order and order-line records are not part of this model. Their ModelState verdict is an input (`modelErrors`).
- Account.FindByEmail: `FirstOrDefaultAsync` without an ordering may return any matching user. The model takes the smallest key, the oldest row. Account.LoginDecision is stated for whichever row the lookup returns. Account.RegisterDuplicateShadowed and Account.RegisterAllowsDuplicateEmail assume the lookup returns the older row; of what they state, only the broken email uniqueness holds whichever row a real database returns.
- Culture-sensitive case folding, Unicode whitespace and Unicode `\d` are not modelled. Lower- and upper-casing fold ASCII letters only, and whitespace and digits are ASCII.
- Clientes.Index: the database collation is not modelled. `Contains` is a plain substring test and the name order is ordinal character order.
- Usuarios.Index, Pedidos.Index: ties in the ordering key come in no promised order, and the model promises none.
- Usuarios.Create, Clientes.Create, Gated.Create: a posted Id is ignored, because identity insert is not modelled. The new row always gets the identity counter's key.
- Concurrency: the check-then-insert race in the customer actions, and the rethrow of a concurrency exception when the row still exists, are not modelled. Only the vanished-row 404 is.
- Instants: DateTime values other than dates are integers (seconds). Money amounts are reals with no decimal scale.
- Message wording: the two spellings of the under-age and future-date messages in the user actions share one message each.

## Findings

| source | as written | input that shows it | evidently intended | confidence | as-written member | corrected member |
|---|---|---|---|---|---|---|
| mvcpr1-main/practicamvc/practicamvc/Controllers/AccountController.cs:118-132 | Register stores the new user without checking whether another user already has the email; only the form's remote check, which runs in the browser, looks | an active user "ana@x.com" with password "Clave1!", then a registration of "ANA@x.com" with password "Otra2$x": it is stored, so two users share the email. If the lookup returns the older account, as the model's lookup does, logging in with "ANA@x.com"/"Otra2$x" is answered "wrong password" | a taken email is refused on the server with "Ya existe un usuario con ese email.", so emails stay unique and every successful registration can log in | medium, not executed | Account.RegisterAllowsDuplicateEmail | Account.RegisterChecked |

The user Create and Edit actions have the same gap. They are modelled as
written. Usuarios.CreateKeepsEmailsUnique and Usuarios.EditKeepsEmailsUnique
state the hypothesis that keeps uniqueness: the remote check has passed.
