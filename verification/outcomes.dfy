/**
 * What an action hands back: the ModelState errors it renders, or the
 * framework outcomes (challenge, forbid, 404), or a value (a row to show, the
 * store after a write that ends in a redirect).
 */
module Outcomes {

  /** The user-facing messages the modelled actions add to ModelState. */
  datatype Msg =
    | NombreObligatorio | NombreLongitud | NombreNoValido
    | EmailObligatorio | EmailFormato | EmailLongitud
    | PasswordObligatoria | PasswordLongitud | PasswordComplejidad
    | ConfirmacionObligatoria | PasswordsNoCoinciden
    | RolObligatorio | RolLongitud | RolNoValido
    | MenorDeEdad | FechaFutura
    | EmailNoRegistrado | CuentaDesactivada | PasswordIncorrecta
    | PasswordCorta
    | UsuarioEmailDuplicado
    | ClienteEmailDuplicado | OtroClienteEmailDuplicado
      /** A message from an annotation outside this model. */
    | Anotacion(text: string)

  /** One ModelState entry; the key `FormLevel` (the empty string) marks a form-wide error. */
  datatype FieldError = FieldError(key: string, msg: Msg)

  const FormLevel: string := ""

  /**
   * Challenged: `[Authorize]` met an anonymous caller (redirect to login).
   * Forbidden: the caller lacks the role (redirect to access denied).
   * Invalid: the form is shown again with these errors; nothing is written.
   */
  datatype Response<T> =
    | Challenged
    | Forbidden
    | NotFound
    | Invalid(errors: seq<FieldError>)
    | Ok(value: T)
  {
    /** The store the caller holds afterwards: a failed action leaves `before` as it was. */
    function StoreAfter(before: T): T {
      if Ok? then value else before
    }
  }

  /** The entries of `errs` filed under `key`, in order: what the form shows next to that field. */
  function ErrorsFor(key: string, errs: seq<FieldError>): (r: seq<FieldError>)
    ensures forall e | e in r :: e in errs && e.key == key
    ensures forall e | e in errs && e.key == key :: e in r
  {
    if |errs| == 0 then []
    else (if errs[0].key == key then [errs[0]] else []) + ErrorsFor(key, errs[1..])
  }

  lemma {:induction false} ErrorsForAppend(key: string, a: seq<FieldError>, b: seq<FieldError>)
    ensures ErrorsFor(key, a + b) == ErrorsFor(key, a) + ErrorsFor(key, b)
  {
    if |a| > 0 {
      assert (a + b)[1..] == a[1..] + b;
      ErrorsForAppend(key, a[1..], b);
    } else {
      assert a + b == b;
    }
  }

  /** Errors all filed under other keys contribute nothing to `key`. */
  lemma {:induction false} ErrorsForOther(key: string, errs: seq<FieldError>)
    requires forall e | e in errs :: e.key != key
    ensures ErrorsFor(key, errs) == []
  {
    if |errs| > 0 {
      assert errs[0] in errs;
      ErrorsForOther(key, errs[1..]);
    }
  }

  /** Errors all filed under `key` are kept whole. */
  lemma {:induction false} ErrorsForSame(key: string, errs: seq<FieldError>)
    requires forall e | e in errs :: e.key == key
    ensures ErrorsFor(key, errs) == errs
  {
    if |errs| > 0 {
      assert errs[0] in errs;
      ErrorsForSame(key, errs[1..]);
      assert errs == [errs[0]] + errs[1..];
    }
  }

  /** Only the middle block of a form's errors is filed under `key`: filtering returns exactly that block. */
  lemma ErrorsForBlock(key: string, before: seq<FieldError>, block: seq<FieldError>, after: seq<FieldError>)
    requires forall e | e in before :: e.key != key
    requires forall e | e in block :: e.key == key
    requires forall e | e in after :: e.key != key
    ensures ErrorsFor(key, before + block + after) == block
  {
    ErrorsForAppend(key, before + block, after);
    ErrorsForAppend(key, before, block);
    ErrorsForOther(key, before);
    ErrorsForOther(key, after);
    ErrorsForSame(key, block);
  }
}
