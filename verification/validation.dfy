/**
 * The field rules the data annotations declare, as pure functions from a
 * bound form value to the ModelState errors it produces. Model binding turns
 * a blank form value into null and every annotation except `[Required]`
 * accepts null, so a blank field reports only its Required error.
 */
module Validation {
  import opened Text
  import opened Outcomes

  /**
   * Validators whose code lies outside this model, supplied by the caller:
   * `[EmailAddress]`, the project's `[NotOnlyPunctuation(MinLength = 2)]`, and
   * `Url.IsLocalUrl`.
   */
  datatype Oracles = Oracles(
    isEmailAddress: string -> bool,
    notOnlyPunctuation: string -> bool,
    isLocalUrl: string -> bool)

  /** `[Required]`: a blank value is an error. */
  function Required(key: string, s: string, msg: Msg): (errs: seq<FieldError>)
    ensures errs == [] <==> !IsBlank(s)
    ensures forall e | e in errs :: e.key == key
  {
    if IsBlank(s) then [FieldError(key, msg)] else []
  }

  /** Any other annotation: it passes a blank (null) value, otherwise it reports `msg` unless `ok`. */
  function Rule(key: string, s: string, ok: bool, msg: Msg): (errs: seq<FieldError>)
    ensures errs == [] <==> IsBlank(s) || ok
    ensures forall e | e in errs :: e.key == key
  {
    if !IsBlank(s) && !ok then [FieldError(key, msg)] else []
  }

  /** `[StringLength(max, MinimumLength = min)]`, counting UTF-16 code units as .NET does. */
  predicate LengthBetween(s: string, min: int, max: int) {
    min <= Utf16Length(s) <= max
  }

  // ---- password ---------------------------------------------------------

  predicate IsLowerAscii(c: char) { 'a' <= c <= 'z' }
  predicate IsUpperAscii(c: char) { 'A' <= c <= 'Z' }
  predicate IsSpecial(c: char) {
    c == '@' || c == '$' || c == '!' || c == '%' || c == '*' || c == '?' || c == '&'
  }
  predicate InPasswordAlphabet(c: char) {
    IsLowerAscii(c) || IsUpperAscii(c) || IsDigit(c) || IsSpecial(c)
  }

  /** No line break among the first `k` characters: the stretch a `.*` can cross. */
  predicate NoLineBreakBefore(s: string, k: int)
    requires 0 <= k <= |s|
  {
    forall j | 0 <= j < k :: s[j] != '\n'
  }

  /** A lookahead `(?=.*[class])` at the start: some character of the class is reached without crossing a line break. */
  predicate LookaheadFinds(s: string, cls: char -> bool) {
    exists k | 0 <= k < |s| :: cls(s[k]) && NoLineBreakBefore(s, k)
  }

  /**
   * The password pattern as written: four lookaheads (a lower-case letter, an
   * upper-case letter, a digit, one of `@$!%*?&`), then six or more characters
   * drawn from letters, digits and those seven signs spanning the whole value.
   */
  predicate MatchesPasswordPattern(s: string) {
    && LookaheadFinds(s, IsLowerAscii)
    && LookaheadFinds(s, IsUpperAscii)
    && LookaheadFinds(s, IsDigit)
    && LookaheadFinds(s, IsSpecial)
    && |s| >= 6
    && forall i | 0 <= i < |s| :: InPasswordAlphabet(s[i])
  }

  predicate HasLower(s: string) { exists i | 0 <= i < |s| :: IsLowerAscii(s[i]) }
  predicate HasUpper(s: string) { exists i | 0 <= i < |s| :: IsUpperAscii(s[i]) }
  predicate HasDigit(s: string) { exists i | 0 <= i < |s| :: IsDigit(s[i]) }
  predicate HasSpecial(s: string) { exists i | 0 <= i < |s| :: IsSpecial(s[i]) }

  /**
   * The password rule in plain words: 6 to 100 characters, all letters, digits
   * or `@$!%*?&`, with at least one lower-case letter, one upper-case letter,
   * one digit and one of those signs.
   */
  predicate PasswordRule(s: string) {
    && LengthBetween(s, 6, 100)
    && (forall i | 0 <= i < |s| :: InPasswordAlphabet(s[i]))
    && HasLower(s) && HasUpper(s) && HasDigit(s) && HasSpecial(s)
  }

  /** When every character is in the alphabet there is no line break, so each lookahead is a plain "contains". */
  lemma LookaheadIsContains(s: string, cls: char -> bool)
    ensures (forall i | 0 <= i < |s| :: InPasswordAlphabet(s[i])) ==>
              (LookaheadFinds(s, cls) <==> exists i | 0 <= i < |s| :: cls(s[i]))
  {
  }

  /** Letters, digits and the seven signs are ASCII, so an all-alphabet value has as many code units as characters. */
  lemma AlphabetLength(s: string)
    ensures (forall i | 0 <= i < |s| :: InPasswordAlphabet(s[i])) ==> Utf16Length(s) == |s|
  {
    if forall i | 0 <= i < |s| :: InPasswordAlphabet(s[i]) {
      BmpLength(s);
    }
  }

  /** A blank password is a line of white space, which the alphabet excludes, so the Required check adds nothing new. */
  lemma PatternExcludesBlank(s: string)
    ensures MatchesPasswordPattern(s) ==> !IsBlank(s)
  {
  }

  /**
   * The errors of the Password field, shared by the user record and the
   * registration form: `[Required]`, `[StringLength(100, MinimumLength = 6)]`
   * and the pattern.
   */
  function PasswordErrors(key: string, p: string): (errs: seq<FieldError>)
    ensures errs == [] <==> PasswordRule(p)
    ensures forall e | e in errs :: e.key == key
  {
    LookaheadIsContains(p, IsLowerAscii);
    LookaheadIsContains(p, IsUpperAscii);
    LookaheadIsContains(p, IsDigit);
    LookaheadIsContains(p, IsSpecial);
    PatternExcludesBlank(p);
    AlphabetLength(p);
    Required(key, p, PasswordObligatoria)
    + Rule(key, p, LengthBetween(p, 6, 100), PasswordLongitud)
    + Rule(key, p, MatchesPasswordPattern(p), PasswordComplejidad)
  }

  // ---- full name ---------------------------------------------------------

  /** The full-name rule: not blank, 2 to 100 characters, and not only punctuation. */
  predicate NombreRule(n: string, ext: Oracles) {
    !IsBlank(n) && LengthBetween(n, 2, 100) && ext.notOnlyPunctuation(n)
  }

  function NombreErrors(key: string, n: string, ext: Oracles): (errs: seq<FieldError>)
    ensures errs == [] <==> NombreRule(n, ext)
    ensures forall e | e in errs :: e.key == key
  {
    Required(key, n, NombreObligatorio)
    + Rule(key, n, LengthBetween(n, 2, 100), NombreLongitud)
    + Rule(key, n, ext.notOnlyPunctuation(n), NombreNoValido)
  }

  // ---- role ----------------------------------------------------------------

  const Administrador: string := "Administrador"
  const Vendedor: string := "Vendedor"
  const Cliente: string := "Cliente"

  /** The role alternation, matched against the whole value. */
  predicate MatchesRolPattern(r: string) {
    r == Administrador || r == Vendedor || r == Cliente
  }

  /** `[Required]`, `[StringLength(20)]` and the alternation of the three role names. */
  function RolErrors(key: string, r: string): (errs: seq<FieldError>)
    ensures errs == [] <==> r in {"Administrador", "Vendedor", "Cliente"}
    ensures forall e | e in errs :: e.key == key
  {
    var errs := Required(key, r, RolObligatorio)
      + Rule(key, r, Utf16Length(r) <= 20, RolLongitud)
      + Rule(key, r, MatchesRolPattern(r), RolNoValido);
    assert MatchesRolPattern(r) ==> errs == [] by {
      if MatchesRolPattern(r) {
        assert !IsWhiteSpace(r[0]);
        RoleNamesFit();
      }
    }
    errs
  }

  /** Each role name is within the 20 code units `[StringLength(20)]` allows. */
  lemma RoleNamesFit()
    ensures Utf16Length(Administrador) <= 20 && Utf16Length(Vendedor) <= 20 && Utf16Length(Cliente) <= 20
  {
  }
}
