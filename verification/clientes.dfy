/**
 * The customer controller: the search list, and create and edit with a
 * server-side check that no two customers share an email, case aside.
 * Details, the delete page and the delete post are the shared gated shapes.
 */
module Clientes {
  import opened Wrappers
  import opened Text
  import opened Outcomes
  import opened Validation
  import opened Store
  import opened Listing
  import opened Authorization

  /** A row of the Clientes table; the address may be null. */
  datatype Cliente = Cliente(nombre: string, email: string, direccion: Option<string>, telefono: string)

  /** Two customer emails equal once upper-cased, the comparison both checks make. */
  predicate SameEmail(a: string, b: string) {
    ToUpper(a) == ToUpper(b)
  }

  /** No two customers share an email, case aside. */
  ghost predicate EmailsDistinct(rows: map<int, Cliente>) {
    forall i, j | i in rows && j in rows && i != j :: !SameEmail(rows[i].email, rows[j].email)
  }

  /** A search term that does not filter: absent, or only whitespace. */
  predicate NoSearch(q: Option<string>) {
    q.None? || IsBlank(q.value)
  }

  /** The search matches a customer when the term occurs in its name, email, address (null read as empty) or phone. */
  predicate Matches(n: string, c: Cliente) {
    Contains(c.nombre, n) || Contains(c.email, n) || Contains(c.direccion.GetOr(""), n) || Contains(c.telefono, n)
  }

  /** The filter Index applies: everything without a term, else a match of the trimmed term. */
  function Filter(q: Option<string>): (keep: Cliente -> bool)
    ensures forall c :: keep(c) <==> NoSearch(q) || Matches(Trim(q.value), c)
  {
    if NoSearch(q) then (c: Cliente) => true
    else
      var n := Trim(q.value);
      (c: Cliente) => Matches(n, c)
  }

  /** `OrderBy(c => c.Nombre)`, compared character by character. */
  function ByNombre(): ((int, Cliente), (int, Cliente)) -> bool {
    (a: (int, Cliente), b: (int, Cliente)) => StrLe(a.1.nombre, b.1.nombre)
  }

  lemma ByNombreIsOrder()
    ensures TotalPreorder(ByNombre())
  {
    var le := ByNombre();
    forall a, b
      ensures le(a, b) || le(b, a)
    {
      StrLeTotal(a.1.nombre, b.1.nombre);
    }
    forall a, b, c | le(a, b) && le(b, c)
      ensures le(a, c)
    {
      StrLeTransitive(a.1.nombre, b.1.nombre, c.1.nombre);
    }
  }

  /**
   * GET Index: the gate's answer; then, with no search term, every customer,
   * and otherwise exactly those the trimmed term matches, ordered by name.
   */
  method Index(p: Principal, t: Table<Cliente>, q: Option<string>) returns (r: Response<seq<(int, Cliente)>>)
    ensures Reports(Authorize(p, Requirements(Controller.Clientes, Action.Index)), r)
    ensures r.Ok? <==> Authorize(p, Requirements(Controller.Clientes, Action.Index)) == Pass
    ensures r.Ok? ==> RowsOf(r.value, t.rows) && DistinctKeys(r.value)
    ensures r.Ok? ==> forall i, j :: 0 <= i < j < |r.value| ==> StrLe(r.value[i].1.nombre, r.value[j].1.nombre)
    ensures r.Ok? && NoSearch(q) ==> forall k :: k in t.rows ==> (k, t.rows[k]) in r.value
    ensures r.Ok? && !NoSearch(q) ==>
      && (forall i :: 0 <= i < |r.value| ==> Matches(Trim(q.value), r.value[i].1))
      && (forall k :: k in t.rows && Matches(Trim(q.value), t.rows[k]) ==> (k, t.rows[k]) in r.value)
  {
    var g := Authorize(p, Requirements(Controller.Clientes, Action.Index));
    if g == Challenge {
      return Challenged;
    } else if g == Deny {
      return Forbidden;
    }
    ByNombreIsOrder();
    var xs := Query(t.rows, Filter(q), ByNombre());
    r := Ok(xs);
  }

  /** Whether a customer other than `except` already has this email, case aside. */
  predicate EmailTaken(t: Table<Cliente>, email: string, except: Option<int>) {
    exists k | k in t.rows :: Some(k) != except && SameEmail(t.rows[k].email, email)
  }

  /**
   * POST Create: the gate's answer; an invalid model comes back as it is;
   * then an email any customer has is refused; otherwise the customer is
   * stored under a new key.
   */
  function Create(p: Principal, t: Table<Cliente>, c: Cliente, modelErrors: seq<FieldError>): (r: Response<Table<Cliente>>)
    ensures Reports(Authorize(p, Requirements(Controller.Clientes, Action.Create)), r)
    ensures r.Ok? <==>
      Authorize(p, Requirements(Controller.Clientes, Action.Create)) == Pass && modelErrors == [] && !EmailTaken(t, c.email, None)
    ensures Authorize(p, Requirements(Controller.Clientes, Action.Create)) == Pass && modelErrors != [] ==> r == Invalid(modelErrors)
    ensures Authorize(p, Requirements(Controller.Clientes, Action.Create)) == Pass && modelErrors == [] && EmailTaken(t, c.email, None) ==>
      r == Invalid([FieldError("Email", ClienteEmailDuplicado)])
    ensures r.Ok? && WellFormed(t) ==> AddedOne(t, r.value, t.nextId, c) && WellFormed(r.value)
  {
    var body :=
      if modelErrors != [] then Invalid(modelErrors)
      else if EmailTaken(t, c.email, None) then Invalid([FieldError("Email", ClienteEmailDuplicado)])
      else Ok(Insert(t, c));
    Guard(Authorize(p, Requirements(Controller.Clientes, Action.Create)), body)
  }

  /**
   * POST Edit: the gate's answer; a path id other than the posted one is a
   * 404; an invalid model comes back before any check; an email another
   * customer has is refused; then the write, a 404 when the row has vanished.
   */
  function Edit(p: Principal, t: Table<Cliente>, id: int, payloadId: int, c: Cliente, modelErrors: seq<FieldError>): (r: Response<Table<Cliente>>)
    ensures Reports(Authorize(p, Requirements(Controller.Clientes, Action.Edit)), r)
    ensures Authorize(p, Requirements(Controller.Clientes, Action.Edit)) == Pass && id != payloadId ==> r == NotFound
    ensures Authorize(p, Requirements(Controller.Clientes, Action.Edit)) == Pass && id == payloadId && modelErrors != [] ==> r == Invalid(modelErrors)
    ensures Authorize(p, Requirements(Controller.Clientes, Action.Edit)) == Pass && id == payloadId && modelErrors == [] && EmailTaken(t, c.email, Some(id)) ==>
      r == Invalid([FieldError("Email", OtroClienteEmailDuplicado)])
    ensures r.Ok? <==>
      && Authorize(p, Requirements(Controller.Clientes, Action.Edit)) == Pass
      && id == payloadId && modelErrors == [] && !EmailTaken(t, c.email, Some(id)) && id in t.rows
    ensures (&& Authorize(p, Requirements(Controller.Clientes, Action.Edit)) == Pass
             && id == payloadId && modelErrors == [] && !EmailTaken(t, c.email, Some(id)) && id !in t.rows)
            ==> r == NotFound
    ensures r.Ok? ==> ReplacedOne(t, r.value, id, c)
  {
    var body :=
      if id != payloadId then NotFound
      else if modelErrors != [] then Invalid(modelErrors)
      else if EmailTaken(t, c.email, Some(id)) then Invalid([FieldError("Email", OtroClienteEmailDuplicado)])
      else match Update(t, id, c)
        case None => NotFound
        case Some(t') => Ok(t');
    Guard(Authorize(p, Requirements(Controller.Clientes, Action.Edit)), body)
  }

  /** A customer may keep its own email: the edit check ignores the row being edited. */
  lemma KeepOwnEmail(t: Table<Cliente>, id: int)
    requires EmailsDistinct(t.rows) && id in t.rows
    ensures !EmailTaken(t, t.rows[id].email, Some(id))
  {
  }

  /** Create keeps customer emails distinct. */
  lemma CreateKeepsEmailsDistinct(p: Principal, t: Table<Cliente>, c: Cliente, modelErrors: seq<FieldError>)
    requires WellFormed(t) && EmailsDistinct(t.rows)
    ensures EmailsDistinct(Create(p, t, c, modelErrors).StoreAfter(t).rows)
  {
  }

  /** Edit keeps customer emails distinct. */
  lemma EditKeepsEmailsDistinct(p: Principal, t: Table<Cliente>, id: int, payloadId: int, c: Cliente, modelErrors: seq<FieldError>)
    requires EmailsDistinct(t.rows)
    ensures EmailsDistinct(Edit(p, t, id, payloadId, c, modelErrors).StoreAfter(t).rows)
  {
  }

  /** Customer emails compare upper-cased and user emails lower-cased; on these characters the two agree. */
  lemma SameEmailEitherCase(a: string, b: string)
    ensures SameEmail(a, b) <==> ToLower(a) == ToLower(b)
  {
    FoldsAgree(a, b);
  }
}
