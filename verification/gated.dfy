/**
 * The scaffolded actions of the three role-gated controllers: the shared
 * shapes, behind the class attribute (Administrador or Vendedor) and, for the
 * delete page and the delete post, the extra Administrador attribute.
 */
module Gated {
  import opened Wrappers
  import opened Outcomes
  import opened Store
  import opened Validation
  import opened Authorization
  import Crud

  /**
   * GET Details, Edit or Delete of controller `c`: the gate's answer, then a
   * 404 for no id or an unknown id, otherwise the row.
   */
  function Show<T>(p: Principal, c: Controller, a: Action, t: Table<T>, id: Option<int>): (r: Response<T>)
    ensures Reports(Authorize(p, Requirements(c, a)), r)
    ensures r.Ok? <==> Authorize(p, Requirements(c, a)) == Pass && id.Some? && id.value in t.rows
    ensures r.Ok? ==> r.value == t.rows[id.value]
    ensures Authorize(p, Requirements(c, a)) == Pass && !r.Ok? ==> r == NotFound
    ensures IsGated(c) && r.Ok? ==> (HasRole(p, Administrador) || HasRole(p, Vendedor)) && (IsDelete(a) ==> HasRole(p, Administrador))
  {
    PassMeansStaff(p, c, a);
    Guard(Authorize(p, Requirements(c, a)), Crud.Details(t, id))
  }

  /** POST Create of controller `c`: the gate's answer, then the ModelState errors, then the row under a new key. */
  function Create<T>(p: Principal, c: Controller, t: Table<T>, row: T, errors: seq<FieldError>): (r: Response<Table<T>>)
    ensures Reports(Authorize(p, Requirements(c, Action.Create)), r)
    ensures r.Ok? <==> Authorize(p, Requirements(c, Action.Create)) == Pass && errors == []
    ensures Authorize(p, Requirements(c, Action.Create)) == Pass && errors != [] ==> r == Invalid(errors)
    ensures r.Ok? && WellFormed(t) ==> AddedOne(t, r.value, t.nextId, row) && WellFormed(r.value)
    ensures IsGated(c) && r.Ok? ==> HasRole(p, Administrador) || HasRole(p, Vendedor)
  {
    PassMeansStaff(p, c, Action.Create);
    Guard(Authorize(p, Requirements(c, Action.Create)), Crud.Create(t, row, errors))
  }

  /**
   * POST Edit of controller `c`: the gate's answer, then a 404 for a path id
   * other than the posted one, then the ModelState errors, then the write, a
   * 404 when the row has vanished.
   */
  function Edit<T>(p: Principal, c: Controller, t: Table<T>, id: int, payloadId: int, row: T, errors: seq<FieldError>): (r: Response<Table<T>>)
    ensures Reports(Authorize(p, Requirements(c, Action.Edit)), r)
    ensures Authorize(p, Requirements(c, Action.Edit)) == Pass && id != payloadId ==> r == NotFound
    ensures Authorize(p, Requirements(c, Action.Edit)) == Pass && id == payloadId && errors != [] ==> r == Invalid(errors)
    ensures Authorize(p, Requirements(c, Action.Edit)) == Pass && id == payloadId && errors == [] && id !in t.rows ==> r == NotFound
    ensures r.Ok? <==> Authorize(p, Requirements(c, Action.Edit)) == Pass && id == payloadId && errors == [] && id in t.rows
    ensures r.Ok? ==> ReplacedOne(t, r.value, id, row)
    ensures IsGated(c) && r.Ok? ==> HasRole(p, Administrador) || HasRole(p, Vendedor)
  {
    PassMeansStaff(p, c, Action.Edit);
    Guard(Authorize(p, Requirements(c, Action.Edit)), Crud.Edit(t, id, payloadId, row, errors))
  }

  /** POST Delete of controller `c`: the gate's answer, then the row goes if it is there. */
  function DeleteConfirmed<T>(p: Principal, c: Controller, t: Table<T>, id: int): (r: Response<Table<T>>)
    ensures Reports(Authorize(p, Requirements(c, Action.DeleteConfirmed)), r)
    ensures r.Ok? <==> Authorize(p, Requirements(c, Action.DeleteConfirmed)) == Pass
    ensures r.Ok? ==> RemovedOne(t, r.value, id) && id !in r.value.rows
    ensures r.Ok? && id !in t.rows ==> r.value == t
    ensures IsGated(c) && r.Ok? ==> HasRole(p, Administrador)
  {
    PassMeansStaff(p, c, Action.DeleteConfirmed);
    Guard(Authorize(p, Requirements(c, Action.DeleteConfirmed)), Ok(Crud.DeleteConfirmed(t, id)))
  }

  /** Posting the same delete twice leaves what posting it once left. */
  lemma DeleteConfirmedIdempotent<T>(p: Principal, c: Controller, t: Table<T>, id: int)
    ensures DeleteConfirmed(p, c, t, id).StoreAfter(t)
            == DeleteConfirmed(p, c, DeleteConfirmed(p, c, t, id).StoreAfter(t), id).StoreAfter(DeleteConfirmed(p, c, t, id).StoreAfter(t))
  {
  }

  /** A caller whose role is Cliente gets no gated action to run at all. */
  lemma ClienteRefused(p: Principal, c: Controller, a: Action)
    requires IsGated(c)
    requires p.Some? && forall r :: IsInRole(p.value, r) <==> r == Cliente
    ensures Authorize(p, Requirements(c, a)) == Deny
  {
    SingleRoleGate(p.value, Cliente, c, a);
  }
}
