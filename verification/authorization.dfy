/**
 * The role gates: the `[Authorize(Roles = ...)]` attributes on the controllers,
 * evaluated against the claims of the caller's cookie before an action runs.
 * Attributes on the class and on the action combine: every one must admit the
 * caller, and one attribute admits any of the roles it lists.
 */
module Authorization {
  import opened Wrappers
  import opened Outcomes
  import opened Validation

  datatype ClaimType = NameIdentifier | Name | Email | Role

  datatype Claim = Claim(kind: ClaimType, value: string)

  /** The caller: None when anonymous, otherwise the claims of the session cookie. */
  type Principal = Option<seq<Claim>>

  /** `User.IsInRole(role)`: some role claim carries exactly `role`. */
  predicate IsInRole(claims: seq<Claim>, role: string) {
    exists i | 0 <= i < |claims| :: claims[i].kind == Role && claims[i].value == role
  }

  /** An authenticated caller in role `role`. */
  predicate HasRole(p: Principal, role: string) {
    p.Some? && IsInRole(p.value, role)
  }

  datatype Controller = Account | Usuarios | Clientes | Pedidos | DetallesPedido

  /** The actions; `Other` covers the ones without attributes of their own (ToggleEstado, Login, ...). */
  datatype Action = Index | Details | Create | Edit | Delete | DeleteConfirmed | Other

  /** The controllers whose class carries a role attribute. */
  predicate IsGated(c: Controller) {
    c == Clientes || c == Pedidos || c == DetallesPedido
  }

  /** Delete confirmation page and delete post. */
  predicate IsDelete(a: Action) {
    a == Delete || a == DeleteConfirmed
  }

  const Staff: set<string> := {Administrador, Vendedor}
  const AdminOnly: set<string> := {Administrador}

  /**
   * The attributes that apply to an action: the class's role list, then the
   * action's. Account and Usuarios carry none.
   */
  function Requirements(c: Controller, a: Action): seq<set<string>> {
    if !IsGated(c) then []
    else if IsDelete(a) then [Staff, AdminOnly]
    else [Staff]
  }

  datatype Gate = Pass | Challenge | Deny

  /** One attribute admits the caller if the caller holds any role it lists. */
  predicate Admits(claims: seq<Claim>, roles: set<string>) {
    exists r | r in roles :: IsInRole(claims, r)
  }

  /** No attribute: anyone. Otherwise an anonymous caller is challenged, and a signed-in one must satisfy every attribute. */
  function Authorize(p: Principal, reqs: seq<set<string>>): Gate {
    if reqs == [] then Pass
    else if p.None? then Challenge
    else if forall k | 0 <= k < |reqs| :: Admits(p.value, reqs[k]) then Pass
    else Deny
  }

  /** The response reports the gate's verdict: a challenge exactly when challenged, a refusal exactly when denied. */
  predicate Reports<T>(g: Gate, r: Response<T>) {
    && (r.Challenged? <==> g == Challenge)
    && (r.Forbidden? <==> g == Deny)
  }

  /** The framework's answer when the gate does not pass; otherwise the action's own. */
  function Guard<T>(g: Gate, body: Response<T>): (r: Response<T>)
    requires !body.Challenged? && !body.Forbidden?
    ensures Reports(g, r)
    ensures r.Ok? <==> g == Pass && body.Ok?
    ensures g == Pass ==> r == body
  {
    match g
    case Pass => body
    case Challenge => Challenged
    case Deny => Forbidden
  }

  /** On the three gated controllers only an Administrador reaches the delete page and the delete post. */
  lemma OnlyAdministradorDeletes(p: Principal, c: Controller, a: Action)
    requires IsGated(c) && IsDelete(a)
    ensures Authorize(p, Requirements(c, a)) == Pass <==> HasRole(p, Administrador)
  {
    var reqs := Requirements(c, a);
    if HasRole(p, Administrador) {
      assert Admits(p.value, reqs[0]) && Admits(p.value, reqs[1]);
    }
    if Authorize(p, reqs) == Pass {
      assert Admits(p.value, reqs[1]);
    }
  }

  /** Every other action of a gated controller admits exactly Administrador and Vendedor. */
  lemma StaffOnly(p: Principal, c: Controller, a: Action)
    requires IsGated(c) && !IsDelete(a)
    ensures Authorize(p, Requirements(c, a)) == Pass <==> HasRole(p, Administrador) || HasRole(p, Vendedor)
  {
    var reqs := Requirements(c, a);
    if HasRole(p, Administrador) || HasRole(p, Vendedor) {
      assert Admits(p.value, reqs[0]);
    }
    if Authorize(p, reqs) == Pass {
      assert Admits(p.value, reqs[0]);
    }
  }

  /** Passing a gated action's attributes means holding a staff role, and Administrador for a delete. */
  lemma PassMeansStaff(p: Principal, c: Controller, a: Action)
    ensures IsGated(c) && Authorize(p, Requirements(c, a)) == Pass ==>
      && (HasRole(p, Administrador) || HasRole(p, Vendedor))
      && (IsDelete(a) ==> HasRole(p, Administrador))
  {
    if IsGated(c) {
      if IsDelete(a) {
        OnlyAdministradorDeletes(p, c, a);
      } else {
        StaffOnly(p, c, a);
      }
    }
  }

  /** An anonymous caller is sent to log in on every gated action. */
  lemma AnonymousChallenged(c: Controller, a: Action)
    requires IsGated(c)
    ensures Authorize(None, Requirements(c, a)) == Challenge
  {
  }

  /** Users and accounts carry no attribute: every caller, anonymous or not, passes. */
  lemma UngatedControllers(p: Principal, a: Action)
    ensures Authorize(p, Requirements(Usuarios, a)) == Pass
    ensures Authorize(p, Requirements(Account, a)) == Pass
  {
  }

  /**
   * A caller whose only role is `role` passes a gated action exactly when the
   * action's attributes all list `role`.
   */
  lemma {:induction false} SingleRoleGate(claims: seq<Claim>, role: string, c: Controller, a: Action)
    requires forall r :: IsInRole(claims, r) <==> r == role
    requires IsGated(c)
    ensures Authorize(Some(claims), Requirements(c, a)) == Pass <==>
      (role in Staff && (IsDelete(a) ==> role == Administrador))
  {
    var reqs := Requirements(c, a);
    forall k | 0 <= k < |reqs|
      ensures Admits(claims, reqs[k]) <==> role in reqs[k]
    {
      if role in reqs[k] {
        assert IsInRole(claims, role);
      }
    }
    var want := role in Staff && (IsDelete(a) ==> role == Administrador);
    if want {
      forall k | 0 <= k < |reqs|
        ensures Admits(claims, reqs[k])
      {
        assert role in reqs[k];
      }
    } else if role !in Staff {
      assert !Admits(claims, reqs[0]);
    } else {
      assert !Admits(claims, reqs[1]);
    }
  }
}
