/**
 * The order controller. Its actions are the shared gated shapes; what is its
 * own is the row, the order of the list, and the delete gate stated for it.
 */
module Pedidos {
  import opened Wrappers
  import opened Validation
  import opened Outcomes
  import opened Store
  import opened Listing
  import opened Authorization
  import Gated

  /** A row of the Pedidos table; the order date is a timestamp, the amount a decimal. */
  datatype Pedido = Pedido(fechaPedido: int, idCliente: int, estado: string, montoTotal: real)

  /** `OrderByDescending(p => p.FechaPedido)`: later orders first. */
  function NewestFirst(): ((int, Pedido), (int, Pedido)) -> bool {
    (a: (int, Pedido), b: (int, Pedido)) => a.1.fechaPedido >= b.1.fechaPedido
  }

  lemma NewestFirstIsOrder()
    ensures TotalPreorder(NewestFirst())
  {
  }

  /** GET Index: the gate's answer; then every order once, later orders first. */
  method Index(p: Principal, t: Table<Pedido>) returns (r: Response<seq<(int, Pedido)>>)
    ensures Reports(Authorize(p, Requirements(Controller.Pedidos, Action.Index)), r)
    ensures r.Ok? <==> HasRole(p, Administrador) || HasRole(p, Vendedor)
    ensures r.Ok? ==> RowsOf(r.value, t.rows) && DistinctKeys(r.value)
    ensures r.Ok? ==> forall k :: k in t.rows ==> (k, t.rows[k]) in r.value
    ensures r.Ok? ==> forall i, j :: 0 <= i < j < |r.value| ==> r.value[i].1.fechaPedido >= r.value[j].1.fechaPedido
  {
    StaffOnly(p, Controller.Pedidos, Action.Index);
    var g := Authorize(p, Requirements(Controller.Pedidos, Action.Index));
    if g == Challenge {
      return Challenged;
    } else if g == Deny {
      return Forbidden;
    }
    NewestFirstIsOrder();
    var xs := Query(t.rows, (x: Pedido) => true, NewestFirst());
    r := Ok(xs);
  }

  /**
   * Only an Administrador sees the delete page of an existing order or
   * deletes one; a Vendedor is refused both, whether or not the order exists.
   */
  lemma DeleteOnlyAdministrador(p: Principal, t: Table<Pedido>, id: int)
    ensures Gated.Show(p, Controller.Pedidos, Action.Delete, t, Some(id)).Ok? <==> HasRole(p, Administrador) && id in t.rows
    ensures Gated.DeleteConfirmed(p, Controller.Pedidos, t, id).Ok? <==> HasRole(p, Administrador)
  {
  }
}
