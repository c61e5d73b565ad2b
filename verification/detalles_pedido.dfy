/**
 * The order-line controller. Its actions are the shared gated shapes; what is
 * its own is the row, an unordered list, and the delete gate stated for it.
 */
module DetallesPedido {
  import opened Wrappers
  import opened Validation
  import opened Outcomes
  import opened Store
  import opened Listing
  import opened Authorization
  import Gated

  /** A row of the DetallesPedido table: an order, a product, a quantity and a unit price. */
  datatype DetallePedido = DetallePedido(idPedido: int, idProducto: int, cantidad: int, precioUnitario: real)

  /** GET Index: the gate's answer; then every line once, in no promised order. */
  method Index(p: Principal, t: Table<DetallePedido>) returns (r: Response<seq<(int, DetallePedido)>>)
    ensures Reports(Authorize(p, Requirements(Controller.DetallesPedido, Action.Index)), r)
    ensures r.Ok? <==> HasRole(p, Administrador) || HasRole(p, Vendedor)
    ensures r.Ok? ==> RowsOf(r.value, t.rows) && DistinctKeys(r.value)
    ensures r.Ok? ==> forall k :: k in t.rows ==> (k, t.rows[k]) in r.value
  {
    StaffOnly(p, Controller.DetallesPedido, Action.Index);
    var g := Authorize(p, Requirements(Controller.DetallesPedido, Action.Index));
    if g == Challenge {
      return Challenged;
    } else if g == Deny {
      return Forbidden;
    }
    var xs := Select(t.rows, (d: DetallePedido) => true);
    r := Ok(xs);
  }

  /** Create stores a line only for a staff caller and a valid model; anything else leaves the table as it was. */
  lemma CreateOnlyWhenValid(p: Principal, t: Table<DetallePedido>, d: DetallePedido, modelErrors: seq<FieldError>)
    requires WellFormed(t)
    ensures Gated.Create(p, Controller.DetallesPedido, t, d, modelErrors).Ok? <==>
      (HasRole(p, Administrador) || HasRole(p, Vendedor)) && modelErrors == []
    ensures !Gated.Create(p, Controller.DetallesPedido, t, d, modelErrors).Ok? ==>
      Gated.Create(p, Controller.DetallesPedido, t, d, modelErrors).StoreAfter(t) == t
  {
  }

  /**
   * Only an Administrador sees the delete page of an existing line or
   * deletes one; a Vendedor is refused both.
   */
  lemma DeleteOnlyAdministrador(p: Principal, t: Table<DetallePedido>, id: int)
    ensures Gated.Show(p, Controller.DetallesPedido, Action.Delete, t, Some(id)).Ok? <==> HasRole(p, Administrador) && id in t.rows
    ensures Gated.DeleteConfirmed(p, Controller.DetallesPedido, t, id).Ok? <==> HasRole(p, Administrador)
  {
  }
}
