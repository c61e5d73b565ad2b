/**
 * The scaffolded action shapes every controller repeats: show a row or 404,
 * create after validation, edit with the id and vanished-row checks, and the
 * delete post that redirects whether or not the row was there.
 */
module Crud {
  import opened Wrappers
  import opened Outcomes
  import opened Store

  /** GET Details, Edit, Delete: no id, or an id with no row, is a 404. */
  function Details<T>(t: Table<T>, id: Option<int>): (r: Response<T>)
    ensures r.Ok? <==> id.Some? && id.value in t.rows
    ensures r.Ok? ==> r.value == t.rows[id.value]
    ensures !r.Ok? ==> r == NotFound
  {
    if id.Some? && id.value in t.rows then Ok(t.rows[id.value]) else NotFound
  }

  /** POST Create: the form again with the ModelState errors, or the row saved under a new key. */
  function Create<T>(t: Table<T>, row: T, errors: seq<FieldError>): (r: Response<Table<T>>)
    ensures errors != [] ==> r == Invalid(errors)
    ensures errors == [] ==> r.Ok? && r.value.rows.Keys == t.rows.Keys + {t.nextId}
    ensures r.Ok? && WellFormed(t) ==> AddedOne(t, r.value, t.nextId, row) && WellFormed(r.value)
  {
    if errors != [] then Invalid(errors) else Ok(Insert(t, row))
  }

  /**
   * POST Edit: a path id other than the posted id is a 404 before anything
   * else; then the ModelState errors; then the write, a 404 when the row has
   * vanished meanwhile.
   */
  function Edit<T>(t: Table<T>, id: int, payloadId: int, row: T, errors: seq<FieldError>): (r: Response<Table<T>>)
    ensures id != payloadId ==> r == NotFound
    ensures id == payloadId && errors != [] ==> r == Invalid(errors)
    ensures id == payloadId && errors == [] && id !in t.rows ==> r == NotFound
    ensures r.Ok? <==> id == payloadId && errors == [] && id in t.rows
    ensures r.Ok? ==> ReplacedOne(t, r.value, id, row)
    ensures r.Ok? && WellFormed(t) ==> WellFormed(r.value)
  {
    if id != payloadId then NotFound
    else if errors != [] then Invalid(errors)
    else match Update(t, id, row)
      case None => NotFound
      case Some(t') => Ok(t')
  }

  /** POST Delete: the row goes if it is there; either way the action redirects to the list. */
  function DeleteConfirmed<T>(t: Table<T>, id: int): (t': Table<T>)
    ensures id !in t.rows ==> t' == t
    ensures RemovedOne(t, t', id) && id !in t'.rows
    ensures WellFormed(t) ==> WellFormed(t')
  {
    Remove(t, id)
  }

  /** Posting the same delete twice leaves what posting it once left. */
  lemma DeleteConfirmedIdempotent<T>(t: Table<T>, id: int)
    ensures DeleteConfirmed(DeleteConfirmed(t, id), id) == DeleteConfirmed(t, id)
  {
  }
}
