/**
 * The persistence gateway as a value: one table per entity, its rows keyed by
 * primary key, and the identity column's next value. `SaveChangesAsync`
 * after `Add`, `Update` or `Remove` becomes a pure function of the table.
 */
module Store {
  import opened Wrappers

  datatype Table<T> = Table(rows: map<int, T>, nextId: int)

  /** Every key was issued by the identity column, so its next value is unused. */
  predicate WellFormed<T>(t: Table<T>) {
    forall id :: id in t.rows ==> id < t.nextId
  }

  /** `t'` is `t` plus one row `row` under the new key `id`. */
  ghost predicate AddedOne<T>(t: Table<T>, t': Table<T>, id: int, row: T) {
    && id !in t.rows
    && t'.rows.Keys == t.rows.Keys + {id}
    && t'.rows[id] == row
    && forall k :: k in t.rows ==> t'.rows[k] == t.rows[k]
  }

  /** `t'` is `t` with the row under `id` (which exists) replaced by `row`. */
  ghost predicate ReplacedOne<T>(t: Table<T>, t': Table<T>, id: int, row: T) {
    && id in t.rows
    && t'.nextId == t.nextId
    && t'.rows.Keys == t.rows.Keys
    && t'.rows[id] == row
    && forall k :: k in t.rows && k != id ==> t'.rows[k] == t.rows[k]
  }

  /** `t'` is `t` without the row under `id`, if there was one. */
  ghost predicate RemovedOne<T>(t: Table<T>, t': Table<T>, id: int) {
    && t'.nextId == t.nextId
    && t'.rows.Keys == t.rows.Keys - {id}
    && forall k :: k in t'.rows ==> t'.rows[k] == t.rows[k]
  }

  /** `FindAsync(id)`: the row under `id`, if any. */
  function Find<T>(t: Table<T>, id: int): Option<T> {
    if id in t.rows then Some(t.rows[id]) else None
  }

  /** `Add` and save: the identity column supplies the key and moves on. */
  function Insert<T>(t: Table<T>, row: T): (t': Table<T>)
    ensures WellFormed(t) ==> AddedOne(t, t', t.nextId, row) && WellFormed(t')
    ensures t'.nextId == t.nextId + 1
  {
    Table(t.rows[t.nextId := row], t.nextId + 1)
  }

  /**
   * `Update` and save. None stands for the concurrency exception whose recheck
   * finds no row with that key; the write happens only when the row exists.
   */
  function Update<T>(t: Table<T>, id: int, row: T): (r: Option<Table<T>>)
    ensures r.None? <==> id !in t.rows
    ensures r.Some? ==> ReplacedOne(t, r.value, id, row)
    ensures r.Some? && WellFormed(t) ==> WellFormed(r.value)
  {
    if id in t.rows then Some(Table(t.rows[id := row], t.nextId)) else None
  }

  /** `Remove` and save. */
  function Remove<T>(t: Table<T>, id: int): (t': Table<T>)
    ensures RemovedOne(t, t', id)
    ensures id !in t.rows ==> t' == t
    ensures WellFormed(t) ==> WellFormed(t')
  {
    Table(t.rows - {id}, t.nextId)
  }

  lemma {:induction false} LeastExists(s: set<int>)
    requires s != {}
    ensures exists m :: m in s && forall x | x in s :: m <= x
    decreases |s|
  {
    if forall x :: x !in s {
      assert false;
    }
    var y :| y in s;
    if s == {y} {
      assert forall x | x in s :: y <= x;
    } else {
      var rest := s - {y};
      LeastExists(rest);
      var m :| m in rest && forall x | x in rest :: m <= x;
      assert forall x | x in s :: x == y || x in rest;
      if y < m {
        assert forall x | x in s :: y <= x;
      } else {
        assert forall x | x in s :: m <= x;
      }
    }
  }

  /** The smallest of a non-empty set of keys: the row a scan in key order meets first. */
  function FirstKey(s: set<int>): (m: int)
    requires s != {}
    ensures m in s && forall x | x in s :: m <= x
  {
    LeastExists(s);
    var m :| m in s && forall x | x in s :: m <= x;
    m
  }
}
