/** Shared vocabulary of the model: optional values, record identifiers, the
    truthiness rule the application applies to ids, and what the database
    does with one statement or one query. */
module Common {

  /** A value that may be absent (Python's `None`, SQL's NULL). */
  datatype Option<+T> = None | Some(value: T)

  /** Primary keys are database serials: natural numbers handed out in
      increasing order, starting at 1. */
  type Id = nat

  /** Python truthiness of an optional id (`if job_id:`): both `None` and
      `0` are false. */
  predicate Truthy(id: Option<Id>) {
    id.Some? && id.value != 0
  }

  /** The connection as a write function sees it: absent (`not db_conn`),
      or present with the statement either committing or raising an error
      that is rolled back. */
  datatype Db = Offline | Online(fails: bool)

  /** The connection used for one statement of a multi-statement flow. */
  function Conn(connected: bool, fails: bool): (db: Db)
    ensures db.Online? <==> connected
    ensures db == Online(false) <==> connected && !fails
  {
    if connected then Online(fails) else Offline
  }

  /** The outcome of a read query: no connection, an error, or its rows. */
  datatype Query<+T> = NoConnection | Failed | Rows(rows: T)

  /** In a list of (key, value) rows, position `i` holds the last row whose
      key is `k`: what a Python loop assigning `d[key] = value` keeps. */
  ghost predicate IsLast<V>(rows: seq<(string, V)>, k: string, i: int) {
    && 0 <= i < |rows|
    && rows[i].0 == k
    && forall j :: i < j < |rows| ==> rows[j].0 != k
  }

  function Min(a: nat, b: nat): nat {
    if a <= b then a else b
  }
}
