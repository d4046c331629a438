/** The four tables of the tracker (companies, jobs, recruiters, tasks) as
    maps from primary key to record, each with the next value of its serial
    sequence, and the generic row operations the write statements perform. */
module Store {
  import opened Common

  /** Calendar dates and creation timestamps are opaque ordinals here. */
  type Date = int
  type Timestamp = int

  datatype Company = Company(
    name: string, sector: string, website: string, notes: string, source: string,
    createdAt: Timestamp)

  /** Every job belongs to exactly one company: `companyId` is not optional. */
  datatype Job = Job(
    title: string, companyId: Id, location: string, status: string, url: string,
    notes: string, dateFound: Option<Date>, createdAt: Timestamp)

  datatype Recruiter = Recruiter(
    name: string, agencyId: Option<Id>, contact: string, notes: string,
    firstContact: Option<Date>, createdAt: Timestamp)

  /** A task may link to a job, a recruiter and a company, each independently. */
  datatype Task = Task(
    description: string, due: Option<Date>, status: string, priority: Option<string>,
    notes: string, jobId: Option<Id>, recruiterId: Option<Id>, companyId: Option<Id>,
    createdAt: Timestamp)

  /** One table: its rows by primary key, and the next value its serial
      sequence will hand out. */
  datatype Table<R> = Table(rows: map<Id, R>, next: Id) {

    /** Every key was handed out by the sequence, which starts at 1. */
    ghost predicate Valid() {
      && 1 <= next
      && forall id :: id in rows ==> 1 <= id < next
    }
  }

  /** `t'` is `t` with exactly one new row `r`, under a key `t` did not use. */
  ghost predicate AddedOne<R>(t: map<Id, R>, t': map<Id, R>, id: Id, r: R) {
    && id !in t
    && t'.Keys == t.Keys + {id}
    && t'[id] == r
    && forall k :: k in t ==> t'[k] == t[k]
  }

  /** `t'` has the same keys as `t` and differs from it at most under `id`. */
  ghost predicate ChangedAtMost<R>(t: map<Id, R>, t': map<Id, R>, id: Id) {
    && t'.Keys == t.Keys
    && forall k :: k in t && k != id ==> t'[k] == t[k]
  }

  /** `t'` is `t` without the row under `id`, and nothing else changed. */
  ghost predicate RemovedOne<R>(t: map<Id, R>, t': map<Id, R>, id: Id) {
    && t'.Keys == t.Keys - {id}
    && forall k :: k in t' ==> t'[k] == t[k]
  }

  /** INSERT: the row gets the next serial value. */
  function Insert<R>(t: Table<R>, r: R): (t': Table<R>)
    requires t.Valid()
    ensures t'.Valid()
    ensures AddedOne(t.rows, t'.rows, t.next, r)
    ensures |t'.rows| == |t.rows| + 1
    ensures t'.next == t.next + 1
  {
    Table(t.rows[t.next := r], t.next + 1)
  }

  /** UPDATE ... SET ... WHERE id = `id`: the row, if present, becomes
      `assign` of itself; a missing id changes nothing. */
  function Update<R>(t: Table<R>, id: Id, assign: R -> R): (t': Table<R>)
    ensures t.Valid() ==> t'.Valid()
    ensures ChangedAtMost(t.rows, t'.rows, id)
    ensures id in t.rows ==> t'.rows[id] == assign(t.rows[id])
    ensures id !in t.rows ==> t' == t
    ensures t'.next == t.next
  {
    if id in t.rows then Table(t.rows[id := assign(t.rows[id])], t.next) else t
  }

  /** DELETE ... WHERE id = `id`: a missing id changes nothing. */
  function Remove<R>(t: Table<R>, id: Id): (t': Table<R>)
    ensures t.Valid() ==> t'.Valid()
    ensures RemovedOne(t.rows, t'.rows, id)
    ensures id in t.rows ==> |t'.rows| == |t.rows| - 1
    ensures id !in t.rows ==> t'.rows == t.rows
    ensures t'.next == t.next
  {
    Table(t.rows - {id}, t.next)
  }

  /** The four tables, each its own table kind. */
  datatype Kind = Companies | Jobs | Recruiters | Tasks

  datatype Store = Store(
    companies: Table<Company>, jobs: Table<Job>, recruiters: Table<Recruiter>,
    tasks: Table<Task>)
  {
    ghost predicate Valid() {
      companies.Valid() && jobs.Valid() && recruiters.Valid() && tasks.Valid()
    }

    /** The primary keys present in the table of kind `k`. */
    function Keys(k: Kind): set<Id> {
      match k
      case Companies => companies.rows.Keys
      case Jobs => jobs.rows.Keys
      case Recruiters => recruiters.rows.Keys
      case Tasks => tasks.rows.Keys
    }
  }

  /** The empty database, every sequence at 1. */
  const Empty := Store(Table(map[], 1), Table(map[], 1), Table(map[], 1), Table(map[], 1))

  /** `s'` equals `s` in every table except possibly the one of kind `k`. */
  ghost predicate SameExcept(s: Store, s': Store, k: Kind) {
    && (k != Companies ==> s'.companies == s.companies)
    && (k != Jobs ==> s'.jobs == s.jobs)
    && (k != Recruiters ==> s'.recruiters == s.recruiters)
    && (k != Tasks ==> s'.tasks == s.tasks)
  }

  /** `s'` is `s` with the row `id` of kind `k` deleted and nothing else. */
  ghost predicate RowRemoved(s: Store, s': Store, k: Kind, id: Id) {
    && SameExcept(s, s', k)
    && match k
       case Companies => RemovedOne(s.companies.rows, s'.companies.rows, id) && s'.companies.next == s.companies.next
       case Jobs => RemovedOne(s.jobs.rows, s'.jobs.rows, id) && s'.jobs.next == s.jobs.next
       case Recruiters => RemovedOne(s.recruiters.rows, s'.recruiters.rows, id) && s'.recruiters.next == s.recruiters.next
       case Tasks => RemovedOne(s.tasks.rows, s'.tasks.rows, id) && s'.tasks.next == s.tasks.next
  }

  /** Deleting the row an insert just created gives the table's rows back. */
  lemma {:induction false} RemoveUndoesInsert<R>(t: Table<R>, r: R)
    requires t.Valid()
    ensures Remove(Insert(t, r), t.next).rows == t.rows
  {
    var t' := Insert(t, r);
    assert t.next !in t.rows;
    assert Remove(t', t.next).rows.Keys == t.rows.Keys;
  }
}
