/** The write operations of app.py: each either refuses the request (missing
    connection, failed validation, or a database error rolled back) or
    commits exactly one row change. A refusal carries no store: the tables
    the caller holds are the ones it keeps. */
module Writes {
  import opened Common
  import opened Store

  datatype WriteError =
    | NotConnected  // `if not db_conn`
    | Invalid       // a required field is missing; no statement is issued
    | DbError       // the statement raised; the transaction was rolled back

  datatype Write = Committed(store: Store) | Refused(error: WriteError)

  /** The database state after a write, as the caller sees it. */
  function After(s: Store, w: Write): (s': Store)
    ensures w.Refused? ==> s' == s
    ensures w.Committed? ==> s' == w.store
  {
    if w.Committed? then w.store else s
  }

  // ---------------------------------------------------------------- jobs

  /** `add_new_job`: a title and a company id are required. */
  function AddJob(s: Store, db: Db, title: string, companyId: Option<Id>, location: string,
                  status: string, url: string, notes: string, dateFound: Option<Date>,
                  now: Timestamp): (w: Write)
    requires s.Valid()
    ensures db.Offline? ==> w == Refused(NotConnected)
    ensures db.Online? && (title == "" || companyId.None?) ==> w == Refused(Invalid)
    ensures db == Online(true) && title != "" && companyId.Some? ==> w == Refused(DbError)
    ensures w.Committed? <==> db == Online(false) && title != "" && companyId.Some?
    ensures w.Committed? ==>
      && w.store.Valid()
      && SameExcept(s, w.store, Jobs)
      && AddedOne(s.jobs.rows, w.store.jobs.rows, s.jobs.next,
                  Job(title, companyId.value, location, status, url, notes, dateFound, now))
  {
    if db.Offline? then Refused(NotConnected)
    else if title == "" then Refused(Invalid)
    else if companyId.None? then Refused(Invalid)
    else if db.fails then Refused(DbError)
    else
      var job := Job(title, companyId.value, location, status, url, notes, dateFound, now);
      Committed(s.(jobs := Insert(s.jobs, job)))
  }

  /** `update_job_details`: a truthy job id, a title, a status and a company
      id are required; the row is replaced in full except its creation time.
      An id that matches no row commits without changing anything. */
  function UpdateJob(s: Store, db: Db, jobId: Option<Id>, title: string, companyId: Option<Id>,
                     location: string, status: string, url: string, notes: string,
                     dateFound: Option<Date>): (w: Write)
    ensures s.Valid() && w.Committed? ==> w.store.Valid()
    ensures db.Offline? ==> w == Refused(NotConnected)
    ensures db.Online? && (!Truthy(jobId) || title == "" || status == "" || companyId.None?) ==>
      w == Refused(Invalid)
    ensures w.Committed? <==>
      db == Online(false) && Truthy(jobId) && title != "" && status != "" && companyId.Some?
    ensures w.Committed? ==>
      && SameExcept(s, w.store, Jobs)
      && w.store.jobs.next == s.jobs.next
      && ChangedAtMost(s.jobs.rows, w.store.jobs.rows, jobId.value)
      && (jobId.value in s.jobs.rows ==>
            w.store.jobs.rows[jobId.value] ==
              Job(title, companyId.value, location, status, url, notes, dateFound,
                  s.jobs.rows[jobId.value].createdAt))
      && (jobId.value !in s.jobs.rows ==> w.store == s)
  {
    if db.Offline? then Refused(NotConnected)
    else if !Truthy(jobId) || title == "" || status == "" then Refused(Invalid)
    else if companyId.None? then Refused(Invalid)
    else if db.fails then Refused(DbError)
    else
      Committed(s.(jobs := Update(s.jobs, jobId.value,
        (j: Job) => j.(title := title, companyId := companyId.value, location := location,
                       status := status, url := url, notes := notes, dateFound := dateFound))))
  }

  /** `delete_job_record`: a truthy job id is required. */
  function DeleteJob(s: Store, db: Db, jobId: Option<Id>): (w: Write)
    ensures s.Valid() && w.Committed? ==> w.store.Valid()
    ensures db.Offline? ==> w == Refused(NotConnected)
    ensures db.Online? && !Truthy(jobId) ==> w == Refused(Invalid)
    ensures w.Committed? <==> db == Online(false) && Truthy(jobId)
    ensures w.Committed? ==> RowRemoved(s, w.store, Jobs, jobId.value)
  {
    if db.Offline? then Refused(NotConnected)
    else if !Truthy(jobId) then Refused(Invalid)
    else if db.fails then Refused(DbError)
    else Committed(s.(jobs := Remove(s.jobs, jobId.value)))
  }

  // --------------------------------------------------------------- tasks

  /** `add_new_task`: a description and a status are required; the priority
      and the three links are stored as given, absent or not. */
  function AddTask(s: Store, db: Db, description: string, due: Option<Date>, status: string,
                   priority: Option<string>, notes: string, jobId: Option<Id>,
                   recruiterId: Option<Id>, companyId: Option<Id>, now: Timestamp): (w: Write)
    requires s.Valid()
    ensures db.Offline? ==> w == Refused(NotConnected)
    ensures db.Online? && (description == "" || status == "") ==> w == Refused(Invalid)
    ensures w.Committed? <==> db == Online(false) && description != "" && status != ""
    ensures w.Committed? ==>
      && w.store.Valid()
      && SameExcept(s, w.store, Tasks)
      && AddedOne(s.tasks.rows, w.store.tasks.rows, s.tasks.next,
                  Task(description, due, status, priority, notes, jobId, recruiterId, companyId, now))
  {
    if db.Offline? then Refused(NotConnected)
    else if description == "" || status == "" then Refused(Invalid)
    else if db.fails then Refused(DbError)
    else
      var task := Task(description, due, status, priority, notes, jobId, recruiterId, companyId, now);
      Committed(s.(tasks := Insert(s.tasks, task)))
  }

  /** `update_task_details`: a truthy task id, a description and a status
      are required; the row is replaced in full except its creation time. */
  function UpdateTask(s: Store, db: Db, taskId: Option<Id>, description: string, due: Option<Date>,
                      status: string, priority: Option<string>, notes: string, jobId: Option<Id>,
                      recruiterId: Option<Id>, companyId: Option<Id>): (w: Write)
    ensures s.Valid() && w.Committed? ==> w.store.Valid()
    ensures db.Offline? ==> w == Refused(NotConnected)
    ensures db.Online? && (!Truthy(taskId) || description == "" || status == "") ==>
      w == Refused(Invalid)
    ensures w.Committed? <==> db == Online(false) && Truthy(taskId) && description != "" && status != ""
    ensures w.Committed? ==>
      && SameExcept(s, w.store, Tasks)
      && w.store.tasks.next == s.tasks.next
      && ChangedAtMost(s.tasks.rows, w.store.tasks.rows, taskId.value)
      && (taskId.value in s.tasks.rows ==>
            w.store.tasks.rows[taskId.value] ==
              Task(description, due, status, priority, notes, jobId, recruiterId, companyId,
                   s.tasks.rows[taskId.value].createdAt))
      && (taskId.value !in s.tasks.rows ==> w.store == s)
  {
    if db.Offline? then Refused(NotConnected)
    else if !Truthy(taskId) || description == "" || status == "" then Refused(Invalid)
    else if db.fails then Refused(DbError)
    else
      Committed(s.(tasks := Update(s.tasks, taskId.value,
        (t: Task) => t.(description := description, due := due, status := status,
                        priority := priority, notes := notes, jobId := jobId,
                        recruiterId := recruiterId, companyId := companyId))))
  }

  /** `delete_task_record`: a truthy task id is required. */
  function DeleteTask(s: Store, db: Db, taskId: Option<Id>): (w: Write)
    ensures s.Valid() && w.Committed? ==> w.store.Valid()
    ensures db.Offline? ==> w == Refused(NotConnected)
    ensures db.Online? && !Truthy(taskId) ==> w == Refused(Invalid)
    ensures w.Committed? <==> db == Online(false) && Truthy(taskId)
    ensures w.Committed? ==> RowRemoved(s, w.store, Tasks, taskId.value)
  {
    if db.Offline? then Refused(NotConnected)
    else if !Truthy(taskId) then Refused(Invalid)
    else if db.fails then Refused(DbError)
    else Committed(s.(tasks := Remove(s.tasks, taskId.value)))
  }

  // ----------------------------------------------------------- companies

  /** `add_new_company`: a name is required. */
  function AddCompany(s: Store, db: Db, name: string, sector: string, website: string,
                      notes: string, source: string, now: Timestamp): (w: Write)
    requires s.Valid()
    ensures db.Offline? ==> w == Refused(NotConnected)
    ensures db.Online? && name == "" ==> w == Refused(Invalid)
    ensures w.Committed? <==> db == Online(false) && name != ""
    ensures w.Committed? ==>
      && w.store.Valid()
      && SameExcept(s, w.store, Companies)
      && w.store.companies.next == s.companies.next + 1
      && AddedOne(s.companies.rows, w.store.companies.rows, s.companies.next,
                  Company(name, sector, website, notes, source, now))
  {
    if db.Offline? then Refused(NotConnected)
    else if name == "" then Refused(Invalid)
    else if db.fails then Refused(DbError)
    else Committed(s.(companies := Insert(s.companies, Company(name, sector, website, notes, source, now))))
  }

  /** The company edit form's update (issued inline by the page, with no
      connection check of its own): a name is required. */
  function UpdateCompany(s: Store, fails: bool, id: Id, name: string, sector: string,
                         website: string, notes: string, source: string): (w: Write)
    ensures s.Valid() && w.Committed? ==> w.store.Valid()
    ensures name == "" ==> w == Refused(Invalid)
    ensures w.Committed? <==> !fails && name != ""
    ensures w.Committed? ==>
      && SameExcept(s, w.store, Companies)
      && w.store.companies.next == s.companies.next
      && ChangedAtMost(s.companies.rows, w.store.companies.rows, id)
      && (id in s.companies.rows ==>
            w.store.companies.rows[id] ==
              Company(name, sector, website, notes, source, s.companies.rows[id].createdAt))
  {
    if name == "" then Refused(Invalid)
    else if fails then Refused(DbError)
    else
      Committed(s.(companies := Update(s.companies, id,
        (c: Company) => c.(name := name, sector := sector, website := website, notes := notes,
                           source := source))))
  }

  /** The company edit view's confirmed delete (issued inline by the page). */
  function DeleteCompany(s: Store, fails: bool, id: Id): (w: Write)
    ensures s.Valid() && w.Committed? ==> w.store.Valid()
    ensures w.Committed? <==> !fails
    ensures w.Refused? ==> w.error == DbError
    ensures w.Committed? ==> RowRemoved(s, w.store, Companies, id)
  {
    if fails then Refused(DbError) else Committed(s.(companies := Remove(s.companies, id)))
  }

  // ---------------------------------------------------------- recruiters

  /** `add_new_recruiter`: a name is required; the agency may be absent. */
  function AddRecruiter(s: Store, db: Db, name: string, agencyId: Option<Id>, contact: string,
                        notes: string, firstContact: Option<Date>, now: Timestamp): (w: Write)
    requires s.Valid()
    ensures db.Offline? ==> w == Refused(NotConnected)
    ensures db.Online? && name == "" ==> w == Refused(Invalid)
    ensures w.Committed? <==> db == Online(false) && name != ""
    ensures w.Committed? ==>
      && w.store.Valid()
      && SameExcept(s, w.store, Recruiters)
      && AddedOne(s.recruiters.rows, w.store.recruiters.rows, s.recruiters.next,
                  Recruiter(name, agencyId, contact, notes, firstContact, now))
  {
    if db.Offline? then Refused(NotConnected)
    else if name == "" then Refused(Invalid)
    else if db.fails then Refused(DbError)
    else
      var r := Recruiter(name, agencyId, contact, notes, firstContact, now);
      Committed(s.(recruiters := Insert(s.recruiters, r)))
  }

  /** The recruiter edit form's update (issued inline by the page): a name is
      required; the agency may be absent. */
  function UpdateRecruiter(s: Store, fails: bool, id: Id, name: string, agencyId: Option<Id>,
                           contact: string, notes: string, firstContact: Option<Date>): (w: Write)
    ensures s.Valid() && w.Committed? ==> w.store.Valid()
    ensures name == "" ==> w == Refused(Invalid)
    ensures w.Committed? <==> !fails && name != ""
    ensures w.Committed? ==>
      && SameExcept(s, w.store, Recruiters)
      && w.store.recruiters.next == s.recruiters.next
      && ChangedAtMost(s.recruiters.rows, w.store.recruiters.rows, id)
      && (id in s.recruiters.rows ==>
            w.store.recruiters.rows[id] ==
              Recruiter(name, agencyId, contact, notes, firstContact, s.recruiters.rows[id].createdAt))
  {
    if name == "" then Refused(Invalid)
    else if fails then Refused(DbError)
    else
      Committed(s.(recruiters := Update(s.recruiters, id,
        (r: Recruiter) => r.(name := name, agencyId := agencyId, contact := contact, notes := notes,
                             firstContact := firstContact))))
  }

  /** The recruiter edit view's confirmed delete (issued inline by the page). */
  function DeleteRecruiter(s: Store, fails: bool, id: Id): (w: Write)
    ensures s.Valid() && w.Committed? ==> w.store.Valid()
    ensures w.Committed? <==> !fails
    ensures w.Refused? ==> w.error == DbError
    ensures w.Committed? ==> RowRemoved(s, w.store, Recruiters, id)
  {
    if fails then Refused(DbError) else Committed(s.(recruiters := Remove(s.recruiters, id)))
  }

  // -------------------------------------------------------------- lemmas

  /** Updates are full-row replacements: repeating the same update changes
      nothing more. */
  lemma UpdateJobIdempotent(s: Store, jobId: Option<Id>, title: string, companyId: Option<Id>,
                            location: string, status: string, url: string, notes: string,
                            dateFound: Option<Date>)
    requires UpdateJob(s, Online(false), jobId, title, companyId, location, status, url, notes, dateFound).Committed?
    ensures var s1 := UpdateJob(s, Online(false), jobId, title, companyId, location, status, url, notes, dateFound).store;
            UpdateJob(s1, Online(false), jobId, title, companyId, location, status, url, notes, dateFound)
              == Committed(s1)
  {
    var s1 := UpdateJob(s, Online(false), jobId, title, companyId, location, status, url, notes, dateFound).store;
    var w2 := UpdateJob(s1, Online(false), jobId, title, companyId, location, status, url, notes, dateFound);
    var id := jobId.value;
    if id in s.jobs.rows {
      assert w2.store.jobs.rows.Keys == s1.jobs.rows.Keys;
      assert w2.store.jobs.rows == s1.jobs.rows;
    }
  }

  /** Deleting the job an add just created restores the jobs table's rows. */
  lemma DeleteUndoesAddJob(s: Store, title: string, companyId: Option<Id>, location: string,
                           status: string, url: string, notes: string, dateFound: Option<Date>,
                           now: Timestamp)
    requires s.Valid()
    requires title != "" && companyId.Some?
    ensures var s1 := AddJob(s, Online(false), title, companyId, location, status, url, notes, dateFound, now).store;
            var w := DeleteJob(s1, Online(false), Some(s.jobs.next));
            w.Committed? && w.store.jobs.rows == s.jobs.rows
              && w.store.companies == s.companies && w.store.recruiters == s.recruiters
              && w.store.tasks == s.tasks
  {
    var job := Job(title, companyId.value, location, status, url, notes, dateFound, now);
    RemoveUndoesInsert(s.jobs, job);
  }

  /** Repeating the same task update changes nothing more. */
  lemma UpdateTaskIdempotent(s: Store, taskId: Option<Id>, description: string, due: Option<Date>,
                             status: string, priority: Option<string>, notes: string, jobId: Option<Id>,
                             recruiterId: Option<Id>, companyId: Option<Id>)
    requires UpdateTask(s, Online(false), taskId, description, due, status, priority, notes,
                        jobId, recruiterId, companyId).Committed?
    ensures var s1 := UpdateTask(s, Online(false), taskId, description, due, status, priority, notes,
                                 jobId, recruiterId, companyId).store;
            UpdateTask(s1, Online(false), taskId, description, due, status, priority, notes,
                       jobId, recruiterId, companyId) == Committed(s1)
  {
    var s1 := UpdateTask(s, Online(false), taskId, description, due, status, priority, notes,
                         jobId, recruiterId, companyId).store;
    var w2 := UpdateTask(s1, Online(false), taskId, description, due, status, priority, notes,
                         jobId, recruiterId, companyId);
    if taskId.value in s.tasks.rows {
      assert w2.store.tasks.rows.Keys == s1.tasks.rows.Keys;
      assert w2.store.tasks.rows == s1.tasks.rows;
    }
  }

  /** Repeating the same company update changes nothing more. */
  lemma UpdateCompanyIdempotent(s: Store, id: Id, name: string, sector: string, website: string,
                                notes: string, source: string)
    requires name != ""
    ensures var s1 := UpdateCompany(s, false, id, name, sector, website, notes, source).store;
            UpdateCompany(s1, false, id, name, sector, website, notes, source) == Committed(s1)
  {
    var s1 := UpdateCompany(s, false, id, name, sector, website, notes, source).store;
    var w2 := UpdateCompany(s1, false, id, name, sector, website, notes, source);
    if id in s.companies.rows {
      assert w2.store.companies.rows.Keys == s1.companies.rows.Keys;
      assert w2.store.companies.rows == s1.companies.rows;
    }
  }

  /** Repeating the same recruiter update changes nothing more. */
  lemma UpdateRecruiterIdempotent(s: Store, id: Id, name: string, agencyId: Option<Id>,
                                  contact: string, notes: string, firstContact: Option<Date>)
    requires name != ""
    ensures var s1 := UpdateRecruiter(s, false, id, name, agencyId, contact, notes, firstContact).store;
            UpdateRecruiter(s1, false, id, name, agencyId, contact, notes, firstContact) == Committed(s1)
  {
    var s1 := UpdateRecruiter(s, false, id, name, agencyId, contact, notes, firstContact).store;
    var w2 := UpdateRecruiter(s1, false, id, name, agencyId, contact, notes, firstContact);
    if id in s.recruiters.rows {
      assert w2.store.recruiters.rows.Keys == s1.recruiters.rows.Keys;
      assert w2.store.recruiters.rows == s1.recruiters.rows;
    }
  }

  /** Deleting the task an add just created restores the tasks table's rows. */
  lemma DeleteUndoesAddTask(s: Store, description: string, due: Option<Date>, status: string,
                            priority: Option<string>, notes: string, jobId: Option<Id>,
                            recruiterId: Option<Id>, companyId: Option<Id>, now: Timestamp)
    requires s.Valid()
    requires description != "" && status != ""
    ensures var s1 := AddTask(s, Online(false), description, due, status, priority, notes,
                              jobId, recruiterId, companyId, now).store;
            var w := DeleteTask(s1, Online(false), Some(s.tasks.next));
            w.Committed? && w.store.tasks.rows == s.tasks.rows
              && w.store.companies == s.companies && w.store.jobs == s.jobs
              && w.store.recruiters == s.recruiters
  {
    RemoveUndoesInsert(s.tasks, Task(description, due, status, priority, notes, jobId, recruiterId, companyId, now));
  }

  /** Deleting the company an add just created restores the companies
      table's rows. */
  lemma DeleteUndoesAddCompany(s: Store, name: string, sector: string, website: string,
                               notes: string, source: string, now: Timestamp)
    requires s.Valid()
    requires name != ""
    ensures var s1 := AddCompany(s, Online(false), name, sector, website, notes, source, now).store;
            var w := DeleteCompany(s1, false, s.companies.next);
            w.Committed? && w.store.companies.rows == s.companies.rows
              && w.store.jobs == s.jobs && w.store.recruiters == s.recruiters
              && w.store.tasks == s.tasks
  {
    RemoveUndoesInsert(s.companies, Company(name, sector, website, notes, source, now));
  }

  /** Deleting the recruiter an add just created restores the recruiters
      table's rows. */
  lemma DeleteUndoesAddRecruiter(s: Store, name: string, agencyId: Option<Id>, contact: string,
                                 notes: string, firstContact: Option<Date>, now: Timestamp)
    requires s.Valid()
    requires name != ""
    ensures var s1 := AddRecruiter(s, Online(false), name, agencyId, contact, notes, firstContact, now).store;
            var w := DeleteRecruiter(s1, false, s.recruiters.next);
            w.Committed? && w.store.recruiters.rows == s.recruiters.rows
              && w.store.companies == s.companies && w.store.jobs == s.jobs
              && w.store.tasks == s.tasks
  {
    RemoveUndoesInsert(s.recruiters, Recruiter(name, agencyId, contact, notes, firstContact, now));
  }
}
