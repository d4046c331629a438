/** The Add Job form's submit handler: resolving the company (a typed new
    name wins over the dropdown and is inserted first, then looked up by
    name), validating the title, and inserting the job. */
module AddJobForm {
  import opened Common
  import opened Store
  import opened Writes
  import opened Options

  /** The largest id below `bound` of a company named `name`. */
  function LatestNamed(rows: map<Id, Company>, name: string, bound: nat): (r: Option<Id>)
    ensures r.Some? ==> r.value < bound && r.value in rows && rows[r.value].name == name
    ensures r.Some? ==> forall j :: r.value < j < bound && j in rows ==> rows[j].name != name
    ensures r.None? ==> forall j :: j < bound && j in rows ==> rows[j].name != name
    decreases bound
  {
    if bound == 0 then None
    else if bound - 1 in rows && rows[bound - 1].name == name then Some(bound - 1)
    else LatestNamed(rows, name, bound - 1)
  }

  /** `SELECT company_id FROM companies WHERE company_name = name
      ORDER BY company_id DESC LIMIT 1`: the newest company of that name. */
  function NewestCompanyNamed(t: Table<Company>, name: string): (r: Option<Id>)
    requires t.Valid()
    ensures r.Some? ==> r.value in t.rows && t.rows[r.value].name == name
    ensures r.Some? ==> forall j :: j in t.rows && t.rows[j].name == name ==> j <= r.value
    ensures r.None? <==> forall j :: j in t.rows ==> t.rows[j].name != name
  {
    LatestNamed(t.rows, name, t.next)
  }

  /** Which statements of the flow raise: the company insert, the lookup of
      the new company's id, the job insert. */
  datatype Faults = Faults(companyInsert: bool, lookup: bool, jobInsert: bool)

  const NoFaults := Faults(false, false, false)

  /** The form's fields. `selected` is the dropdown's option, `typed` the
      "Or Type New Company Name" field. */
  datatype AddJobInput = AddJobInput(
    title: string, selected: string, typed: string, location: string, status: string,
    url: string, notes: string, dateFound: Option<Date>)

  /** The company fields resolved: the store after any company insert, the
      company id, and whether resolution succeeded. */
  datatype Resolution = Resolution(store: Store, companyId: Option<Id>, valid: bool)

  /** The company a new row of `typed` gets: every other field empty. */
  function NewCompany(typed: string, now: Timestamp): Company {
    Company(typed, "", "", "", "", now)
  }

  /** The company resolution of the Add Job form. A typed name is inserted
      as a new company and resolved to the newest company of that name,
      which is the one just inserted; otherwise a real dropdown choice is
      looked up in the map; otherwise resolution fails. */
  function ResolveCompany(s: Store, connected: bool, f: Faults, d: OptionsMap, selected: string,
                          typed: string, now: Timestamp): (r: Resolution)
    requires s.Valid()
    ensures r.store.Valid()
    ensures typed != "" ==> (r.valid <==> connected && !f.companyInsert && !f.lookup)
    ensures typed != "" && r.valid ==> r.companyId == Some(s.companies.next)
    ensures typed != "" && !r.valid ==> r.companyId == None
    ensures typed != "" && connected && !f.companyInsert ==>
      && SameExcept(s, r.store, Companies)
      && AddedOne(s.companies.rows, r.store.companies.rows, s.companies.next, NewCompany(typed, now))
      && r.store.companies.next == s.companies.next + 1
    ensures typed == "" || !connected || f.companyInsert ==> r.store == s
    ensures typed == "" ==> (r.valid <==> selected != "" && selected != CompanyPlaceholder)
    ensures typed == "" && r.valid ==> r.companyId == d.Get(selected)
  {
    if typed != "" then
      var w := AddCompany(s, Conn(connected, f.companyInsert), typed, "", "", "", "", now);
      if w.Committed? then
        if f.lookup then Resolution(w.store, None, false)
        else
          var id := NewestCompanyNamed(w.store.companies, typed);
          assert w.store.companies.next - 1 == s.companies.next;
          assert id == Some(s.companies.next);
          Resolution(w.store, id, id.Some?)
      else Resolution(s, None, false)
    else if selected != "" && selected != CompanyPlaceholder then Resolution(s, d.Get(selected), true)
    else Resolution(s, None, false)
  }

  /** The outcome of one submit: the store afterwards and whether a job was
      inserted. */
  datatype Submission = Submission(store: Store, jobAdded: bool)

  /** The job row the form inserts for company `companyId`. */
  function NewJob(input: AddJobInput, companyId: Id, now: Timestamp): Job {
    Job(input.title, companyId, input.location, input.status, input.url, input.notes,
        input.dateFound, now)
  }

  /** Whether the company fields can resolve to a usable id at all. */
  predicate Resolvable(connected: bool, f: Faults, d: OptionsMap, input: AddJobInput) {
    if input.typed != "" then !f.companyInsert && !f.lookup
    else input.selected != "" && input.selected != CompanyPlaceholder && Truthy(d.Get(input.selected))
  }

  /** The submit handler as written: the company is resolved, and a typed
      company inserted, before the title is checked. */
  function SubmitAddJobAsWritten(s: Store, connected: bool, f: Faults, d: OptionsMap,
                                 input: AddJobInput, now: Timestamp): (r: Submission)
    requires s.Valid()
    ensures r.store.Valid()
    ensures r.jobAdded <==>
      connected && input.title != "" && !f.jobInsert && Resolvable(connected, f, d, input)
    ensures r.jobAdded && input.typed != "" ==>
      && AddedOne(s.companies.rows, r.store.companies.rows, s.companies.next, NewCompany(input.typed, now))
      && r.store.companies.next == s.companies.next + 1
      && AddedOne(s.jobs.rows, r.store.jobs.rows, s.jobs.next, NewJob(input, s.companies.next, now))
      && r.store.recruiters == s.recruiters && r.store.tasks == s.tasks
    ensures r.jobAdded && input.typed == "" ==>
      && SameExcept(s, r.store, Jobs)
      && AddedOne(s.jobs.rows, r.store.jobs.rows, s.jobs.next, NewJob(input, d.Get(input.selected).value, now))
    ensures !r.jobAdded && r.store != s ==>
      && input.typed != "" && connected && !f.companyInsert
      && (input.title == "" || f.lookup || f.jobInsert)
  {
    var res := ResolveCompany(s, connected, f, d, input.selected, input.typed, now);
    var valid := res.valid && input.title != "";
    if valid && Truthy(res.companyId) then
      var w := AddJob(res.store, Conn(connected, f.jobInsert), input.title, res.companyId,
                      input.location, input.status, input.url, input.notes, input.dateFound, now);
      Submission(After(res.store, w), w.Committed?)
    else Submission(res.store, false)
  }

  /** The submit handler with the title checked before anything is written:
      a form that fails validation leaves the store as it was. */
  function SubmitAddJob(s: Store, connected: bool, f: Faults, d: OptionsMap,
                        input: AddJobInput, now: Timestamp): (r: Submission)
    requires s.Valid()
    ensures r.store.Valid()
    ensures input.title == "" ==> r == Submission(s, false)
    ensures input.typed == "" && (input.selected == "" || input.selected == CompanyPlaceholder) ==>
      r == Submission(s, false)
    ensures r.jobAdded <==>
      connected && input.title != "" && !f.jobInsert && Resolvable(connected, f, d, input)
    ensures r.jobAdded && input.typed != "" ==>
      && AddedOne(s.companies.rows, r.store.companies.rows, s.companies.next, NewCompany(input.typed, now))
      && r.store.companies.next == s.companies.next + 1
      && AddedOne(s.jobs.rows, r.store.jobs.rows, s.jobs.next, NewJob(input, s.companies.next, now))
      && r.store.recruiters == s.recruiters && r.store.tasks == s.tasks
    ensures r.jobAdded && input.typed == "" ==>
      && SameExcept(s, r.store, Jobs)
      && AddedOne(s.jobs.rows, r.store.jobs.rows, s.jobs.next, NewJob(input, d.Get(input.selected).value, now))
    ensures !r.jobAdded && r.store != s ==>
      && input.typed != "" && connected && !f.companyInsert && (f.lookup || f.jobInsert)
  {
    if input.title == "" then Submission(s, false)
    else SubmitAddJobAsWritten(s, connected, f, d, input, now)
  }

  /** As written, a typed company is inserted even when the title is empty
      and no job follows: the form leaves a company nobody asked for. */
  lemma EmptyTitleStillAddsCompany(s: Store, d: OptionsMap, input: AddJobInput, now: Timestamp)
    requires s.Valid()
    requires input.title == "" && input.typed != ""
    ensures var r := SubmitAddJobAsWritten(s, true, NoFaults, d, input, now);
      && !r.jobAdded
      && r.store.companies.rows.Keys == s.companies.rows.Keys + {s.companies.next}
      && r.store.companies.rows[s.companies.next].name == input.typed
    ensures SubmitAddJob(s, true, NoFaults, d, input, now).store == s
  {
  }

  /** One submit with a typed company name and a title, nothing failing. */
  lemma TypedSubmit(s: Store, d: OptionsMap, input: AddJobInput, now: Timestamp)
    requires s.Valid()
    requires input.title != "" && input.typed != ""
    ensures var r := SubmitAddJob(s, true, NoFaults, d, input, now);
      && r.jobAdded && r.store.Valid()
      && AddedOne(s.companies.rows, r.store.companies.rows, s.companies.next, NewCompany(input.typed, now))
      && r.store.companies.next == s.companies.next + 1
      && r.store.jobs.rows[s.jobs.next].companyId == s.companies.next
  {
  }

  /** Submitting the same typed company name twice inserts two companies of
      that name (nothing deduplicates them) and the second job references
      the second one. */
  lemma {:induction false} TypedCompanyTwice(s: Store, d: OptionsMap, input: AddJobInput, now: Timestamp)
    requires s.Valid()
    requires input.title != "" && input.typed != ""
    ensures var r1 := SubmitAddJob(s, true, NoFaults, d, input, now);
      var r2 := SubmitAddJob(r1.store, true, NoFaults, d, input, now);
      && r1.jobAdded && r2.jobAdded
      && r2.store.companies.rows.Keys == s.companies.rows.Keys + {s.companies.next, s.companies.next + 1}
      && r2.store.companies.rows[s.companies.next].name == input.typed
      && r2.store.companies.rows[s.companies.next + 1].name == input.typed
      && r2.store.jobs.rows[r1.store.jobs.next].companyId == s.companies.next + 1
  {
    var r1 := SubmitAddJob(s, true, NoFaults, d, input, now);
    TypedSubmit(s, d, input, now);
    TypedSubmit(r1.store, d, input, now);
  }
}
