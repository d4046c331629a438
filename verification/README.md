# Personal CRM: a Dafny model of its data-and-consistency layer

Personal CRM is a single-user job-search tracker. One operator records companies, job postings, recruiters and follow-up tasks in four database tables, and a dashboard shows simple counts. Everything of substance lives in `app.py`. This project models the part of it that keeps the tables and the selection widgets consistent:

- the write functions and their validation, including the recruiter and company updates and deletes that the pages issue inline;
- the name-to-id lookup maps that feed every selector, each headed by a placeholder entry;
- the pre-selection of the edit forms' selectors, and the translation of the chosen option back to a stored id or value;
- the dashboard's job-status counts and its list of upcoming open tasks;
- the Add Job form's company resolution, where a typed new name wins over the dropdown;
- the two-step delete confirmation that each Edit/Delete tab keeps in its session state.

The database is a `Store` of four `Table`s. Each table maps primary keys to immutable records and keeps the next value of its serial sequence. A write either refuses the request, which leaves the store as it was, or commits exactly one row change. Refusals come from a missing connection, failed validation, or a database error that was rolled back. Whether a statement raises is a parameter: `Db`, `fails`, and `Faults` in Add Job. So is the result of a read query (`Query`): no connection, an error, or the rows in the order the query returns them.

`app.py` is a single file. The modules split it by concern:

- `Common`: `Option`, ids and Python truthiness, and the shape of a database outcome.
- `Store`: records, tables and generic row operations.
- `Writes`: the write functions.
- `Options`: the lookup maps.
- `Selection`: selector indices and the read-back of choices.
- `Dashboard`: the dashboard aggregates.
- `AddJobForm`: the Add Job submit handler.
- `DeleteFlow`: the delete confirmation state machine.

## Model

| member | source | states |
|---|---|---|
| Writes.AddJob | app.py:96-107 | Refused without a connection. With a connection, refused (store untouched) when the title is empty or the company id is absent. Commits iff connected, title and company given, and the insert does not raise. A commit adds exactly one job with the given fields under the next serial id, leaves the other tables alone and keeps the store valid. |
| Writes.UpdateJob | app.py:109-120 | Refused without a connection, or when the id is falsy or title, status or company is missing. Otherwise commits unless the statement raises. A commit changes at most the targeted row, replacing every field but the creation time. A missing id commits with no change. |
| Writes.DeleteJob | app.py:122-129 | Refused without a connection or for a falsy id. Otherwise commits unless the statement raises. A commit removes exactly that row and nothing else. |
| Writes.AddTask | app.py:232-242 | Refused without a connection or when the description or status is empty. A commit adds exactly one task with the given priority and links, absent or not, under the next id. |
| Writes.UpdateTask | app.py:259-272 | Refused without a connection, or for a falsy id, empty description or empty status. A commit replaces at most the targeted row, keeping its creation time. A missing id changes nothing. |
| Writes.DeleteTask | app.py:274-281 | Refused without a connection or for a falsy id. A commit removes exactly that row. |
| Writes.AddCompany | app.py:182-192 | Refused without a connection or for an empty name. A commit adds exactly one company under the next id and advances the sequence by one. |
| Writes.UpdateCompany | app.py:652-662 | The inline company update: refused for an empty name or when the statement raises. A commit replaces at most that row, keeping its creation time. |
| Writes.DeleteCompany | app.py:672-679 | The inline company delete: commits unless the statement raises. A commit removes exactly that row. |
| Writes.AddRecruiter | app.py:153-163 | Refused without a connection or for an empty name. The agency may be absent. A commit adds exactly one recruiter under the next id. |
| Writes.UpdateRecruiter | app.py:558-568 | The inline recruiter update: refused for an empty name or when the statement raises. A commit replaces at most that row, keeping its creation time. |
| Writes.DeleteRecruiter | app.py:578-585 | The inline recruiter delete: a commit removes exactly that row. |
| Writes.UpdateJobIdempotent | app.py:109-120 | Repeating a committed job update commits and changes nothing more. |
| Writes.UpdateTaskIdempotent | app.py:259-272 | Repeating a committed task update commits and changes nothing more. |
| Writes.UpdateCompanyIdempotent | app.py:652-662 | Repeating a company update changes nothing more. |
| Writes.UpdateRecruiterIdempotent | app.py:558-568 | Repeating a recruiter update changes nothing more. |
| Writes.DeleteUndoesAddJob | app.py:96-129 | Deleting the job that an add just created restores the jobs rows and leaves the other tables as before. |
| Writes.DeleteUndoesAddTask | app.py:232-281 | Deleting the task that an add just created restores the tasks rows. |
| Writes.DeleteUndoesAddCompany | app.py:182-192 | Deleting the company that an add just created restores the companies rows. |
| Writes.DeleteUndoesAddRecruiter | app.py:153-163 | Deleting the recruiter that an add just created restores the recruiters rows. |
| Options.BuildOptions | app.py:35-50 | `get_options` as written. The placeholder is the first key. Without a connection or on a query error the map is exactly {placeholder: None}. Any other key is present iff some row has that name, and it maps to the id of the last such row. The placeholder maps to None iff no row carries its text. |
| Options.BuildReservedOptions | app.py:35-50 | The same map with the placeholder kept reserved: still first, always None, and every other key resolving to the id of the last row of that name. |
| Options.LoadSelectboxOptions | app.py:33-55 | Each of the company, job and recruiter maps, built by `get_options` as written, has its own placeholder first. The placeholder maps to None and is not offered iff the query failed or no row carries its text. If some row does, the placeholder maps to an id and is offered. |
| Options.ActualNames | app.py:303-305 | For a well-formed map, a name is offered iff it maps to an id. |
| Options.OptionsResolveToTable | app.py:44-46 | Every non-placeholder key resolves to a row of the table carrying that name. Every name in the table, other than the placeholder text, is offered. |
| Options.DuplicateNameKeepsLast | app.py:44-45 | Two rows sharing a name leave one entry, with the later row's id. |
| Options.PlaceholderCollision | app.py:36-45 | As written, a company named like the placeholder takes over the placeholder entry. The reserved map keeps it None. |
| Selection.JobStatusIndex | app.py:452 | The job status selector index is in range. It shows the stored status when it is in the vocabulary, otherwise "Not Applied". |
| Selection.TaskStatusIndex | app.py:764 | The task status selector index is in range. It shows the stored status, otherwise "Open". |
| Selection.PriorityIndex | app.py:767 | The priority selector index is in range. It shows the stored priority when listed, otherwise "---". |
| Selection.StoredPriority | app.py:795 | "---" is stored as no priority, and any other choice is stored as itself. |
| Selection.PriorityRoundTrip | app.py:767-795 | Saving the task edit form untouched keeps the priority iff it is absent or one of Low, Medium, High. |
| Selection.SelectIdx | app.py:773-778 | `get_select_idx` is in range of [placeholder] + names. It is 0 when there are no names, when the id is falsy, or when no offered name maps to the id. A positive index points at a name mapping to the current id, and an offered match forces a positive index. |
| Selection.ResolveLink | app.py:792-794 | A task link's placeholder reads back as None, and any other option as its map entry. |
| Selection.LinkRoundTrip | app.py:773-794 | For a well-formed map whose placeholder is not offered, saving the task edit form untouched keeps each link iff its id is truthy and still in the map. Otherwise the link is cleared. |
| Selection.EditJobCompanyIndex | app.py:442-447 | The job edit form's company index is in range. It points at the job's company when that company is offered, and is 0 when it is not. |
| Selection.ResolveEditCompany | app.py:461 | The company choice reads back as None when it is empty or not in the map, otherwise as its map entry. |
| Selection.EditJobCompanyRoundTrip | app.py:442-461 | For any well-formed map, saving the job edit form untouched keeps the company when it is offered. Otherwise it moves the job to the first offered company. |
| Selection.AgencyIndex | app.py:540-545 | The agency index is one past the position of the recruiter's agency, or 0 for "no specific agency". A falsy agency gives 0, and an offered agency gives a positive index. |
| Selection.ResolveAgency | app.py:553-555 | Either reserved label, or an empty choice, reads back as no agency. Any other choice reads back as its map entry. |
| Selection.AgencyRoundTrip | app.py:540-555 | For a well-formed map offering no company named "", "--- No Specific Agency ---" or "--- Select Company ---", saving the recruiter edit form untouched keeps the agency iff it is truthy and still in the map. Otherwise the agency is cleared. |
| Selection.CollidingCompanies | app.py:36-46 | The company map as loaded from one company named "--- Select Company ---" with id 7: well formed, the placeholder maps to 7, and that name is the only one offered. |
| Selection.CollisionClearsLinks | app.py:540-555 | On that map, saving the task edit form untouched clears a company link to 7 although 7 is in the map. Saving the recruiter edit form untouched clears an agency of 7. |
| Dashboard.JobStatusCounts | app.py:64-73 | Empty iff there is no connection. Otherwise the keys are exactly Not Applied, Applied, Interviewing and Offer, never Rejected. All are 0 on a query error. Each holds the count of the last row returned for it, or 0 when no row names it. |
| Dashboard.CopyCountsValue | app.py:70-71 | The copy loop leaves under each key the count of the last row for it, or its initial value. |
| Dashboard.StatusCountsOfJobs | app.py:66-71 | Over a jobs table, each counted status reports exactly the number of jobs having it. |
| Dashboard.CountsAccountForJobs | app.py:66-69 | The four counts plus the jobs with any other status add up to the number of jobs. |
| Dashboard.RejectedNotCounted | app.py:66 | Adding a rejected job changes none of the counts. |
| Dashboard.StatusCountsExample | app.py:64-73 | Applied, Applied, Interviewing, Offer, Not Applied give {Not Applied: 1, Applied: 2, Interviewing: 1, Offer: 1}. |
| Dashboard.OpenTasks | app.py:206 | Keeps exactly the tasks whose status is neither Completed nor Cancelled. |
| Dashboard.FirstOpen | app.py:206-208 | The filtered query with its limit is the first min(count, open) open tasks, in query order. |
| Dashboard.UpcomingTasks | app.py:195-211 | Empty without a connection or on a query error. Otherwise at most `count` tasks, none Completed or Cancelled, namely the first open ones in query order; all open tasks when there are no more than `count`. |
| AddJobForm.NewestCompanyNamed | app.py:399-401 | The lookup returns a company of that name with the largest id among them, and None iff no company has that name. |
| AddJobForm.ResolveCompany | app.py:393-413 | A typed name inserts one company with empty other fields. When the insert and the lookup succeed, it resolves to exactly that new company's id. Without a typed name, a real dropdown choice resolves through the map. The empty choice and the placeholder fail. |
| AddJobForm.SubmitAddJobAsWritten | app.py:389-418 | The handler as written. A job is added iff connected, the title is non-empty, the company resolves to a truthy id, and no statement raises. The added job references the new company or the chosen one. When no job is added but the store changed, a typed company was inserted, with an empty title or a later failure. |
| AddJobForm.SubmitAddJob | app.py:389-418 | The handler with the title checked first. An empty title, or no company typed and none chosen, leaves the store untouched. Otherwise the job is added under the same conditions, and only a failed lookup or job insert can leave the new company behind. |
| AddJobForm.EmptyTitleStillAddsCompany | app.py:393-416 | As written, an empty title with a typed company adds that company and no job. The corrected handler leaves the store unchanged. |
| AddJobForm.TypedCompanyTwice | app.py:393-418 | Submitting the same typed name twice creates two companies of that name, and the second job references the second one. |
| DeleteFlow.Delete | app.py:477 | Each tab's delete commits iff it does not raise (for a truthy id). A commit removes exactly that row of that table. |
| DeleteFlow.Reselect | app.py:431-433 | The selection follows the selector, and a record that cannot be loaded is dropped. The pending id is untouched. |
| DeleteFlow.Step | app.py:469-483 | A request on a loaded record makes it the pending one, overwriting any earlier pending id. A confirm on the pending record that does not raise deletes exactly that row and clears both ids; one that raises changes nothing. Cancel clears the pending id and deletes nothing. No other event changes the store. |
| DeleteFlow.RunOnlyDeletes | app.py:469-483 | Any sequence of interactions on a tab only removes rows of that tab's table: nothing is inserted or altered, and no other table changes. |
| DeleteFlow.NoDeleteWithoutRequest | app.py:469-474 | Without a request nothing becomes pending and nothing is deleted. |
| DeleteFlow.RequestAThenBThenCancel | app.py:469-481 | Request A, select B, request B: A stays and B is pending. Cancelling then deletes nothing. |
| DeleteFlow.RequestAThenBThenConfirm | app.py:469-481 | The same sequence confirmed deletes B only, keeps A, and returns the tab to idle. |
| DeleteFlow.PendingSurvivesReselect | app.py:431-478 | Selecting another record keeps A pending. Back on A, confirm deletes it with no new request. |

Four behaviours of the code that a reader might not expect, all kept as written:

- **Status counts omit Rejected.** The counts cover four statuses; there is no Rejected key at all, not even one that reads 0 (`Dashboard.RejectedNotCounted`).
- **Missing ids on update or delete.** Updating or deleting an id that matches no row reports success and changes nothing, rather than a soft "already gone" failure.
- **Pending deletions survive navigation.** Selecting another record does not cancel a pending deletion (`DeleteFlow.PendingSurvivesReselect`).
- **Add Job can leave a new company behind.** A failed Add Job can leave its new company in place. See Findings.

## Left out

- connect_db.py and `init_db_conn`: environment loading and the connection itself are I/O. The connection is the `Db`/`connected` parameter.
- Streamlit rendering (pages, tabs, forms, messages, `st.rerun`) and the `st.cache_resource` / `st.cache_data(ttl=300)` caching. The model always reads the current store.
- SQL execution, commit and rollback, and the `ORDER BY` clauses of the list queries. A query's rows arrive in the order it returns them, as a parameter.
- The read-only list and detail queries: `get_total_jobs_count`, `get_all_*`, `get_recent_*`, `get_job_details`, `get_task_details`, and their joins. Loading a record is modelled as its key being present.
- Dates: `date_found` defaulting to today, and all date formatting. Dates and creation timestamps are opaque integers passed in.
- Serial sequences advance in PostgreSQL even when an insert is rolled back. The model leaves `next` unchanged on a refused insert. This changes no id the application reads back.
- Foreign-key behaviour: deleting a company or recruiter still referenced elsewhere, and dangling task links. Whether a delete raises is the `fails` parameter, and no cascade is modelled.
- `get_job_status_counts` can fail halfway through its copy loop and then return partly copied counts. The model treats a query error as happening before any row is copied, so all counts are 0.
- Display labels of the Edit/Delete selectors (`title @ company (ID:n)` and the truncated task descriptions). The `Select` event carries the chosen id directly.
- A successful edit clears the selected id, but the selector reselects the record on the next rerun. The delete flow does not model this step, and updates appear only as write functions.
- When a table is empty, its Edit/Delete tab shows only a notice and leaves the session state untouched. The model does not restrict `Select` events in that case.
- The job edit form without any company: the page shows a disabled text field. The update then receives no company id, and `Writes.UpdateJob` refuses it.
- The Add Recruiter, Add Company and Add Task submit handlers are not modelled as one function each. They are modelled through their read-back (`Selection.ResolveAgency`, `Selection.ResolveLink`, `Selection.StoredPriority`) and the corresponding write.
- Selection.EditJobCompanyRoundTrip: assumes at least one company is offered and none is named "". Otherwise the form shows no selector, or an empty name reads back as no company.
- Selection.LinkRoundTrip: assumes the placeholder is not offered. A loaded map breaks this when a row carries the placeholder's text; `Selection.CollisionClearsLinks` shows the link being cleared then (first finding).
- Selection.AgencyRoundTrip: assumes no company is named "", "--- No Specific Agency ---" or "--- Select Company ---", since each of these names reads back as no agency. `Selection.CollisionClearsLinks` shows the last case.

## Findings

| source | as written | input that shows it | evidently intended | confidence | as-written member | corrected member |
|---|---|---|---|---|---|---|
| app.py:36-45 | `{placeholder: None}` is written first; any row whose name equals the placeholder text then overwrites it | a company named `--- Select Company ---` with id 7: the placeholder entry maps to 7, so the name is offered twice and choosing it reads back as no company | the placeholder stays reserved and maps to None | medium, not executed | Options.BuildOptions (shown by Options.PlaceholderCollision and Selection.CollisionClearsLinks) | Options.BuildReservedOptions |
| app.py:393-416 | the typed company is inserted and committed before the title is checked | empty title, typed company "Acme", connected, nothing failing: a company is added and no job | validate the whole form before writing, so that a rejected form leaves no trace | high, not executed | AddJobForm.SubmitAddJobAsWritten (shown by AddJobForm.EmptyTitleStillAddsCompany) | AddJobForm.SubmitAddJob |
