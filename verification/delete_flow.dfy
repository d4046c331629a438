/** The two-step deletion of the Edit/Delete tabs: each tab keeps the id
    selected for edit and the id awaiting confirmation in its session state;
    a request marks the loaded record as pending, and only a confirm on the
    pending record deletes it. The four tabs (jobs, recruiters, companies,
    tasks) behave alike and differ only in the delete they issue. */
module DeleteFlow {
  import opened Common
  import opened Store
  import opened Writes

  /** One tab's session state: `selected_*_id_for_edit` and
      `confirm_delete_*_id`. */
  datatype View = View(selected: Option<Id>, pending: Option<Id>)

  const Idle := View(None, None)

  /** One interaction, each followed by a rerun of the tab. */
  datatype Event =
    | Select(choice: Option<Id>)   // the record selector; `None` is its placeholder
    | RequestDelete                // "Request to Delete ..."
    | ConfirmDelete(fails: bool)   // "YES, Delete Now", with the delete raising or not
    | CancelDelete                 // "Cancel Deletion"

  datatype Outcome = Outcome(store: Store, view: View)

  /** The selected record's details were found, so its edit form and
      delete request button are shown. */
  predicate Loaded(k: Kind, s: Store, v: View) {
    Truthy(v.selected) && v.selected.value in s.Keys(k)
  }

  /** The confirm and cancel buttons are shown: the loaded record is the
      pending one. */
  predicate Confirming(k: Kind, s: Store, v: View) {
    Loaded(k, s, v) && v.pending == v.selected
  }

  /** The delete each tab issues: `delete_job_record` and
      `delete_task_record` for jobs and tasks, the inline statements for
      recruiters and companies. */
  function Delete(k: Kind, s: Store, id: Id, fails: bool): (w: Write)
    ensures id != 0 ==> (w.Committed? <==> !fails)
    ensures (k == Jobs || k == Tasks) && id == 0 ==> w == Refused(Invalid)
    ensures w.Committed? ==> RowRemoved(s, w.store, k, id)
  {
    match k
    case Jobs => DeleteJob(s, Online(fails), Some(id))
    case Tasks => DeleteTask(s, Online(fails), Some(id))
    case Companies => DeleteCompany(s, fails, id)
    case Recruiters => DeleteRecruiter(s, fails, id)
  }

  /** A rerun with the selector on `choice`: the selection follows the
      selector, except that a record that cannot be loaded is dropped ("Could
      not load selected ..."). The pending id is left as it was. */
  function Reselect(k: Kind, s: Store, v: View, choice: Option<Id>): (v': View)
    ensures v'.pending == v.pending
    ensures Truthy(v'.selected) ==> Loaded(k, s, v')
    ensures Truthy(choice) && choice.value in s.Keys(k) ==> v'.selected == choice
    ensures !Truthy(choice) ==> v'.selected == choice
    ensures v'.selected != choice ==> v'.selected == None
  {
    if Truthy(choice) && choice.value !in s.Keys(k) then View(None, v.pending)
    else View(choice, v.pending)
  }

  /** One interaction on the tab of kind `k`. */
  function Step(k: Kind, s: Store, v: View, e: Event): (r: Outcome)
    ensures !e.ConfirmDelete? ==> r.store == s
    ensures r.store != s ==>
      && e.ConfirmDelete? && Confirming(k, s, v)
      && RowRemoved(s, r.store, k, v.selected.value) && r.view == Idle
    ensures e.Select? ==> r.view.pending == v.pending
    ensures e.RequestDelete? && Loaded(k, s, v) ==> r == Outcome(s, View(v.selected, v.selected))
    ensures e.ConfirmDelete? && Confirming(k, s, v) && !e.fails ==>
      RowRemoved(s, r.store, k, v.selected.value) && r.view == Idle
    ensures e.ConfirmDelete? && e.fails ==> r == Outcome(s, v)
    ensures e.CancelDelete? && Confirming(k, s, v) ==> r == Outcome(s, View(v.selected, None))
    ensures !e.Select? && !Loaded(k, s, v) ==> r == Outcome(s, v)
    ensures (e.ConfirmDelete? || e.CancelDelete?) && !Confirming(k, s, v) ==> r == Outcome(s, v)
  {
    match e
    case Select(choice) => Outcome(s, Reselect(k, s, v, choice))
    case RequestDelete =>
      if Loaded(k, s, v) then Outcome(s, View(v.selected, v.selected)) else Outcome(s, v)
    case ConfirmDelete(fails) =>
      if Confirming(k, s, v) then
        var w := Delete(k, s, v.selected.value, fails);
        if w.Committed? then Outcome(w.store, Idle) else Outcome(s, v)
      else Outcome(s, v)
    case CancelDelete =>
      if Confirming(k, s, v) then Outcome(s, View(v.selected, None)) else Outcome(s, v)
  }

  /** A sequence of interactions, one after the other. */
  function Run(k: Kind, s: Store, v: View, events: seq<Event>): Outcome
    decreases |events|
  {
    if |events| == 0 then Outcome(s, v)
    else
      var o := Step(k, s, v, events[0]);
      Run(k, o.store, o.view, events[1..])
  }

  // ------------------------------------------------------ run invariants

  /** `t'` keeps some of the rows of `t`, unchanged, and the same sequence. */
  ghost predicate Kept<R>(t: Table<R>, t': Table<R>) {
    && t'.rows.Keys <= t.rows.Keys
    && (forall id :: id in t'.rows ==> t'.rows[id] == t.rows[id])
    && t'.next == t.next
  }

  /** `s'` is `s` with some rows of kind `k` deleted, and nothing else. */
  ghost predicate OnlyDeleted(s: Store, s': Store, k: Kind) {
    && SameExcept(s, s', k)
    && match k
       case Companies => Kept(s.companies, s'.companies)
       case Jobs => Kept(s.jobs, s'.jobs)
       case Recruiters => Kept(s.recruiters, s'.recruiters)
       case Tasks => Kept(s.tasks, s'.tasks)
  }

  lemma OnlyDeletedTrans(s0: Store, s1: Store, s2: Store, k: Kind)
    requires OnlyDeleted(s0, s1, k) && OnlyDeleted(s1, s2, k)
    ensures OnlyDeleted(s0, s2, k)
  {
  }

  /** One step deletes at most the pending record. */
  lemma StepOnlyDeletes(k: Kind, s: Store, v: View, e: Event)
    ensures OnlyDeleted(s, Step(k, s, v, e).store, k)
  {
  }

  /** Whatever the interactions, the tab of kind `k` never inserts or alters
      a row and never touches another table. */
  lemma {:induction false} RunOnlyDeletes(k: Kind, s: Store, v: View, events: seq<Event>)
    ensures OnlyDeleted(s, Run(k, s, v, events).store, k)
    decreases |events|
  {
    if |events| > 0 {
      var o := Step(k, s, v, events[0]);
      StepOnlyDeletes(k, s, v, events[0]);
      RunOnlyDeletes(k, o.store, o.view, events[1..]);
      OnlyDeletedTrans(s, o.store, Run(k, o.store, o.view, events[1..]).store, k);
    }
  }

  /** Without a request nothing is ever pending, so nothing is deleted. */
  lemma {:induction false} NoDeleteWithoutRequest(k: Kind, s: Store, v: View, events: seq<Event>)
    requires v.pending == None
    requires forall i :: 0 <= i < |events| ==> !events[i].RequestDelete?
    ensures Run(k, s, v, events).store == s
    ensures Run(k, s, v, events).view.pending == None
    decreases |events|
  {
    if |events| > 0 {
      var o := Step(k, s, v, events[0]);
      assert o.store == s && o.view.pending == None;
      assert forall i :: 0 <= i < |events[1..]| ==> !events[1..][i].RequestDelete? by {
        forall i | 0 <= i < |events[1..]| ensures !events[1..][i].RequestDelete? {
          assert events[1..][i] == events[i + 1];
        }
      }
      NoDeleteWithoutRequest(k, o.store, o.view, events[1..]);
    }
  }

  // ----------------------------------------------------------- scenarios

  /** A run is its first step followed by the rest. */
  lemma RunSteps(k: Kind, s: Store, v: View, events: seq<Event>)
    requires |events| > 0
    ensures Run(k, s, v, events)
         == Run(k, Step(k, s, v, events[0]).store, Step(k, s, v, events[0]).view, events[1..])
  {
  }

  /** Requesting the deletion of A, then selecting and requesting B, leaves
      A in place and B pending; cancelling then deletes nothing. */
  lemma RequestAThenBThenCancel(k: Kind, s: Store, a: Id, b: Id)
    requires a != 0 && b != 0 && a != b && a in s.Keys(k) && b in s.Keys(k)
    ensures Run(k, s, View(Some(a), None), [RequestDelete, Select(Some(b)), RequestDelete])
         == Outcome(s, View(Some(b), Some(b)))
    ensures Run(k, s, View(Some(a), None), [RequestDelete, Select(Some(b)), RequestDelete, CancelDelete])
         == Outcome(s, View(Some(b), None))
  {
    var v1 := View(Some(a), Some(a));
    var v2 := View(Some(b), Some(a));
    var v3 := View(Some(b), Some(b));
    assert Step(k, s, View(Some(a), None), RequestDelete) == Outcome(s, v1);
    assert Step(k, s, v1, Select(Some(b))) == Outcome(s, v2);
    assert Step(k, s, v2, RequestDelete) == Outcome(s, v3);
    assert Step(k, s, v3, CancelDelete) == Outcome(s, View(Some(b), None));
    var e3 := [RequestDelete, Select(Some(b)), RequestDelete];
    RunSteps(k, s, View(Some(a), None), e3);
    RunSteps(k, s, v1, e3[1..]);
    RunSteps(k, s, v2, e3[1..][1..]);
    assert e3[1..][1..][1..] == [];
    var e4 := [RequestDelete, Select(Some(b)), RequestDelete, CancelDelete];
    RunSteps(k, s, View(Some(a), None), e4);
    RunSteps(k, s, v1, e4[1..]);
    RunSteps(k, s, v2, e4[1..][1..]);
    RunSteps(k, s, v3, e4[1..][1..][1..]);
    assert e4[1..][1..][1..][1..] == [];
  }

  /** The same, confirmed instead of cancelled: B alone is deleted and the
      tab returns to idle. */
  lemma RequestAThenBThenConfirm(k: Kind, s: Store, a: Id, b: Id)
    requires a != 0 && b != 0 && a != b && a in s.Keys(k) && b in s.Keys(k)
    ensures var o := Run(k, s, View(Some(a), None),
                         [RequestDelete, Select(Some(b)), RequestDelete, ConfirmDelete(false)]);
      && RowRemoved(s, o.store, k, b) && a in o.store.Keys(k) && o.view == Idle
  {
    var e := [RequestDelete, Select(Some(b)), RequestDelete, ConfirmDelete(false)];
    var v1 := View(Some(a), Some(a));
    var v2 := View(Some(b), Some(a));
    var v3 := View(Some(b), Some(b));
    var last := Step(k, s, v3, ConfirmDelete(false));
    assert RowRemoved(s, last.store, k, b) && last.view == Idle;
    RunSteps(k, s, View(Some(a), None), e);
    assert Step(k, s, View(Some(a), None), RequestDelete) == Outcome(s, v1);
    RunSteps(k, s, v1, e[1..]);
    assert Step(k, s, v1, Select(Some(b))) == Outcome(s, v2);
    RunSteps(k, s, v2, e[1..][1..]);
    assert Step(k, s, v2, RequestDelete) == Outcome(s, v3);
    RunSteps(k, s, v3, e[1..][1..][1..]);
    assert e[1..][1..][1..][1..] == [];
  }

  /** Selecting another record does not clear a pending request: back on
      the first record, its confirm button deletes it with no new request. */
  lemma PendingSurvivesReselect(k: Kind, s: Store, a: Id, b: Id)
    requires a != 0 && b != 0 && a != b && a in s.Keys(k) && b in s.Keys(k)
    ensures var o := Run(k, s, View(Some(a), None),
                         [RequestDelete, Select(Some(b)), Select(Some(a)), ConfirmDelete(false)]);
      RowRemoved(s, o.store, k, a) && o.view == Idle
  {
    var e := [RequestDelete, Select(Some(b)), Select(Some(a)), ConfirmDelete(false)];
    var v1 := View(Some(a), Some(a));
    var v2 := View(Some(b), Some(a));
    var last := Step(k, s, v1, ConfirmDelete(false));
    assert RowRemoved(s, last.store, k, a) && last.view == Idle;
    RunSteps(k, s, View(Some(a), None), e);
    assert Step(k, s, View(Some(a), None), RequestDelete) == Outcome(s, v1);
    RunSteps(k, s, v1, e[1..]);
    assert Step(k, s, v1, Select(Some(b))) == Outcome(s, v2);
    RunSteps(k, s, v2, e[1..][1..]);
    assert Step(k, s, v2, Select(Some(a))) == Outcome(s, v1);
    RunSteps(k, s, v1, e[1..][1..][1..]);
    assert e[1..][1..][1..][1..] == [];
  }
}
