/** Pre-selection of the edit forms' selectors and the translation of a
    chosen option back to a stored value: `get_select_idx`, the inline
    index loops for a job's company and a recruiter's agency, the
    `opts.index(v) if v in opts else 0` fallbacks for the status and
    priority selectors, and the placeholder-to-`None` rules. */
module Selection {
  import opened Common
  import opened Options

  const JobStatusOptions: seq<string> := ["Not Applied", "Applied", "Interviewing", "Rejected", "Offer"]
  const TaskStatusOptions: seq<string> := ["Open", "In Progress", "Awaiting Feedback", "Completed", "Cancelled"]

  /** The first priority option stands for "no priority". */
  const NoPriority: string := "---"
  const PriorityOptions: seq<string> := [NoPriority, "Low", "Medium", "High"]

  /** The first option of the recruiter agency selector. */
  const NoAgency: string := "--- No Specific Agency ---"

  /** `s.index(x)`: the first position holding `x`. */
  function IndexOf(s: seq<string>, x: string): (i: nat)
    requires x in s
    ensures i < |s| && s[i] == x
    ensures forall j :: 0 <= j < i ==> s[j] != x
  {
    if s[0] == x then 0 else 1 + IndexOf(s[1..], x)
  }

  /** `opts.index(v) if v in opts else 0`. */
  function OptionIndex(opts: seq<string>, v: Option<string>): (i: nat)
    ensures v.Some? && v.value in opts ==> i < |opts| && opts[i] == v.value
    ensures v.Some? && v.value in opts ==> forall j :: 0 <= j < i ==> opts[j] != v.value
    ensures !(v.Some? && v.value in opts) ==> i == 0
  {
    if v.Some? && v.value in opts then IndexOf(opts, v.value) else 0
  }

  /** The job status selector of the edit form: the stored status, or the
      first option when the stored value is not in the vocabulary. */
  function JobStatusIndex(status: string): (i: nat)
    ensures i < |JobStatusOptions|
    ensures JobStatusOptions[i] == if status in JobStatusOptions then status else "Not Applied"
  {
    OptionIndex(JobStatusOptions, Some(status))
  }

  /** The task status selector of the edit form, with the same fallback. */
  function TaskStatusIndex(status: string): (i: nat)
    ensures i < |TaskStatusOptions|
    ensures TaskStatusOptions[i] == if status in TaskStatusOptions then status else "Open"
  {
    OptionIndex(TaskStatusOptions, Some(status))
  }

  /** The priority selector of the edit form: an absent or unrecognised
      priority shows the "no priority" option. */
  function PriorityIndex(priority: Option<string>): (i: nat)
    ensures i < |PriorityOptions|
    ensures PriorityOptions[i] ==
      if priority.Some? && priority.value in PriorityOptions then priority.value else NoPriority
  {
    OptionIndex(PriorityOptions, priority)
  }

  /** The priority written by the add and edit forms: the "no priority"
      option is stored as absent, any other choice as itself. */
  function StoredPriority(choice: string): (p: Option<string>)
    ensures p.None? <==> choice == NoPriority
    ensures p.Some? ==> p.value == choice
  {
    if choice != NoPriority then Some(choice) else None
  }

  /** Saving the edit form without touching the priority keeps it exactly
      when it is absent or one of Low, Medium, High; anything else is
      cleared. */
  lemma PriorityRoundTrip(priority: Option<string>)
    ensures StoredPriority(PriorityOptions[PriorityIndex(priority)]) == priority <==>
      priority.None? || priority.value in ["Low", "Medium", "High"]
  {
  }

  /** The first key, in map order, whose id is `current` and which is offered. */
  function FirstLinked(order: seq<string>, d: OptionsMap, current: Option<Id>, actual: seq<string>): (name: Option<string>)
    ensures name.Some? ==> name.value in order && name.value in actual && d.Get(name.value) == current
    ensures name.None? ==> forall k :: k in order && d.Get(k) == current ==> k !in actual
    decreases |order|
  {
    if |order| == 0 then None
    else if d.Get(order[0]) == current && order[0] in actual then Some(order[0])
    else FirstLinked(order[1..], d, current, actual)
  }

  /** `get_select_idx`: the position, in `[placeholder] + actual`, of an
      offered name mapping to `current`, or 0. */
  function SelectIdx(current: Option<Id>, d: OptionsMap, actual: seq<string>, placeholder: string): (i: nat)
    ensures i < 1 + |actual|
    ensures !(|actual| > 0 && Truthy(current)) ==> i == 0
    ensures i > 0 ==> d.Get(actual[i - 1]) == current
    ensures (forall k :: k in d.order && d.Get(k) == current ==> k !in actual) ==> i == 0
    ensures (placeholder !in actual && |actual| > 0 && Truthy(current)
             && exists k :: k in d.order && d.Get(k) == current && k in actual) ==> i > 0
  {
    if |actual| > 0 && Truthy(current) then
      match FirstLinked(d.order, d, current, actual)
      case Some(name) => IndexOf([placeholder] + actual, name)
      case None => 0
    else 0
  }

  /** A task's link selector read back on submit: the placeholder means no
      link, any other option is looked up in the map. */
  function ResolveLink(d: OptionsMap, choice: string, placeholder: string): (id: Option<Id>)
    ensures choice == placeholder ==> id == None
    ensures choice != placeholder ==> id == d.Get(choice)
  {
    if choice != placeholder then d.Get(choice) else None
  }

  /** Saving the task edit form without touching a link selector keeps the
      link exactly when its id is still one of the map's ids; otherwise the
      link is cleared. This needs the placeholder not to be offered, which
      the loaded map guarantees only when no row carries its text. */
  lemma LinkRoundTrip(d: OptionsMap, placeholder: string, current: Option<Id>)
    requires d.Valid()
    requires placeholder !in ActualNames(d)
    ensures var actual := ActualNames(d);
      ResolveLink(d, ([placeholder] + actual)[SelectIdx(current, d, actual, placeholder)], placeholder)
        == if Truthy(current) && current in d.ids.Values then current else None
  {
    var actual := ActualNames(d);
    var i := SelectIdx(current, d, actual, placeholder);
    if Truthy(current) && current in d.ids.Values {
      var k :| k in d.ids && d.ids[k] == current;
      assert k in d.order && d.Get(k) == current && k in actual;
      assert i > 0;
      assert ([placeholder] + actual)[i] == actual[i - 1];
    }
  }

  /** The first position in `actual` whose option maps to `id` (the loops of
      the job edit form's company and the recruiter edit form's agency). */
  function ListedIndex(actual: seq<string>, d: OptionsMap, id: Id): (r: Option<nat>)
    ensures r.Some? ==> r.value < |actual| && d.Get(actual[r.value]) == Some(id)
    ensures r.Some? ==> forall j :: 0 <= j < r.value ==> d.Get(actual[j]) != Some(id)
    ensures r.None? ==> forall j :: 0 <= j < |actual| ==> d.Get(actual[j]) != Some(id)
    decreases |actual|
  {
    if |actual| == 0 then None
    else if d.Get(actual[0]) == Some(id) then Some(0)
    else
      match ListedIndex(actual[1..], d, id)
      case Some(j) => Some(j + 1)
      case None => None
  }

  /** The job edit form's company selector, which has no placeholder: the
      job's company when offered, otherwise the first company. */
  function EditJobCompanyIndex(actual: seq<string>, d: OptionsMap, current: Option<Id>): (i: nat)
    ensures |actual| > 0 ==> i < |actual|
    ensures |actual| > 0 && Truthy(current) && (exists j :: 0 <= j < |actual| && d.Get(actual[j]) == current) ==>
      d.Get(actual[i]) == current
    ensures (forall j :: 0 <= j < |actual| ==> d.Get(actual[j]) != current) ==> i == 0
  {
    if |actual| > 0 && Truthy(current) then
      match ListedIndex(actual, d, current.value)
      case Some(j) => j
      case None => 0
    else 0
  }

  /** The job edit form's company read back on submit
      (`m.get(name) if name and name in m else None`). */
  function ResolveEditCompany(d: OptionsMap, choice: string): (id: Option<Id>)
    ensures choice == "" || choice !in d.ids ==> id == None
    ensures choice != "" && choice in d.ids ==> id == d.Get(choice)
  {
    if choice != "" && choice in d.ids then d.Get(choice) else None
  }

  /** Saving the job edit form without touching the company keeps it when
      it is offered; otherwise the job is moved to the first offered company. */
  lemma EditJobCompanyRoundTrip(d: OptionsMap, current: Option<Id>)
    requires d.Valid()
    requires |ActualNames(d)| > 0 && "" !in ActualNames(d)
    ensures var actual := ActualNames(d);
      ResolveEditCompany(d, actual[EditJobCompanyIndex(actual, d, current)])
        == if Truthy(current) && current in d.ids.Values then current else d.Get(actual[0])
  {
    var actual := ActualNames(d);
    var i := EditJobCompanyIndex(actual, d, current);
    assert actual[i] in actual;
    if Truthy(current) && current in d.ids.Values {
      var k :| k in d.ids && d.ids[k] == current;
      assert d.Get(k) == current && k in actual;
      var j :| 0 <= j < |actual| && actual[j] == k;
      assert d.Get(actual[j]) == current;
    }
  }

  /** The recruiter edit form's agency selector: one past the position of
      the recruiter's agency, or 0 for "no specific agency". */
  function AgencyIndex(actual: seq<string>, d: OptionsMap, current: Option<Id>): (i: nat)
    ensures i <= |actual|
    ensures i > 0 ==> d.Get(actual[i - 1]) == current
    ensures Truthy(current) && (exists j :: 0 <= j < |actual| && d.Get(actual[j]) == current) ==> i > 0
    ensures !Truthy(current) ==> i == 0
  {
    if |actual| > 0 && Truthy(current) then
      match ListedIndex(actual, d, current.value)
      case Some(j) => j + 1
      case None => 0
    else 0
  }

  /** The recruiter forms' agency read back on submit: either reserved
      label means no agency, any other option is looked up. */
  function ResolveAgency(d: OptionsMap, choice: string): (id: Option<Id>)
    ensures choice == "" || choice == NoAgency || choice == CompanyPlaceholder ==> id == None
    ensures choice != "" && choice != NoAgency && choice != CompanyPlaceholder ==> id == d.Get(choice)
  {
    if choice != "" && choice != NoAgency && choice != CompanyPlaceholder then d.Get(choice) else None
  }

  /** Saving the recruiter edit form without touching the agency keeps it
      exactly when its id is still offered; otherwise the agency is cleared.
      This needs no offered company to carry one of the labels that read
      back as no agency. */
  lemma AgencyRoundTrip(d: OptionsMap, current: Option<Id>)
    requires d.Valid()
    requires NoAgency !in ActualNames(d) && "" !in ActualNames(d) && CompanyPlaceholder !in ActualNames(d)
    ensures var actual := ActualNames(d);
      ResolveAgency(d, ([NoAgency] + actual)[AgencyIndex(actual, d, current)])
        == if Truthy(current) && current in d.ids.Values then current else None
  {
    var actual := ActualNames(d);
    var i := AgencyIndex(actual, d, current);
    if Truthy(current) && current in d.ids.Values {
      var k :| k in d.ids && d.ids[k] == current;
      assert d.Get(k) == current && k in actual;
      var j :| 0 <= j < |actual| && actual[j] == k;
      assert d.Get(actual[j]) == current;
      assert i > 0;
      var choice := ([NoAgency] + actual)[i];
      assert choice == actual[i - 1];
      assert choice != NoAgency && choice != "" && choice != CompanyPlaceholder;
    } else {
      assert i == 0;
    }
  }

  /** The company map as loaded when a company is named like the
      placeholder: that name maps to the company's id and is offered. */
  function CollidingCompanies(): (d: OptionsMap)
    ensures d.Valid() && d.Get(CompanyPlaceholder) == Some(7)
    ensures ActualNames(d) == [CompanyPlaceholder]
  {
    var rows: seq<Row> := [(CompanyPlaceholder, 7)];
    assert rows[..0] == [];
    assert Fill(Only(CompanyPlaceholder), rows[..0]) == Only(CompanyPlaceholder);
    assert Fill(Only(CompanyPlaceholder), rows) == Only(CompanyPlaceholder).Put(CompanyPlaceholder, Some(7));
    var d := BuildOptions(CompanyPlaceholder, Rows(rows));
    assert d == Only(CompanyPlaceholder).Put(CompanyPlaceholder, Some(7));
    assert Offered(d.order[1..], d) == [];
    d
  }

  /** On that map, saving the task edit form untouched clears a company
      link to id 7 although 7 is in the map, and saving the recruiter edit
      form untouched clears an agency of id 7: the option shown reads back
      as no company. */
  lemma CollisionClearsLinks()
    ensures var d := CollidingCompanies();
      && Some(7) in d.ids.Values
      && ResolveLink(d, ([CompanyPlaceholder] + ActualNames(d))[SelectIdx(Some(7), d, ActualNames(d), CompanyPlaceholder)],
                     CompanyPlaceholder) == None
      && ResolveAgency(d, ([NoAgency] + ActualNames(d))[AgencyIndex(ActualNames(d), d, Some(7))]) == None
  {
    var d := CollidingCompanies();
    assert d.ids[CompanyPlaceholder] == Some(7);
    var i := SelectIdx(Some(7), d, ActualNames(d), CompanyPlaceholder);
    assert ([CompanyPlaceholder] + ActualNames(d)) == [CompanyPlaceholder, CompanyPlaceholder];
    assert ([NoAgency] + ActualNames(d)) == [NoAgency, CompanyPlaceholder];
  }
}
