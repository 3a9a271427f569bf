/**
 * The status engine: one overall lifecycle status per job application,
 * derived by an ordered decision list in which the first matching rule
 * wins; the label-to-filter table; filtering a list of applications by a
 * filter name; and the per-filter counts.
 */
module JobStatus {
  import opened Jobs
  import Seqs

  /**
   * Status labels. The engine emits eight of them; `Shortlisted` is known
   * to the label-to-filter table and to the filter list, but no rule emits it.
   */
  datatype Label =
    | NotYetApplied | GotOffer | NotSelected | NoInterview | NotShortlisted
    | Interviewing | AwaitingInterview | Applied | Shortlisted

  function LabelText(l: Label): string {
    match l
    case NotYetApplied => "Not Yet Applied"
    case GotOffer => "Got Offer"
    case NotSelected => "Not Selected"
    case NoInterview => "No Interview"
    case NotShortlisted => "Not Shortlisted"
    case Interviewing => "Interviewing"
    case AwaitingInterview => "Awaiting Interview"
    case Applied => "Applied"
    case Shortlisted => "Shortlisted"
  }

  /** The badge colour classes of a status, one value per distinct class string. */
  datatype Badge = Muted | Success | Destructive | DestructiveSoft | Warning | Info | TaskManager | Blank

  function BadgeClasses(b: Badge): string {
    match b
    case Muted => "bg-muted/30 text-muted-foreground border-muted"
    case Success => "bg-success/30 text-success border-success/40"
    case Destructive => "bg-destructive/40 text-destructive border-destructive/50"
    case DestructiveSoft => "bg-destructive/20 text-destructive/80 border-destructive/30"
    case Warning => "bg-warning/30 text-warning border-warning/40"
    case Info => "bg-info/30 text-info border-info/40"
    case TaskManager => "bg-taskManager/30 text-taskManager border-taskManager/40"
    case Blank => ""
  }

  /** The overall status: a label, the badge colour (classes `BadgeClasses(color)`) and a priority. */
  datatype Status = Status(name: Label, color: Badge, priority: int)

  /** A label for an application that ended without success. */
  predicate IsSetback(l: Label) {
    l.NotSelected? || l.NoInterview? || l.NotShortlisted?
  }

  /**
   * The colour and priority that go with each emitted label: an offer is
   * the only green status and the only one of the highest priority, the
   * setbacks are the red ones and share the lowest priority above an
   * unsent application.
   */
  function StatusOf(l: Label): (r: Status)
    ensures r.name == l && 0 <= r.priority <= 5
    ensures r.priority == 5 <==> l.GotOffer?
    ensures r.color.Success? <==> l.GotOffer?
    ensures r.priority == 1 <==> IsSetback(l)
    ensures r.color.Destructive? || r.color.DestructiveSoft? <==> IsSetback(l)
    ensures r.priority == 0 <==> l.NotYetApplied? || l.Shortlisted?
    ensures r.color.Muted? <==> l.NotYetApplied?
  {
    match l
    case NotYetApplied => Status(l, Muted, 0)
    case GotOffer => Status(l, Success, 5)
    case NotSelected => Status(l, Destructive, 1)
    case NoInterview => Status(l, Destructive, 1)
    case NotShortlisted => Status(l, DestructiveSoft, 1)
    case Interviewing => Status(l, Warning, 4)
    case AwaitingInterview => Status(l, Info, 3)
    case Applied => Status(l, TaskManager, 2)
    case Shortlisted => Status(l, Blank, 0) // never emitted: no rule of the decision list has it
  }

  /** Priority grows with progress: unsent, setback, applied, awaiting interview, interviewing, offer. */
  lemma PriorityFollowsProgress(setback: Label)
    requires IsSetback(setback)
    ensures StatusOf(Label.NotYetApplied).priority < StatusOf(setback).priority
    ensures StatusOf(setback).priority < StatusOf(Label.Applied).priority
    ensures StatusOf(Label.Applied).priority < StatusOf(Label.AwaitingInterview).priority
    ensures StatusOf(Label.AwaitingInterview).priority < StatusOf(Label.Interviewing).priority
    ensures StatusOf(Label.Interviewing).priority < StatusOf(Label.GotOffer).priority
  {
  }

  /** The badge tells the emitted labels apart, except the two rejections after shortlisting. */
  lemma ColourDistinguishesLabels(a: Label, b: Label)
    requires !a.Shortlisted? && !b.Shortlisted?
    ensures StatusOf(a).color == StatusOf(b).color <==>
      a == b || ((a.NotSelected? || a.NoInterview?) && (b.NotSelected? || b.NoInterview?))
  {
  }

  /** The decision list of `getJobStatus`: first match wins, `Applied` as the fallback. */
  function DeriveLabel(job: Job): (l: Label)
    ensures l != Label.Shortlisted
    // Each label holds exactly for the combinations that reach its rule first.
    ensures l == Label.NotYetApplied <==> job.applied.No?
    ensures l == Label.GotOffer <==> job.applied.Yes? && job.interviews.Done? && job.selected.Offer?
    ensures l == Label.NotSelected <==> job.applied.Yes? && job.interviews.Done? && job.selected.No?
    ensures l == Label.NoInterview <==> job.applied.Yes? && job.shortlisted.Yes? && job.interviews.NotSelected?
    ensures l == Label.NotShortlisted <==>
      job.applied.Yes? && job.shortlisted.No? && !(job.interviews.Done? && (job.selected.Offer? || job.selected.No?))
    ensures l == Label.Interviewing <==> job.applied.Yes? && job.shortlisted.Yes? && job.interviews.InProcess?
    ensures l == Label.AwaitingInterview <==> job.applied.Yes? && job.shortlisted.Yes? && job.interviews.Waiting?
  {
    if job.applied.No? then Label.NotYetApplied
    else if job.interviews.Done? && job.selected.Offer? then Label.GotOffer
    else if job.interviews.Done? && job.selected.No? then Label.NotSelected
    else if job.shortlisted.Yes? && job.interviews.NotSelected? then Label.NoInterview
    else if job.applied.Yes? && job.shortlisted.No? then Label.NotShortlisted
    else if job.shortlisted.Yes? && job.interviews.InProcess? then Label.Interviewing
    else if job.shortlisted.Yes? && job.interviews.Waiting? then Label.AwaitingInterview
    else if job.applied.Yes? && job.shortlisted.Waiting? then Label.Applied
    else Label.Applied
  }

  /** `getJobStatus`: the derived label with its colour and priority. */
  function GetJobStatus(job: Job): (r: Status)
    ensures r.name == DeriveLabel(job) && r.name != Label.Shortlisted
    ensures 0 <= r.priority <= 5
    ensures job.applied.No? ==> r.name == Label.NotYetApplied && r.priority == 0
  {
    var l := DeriveLabel(job);
    StatusOf(l)
  }

  // ------------------------------------------------------------------ the rule table

  /** One rule of the decision list: when it applies, and the label it gives. */
  datatype Rule = Rule(applies: Job -> bool, outcome: Label)

  /** The decision list as data, in the order the rules are tried. */
  const Rules: seq<Rule> := [
    Rule((j: Job) => j.applied.No?, Label.NotYetApplied),
    Rule((j: Job) => j.interviews.Done? && j.selected.Offer?, Label.GotOffer),
    Rule((j: Job) => j.interviews.Done? && j.selected.No?, Label.NotSelected),
    Rule((j: Job) => j.shortlisted.Yes? && j.interviews.NotSelected?, Label.NoInterview),
    Rule((j: Job) => j.applied.Yes? && j.shortlisted.No?, Label.NotShortlisted),
    Rule((j: Job) => j.shortlisted.Yes? && j.interviews.InProcess?, Label.Interviewing),
    Rule((j: Job) => j.shortlisted.Yes? && j.interviews.Waiting?, Label.AwaitingInterview),
    Rule((j: Job) => j.applied.Yes? && j.shortlisted.Waiting?, Label.Applied)
  ]

  /** Index of the first rule of `rules` that applies to `job`, or `|rules|` if none does. */
  function FirstMatch(rules: seq<Rule>, job: Job): (i: nat)
    ensures i <= |rules|
    ensures i < |rules| ==> rules[i].applies(job)
    ensures forall k :: 0 <= k < i ==> !rules[k].applies(job)
  {
    if rules == [] then 0
    else if rules[0].applies(job) then 0
    else 1 + FirstMatch(rules[1..], job)
  }

  /** The table-driven engine: the first applicable rule's status, else the fallback. */
  function Decide(job: Job): Status {
    var i := FirstMatch(Rules, job);
    StatusOf(if i < |Rules| then Rules[i].outcome else Label.Applied)
  }

  /** What each rule of the table tests. */
  lemma RulesUnfold(job: Job)
    ensures |Rules| == 8
    ensures Rules[0].applies(job) == job.applied.No?
    ensures Rules[1].applies(job) == (job.interviews.Done? && job.selected.Offer?)
    ensures Rules[2].applies(job) == (job.interviews.Done? && job.selected.No?)
    ensures Rules[3].applies(job) == (job.shortlisted.Yes? && job.interviews.NotSelected?)
    ensures Rules[4].applies(job) == (job.applied.Yes? && job.shortlisted.No?)
    ensures Rules[5].applies(job) == (job.shortlisted.Yes? && job.interviews.InProcess?)
    ensures Rules[6].applies(job) == (job.shortlisted.Yes? && job.interviews.Waiting?)
    ensures Rules[7].applies(job) == (job.applied.Yes? && job.shortlisted.Waiting?)
  {
  }

  lemma {:induction false} FirstMatchIsDecisionList(job: Job)
    ensures (var i := FirstMatch(Rules, job); if i < |Rules| then Rules[i].outcome else Label.Applied) == DeriveLabel(job)
  {
    var i := FirstMatch(Rules, job);
    RulesUnfold(job);
    assert i <= 8;
  }

  /** The if-chain and the rule table agree on every record. */
  lemma GetJobStatusIsFirstMatch(job: Job)
    ensures GetJobStatus(job) == Decide(job)
  {
    FirstMatchIsDecisionList(job);
  }

  /** If no rule applies, the fallback `Applied` with priority 2 is the result. */
  lemma FallbackIsApplied(job: Job)
    requires forall k :: 0 <= k < |Rules| ==> !Rules[k].applies(job)
    ensures GetJobStatus(job).name == Label.Applied && GetJobStatus(job).priority == 2
  {
    RulesUnfold(job);
  }

  /** Every label but `Shortlisted` is produced by some record. */
  lemma EveryLabelReachable(l: Label)
    requires l != Label.Shortlisted
    ensures exists job :: GetJobStatus(job).name == l
  {
    var j := Job("", "", "", "", Jobs.Applied.Yes, Public, Referral.No, Jobs.Shortlisted.Yes,
                 Interviews.Waiting, Selected.Waiting, Wrappers.None);
    match l
    case NotYetApplied => assert GetJobStatus(j.(applied := Jobs.Applied.No)).name == l;
    case GotOffer => assert GetJobStatus(j.(interviews := Done, selected := Offer)).name == l;
    case NotSelected => assert GetJobStatus(j.(interviews := Done, selected := Selected.No)).name == l;
    case NoInterview => assert GetJobStatus(j.(interviews := Interviews.NotSelected)).name == l;
    case NotShortlisted => assert GetJobStatus(j.(shortlisted := Jobs.Shortlisted.No)).name == l;
    case Interviewing => assert GetJobStatus(j.(interviews := InProcess)).name == l;
    case AwaitingInterview => assert GetJobStatus(j).name == l;
    case Applied => assert GetJobStatus(j.(shortlisted := Jobs.Shortlisted.Waiting)).name == l;
  }

  /** Combinations that satisfy several rules resolve to the earliest one. */
  lemma FirstMatchWins(job: Job)
    ensures job.applied.No? && job.interviews.Done? && job.selected.Offer? ==>
      GetJobStatus(job).name == Label.NotYetApplied && GetJobStatus(job).priority == 0
    ensures job.applied.Yes? && job.shortlisted.No? && job.interviews.Done? && job.selected.Offer? ==>
      GetJobStatus(job).name == Label.GotOffer && GetJobStatus(job).priority == 5
    ensures job.applied.Yes? && job.shortlisted.No? && job.interviews.InProcess? ==>
      GetJobStatus(job).name == Label.NotShortlisted
    ensures job.applied.Yes? && job.shortlisted.No? && job.interviews.Done? && job.selected.Waiting? ==>
      GetJobStatus(job).name == Label.NotShortlisted
    ensures job.applied.Yes? && job.shortlisted.Waiting? && job.interviews.Done? && job.selected.Waiting? ==>
      GetJobStatus(job).name == Label.Applied
  {
  }

  // ------------------------------------------------------------------ filter names

  /** The filter names the job list can be filtered by. */
  datatype FilterName =
    | All | NotApplied | Applied | Shortlisted | Interviewing
    | NotShortlisted | NotSelected | GotOffer | HasReferral | NoReferral

  function FilterText(f: FilterName): string {
    match f
    case All => "all"
    case NotApplied => "not_applied"
    case Applied => "applied"
    case Shortlisted => "shortlisted"
    case Interviewing => "interviewing"
    case NotShortlisted => "not_shortlisted"
    case NotSelected => "not_selected"
    case GotOffer => "got_offer"
    case HasReferral => "has_referral"
    case NoReferral => "no_referral"
  }

  /** The keys of the count dictionary: every filter name but the two referral filters. */
  predicate IsCountKey(f: FilterName) {
    !f.HasReferral? && !f.NoReferral?
  }

  /** The count keys derived from the status, i.e. every count key but `all`. */
  predicate IsStatusFilter(f: FilterName) {
    IsCountKey(f) && !f.All?
  }

  /** `jobStatuses`: the filter entries offered for counting, with their display labels. */
  datatype FilterEntry = FilterEntry(value: FilterName, name: string, count: int)

  const JobStatuses: seq<FilterEntry> := [
    FilterEntry(FilterName.All, "All Applications", 0),
    FilterEntry(FilterName.NotApplied, "Not Yet Applied", 0),
    FilterEntry(FilterName.Applied, "Applied", 0),
    FilterEntry(FilterName.Shortlisted, "Shortlisted", 0),
    FilterEntry(FilterName.Interviewing, "Interviewing", 0),
    FilterEntry(FilterName.NotShortlisted, "Not Shortlisted", 0),
    FilterEntry(FilterName.NotSelected, "Not Selected", 0),
    FilterEntry(FilterName.GotOffer, "Got Offer", 0)
  ]

  /** `getFilterValue`: the label-to-filter table, `all` for a label without an entry. */
  function GetFilterValue(l: Label): (f: FilterName)
    ensures IsCountKey(f)
    ensures f.All? <==> l.AwaitingInterview? || l.NoInterview?
  {
    match l
    case NotYetApplied => FilterName.NotApplied
    case Applied => FilterName.Applied
    case Shortlisted => FilterName.Shortlisted
    case Interviewing => FilterName.Interviewing
    case NotShortlisted => FilterName.NotShortlisted
    case NotSelected => FilterName.NotSelected
    case GotOffer => FilterName.GotOffer
    case AwaitingInterview => FilterName.All
    case NoInterview => FilterName.All
  }

  /** The label-to-filter table agrees with the entries of `jobStatuses`. */
  lemma JobStatusesAgree(l: Label)
    ensures !GetFilterValue(l).All? ==> FilterEntry(GetFilterValue(l), LabelText(l), 0) in JobStatuses
  {
    match l
    case NotYetApplied => assert JobStatuses[1] == FilterEntry(FilterName.NotApplied, LabelText(l), 0);
    case Applied => assert JobStatuses[2] == FilterEntry(FilterName.Applied, LabelText(l), 0);
    case Shortlisted => assert JobStatuses[3] == FilterEntry(FilterName.Shortlisted, LabelText(l), 0);
    case Interviewing => assert JobStatuses[4] == FilterEntry(FilterName.Interviewing, LabelText(l), 0);
    case NotShortlisted => assert JobStatuses[5] == FilterEntry(FilterName.NotShortlisted, LabelText(l), 0);
    case NotSelected => assert JobStatuses[6] == FilterEntry(FilterName.NotSelected, LabelText(l), 0);
    case GotOffer => assert JobStatuses[7] == FilterEntry(FilterName.GotOffer, LabelText(l), 0);
    case AwaitingInterview =>
    case NoInterview =>
  }

  /** Distinct labels with a table entry go to distinct filters, and every status filter has one. */
  lemma FilterTableIsBijective()
    ensures forall a, b :: !GetFilterValue(a).All? && GetFilterValue(a) == GetFilterValue(b) ==> a == b
    ensures forall f :: IsStatusFilter(f) ==> exists l :: GetFilterValue(l) == f
  {
    forall f | IsStatusFilter(f) ensures exists l :: GetFilterValue(l) == f {
      match f
      case NotApplied => assert GetFilterValue(Label.NotYetApplied) == f;
      case Applied => assert GetFilterValue(Label.Applied) == f;
      case Shortlisted => assert GetFilterValue(Label.Shortlisted) == f;
      case Interviewing => assert GetFilterValue(Label.Interviewing) == f;
      case NotShortlisted => assert GetFilterValue(Label.NotShortlisted) == f;
      case NotSelected => assert GetFilterValue(Label.NotSelected) == f;
      case GotOffer => assert GetFilterValue(Label.GotOffer) == f;
    }
  }

  /** The filter name a job's derived status maps to; never `shortlisted`. */
  function StatusFilterOf(job: Job): (f: FilterName)
    ensures IsCountKey(f) && !f.Shortlisted?
    ensures f.All? <==> job.applied.Yes? && job.shortlisted.Yes? && (job.interviews.Waiting? || job.interviews.NotSelected?)
  {
    GetFilterValue(GetJobStatus(job).name)
  }

  // ------------------------------------------------------------------ filtering

  /** Whether `job` passes filter `f` (for every `f` except `all`). */
  predicate Keeps(f: FilterName, job: Job) {
    match f
    case HasReferral => job.referral.Yes?
    case NoReferral => job.referral.No? || job.referral.NotAvailable?
    case _ => StatusFilterOf(job) == f
  }

  /** `filterJobsByStatus`. */
  function FilterJobsByStatus(jobs: seq<Job>, f: FilterName): (r: seq<Job>)
    ensures f.All? ==> r == jobs
    ensures Seqs.IsSubsequence(r, jobs)
    ensures !f.All? ==> forall k :: 0 <= k < |r| ==> Keeps(f, r[k])
  {
    if f.All? then Seqs.SubsequenceOfSelf(jobs); jobs
    else Seqs.Filter(j => Keeps(f, j), jobs)
  }

  /** With any filter other than `all`, every job that passes is kept, as often as it occurs, and no other. */
  lemma FilterKeepsExactlyMatches(jobs: seq<Job>, f: FilterName)
    requires !f.All?
    ensures forall j :: Keeps(f, j) ==> multiset(FilterJobsByStatus(jobs, f))[j] == multiset(jobs)[j]
    ensures forall j :: !Keeps(f, j) ==> j !in FilterJobsByStatus(jobs, f)
  {
    Seqs.FilterOccurrences(j => Keeps(f, j), jobs);
  }

  lemma FilterJobsByStatusAppend(a: seq<Job>, b: seq<Job>, f: FilterName)
    ensures FilterJobsByStatus(a + b, f) == FilterJobsByStatus(a, f) + FilterJobsByStatus(b, f)
  {
    if !f.All? {
      Seqs.FilterAppend(j => Keeps(f, j), a, b);
    }
  }

  /**
   * The two referral filters are exact, disjoint and together keep every
   * job: `has_referral` keeps referral `yes`, `no_referral` keeps `no` and
   * `not_available`.
   */
  lemma ReferralFiltersPartition(jobs: seq<Job>)
    ensures forall j :: j in FilterJobsByStatus(jobs, HasReferral) <==> j in jobs && j.referral.Yes?
    ensures forall j :: j in FilterJobsByStatus(jobs, NoReferral) <==> j in jobs && !j.referral.Yes?
    ensures multiset(FilterJobsByStatus(jobs, HasReferral)) + multiset(FilterJobsByStatus(jobs, NoReferral))
      == multiset(jobs)
  {
    Seqs.FilterMembership(j => Keeps(HasReferral, j), jobs);
    Seqs.FilterMembership(j => Keeps(NoReferral, j), jobs);
    Seqs.FilterSplit(j => Keeps(HasReferral, j), j => Keeps(NoReferral, j), jobs);
  }

  /** The `shortlisted` filter never keeps anything: no rule emits the label `Shortlisted`. */
  lemma ShortlistedFilterEmpty(jobs: seq<Job>)
    ensures FilterJobsByStatus(jobs, FilterName.Shortlisted) == []
  {
  }

  // ------------------------------------------------------------------ counting

  /** The keys of the count dictionary. */
  const CountKeys: set<FilterName> := {
    FilterName.All, FilterName.NotApplied, FilterName.Applied, FilterName.Shortlisted,
    FilterName.Interviewing, FilterName.NotShortlisted, FilterName.NotSelected, FilterName.GotOffer
  }

  /** A job whose derived label has no filter; it falls into `all`. */
  predicate IsUnmapped(job: Job) {
    StatusFilterOf(job).All?
  }

  /** The jobs that `getStatusCounts` adds to the `all` entry a second time. */
  function Unmapped(jobs: seq<Job>): (r: seq<Job>)
    ensures forall k :: 0 <= k < |r| ==>
      GetJobStatus(r[k]).name == Label.AwaitingInterview || GetJobStatus(r[k]).name == Label.NoInterview
  {
    Seqs.Filter(IsUnmapped, jobs)
  }

  /** How many of `jobs` have the filter value `f`. */
  function Tally(jobs: seq<Job>, f: FilterName): nat {
    if jobs == [] then 0
    else Tally(jobs[..|jobs| - 1], f) + (if StatusFilterOf(jobs[|jobs| - 1]) == f then 1 else 0)
  }

  /** A status filter keeps exactly the jobs whose filter value it is. */
  lemma {:induction false} FilterLengthIsTally(jobs: seq<Job>, f: FilterName)
    requires IsStatusFilter(f)
    ensures |FilterJobsByStatus(jobs, f)| == Tally(jobs, f)
  {
    if jobs != [] {
      var init := jobs[..|jobs| - 1];
      assert jobs == init + [jobs[|jobs| - 1]];
      FilterJobsByStatusAppend(init, [jobs[|jobs| - 1]], f);
      FilterLengthIsTally(init, f);
    }
  }

  lemma {:induction false} UnmappedIsTally(jobs: seq<Job>)
    ensures |Unmapped(jobs)| == Tally(jobs, FilterName.All)
  {
    if jobs != [] {
      var init := jobs[..|jobs| - 1];
      assert jobs == init + [jobs[|jobs| - 1]];
      Seqs.FilterAppend(IsUnmapped, init, [jobs[|jobs| - 1]]);
      UnmappedIsTally(init);
    }
  }

  /** The sum of all entries of a count dictionary. */
  function CountsTotal(counts: map<FilterName, int>): int
    requires counts.Keys == CountKeys
  {
    counts[FilterName.All] + counts[FilterName.NotApplied] + counts[FilterName.Applied]
    + counts[FilterName.Shortlisted] + counts[FilterName.Interviewing] + counts[FilterName.NotShortlisted]
    + counts[FilterName.NotSelected] + counts[FilterName.GotOffer]
  }

  /** Every job has exactly one filter value, so the per-value tallies add up to the number of jobs. */
  lemma {:induction false} TalliesPartition(jobs: seq<Job>)
    ensures Tally(jobs, FilterName.All) + Tally(jobs, FilterName.NotApplied) + Tally(jobs, FilterName.Applied)
      + Tally(jobs, FilterName.Shortlisted) + Tally(jobs, FilterName.Interviewing)
      + Tally(jobs, FilterName.NotShortlisted) + Tally(jobs, FilterName.NotSelected)
      + Tally(jobs, FilterName.GotOffer) == |jobs|
  {
    if jobs != [] {
      TalliesPartition(jobs[..|jobs| - 1]);
    }
  }

  /** The dictionary `getStatusCounts` starts from: `all` is the number of jobs, the rest zero. */
  function InitialCounts(total: nat): (counts: map<FilterName, int>)
    ensures counts.Keys == CountKeys
  {
    map[
      FilterName.All := total, FilterName.NotApplied := 0, FilterName.Applied := 0,
      FilterName.Shortlisted := 0, FilterName.Interviewing := 0, FilterName.NotShortlisted := 0,
      FilterName.NotSelected := 0, FilterName.GotOffer := 0]
  }

  /** The count dictionary for `total` jobs after the jobs in `done` have each added one to their entry. */
  function Tallied(total: nat, done: seq<Job>): (counts: map<FilterName, int>)
    ensures counts.Keys == CountKeys
  {
    if done == [] then InitialCounts(total)
    else
      var prev := Tallied(total, done[..|done| - 1]);
      var v := StatusFilterOf(done[|done| - 1]);
      prev[v := prev[v] + 1]
  }

  /** Each entry of a tally is the number of jobs with that filter value (plus `total` for `all`). */
  lemma {:induction false} TalliedEntries(total: nat, done: seq<Job>)
    ensures forall f :: f in CountKeys ==>
      Tallied(total, done)[f] == Tally(done, f) + (if f.All? then total else 0)
  {
    if done != [] {
      TalliedEntries(total, done[..|done| - 1]);
    }
  }

  /** The status entries of a complete tally are the lengths of the filtered lists. */
  lemma CountsMatchFilters(counts: map<FilterName, int>, jobs: seq<Job>)
    requires counts == Tallied(|jobs|, jobs)
    ensures forall f :: IsStatusFilter(f) ==> counts[f] == |FilterJobsByStatus(jobs, f)|
    ensures counts[FilterName.Shortlisted] == 0
  {
    TalliedEntries(|jobs|, jobs);
    ShortlistedFilterEmpty(jobs);
    forall f | IsStatusFilter(f) ensures counts[f] == |FilterJobsByStatus(jobs, f)| {
      FilterLengthIsTally(jobs, f);
    }
  }

  /** The `all` entry of a complete tally counts every job, and the unmapped ones once more. */
  lemma CountsAll(counts: map<FilterName, int>, jobs: seq<Job>)
    requires counts == Tallied(|jobs|, jobs)
    ensures counts[FilterName.All] == |jobs| + |Unmapped(jobs)|
    ensures CountsTotal(counts) == 2 * |jobs|
  {
    TalliedEntries(|jobs|, jobs);
    UnmappedIsTally(jobs);
    TalliesPartition(jobs);
  }

  /**
   * `getStatusCounts`: `all` starts at the number of jobs, and each job adds
   * one to the entry of its filter value (which is `all` for an unmapped label).
   */
  method GetStatusCounts(jobs: seq<Job>) returns (counts: map<FilterName, int>)
    ensures counts.Keys == CountKeys
    ensures forall f :: IsStatusFilter(f) ==> counts[f] == |FilterJobsByStatus(jobs, f)|
    ensures counts[FilterName.All] == |jobs| + |Unmapped(jobs)|
    ensures counts[FilterName.Shortlisted] == 0
    ensures CountsTotal(counts) == 2 * |jobs|
  {
    counts := map[
      FilterName.All := |jobs|, FilterName.NotApplied := 0, FilterName.Applied := 0,
      FilterName.Shortlisted := 0, FilterName.Interviewing := 0, FilterName.NotShortlisted := 0,
      FilterName.NotSelected := 0, FilterName.GotOffer := 0];
    for i := 0 to |jobs|
      invariant counts == Tallied(|jobs|, jobs[..i])
    {
      var status := GetJobStatus(jobs[i]);
      var filterValue := GetFilterValue(status.name);
      assert jobs[..i + 1][..i] == jobs[..i];
      counts := counts[filterValue := (if filterValue in counts then counts[filterValue] else 0) + 1];
    }
    assert jobs[..|jobs|] == jobs;
    CountsMatchFilters(counts, jobs);
    CountsAll(counts, jobs);
  }
}
