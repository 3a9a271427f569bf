/**
 * The job-applications page: grouping the (filtered) applications by
 * company, the reminder about applications not yet sent, and the summary
 * and rows of the PDF export.
 */
module Companies {
  import opened Wrappers
  import opened Jobs
  import JobStatus
  import CompanyCard
  import Seqs

  // ------------------------------------------------------------------ grouping

  /** The test "belongs to company `c`". */
  function InCompany(c: string): Job -> bool {
    (j: Job) => j.company == c
  }

  /** The applications to company `c`, in input order. */
  function Bucket(jobs: seq<Job>, c: string): seq<Job> {
    Seqs.Filter(InCompany(c), jobs)
  }

  /** The dictionary `groupByCompany` returns for `jobs`: each job appended to its company's list. */
  function Grouped(jobs: seq<Job>): (g: map<string, seq<Job>>)
    ensures forall c :: c in g ==> g[c] != []
  {
    if jobs == [] then map[]
    else
      var prev := Grouped(jobs[..|jobs| - 1]);
      var job := jobs[|jobs| - 1];
      prev[job.company := (if job.company in prev then prev[job.company] else []) + [job]]
  }

  /** The order of the dictionary's keys: each company where its first application appears. */
  function CompanyOrder(jobs: seq<Job>): seq<string> {
    if jobs == [] then []
    else
      var prev := CompanyOrder(jobs[..|jobs| - 1]);
      var c := jobs[|jobs| - 1].company;
      if c in prev then prev else prev + [c]
  }

  predicate Distinct(s: seq<string>) {
    forall i, j :: 0 <= i < j < |s| ==> s[i] != s[j]
  }

  /** The company of some job of `jobs`. */
  predicate HasCompany(jobs: seq<Job>, c: string) {
    exists k :: 0 <= k < |jobs| && jobs[k].company == c
  }

  /** The total length of the lists of `g` under the keys `order`. */
  function SumSizes(g: map<string, seq<Job>>, order: seq<string>): int
    requires forall k :: 0 <= k < |order| ==> order[k] in g
  {
    if order == [] then 0
    else SumSizes(g, order[..|order| - 1]) + |g[order[|order| - 1]]|
  }

  /** The key order lists every key of the dictionary once. */
  lemma {:induction false} OrderListsKeys(jobs: seq<Job>)
    ensures forall c :: c in CompanyOrder(jobs) <==> c in Grouped(jobs)
    ensures Distinct(CompanyOrder(jobs))
  {
    if jobs != [] {
      OrderListsKeys(jobs[..|jobs| - 1]);
    }
  }

  /** The keys are exactly the companies of the jobs. */
  lemma {:induction false} GroupedKeys(jobs: seq<Job>)
    ensures forall c :: c in Grouped(jobs) <==> HasCompany(jobs, c)
  {
    if jobs != [] {
      var init := jobs[..|jobs| - 1];
      GroupedKeys(init);
      forall c | HasCompany(jobs, c) ensures c in Grouped(jobs) {
        var k :| 0 <= k < |jobs| && jobs[k].company == c;
        if k < |jobs| - 1 {
          assert init[k].company == c;
        }
      }
      forall c | HasCompany(init, c) ensures HasCompany(jobs, c) {
        var k :| 0 <= k < |init| && init[k].company == c;
        assert jobs[k].company == c;
      }
    }
  }

  /** Each company's list holds its applications, and only those, in input order. */
  lemma {:induction false} GroupedBuckets(jobs: seq<Job>)
    ensures forall c :: c in Grouped(jobs) ==> Grouped(jobs)[c] == Bucket(jobs, c)
  {
    if jobs != [] {
      var init, job := jobs[..|jobs| - 1], jobs[|jobs| - 1];
      GroupedBuckets(init);
      GroupedKeys(init);
      assert jobs == init + [job];
      forall c | c in Grouped(jobs) ensures Grouped(jobs)[c] == Bucket(jobs, c) {
        Seqs.FilterAppend(InCompany(c), init, [job]);
        if c !in Grouped(init) {
          NoBucket(init, c);
        }
      }
    }
  }

  /** A company without applications has an empty list. */
  lemma {:induction false} NoBucket(jobs: seq<Job>, c: string)
    requires !HasCompany(jobs, c)
    ensures Bucket(jobs, c) == []
  {
    if jobs != [] {
      assert forall k :: 0 <= k < |jobs| - 1 ==> jobs[1..][k] == jobs[k + 1];
      NoBucket(jobs[1..], c);
    }
  }

  /** Growing one list of a dictionary by one grows the total over a key order holding it once by one. */
  lemma {:induction false} SumSizesGrow(g: map<string, seq<Job>>, order: seq<string>, c: string, job: Job)
    requires forall k :: 0 <= k < |order| ==> order[k] in g
    requires Distinct(order) && c in g
    ensures SumSizes(g[c := g[c] + [job]], order) == SumSizes(g, order) + (if c in order then 1 else 0)
  {
    if order != [] {
      var init := order[..|order| - 1];
      SumSizesGrow(g, init, c, job);
      assert c in order <==> c in init || c == order[|order| - 1];
    }
  }

  /** Adding a new key with a list to a dictionary leaves the total over the old keys as it was. */
  lemma {:induction false} SumSizesNewKey(g: map<string, seq<Job>>, order: seq<string>, c: string, v: seq<Job>)
    requires forall k :: 0 <= k < |order| ==> order[k] in g
    requires c !in order
    ensures SumSizes(g[c := v], order) == SumSizes(g, order)
  {
    if order != [] {
      SumSizesNewKey(g, order[..|order| - 1], c, v);
    }
  }

  /** The lists of the dictionary hold every job once: their lengths add up to the number of jobs. */
  lemma {:induction false} GroupedSizes(jobs: seq<Job>)
    ensures forall k :: 0 <= k < |CompanyOrder(jobs)| ==> CompanyOrder(jobs)[k] in Grouped(jobs)
    ensures SumSizes(Grouped(jobs), CompanyOrder(jobs)) == |jobs|
  {
    OrderListsKeys(jobs);
    if jobs != [] {
      var init, job := jobs[..|jobs| - 1], jobs[|jobs| - 1];
      var g, order, c := Grouped(init), CompanyOrder(init), job.company;
      GroupedSizes(init);
      OrderListsKeys(init);
      assert c in order <==> c in g;
      if c in g {
        assert Grouped(jobs) == g[c := g[c] + [job]];
        assert CompanyOrder(jobs) == order;
        SumSizesGrow(g, order, c, job);
      } else {
        var v: seq<Job> := [job];
        assert [] + [job] == v;
        assert Grouped(jobs) == g[c := v];
        assert CompanyOrder(jobs) == order + [c];
        assert (order + [c])[..|order|] == order;
        SumSizesNewKey(g, order, c, v);
      }
    }
  }

  /** There are no more companies than applications. */
  lemma {:induction false} FewerCompaniesThanJobs(g: map<string, seq<Job>>, order: seq<string>)
    requires forall k :: 0 <= k < |order| ==> order[k] in g && g[order[k]] != []
    ensures |order| <= SumSizes(g, order)
  {
    if order != [] {
      FewerCompaniesThanJobs(g, order[..|order| - 1]);
    }
  }

  /** `groupByCompany`: one list per company, filled in input order, and the order of its keys. */
  method GroupByCompany(jobs: seq<Job>) returns (grouped: map<string, seq<Job>>, order: seq<string>)
    ensures grouped == Grouped(jobs) && order == CompanyOrder(jobs)
    ensures forall c :: c in grouped <==> HasCompany(jobs, c)
    ensures forall c :: c in grouped ==> grouped[c] == Bucket(jobs, c) && grouped[c] != []
    ensures forall c :: c in order <==> c in grouped
    ensures Distinct(order)
    ensures forall k :: 0 <= k < |order| ==> order[k] in grouped
    ensures SumSizes(grouped, order) == |jobs|
  {
    grouped, order := map[], [];
    for i := 0 to |jobs|
      invariant grouped == Grouped(jobs[..i]) && order == CompanyOrder(jobs[..i])
    {
      var job := jobs[i];
      OrderListsKeys(jobs[..i]);
      assert jobs[..i + 1][..i] == jobs[..i];
      if job.company !in grouped {
        grouped := grouped[job.company := []];
        order := order + [job.company];
      }
      grouped := grouped[job.company := grouped[job.company] + [job]];
    }
    assert jobs[..|jobs|] == jobs;
    GroupedKeys(jobs);
    GroupedBuckets(jobs);
    OrderListsKeys(jobs);
    GroupedSizes(jobs);
  }

  // ------------------------------------------------------------------ the reminder

  predicate IsNotApplied(j: Job) { j.applied.No? }

  /** `data.filter(j => j.applied === 'no').length`. */
  function NotAppliedCount(jobs: seq<Job>): nat {
    Seqs.Count(IsNotApplied, jobs)
  }

  /** The reminder's counter is the `not_applied` entry of the status counts. */
  lemma NotAppliedIsStatusCount(jobs: seq<Job>)
    ensures NotAppliedCount(jobs) == |JobStatus.FilterJobsByStatus(jobs, JobStatus.FilterName.NotApplied)|
  {
    Seqs.FilterEquivalent(IsNotApplied, j => JobStatus.Keeps(JobStatus.FilterName.NotApplied, j), jobs);
  }

  /** Every application is either applied or not: the card's counter and the reminder's add up. */
  lemma AppliedOrNot(jobs: seq<Job>)
    ensures Seqs.Count(CompanyCard.IsApplied, jobs) + NotAppliedCount(jobs) == |jobs|
  {
    Seqs.FilterSplit(CompanyCard.IsApplied, IsNotApplied, jobs);
  }

  /**
   * The reminder about applications not yet sent. `dismissed` is the page's
   * flag, which is written through to the stored `reminder_dismissed`;
   * `lastCount` is the stored `last_not_applied_count`, if any.
   */
  class Reminder {
    var dismissed: bool
    var lastCount: Option<nat>

    /** The state as read back from storage when the page opens. */
    constructor(storedDismissed: bool, storedCount: Option<nat>)
      ensures dismissed == storedDismissed && lastCount == storedCount
    {
      dismissed := storedDismissed;
      lastCount := storedCount;
    }

    /**
     * After the jobs are fetched: the reminder comes back exactly when a
     * count was stored and there are now more applications not yet sent;
     * the current count is stored either way.
     */
    method OnJobsLoaded(jobs: seq<Job>)
      modifies this
      ensures lastCount == Some(NotAppliedCount(jobs))
      ensures dismissed == if old(lastCount).Some? && old(lastCount).value < NotAppliedCount(jobs) then false else old(dismissed)
    {
      var notAppliedCount := NotAppliedCount(jobs);
      if lastCount.Some? && lastCount.value < notAppliedCount {
        dismissed := false;
      }
      lastCount := Some(notAppliedCount);
    }

    /** The close button of the reminder. */
    method Dismiss()
      modifies this
      ensures dismissed && lastCount == old(lastCount)
      ensures forall counts, f :: JobStatus.FilterName.NotApplied in counts ==> !Shown(counts, f)
    {
      dismissed := true;
    }

    /** The reminder shows when something is not yet applied for, no filter is chosen, and it is not dismissed. */
    predicate Shown(counts: map<JobStatus.FilterName, int>, statusFilter: JobStatus.FilterName)
      reads this
      requires JobStatus.FilterName.NotApplied in counts
    {
      counts[JobStatus.FilterName.NotApplied] > 0 && statusFilter.All? && !dismissed
    }
  }

  // ------------------------------------------------------------------ the PDF export

  datatype PdfSummary = PdfSummary(totalCompanies: nat, totalApplications: nat, appliedCount: nat)

  /** The summary line of the export, for the applications currently listed. */
  method SummaryOf(filtered: seq<Job>) returns (summary: PdfSummary)
    ensures summary.totalCompanies == |Grouped(filtered).Keys|
    ensures summary.totalApplications == |filtered|
    ensures summary.appliedCount == |Seqs.Filter(CompanyCard.IsApplied, filtered)|
    ensures summary.appliedCount <= summary.totalApplications
    ensures summary.totalCompanies <= summary.totalApplications
    ensures summary.totalCompanies == 0 <==> filtered == []
  {
    var grouped, order := GroupByCompany(filtered);
    KeysCounted(grouped, order);
    FewerCompaniesThanJobs(grouped, order);
    if filtered != [] {
      assert filtered[0].company in grouped by {
        assert HasCompany(filtered, filtered[0].company);
      }
    }
    summary := PdfSummary(|order|, |filtered|, Seqs.Count(CompanyCard.IsApplied, filtered));
  }

  /** A distinct list of exactly the keys of a map has as many entries as the map. */
  lemma KeysCounted(g: map<string, seq<Job>>, order: seq<string>)
    requires Distinct(order) && forall c :: c in order <==> c in g
    ensures |order| == |g.Keys|
  {
    DistinctCounted(order, g.Keys);
  }

  /** A distinct list of exactly the members of a set has as many entries as the set. */
  lemma {:induction false} DistinctCounted(order: seq<string>, keys: set<string>)
    requires Distinct(order) && forall c :: c in order <==> c in keys
    ensures |order| == |keys|
  {
    if order != [] {
      var init, c := order[..|order| - 1], order[|order| - 1];
      assert forall d :: d in init <==> d in keys - {c} by {
        forall d ensures d in init <==> d in keys - {c} {
          if d in init {
            var k :| 0 <= k < |init| && init[k] == d;
            assert order[k] == d;
          }
          if d in order && d != c {
            var k :| 0 <= k < |order| && order[k] == d;
            assert init[k] == d;
          }
        }
      }
      DistinctCounted(init, keys - {c});
    } else {
      assert keys == {};
    }
  }

  /** The column headers of the export, in order. */
  const PdfHeader: seq<string> :=
    ["Company", "Role", "Date", "Applied", "Opening", "Referral", "Shortlisted", "Interviews", "Selected"]

  function AppliedCell(v: Applied): string {
    if v.Yes? then "Yes" else "No"
  }

  function OpeningCell(v: OpeningType): string {
    if v.Public? then "Public" else "Internal"
  }

  function ReferralCell(v: Referral): string {
    match v case Yes => "Yes" case No => "No" case NotAvailable => "N/A"
  }

  function ShortlistedCell(v: Shortlisted): string {
    match v case Yes => "Yes" case No => "No" case Waiting => "Waiting"
  }

  /** An interview round that ended without selection is exported as `Waiting`. */
  function InterviewsCell(v: Interviews): string {
    match v case Done => "Done" case InProcess => "In Progress" case _ => "Waiting"
  }

  function SelectedCell(v: Selected): string {
    match v case Offer => "Offer" case No => "No" case Waiting => "Waiting"
  }

  /** One row of the export table, one cell per header. */
  function PdfRow(job: Job): (row: seq<string>)
    ensures |row| == |PdfHeader|
  {
    [job.company, job.role, job.date, AppliedCell(job.applied), OpeningCell(job.openingType),
     ReferralCell(job.referral), ShortlistedCell(job.shortlisted), InterviewsCell(job.interviews),
     SelectedCell(job.selected)]
  }

  /** `filteredJobs.map(...)`: one row per listed application, in order. */
  function PdfRows(jobs: seq<Job>): (rows: seq<seq<string>>)
    ensures |rows| == |jobs|
    ensures forall k :: 0 <= k < |jobs| ==> rows[k] == PdfRow(jobs[k])
  {
    if jobs == [] then [] else [PdfRow(jobs[0])] + PdfRows(jobs[1..])
  }

  /**
   * A row determines the company, role, date and every status of the
   * application, except that an interview round still waiting and one that
   * ended in `not_selected` give the same row.
   */
  lemma PdfRowDetermines(j1: Job, j2: Job)
    requires PdfRow(j1) == PdfRow(j2)
    ensures j1.company == j2.company && j1.role == j2.role && j1.date == j2.date
    ensures j1.applied == j2.applied && j1.openingType == j2.openingType && j1.referral == j2.referral
    ensures j1.shortlisted == j2.shortlisted && j1.selected == j2.selected
    ensures j1.interviews == j2.interviews ||
      ((j1.interviews.Waiting? || j1.interviews.NotSelected?) && (j2.interviews.Waiting? || j2.interviews.NotSelected?))
  {
    var r1, r2 := PdfRow(j1), PdfRow(j2);
    assert r1[3] == r2[3] && r1[4] == r2[4] && r1[5] == r2[5];
    assert r1[6] == r2[6] && r1[7] == r2[7] && r1[8] == r2[8];
  }

  /** The two interview values that the export does not tell apart. */
  lemma PdfRowMergesWaitingAndNotSelected(job: Job)
    ensures PdfRow(job.(interviews := Interviews.Waiting)) == PdfRow(job.(interviews := Interviews.NotSelected))
  {
  }

  // ------------------------------------------------------------------ the page's derived data

  /**
   * What the page shows for a filter choice: the filtered list, its grouping
   * by company, and the status counts, which are over all applications
   * whatever the filter.
   */
  method PageView(jobs: seq<Job>, statusFilter: JobStatus.FilterName)
    returns (filtered: seq<Job>, grouped: map<string, seq<Job>>, order: seq<string>, counts: map<JobStatus.FilterName, int>)
    ensures filtered == JobStatus.FilterJobsByStatus(jobs, statusFilter)
    ensures grouped == Grouped(filtered) && order == CompanyOrder(filtered)
    ensures forall c :: c in grouped ==> forall k :: 0 <= k < |grouped[c]| ==>
      grouped[c][k].company == c && (statusFilter.All? || JobStatus.Keeps(statusFilter, grouped[c][k]))
    ensures counts.Keys == JobStatus.CountKeys
    ensures forall f :: JobStatus.IsStatusFilter(f) ==> counts[f] == |JobStatus.FilterJobsByStatus(jobs, f)|
    ensures forall k :: 0 <= k < |order| ==> order[k] in grouped
    ensures JobStatus.IsStatusFilter(statusFilter) ==> SumSizes(grouped, order) == counts[statusFilter]
  {
    filtered := JobStatus.FilterJobsByStatus(jobs, statusFilter);
    grouped, order := GroupByCompany(filtered);
    counts := JobStatus.GetStatusCounts(jobs);
    forall c | c in grouped
      ensures forall k :: 0 <= k < |grouped[c]| ==>
        grouped[c][k].company == c && (statusFilter.All? || JobStatus.Keeps(statusFilter, grouped[c][k]))
    {
      Seqs.FilterMembership(InCompany(c), filtered);
      assert forall k :: 0 <= k < |grouped[c]| ==> grouped[c][k] in filtered;
    }
  }
}
