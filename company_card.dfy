/**
 * The company card: the applications to one company, summarised by the
 * most recent one (found by sorting a copy of the list by date, newest
 * first), its overall status, and three counters.
 */
module CompanyCard {
  import opened Jobs
  import JobStatus
  import JobTable
  import Seqs

  // ------------------------------------------------------------------ dates

  /**
   * `a` sorts before `b` as text, code unit by code unit. On the ISO
   * `yyyy-MM-dd` dates the application stores this is chronological order,
   * which is what comparing `new Date(...)` values gives.
   */
  predicate DateBefore(a: string, b: string) {
    if a == [] then b != []
    else b != [] && (a[0] < b[0] || (a[0] == b[0] && DateBefore(a[1..], b[1..])))
  }

  lemma {:induction false} DateBeforeIrreflexive(a: string)
    ensures !DateBefore(a, a)
  {
    if a != [] {
      DateBeforeIrreflexive(a[1..]);
    }
  }

  lemma {:induction false} DateBeforeTransitive(a: string, b: string, c: string)
    requires DateBefore(a, b) && DateBefore(b, c)
    ensures DateBefore(a, c)
  {
    if a != [] && a[0] == b[0] && b[0] == c[0] {
      DateBeforeTransitive(a[1..], b[1..], c[1..]);
    }
  }

  /** Two different dates are ordered one way or the other. */
  lemma {:induction false} DateBeforeTotal(a: string, b: string)
    ensures a == b || DateBefore(a, b) || DateBefore(b, a)
  {
    if a != [] && b != [] && a[0] == b[0] {
      DateBeforeTotal(a[1..], b[1..]);
      if a[1..] == b[1..] {
        assert a == [a[0]] + a[1..] && b == [b[0]] + b[1..];
      }
    }
  }

  lemma DateBeforeAsymmetric(a: string, b: string)
    requires DateBefore(a, b)
    ensures !DateBefore(b, a)
  {
    if DateBefore(b, a) {
      DateBeforeTransitive(a, b, a);
      DateBeforeIrreflexive(a);
    }
  }

  /** "Not earlier than" is transitive. */
  lemma NotBeforeTransitive(a: string, b: string, c: string)
    requires !DateBefore(a, b) && !DateBefore(b, c)
    ensures !DateBefore(a, c)
  {
    DateBeforeTotal(a, b);
    DateBeforeTotal(b, c);
    if DateBefore(a, c) && a != b && b != c {
      DateBeforeTransitive(b, a, c);
    }
  }

  /** Earlier than something not earlier than `c` means earlier than `c`. */
  lemma BeforeNotBefore(a: string, b: string, c: string)
    requires !DateBefore(b, a) && DateBefore(b, c)
    ensures DateBefore(a, c)
  {
    DateBeforeTotal(a, b);
    if a != b {
      DateBeforeTransitive(a, b, c);
    }
  }

  // ------------------------------------------------------------------ the sort

  /** Newest first: no job is earlier than a job after it. */
  ghost predicate NewestFirst(s: seq<Job>) {
    forall i, j :: 0 <= i < j < |s| ==> !DateBefore(s[i].date, s[j].date)
  }

  /**
   * Insertion of `x` into a list sorted newest first: `x` moves in front of
   * the strictly earlier jobs at the end, and stays behind jobs of its own
   * date, which keeps the sort stable.
   */
  function Insert(s: seq<Job>, x: Job): (r: seq<Job>)
    ensures multiset(r) == multiset(s) + multiset{x}
    ensures |r| == |s| + 1
  {
    if s != [] && DateBefore(s[|s| - 1].date, x.date) then
      var init := s[..|s| - 1];
      assert s == init + [s[|s| - 1]];
      Insert(init, x) + [s[|s| - 1]]
    else s + [x]
  }

  /** The stable sort by date, newest first, of `s`: each job inserted in input order. */
  function SortByDate(s: seq<Job>): (r: seq<Job>)
    ensures multiset(r) == multiset(s)
    ensures |r| == |s|
  {
    if s == [] then []
    else
      var init := s[..|s| - 1];
      assert s == init + [s[|s| - 1]];
      Insert(SortByDate(init), s[|s| - 1])
  }

  lemma {:induction false} InsertNewestFirst(s: seq<Job>, x: Job)
    requires NewestFirst(s)
    ensures NewestFirst(Insert(s, x))
  {
    if s != [] && DateBefore(s[|s| - 1].date, x.date) {
      var init, last := s[..|s| - 1], s[|s| - 1];
      InsertNewestFirst(init, x);
      var t := Insert(init, x);
      DateBeforeAsymmetric(last.date, x.date);
      forall k | 0 <= k < |t| ensures !DateBefore(t[k].date, last.date) {
        InsertMember(init, x, t[k]);
      }
      AppendNewestFirst(t, last);
    } else if s != [] {
      var last := s[|s| - 1];
      forall k | 0 <= k < |s| ensures !DateBefore(s[k].date, x.date) {
        if k < |s| - 1 {
          NotBeforeTransitive(s[k].date, last.date, x.date);
        }
      }
      AppendNewestFirst(s, x);
    } else {
      AppendNewestFirst(s, x);
    }
  }

  /** A job of `Insert(s, x)` is `x` or a job of `s`. */
  lemma InsertMember(s: seq<Job>, x: Job, e: Job)
    requires e in Insert(s, x)
    ensures e == x || e in s
  {
    assert e in multiset(Insert(s, x));
  }

  /** Appending a job no later than every job of a newest-first list keeps it newest first. */
  lemma AppendNewestFirst(t: seq<Job>, last: Job)
    requires NewestFirst(t)
    requires forall k :: 0 <= k < |t| ==> !DateBefore(t[k].date, last.date)
    ensures NewestFirst(t + [last])
  {
  }

  /** The sorted copy is sorted newest first, and holds the same jobs as often as the input. */
  lemma {:induction false} SortByDateSorts(s: seq<Job>)
    ensures NewestFirst(SortByDate(s))
    ensures multiset(SortByDate(s)) == multiset(s) && |SortByDate(s)| == |s|
  {
    if s != [] {
      var init := s[..|s| - 1];
      SortByDateSorts(init);
      InsertNewestFirst(SortByDate(init), s[|s| - 1]);
    }
  }

  // ------------------------------------------------------------------ the latest job

  /**
   * The position of the latest application: no job is dated after it, and
   * every job before it in the list is strictly earlier (the first of the
   * latest date wins).
   */
  function LatestIndex(s: seq<Job>): (i: nat)
    requires s != []
    ensures i < |s|
    ensures forall k :: 0 <= k < |s| ==> !DateBefore(s[i].date, s[k].date)
    ensures forall k :: 0 <= k < i ==> DateBefore(s[k].date, s[i].date)
  {
    if |s| == 1 then DateBeforeIrreflexive(s[0].date); 0
    else
      var init := s[..|s| - 1];
      var m := LatestIndex(init);
      var x := s[|s| - 1];
      if DateBefore(s[m].date, x.date) then
        LatestStepNew(s, m);
        |s| - 1
      else
        DateBeforeIrreflexive(s[m].date);
        m
  }

  /** When the last job is later than the best of the others, it is the latest. */
  lemma LatestStepNew(s: seq<Job>, m: nat)
    requires 1 < |s| && m < |s| - 1
    requires forall k :: 0 <= k < |s| - 1 ==> !DateBefore(s[m].date, s[k].date)
    requires DateBefore(s[m].date, s[|s| - 1].date)
    ensures forall k :: 0 <= k < |s| ==> !DateBefore(s[|s| - 1].date, s[k].date)
    ensures forall k :: 0 <= k < |s| - 1 ==> DateBefore(s[k].date, s[|s| - 1].date)
  {
    var x := s[|s| - 1].date;
    DateBeforeIrreflexive(x);
    forall k | 0 <= k < |s| - 1 ensures DateBefore(s[k].date, x) && !DateBefore(x, s[k].date) {
      BeforeNotBefore(s[k].date, s[m].date, x);
      DateBeforeAsymmetric(s[k].date, x);
    }
  }

  /** The head of an insertion: `x` when it is later than the head, else the old head. */
  lemma {:induction false} InsertHead(s: seq<Job>, x: Job)
    requires s != [] && NewestFirst(s)
    ensures Insert(s, x)[0] == if DateBefore(s[0].date, x.date) then x else s[0]
  {
    var init, last := s[..|s| - 1], s[|s| - 1];
    if |s| == 1 {
      assert init == [];
    } else if DateBefore(last.date, x.date) {
      InsertHead(init, x);
    } else {
      NotBeforeTransitive(s[0].date, last.date, x.date);
    }
  }

  /** The head of the sorted copy is the latest application. */
  lemma {:induction false} SortHead(s: seq<Job>)
    requires s != []
    ensures SortByDate(s)[0] == s[LatestIndex(s)]
  {
    var init := s[..|s| - 1];
    if |s| == 1 {
      assert init == [];
    } else {
      SortHead(init);
      SortByDateSorts(init);
      InsertHead(SortByDate(init), s[|s| - 1]);
    }
  }

  /** `[...jobs].sort((a, b) => new Date(b.date) - new Date(a.date))`, on the copy in `a`. */
  method SortByDateInPlace(a: array<Job>)
    modifies a
    ensures a[..] == SortByDate(old(a[..]))
  {
    ghost var original := a[..];
    SortedEnds(original);
    for i := 0 to a.Length
      invariant a[..] == SortByDate(original[..i]) + original[i..]
    {
      SortedPrefixGrows(original, i);
      InsertAt(a, i, SortByDate(original[..i]), original[i], original[i + 1..]);
    }
  }

  /** Before the outer loop nothing is sorted; after it, everything is. */
  lemma SortedEnds(original: seq<Job>)
    ensures SortByDate(original[..0]) + original[0..] == original
    ensures SortByDate(original[..|original|]) + original[|original|..] == SortByDate(original)
  {
    assert original[..0] == [] && original[0..] == original;
    assert original[..|original|] == original && original[|original|..] == [];
  }

  /** The next step of the outer loop: one more job of the input is sorted in. */
  lemma SortedPrefixGrows(original: seq<Job>, i: nat)
    requires i < |original|
    ensures |SortByDate(original[..i])| == i
    ensures SortByDate(original[..i]) + original[i..] ==
      SortByDate(original[..i]) + [original[i]] + original[i + 1..]
    ensures SortByDate(original[..i + 1]) == Insert(SortByDate(original[..i]), original[i])
  {
    Seqs.PrefixSnoc(original, i);
    SortByDateSnoc(original[..i], original[i]);
  }

  /** Sorting one more job is inserting it into the sorted list. */
  lemma SortByDateSnoc(s: seq<Job>, x: Job)
    ensures SortByDate(s + [x]) == Insert(SortByDate(s), x)
  {
    var t := s + [x];
    assert t[..|t| - 1] == s;
  }

  /**
   * Moves the job at `i` into the sorted prefix before it, shifting the
   * strictly earlier jobs one place up (`s`, `x` and `rest` name the
   * prefix, the job and the suffix).
   */
  method InsertAt(a: array<Job>, i: nat, ghost s: seq<Job>, ghost x: Job, ghost rest: seq<Job>)
    requires i < a.Length && |s| == i
    requires a[..] == s + [x] + rest
    modifies a
    ensures a[..] == Insert(s, x) + rest
  {
    var y := a[i];
    assert y == (s + [x] + rest)[i];
    var j := i;
    ghost var hole := y;
    assert s[..j] == s && s[j..] == [];
    assert a[..] == s[..j] + [hole] + s[j..] + rest;
    while j > 0 && DateBefore(a[j - 1].date, y.date)
      invariant 0 <= j <= i
      invariant a[..] == s[..j] + [hole] + s[j..] + rest
      invariant Insert(s, x) == Insert(s[..j], x) + s[j..]
    {
      assert a[j - 1] == s[j - 1];
      InsertStep(s, j, x);
      Shift(s, j, hole, rest);
      a[j] := a[j - 1];
      hole := s[j - 1];
      j := j - 1;
    }
    a[j] := y;
    Place(s, j, hole, x, rest);
    InsertDone(s, j, x);
  }

  /** The array contents after one shift. */
  lemma Shift(s: seq<Job>, j: nat, hole: Job, rest: seq<Job>)
    requires 0 < j <= |s|
    ensures (s[..j] + [hole] + s[j..] + rest)[j := s[j - 1]] == s[..j - 1] + [s[j - 1]] + s[j - 1..] + rest
  {
    assert s[..j] == s[..j - 1] + [s[j - 1]];
    assert s[j - 1..] == [s[j - 1]] + s[j..];
  }

  /** The array contents once `x` is placed. */
  lemma Place(s: seq<Job>, j: nat, hole: Job, x: Job, rest: seq<Job>)
    requires j <= |s|
    ensures (s[..j] + [hole] + s[j..] + rest)[j := x] == (s[..j] + [x] + s[j..]) + rest
  {
  }

  /** One shift of the inner loop. */
  lemma InsertStep(s: seq<Job>, j: nat, x: Job)
    requires 0 < j <= |s| && DateBefore(s[j - 1].date, x.date)
    ensures Insert(s[..j], x) + s[j..] == Insert(s[..j - 1], x) + s[j - 1..]
  {
    assert s[..j][..j - 1] == s[..j - 1];
    assert s[..j] == s[..j - 1] + [s[j - 1]];
    assert Insert(s[..j], x) == Insert(s[..j - 1], x) + [s[j - 1]];
    assert s[j - 1..] == [s[j - 1]] + s[j..];
  }

  /** Where the inner loop stops, `x` goes. */
  lemma InsertDone(s: seq<Job>, j: nat, x: Job)
    requires j <= |s|
    requires j == 0 || !DateBefore(s[j - 1].date, x.date)
    ensures Insert(s[..j], x) + s[j..] == s[..j] + [x] + s[j..]
  {
  }

  /** `sortedJobs[0]`: the latest application, sorting a copy and leaving `jobs` as it is. */
  method LatestJob(jobs: seq<Job>) returns (latest: Job)
    requires jobs != []
    ensures latest == jobs[LatestIndex(jobs)]
  {
    var sorted := new Job[|jobs|](k requires 0 <= k < |jobs| => jobs[k]);
    assert sorted[..] == jobs;
    SortByDateInPlace(sorted);
    SortByDateSorts(jobs);
    latest := sorted[0];
    SortHead(jobs);
  }

  // ------------------------------------------------------------------ the counters

  predicate IsApplied(j: Job) { j.applied.Yes? }
  predicate HasOffer(j: Job) { j.selected.Offer? }
  predicate IsInterviewing(j: Job) { j.interviews.InProcess? || j.interviews.Done? }
  predicate IsGotOffer(j: Job) { JobStatus.GetJobStatus(j).name == JobStatus.Label.GotOffer }

  /** The card's summary of one company's applications. */
  datatype Card = Card(
    latest: Job,
    status: JobStatus.Status,
    applications: nat,
    appliedCount: nat,
    offerCount: nat,
    interviewingCount: nat)

  /** Builds the card for the applications `jobs` to one company; the card dereferences the latest job, so there must be one. */
  method CompanyCardOf(jobs: seq<Job>) returns (card: Card)
    requires jobs != []
    ensures card.latest == jobs[LatestIndex(jobs)]
    ensures card.status == JobStatus.GetJobStatus(card.latest)
    ensures card.applications == |jobs|
    ensures card.appliedCount == |Seqs.Filter(IsApplied, jobs)| <= |jobs|
    ensures card.offerCount == |Seqs.Filter(HasOffer, jobs)| <= |jobs|
    ensures card.interviewingCount == |Seqs.Filter(IsInterviewing, jobs)| <= |jobs|
  {
    var latest := LatestJob(jobs);
    card := Card(latest, JobStatus.GetJobStatus(latest), |jobs|,
                 Seqs.Count(IsApplied, jobs), Seqs.Count(HasOffer, jobs), Seqs.Count(IsInterviewing, jobs));
  }

  /** Every application labelled "Got Offer" is counted as applied, as interviewed and as an offer. */
  lemma GotOfferIsCountedEverywhere(jobs: seq<Job>)
    ensures Seqs.Count(IsGotOffer, jobs) <= Seqs.Count(IsApplied, jobs)
    ensures Seqs.Count(IsGotOffer, jobs) <= Seqs.Count(HasOffer, jobs)
    ensures Seqs.Count(IsGotOffer, jobs) <= Seqs.Count(IsInterviewing, jobs)
  {
    Seqs.CountMonotone(IsGotOffer, IsApplied, jobs);
    Seqs.CountMonotone(IsGotOffer, HasOffer, jobs);
    Seqs.CountMonotone(IsGotOffer, IsInterviewing, jobs);
  }

  // ------------------------------------------------------------------ badge colours

  /** `getStatusBadgeColor`: the badge classes for a status value. */
  function GetStatusBadgeColor(status: string): string {
    if status == "yes" || status == "done" || status == "offer" then "bg-success/20 text-success"
    else if status == "no" || status == "rejected" then "bg-destructive/20 text-destructive"
    else if status == "in_process" then "bg-warning/20 text-warning"
    else "bg-muted/20 text-muted-foreground"
  }

  /** The badge of each class of status values: green for a positive outcome, red for a negative one, amber in process, muted otherwise. */
  lemma BadgeColours(status: string)
    ensures status == "yes" || status == "done" || status == "offer" ==>
      GetStatusBadgeColor(status) == "bg-success/20 text-success"
    ensures status == "no" || status == "rejected" ==>
      GetStatusBadgeColor(status) == "bg-destructive/20 text-destructive"
    ensures status == "in_process" ==> GetStatusBadgeColor(status) == "bg-warning/20 text-warning"
    ensures JobTable.GetStatusColor(status) == "text-muted-foreground" <==>
      GetStatusBadgeColor(status) == "bg-muted/20 text-muted-foreground"
  {
  }

  /** The badge and the table colour sort status values into the same four classes. */
  lemma BadgeAgreesWithTable(a: string, b: string)
    ensures GetStatusBadgeColor(a) == GetStatusBadgeColor(b) <==> JobTable.GetStatusColor(a) == JobTable.GetStatusColor(b)
  {
  }
}
